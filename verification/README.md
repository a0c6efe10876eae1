# ion-java binary reader, struct and symbol-table writers, in Dafny

This project models five parts of ion-java, the Java implementation of the
Amazon Ion data format:

- **The raw binary reader** (`IonReaderBinaryRawX`). It has a byte source with
  a per-container byte budget (`_local_remaining`, with `NO_LIMIT` as
  Integer.MIN_VALUE). It keeps a packed container stack and scans with the
  `has_next_helper_raw` state machine: version markers, annotation wrappers,
  field ids and value headers. It steps into and out of containers. It also
  holds the payload decoders: VarUInt, VarInt, UInt, decimal, timestamp and
  UTF-8 string.
- **The binary system reader** (`IonReaderBinarySystemX`). It has the value
  cache (`ValueVariant`) and `prepare_value`, `load_scalar_value`
  (int/long/BigInteger, float, symbol id), the typed getters, symbol-text
  resolution, field names and annotations.
- **The lite DOM struct** (`IonStructLite`). Its named children are
  optionally indexed by a map from each name to the position of its last
  child, with a duplicate count. The model covers `add`, `get`,
  `containsKey`, `put`, both `remove`s, `removeAll`, `retainAll`, `clear`,
  `doClone`, `hashCode` and the map maintenance they share.
- **The symbol-ID allocation of the managed binary writer**
  (`IonManagedBinaryWriter`). This covers the FLAT and DELEGATE import-context
  builders, the `ImportedSymbolContext` constructor, `intern`,
  `setFieldName`, `flush` and `finish`.
- **The two local-symbol-table declaration state machines**, `LSTWriter` and
  `PrivateWriterLSTFactory`. They share one state record, `stepOut` and
  `writeInt`.

Java exceptions become `Err` values of a `Result`. The LST writers return an
`Outcome` that carries the state a throw leaves behind. Java's 32- and
64-bit wrap-around is written out explicitly (`JavaInts.ToInt`, `ToLong`).
Where the model's lemmas show that the Java code misbehaves on some input, the
project contains two members:

- an `...AsWritten` member that follows the code;
- a corrected member that the rest of the model uses.

See "## Findings".

Source paths below are relative to the repository root.

## Model

| member | source | states |
|---|---|---|
| ByteSource.RawRoundTrip | src/com/amazon/ion/impl/IonReaderBinaryRawX.java:43 | a budget stored as `_local_remaining` and read back is the same budget; Integer.MIN_VALUE is exactly `NO_LIMIT` |
| ByteSource.Read | src/com/amazon/ion/impl/IonReaderBinaryRawX.java:641-650 | one byte, and the source one further on, exactly when a byte is available within input and budget; otherwise EOF at the same position |
| ByteSource.ReadInto | src/com/amazon/ion/impl/IonReaderBinaryRawX.java:651-673 | exactly `len` bytes; a negative length is an illegal argument; when `len` bytes are available they are the input at the read position and the source advances by `len`; otherwise the bytes read are the input's and the rest of the array stays 0 |
| ByteSource.IsEof | src/com/amazon/ion/impl/IonReaderBinaryRawX.java:674-680 | a positive budget is never at the end, a spent one always is, an unlimited one is at the end exactly when the input is |
| ByteSource.Skip | src/com/amazon/ion/impl/IonReaderBinaryRawX.java:685-706 | a negative length is an illegal argument; an unexpected end exactly when a limited budget is spent and the length exceeds it; otherwise the skip succeeds without passing the end of input: unlimited, it moves `len` on; limited, it moves `len` on and charges `len` when the budget covers it, and otherwise moves only as far as the budget and leaves it at 0 (the short skip) |
| ByteSource.RestoreBudgetAsWritten | src/com/amazon/ion/impl/IonReaderBinaryRawX.java:1019 | `save_limit = _local_remaining - len` with Java wrap-around: on `NO_LIMIT` it yields the limit 2^31 - len |
| ByteSource.RestoreBudget | src/com/amazon/ion/impl/IonReaderBinaryRawX.java:1019 | corrected restore: an unlimited budget stays unlimited; a limited one loses `len` |
| ByteSource.RestoreAfterPayload | src/com/amazon/ion/impl/IonReaderBinaryRawX.java:1134-1151 | reading a payload under a budget of its own length and then restoring leaves the reader where reading `len` bytes directly under the outer budget would |
| ContainerStack.Pack | src/com/amazon/ion/impl/IonReaderBinaryRawX.java:103-120 | a Java long holding the frame, with a non-negative type in its low 32 bits, beside the container end position |
| ContainerStack.PackRoundTrip | src/com/amazon/ion/impl/IonReaderBinaryRawX.java:121-140 | unpacking gives back exactly the parent type and budget packed, `NO_LIMIT` included, for every non-negative type id |
| ContainerStack.NegativeTypeHidesBudget | src/com/amazon/ion/impl/IonReaderBinaryRawX.java:99-116 | since `TYPE_MASK` widens to 64 one-bits, a negative type id would overwrite the budget, which then reads back as -1 |
| ContainerStack.PushPop | src/com/amazon/ion/impl/IonReaderBinaryRawX.java:103-144 | pushing then popping leaves the stack unchanged, and the top frame in between reads back as pushed |
| ContainerStack.Push | src/com/amazon/ion/impl/IonReaderBinaryRawX.java:103-120 | the stack grows by one frame; for a parent type 0 to 16 the frame keeps the position, and its type and remaining budget unpack to exactly the values pushed |
| ContainerStack.Top | src/com/amazon/ion/impl/IonReaderBinaryRawX.java:121-140 | the top frame: popping and putting it back gives the stack |
| ContainerStack.TopType | src/com/amazon/ion/impl/IonReaderBinaryRawX.java:126-134 | the type read back is one whose 32-bit wrap of the packed field is 0 to 16; any other low word is an invalid parent type |
| ContainerStack.TopRemaining | src/com/amazon/ion/impl/IonReaderBinaryRawX.java:135-140 | the high word of the packed field, rounded down: an int `n` with `n * 2^32 <= field < (n + 1) * 2^32` |
| ContainerStack.Pop | src/com/amazon/ion/impl/IonReaderBinaryRawX.java:141-144 | one frame fewer, and it was the top one: the rest followed by the old top is the old stack |
| VarInts.ReadVarUIntAsWritten | src/com/amazon/ion/impl/IonReaderBinaryRawX.java:938-968 | the code's reader: the value is the consumed run's seven-bit groups accumulated in a Java int, so a five-byte run wraps modulo 2^32; the run is one to five bytes ending at the first stop bit; identical to the corrected reader wherever that succeeds, with its errors otherwise; an overflow exactly when five bytes carry no stop bit |
| VarInts.ReadVarUIntOrEofAsWritten | src/com/amazon/ion/impl/IonReaderBinaryRawX.java:904-936 | the code's reader with EOF as the int -1: end of input before the first byte is -1; otherwise the consumed run's groups wrapped in a Java int; its errors are the corrected reader's, and wherever that succeeds it gives the same value (`None` as -1) and position |
| VarInts.WrappedFieldIdReadsAsEof | src/com/amazon/ion/impl/IonReaderBinaryRawX.java:904-936 | the field id `0F 7F 7F 7F FF` (2^32 - 1) reads as -1, the EOF sentinel, as written; the corrected reader reports an overflow |
| VarInts.ReadVarUInt | src/com/amazon/ion/impl/IonReaderBinaryRawX.java:938-968 | corrected reader: an int in 0..Integer.MAX_VALUE read from one to five bytes, which are consumed; no input is an unexpected end, the only other error an overflow |
| VarInts.ReadVarUIntValue | src/com/amazon/ion/impl/IonReaderBinaryRawX.java:938-968 | the value read is the seven-bit groups of the run, big end first, and exactly the run is consumed |
| VarInts.VarUIntRoundTrip | src/com/amazon/ion/impl/IonReaderBinaryRawX.java:938-968 | the minimal encoding of any int-sized value decodes back to it, consuming exactly its bytes |
| VarInts.ReadVarUIntOrEof | src/com/amazon/ion/impl/IonReaderBinaryRawX.java:904-936 | end of input before the first byte is `None`, not an error; otherwise it is exactly `ReadVarUInt` |
| VarInts.ReadVarIntAsWritten | src/com/amazon/ion/impl/IonReaderBinaryRawX.java:765-809 | the code's reader: the consumed run's magnitude, negated when the sign bit is set, each step wrapped in a Java int; the run is one to five bytes; identical to the corrected reader wherever that succeeds, with its errors otherwise; where this succeeds and the corrected reader fails, that failure is an overflow |
| VarInts.WrappedVarIntReadsAsZero | src/com/amazon/ion/impl/IonReaderBinaryRawX.java:765-809 | `10 00 00 00 80` (2^32) reads as 0 as written; the corrected reader reports an overflow |
| VarInts.ReadVarInt | src/com/amazon/ion/impl/IonReaderBinaryRawX.java:765-809 | corrected reader: a Java int read from one to five bytes, which are consumed; no input is an unexpected end, the only other error an overflow |
| VarInts.ReadVarIntValue | src/com/amazon/ion/impl/IonReaderBinaryRawX.java:765-809 | the value is the run's magnitude negated when the sign bit is set; a signed value outside the int range is an overflow |
| VarInts.MinIntVarInt | src/com/amazon/ion/impl/IonReaderBinaryRawX.java:765-809 | `48 00 00 00 80` (negative 2^31) is Integer.MIN_VALUE in both readers |
| VarInts.VarIntRoundTrip | src/com/amazon/ion/impl/IonReaderBinaryRawX.java:765-809 | any sign and magnitude up to Integer.MAX_VALUE encodes and reads back to the signed value; negative zero reads as 0 |
| VarInts.ReadVarIntegerAsWritten | src/com/amazon/ion/impl/IonReaderBinaryRawX.java:851-902 | the code's reader: null exactly when the sign bit is set and the magnitude wraps to 0 in a Java int, otherwise the wrapped signed value of the consumed run; identical to the corrected reader wherever that succeeds, with its errors otherwise; where this succeeds and the corrected reader fails, that failure is an overflow |
| VarInts.WrappedVarIntegerReadsAsNull | src/com/amazon/ion/impl/IonReaderBinaryRawX.java:851-902 | `50 00 00 00 80` (negative 2^32) reads as null, the unknown offset, as written; the corrected reader reports an overflow |
| VarInts.WrappedVarIntAt | src/com/amazon/ion/impl/IonReaderBinaryRawX.java:765-902 | at any position `10 00 00 00 80` (2^32) and `50 00 00 00 80` (negative 2^32) consume five bytes and read as the int 0 as written, and as 0 and null respectively as a VarInteger; the corrected readers report an overflow |
| VarInts.WrappedVarUIntAt | src/com/amazon/ion/impl/IonReaderBinaryRawX.java:938-968 | at any position `10 00 00 00 80` (2^32) consumes five bytes and reads as 0 as written; the corrected reader reports an overflow |
| VarInts.ReadVarInteger | src/com/amazon/ion/impl/IonReaderBinaryRawX.java:851-902 | succeeds exactly when `ReadVarInt` does, at the same position; null only where `ReadVarInt` reads 0, otherwise its value |
| VarInts.ReadVarIntegerValue | src/com/amazon/ion/impl/IonReaderBinaryRawX.java:851-902 | the result is null exactly for negative zero, the sign set and a zero magnitude |
| VarInts.ReadULong | src/com/amazon/ion/impl/IonReaderBinaryRawX.java:708-745 | a big-endian unsigned field of 0 to 8 bytes in a Java long, so eight bytes with the high bit set are negative; more than 8 bytes is an error |
| VarInts.ULongBound | src/com/amazon/ion/impl/IonReaderBinaryRawX.java:708-745 | below eight bytes the long read is the field's unsigned value, below 256^len |
| VarInts.ULongRoundTrip | src/com/amazon/ion/impl/IonReaderBinaryRawX.java:708-745 | the bytes of a value read back as that value narrowed to a long, and exactly up to seven bytes |
| Decimals.FromParts | src/com/amazon/ion/impl/IonReaderBinaryRawX.java:1006-1060 | the scale is the exponent negated as a Java int (Integer.MIN_VALUE negates to itself), the coefficient the signed-magnitude bytes |
| Decimals.ReadDecimalAsWritten | src/com/amazon/ion/impl/IonReaderBinaryRawX.java:1006-1060 | the code's `readDecimal`: zero for an empty payload; wherever the corrected read succeeds, the same decimal at the same position, and the very same result under a limited outer budget; it fails only where the corrected read fails; on success the outer budget is restored by the wrapping subtraction |
| Decimals.ReadPayloadAsWritten | src/com/amazon/ion/impl/IonReaderBinaryRawX.java:1021-1057 | the payload read with the code's wrapping exponent reader: identical to the corrected payload read wherever that succeeds, failing only where it fails, and leaving a limited budget |
| Decimals.WrappedExponentReadsAsZero | src/com/amazon/ion/impl/IonReaderBinaryRawX.java:1019-1057 | a top-level decimal whose payload is only the exponent `10 00 00 00 80` (2^32) reads as 0d0 as written, with the limit 2^31 - 5 left behind; the corrected read reports an overflow |
| Decimals.TopLevelDecimalLeavesLimit | src/com/amazon/ion/impl/IonReaderBinaryRawX.java:1019-1057 | a top-level `0d0` (bytes `51 80`) leaves a limit of 2^31 - 1 behind as written; the corrected read leaves no limit |
| Decimals.ReadDecimal | src/com/amazon/ion/impl/IonReaderBinaryRawX.java:1006-1060 | corrected `readDecimal`: zero for an empty payload, the payload read under its own budget, and the outer budget less `len` restored |
| Decimals.DecimalRoundTrip | src/com/amazon/ion/impl/IonReaderBinaryRawX.java:1006-1060 | the encoding of any decimal reads back as it, consuming exactly the payload and charging the outer budget for it |
| Timestamps.ReadUnits | src/com/amazon/ion/impl/IonReaderBinaryRawX.java:1082-1104 | the fields after the year read under the limit: the position moves only forward, by no more than the limit, which is charged exactly what was read; the fields read so far always make a precision the code can reach (0, 1, 2, 3, 5 or 6 fields, hour and minute together) |
| Timestamps.ReadUnitsShape | src/com/amazon/ion/impl/IonReaderBinaryRawX.java:1082-1115 | the fields after the year stop early only on a spent budget, never between hour and minute, and never past the seconds |
| Timestamps.ReadUnitsAsWritten | src/com/amazon/ion/impl/IonReaderBinaryRawX.java:1082-1115 | the fields read with the code's wrapping VarUInt reader: the number of fields is a legal one (never between hour and minute, never past the seconds), and the budget is charged for exactly the bytes consumed, never more than it held |
| Timestamps.UnitsAgree | src/com/amazon/ion/impl/IonReaderBinaryRawX.java:1082-1115 | wherever the corrected field reader succeeds, the code's reader reads the same field values and ends at the same place; the code's reader fails only where the corrected one does |
| Timestamps.ReadFractionAsWritten | src/com/amazon/ion/impl/IonReaderBinaryRawX.java:1105-1110 | the fraction read with the code's `readDecimal`: identical to the corrected one wherever that succeeds, failing only where it fails; absent before the seconds or on a spent budget, and when present it takes the rest of the budget |
| Timestamps.ReadFraction | src/com/amazon/ion/impl/IonReaderBinaryRawX.java:1105-1110 | no fraction unless all six fields came before it and bytes remain; a fraction read takes the rest of the payload, leaving a limit of 0 |
| Timestamps.ReadTimestampAsWritten | src/com/amazon/ion/impl/IonReaderBinaryRawX.java:1062-1125 | the code's `readTimestamp`: null below length 1; otherwise a timestamp with a fraction exactly at fraction precision and a zero date without precision, and the outer budget restored by the wrapping subtraction, so a top-level timestamp leaves the limit 2^31 - len |
| Timestamps.TimestampAgrees | src/com/amazon/ion/impl/IonReaderBinaryRawX.java:1062-1125 | wherever the corrected read succeeds, the code's read gives the same timestamp at the same position, and the very same result under a limited outer budget; the code's read fails only where the corrected one does |
| Timestamps.WrappedOffsetReadsAsUnknown | src/com/amazon/ion/impl/IonReaderBinaryRawX.java:1074-1085 | the top-level payload `50 00 00 00 80 81` reads as year 1 with an unknown offset as written, the offset -2^32 wrapping to negative zero; the corrected read reports an overflow |
| Timestamps.ReadTimestamp | src/com/amazon/ion/impl/IonReaderBinaryRawX.java:1062-1125 | corrected `readTimestamp`: null below length 1; otherwise a timestamp with a fraction exactly at fraction precision and a zero date without precision; the outer budget less `len` restored |
| Timestamps.TimestampRoundTrip | src/com/amazon/ion/impl/IonReaderBinaryRawX.java:1062-1125 | the payload of any offset, fields and fraction reads back as them, with the precision the last field fixes, consuming exactly the payload |
| Timestamps.BudgetRestored | src/com/amazon/ion/impl/IonReaderBinaryRawX.java:1074-1120 | reading the whole payload under its own budget and restoring is reading `len` bytes under the outer budget |
| Utf8Strings.ReadUnicodeScalar | src/com/amazon/ion/impl/IonReaderBinaryRawX.java:1156-1203 | EOF exactly at the end of input; otherwise a scalar up to 0x10FFFF read from one to four bytes (four for a supplementary one), which are consumed; the only error is an encoding error |
| Utf8Strings.ScalarRoundTrip | src/com/amazon/ion/impl/IonReaderBinaryRawX.java:1156-1203 | the UTF-8 form (section 3 of RFC 3629) of every scalar reads back as that scalar |
| Utf8Strings.InvalidLeadByte | src/com/amazon/ion/impl/IonReaderBinaryRawX.java:1167-1201 | a lead byte that starts no sequence is an encoding error |
| Utf8Strings.MissingContinuation | src/com/amazon/ion/impl/IonReaderBinaryRawX.java:1168-1195 | the first byte in a sequence that is not a continuation byte is an encoding error, past the end of input included |
| Utf8Strings.AboveMaxScalar | src/com/amazon/ion/impl/IonReaderBinaryRawX.java:1185-1198 | a well-formed four-byte sequence above 0x10FFFF is an encoding error |
| Utf8Strings.Utf16RoundTrip | src/com/amazon/ion/impl/IonReaderBinaryRawX.java:1142-1148 | a scalar is recovered from its Java chars: itself below 0x10000, a surrogate pair above |
| Utf8Strings.ReadChars | src/com/amazon/ion/impl/IonReaderBinaryRawX.java:1137-1150 | the loop reads until the limit is spent: if it read at all it moved exactly the limit forward, otherwise the source is unchanged; it adds no more chars than bytes; its only errors are bad UTF-8 and an early end |
| Utf8Strings.StringPayload | src/com/amazon/ion/impl/IonReaderBinaryRawX.java:1127-1155 | no more chars than `len` bytes; the enclosing limit is restored less `len`; an empty payload reads as the empty string |
| Utf8Strings.StringPayloadAsWritten | src/com/amazon/ion/impl/IonReaderBinaryRawX.java:1127-1155 | the code's `readString`, with the wrapping budget restore |
| Utf8Strings.TopLevelStringLeavesLimit | src/com/amazon/ion/impl/IonReaderBinaryRawX.java:1134-1151 | a top-level string leaves a limit of 2^31 - len behind as written; the corrected read leaves none |
| Utf8Strings.ReadString | src/com/amazon/ion/impl/IonReaderBinaryRawX.java:1127-1155 | corrected `readString` with its loop: never more chars than payload bytes; the outer budget less `len` restored |
| Utf8Strings.StringRoundTrip | src/com/amazon/ion/impl/IonReaderBinaryRawX.java:1127-1155 | the UTF-8 form of any run of scalars reads back as their Java chars, ending just past it with the outer budget charged |
| Utf8Strings.ShortInput | src/com/amazon/ion/impl/IonReaderBinaryRawX.java:1139-1141 | an end of input inside the payload is an unexpected end |
| RawCursor.Init | src/com/amazon/ion/impl/IonReaderBinaryRawX.java:83-95 | a fresh reader satisfies the reader invariant at top level, with a scan due and not at the end |
| RawCursor.IonTypeOf | src/com/amazon/ion/impl/IonReaderBinaryRawX.java:394-446 | each type code maps to its Ion type; the annotation-wrapper code has none, code 15 is unrecognized |
| RawCursor.ReadHeader | src/com/amazon/ion/impl/IonReaderBinaryRawX.java:341-393 | no header exactly at the end of input; otherwise a type code 0 to 15 and a length in the int range, the position moved forward; the only errors are an early end, an overflowing length and the two bad nibbles |
| RawCursor.ReadTypeId | src/com/amazon/ion/impl/IonReaderBinaryRawX.java:341-393 | `read_type_id` changes only the source, the current type id and length, the null and bool flags and (to after-value) the state; at the end of input only the source moves |
| RawCursor.DecodeHeader | src/com/amazon/ion/impl/IonReaderBinaryRawX.java:341-393 | the header is read forward in the same input, yielding a type code below 16 and a length in the int range; the errors are an unexpected end, an overflow, or an invalid null or bool nibble |
| RawCursor.DescriptorRoundTrip | src/com/amazon/ion/impl/IonReaderBinaryRawX.java:341-393 | every header reads back as itself, and the reader ends just past it |
| RawCursor.NullNibble | src/com/amazon/ion/impl/IonReaderBinaryRawX.java:348-356 | the null type code accepts only the null nibble, unless the nibble asks for a VarUInt length |
| RawCursor.BoolNibble | src/com/amazon/ion/impl/IonReaderBinaryRawX.java:366-377 | a boolean nibble other than 0, 1, 14 or 15 is an error |
| RawCursor.ClearValue | src/com/amazon/ion/impl/IonReaderBinaryRawX.java:325-335 | type id -1 and no type; the length is kept |
| RawCursor.VersionMarker | src/com/amazon/ion/impl/IonReaderBinaryRawX.java:213-236 | the only failure is an invalid binary image; on success the marker stands three bytes on as the symbol `$ion_1_0`, its id cached, with no field id or annotations |
| RawCursor.VersionMarkerAccepts | src/com/amazon/ion/impl/IonReaderBinaryRawX.java:213-236 | the marker is recognised exactly when its three tail bytes follow within input and budget, the reader then just past them |
| RawCursor.AnnotationWrapper | src/com/amazon/ion/impl/IonReaderBinaryRawX.java:237-263 | on success the cursor stands on a typed value with the annotation range recorded, keeping the field id |
| RawCursor.AnnotationWrapperReads | src/com/amazon/ion/impl/IonReaderBinaryRawX.java:237-263 | on a well-formed wrapper the cursor stands on the annotated value and the block's range is the one encoded |
| RawCursor.AnnotationWrapperTruncated | src/com/amazon/ion/impl/IonReaderBinaryRawX.java:237-263 | a block that ends the input or the budget leaves no value to annotate: an unexpected end |
| RawCursor.AnnotationWrapperAsWritten | src/com/amazon/ion/impl/IonReaderBinaryRawX.java:237-263 | the code's wrapper, its block length read by the wrapping reader: identical to the corrected one wherever that succeeds, failing only where it fails; on success the cursor stands on a typed value with the annotation range recorded, keeping the field id |
| RawCursor.WrappedAnnotationLengthSkipsNothing | src/com/amazon/ion/impl/IonReaderBinaryRawX.java:242-245 | a block length `10 00 00 00 80` (2^32) wraps to 0 as written: the annotation block is empty and the value header is read right after the length; the corrected wrapper reports an overflow |
| RawCursor.TypeStep | src/com/amazon/ion/impl/IonReaderBinaryRawX.java:200-266 | the `S_BEFORE_TID` step keeps the reader invariant and the container fields; it ends at EOF or on a value whose Ion type is known |
| RawCursor.TypedValue | src/com/amazon/ion/impl/IonReaderBinaryRawX.java:209-264 | whatever follows a non-EOF header, the invariant, the container fields and the EOF flag are kept and the value's Ion type is known |
| RawCursor.Step | src/com/amazon/ion/impl/IonReaderBinaryRawX.java:192-277 | one turn of the scan loop keeps the invariant and the container fields and lowers the rank of the state; until the scan stops the current value is untouched, and when it stops the reader is at EOF or on a typed value |
| RawCursor.Scan | src/com/amazon/ion/impl/IonReaderBinaryRawX.java:190-278 | the loop of `has_next_helper_raw` ends with a reader that needs no more steps, at EOF or on a typed value |
| RawCursor.FetchNext | src/com/amazon/ion/impl/IonReaderBinaryRawX.java:186-285 | the invariant and the container (stack, parent type, struct flag, input) are kept, `hasNextNeeded` is cleared, and the reader is at EOF with no type or on a typed value |
| RawCursor.FieldStep | src/com/amazon/ion/impl/IonReaderBinaryRawX.java:194-200 | on success the reader invariant holds, and either the struct's end was reached with the type untouched or the cursor stands on a typed field value |
| RawCursor.ScanSkipsPayload | src/com/amazon/ion/impl/IonReaderBinaryRawX.java:270-279 | scanning from within a value's payload skips the rest of it: it is scanning from just past it |
| RawCursor.HasNext | src/com/amazon/ion/impl/IonReaderBinaryRawX.java:146-157 | scans only when the previous value was consumed, answers whether a value was found, and keeps the container stack |
| RawCursor.HasNextIdempotent | src/com/amazon/ion/impl/IonReaderBinaryRawX.java:146-157 | a second `hasNext` answers the same and changes nothing |
| RawCursor.Next | src/com/amazon/ion/impl/IonReaderBinaryRawX.java:158-177 | yields the next value's type, none at the end, and leaves the value marked consumed |
| RawCursor.HasNextThenNext | src/com/amazon/ion/impl/IonReaderBinaryRawX.java:146-177 | `hasNext` does not consume: `next` after it yields what `next` alone would |
| RawCursor.NextReadsHeader | src/com/amazon/ion/impl/IonReaderBinaryRawX.java:158-177 | on a value header `next` yields its type code's type, with the header's length, past the value already for null and bool |
| RawCursor.GetType | src/com/amazon/ion/impl/IonReaderBinaryRawX.java:621-627 | refused until the scan that finds the value has run, so it answers after `hasNext` and refuses after `next` |
| RawCursor.StepIn | src/com/amazon/ion/impl/IonReaderBinaryRawX.java:447-482 | only a struct, list or sexp can be entered; the frame records the container end and the enclosing budget less the length (not below 0, `NO_LIMIT` kept); the body is read under its length |
| RawCursor.Leave | src/com/amazon/ion/impl/IonReaderBinaryRawX.java:489-507 | the frame is popped, the parent type restored with the matching struct flag and state, EOF cleared and a new scan requested |
| RawCursor.SkipLong | src/com/amazon/ion/impl/IonReaderBinaryRawX.java:508-523 | the skip loop in steps of `MAX_SKIP`: unlimited, it lands at `pos + distance` (or the end of data); within a limit that covers the distance, it lands there with the limit charged; its only error is an early end |
| RawCursor.StepOutAsWritten | src/com/amazon/ion/impl/IonReaderBinaryRawX.java:483-536 | the code's `stepOut`: illegal exactly at top level; a position past the frame's end is an invalid position; on success one frame is popped; a skip of up to MAX_SKIP is charged to the restored parent budget: an unexpected end exactly when that budget is spent, otherwise it lands at the container end when the budget covers the distance and only as far as the budget, leaving it at 0, when it does not |
| RawCursor.StepOutChargesTwice | src/com/amazon/ion/impl/IonReaderBinaryRawX.java:495-522 | stepping into a container that fills its parent's budget and straight out: as written the skip fails with an unexpected end; corrected it lands at the container end |
| RawCursor.StepOutShortensParent | src/com/amazon/ion/impl/IonReaderBinaryRawX.java:495-522 | stepping into a container that is not the last thing in its limited parent and straight out: as written the parent loses the length twice, and the reader stops short of the container end when the parent held less than twice the length; corrected it lands at the container end having lost the length once |
| RawCursor.StepOutAtEnd | src/com/amazon/ion/impl/IonReaderBinaryRawX.java:495-522 | when the container was read to its end, both versions agree |
| RawCursor.StepOut | src/com/amazon/ion/impl/IonReaderBinaryRawX.java:483-536 | corrected `stepOut`: illegal at top level, a position past the frame's end is an invalid position, otherwise the frame is popped and the cursor lands at the container end |
| RawCursor.StepInThenOut | src/com/amazon/ion/impl/IonReaderBinaryRawX.java:447-536 | whatever happened inside, stepping in and out lands just past the container, at the original depth and parent, with the enclosing budget less its length |
| SystemReader.UnsignedMagnitude | src/com/amazon/ion/impl/IonReaderBinarySystemX.java:133-146 | `unsignedLongToBigInteger` reads a long as its unsigned 64-bit magnitude, times the sign |
| SystemReader.UnsignedLongToBigInteger | src/com/amazon/ion/impl/IonReaderBinarySystemX.java:133-146 | the long read as an unsigned 64-bit magnitude, times the sign |
| SystemReader.ReadBigInteger | src/com/amazon/ion/impl/IonReaderBinaryRawX.java:747-763 | the payload bytes as a magnitude with the given sign, zero for an empty payload |
| SystemReader.LoadInt | src/com/amazon/ion/impl/IonReaderBinarySystemX.java:183-211 | some integer representation, read forward in the same input; up to eight bytes it succeeds exactly when the payload is available |
| SystemReader.LoadIntValue | src/com/amazon/ion/impl/IonReaderBinarySystemX.java:183-211 | whatever the representation, the integer is the payload's magnitude with the type code's sign, and the payload is consumed |
| SystemReader.LoadFloat | src/com/amazon/ion/impl/IonReaderBinarySystemX.java:212-222 | an empty payload is 0.0, eight bytes are the double's bits, any other length is refused |
| SystemReader.LoadSymbolId | src/com/amazon/ion/impl/IonReaderBinarySystemX.java:235-249 | a loaded id is an int in 1..Integer.MAX_VALUE |
| SystemReader.SymbolIdRange | src/com/amazon/ion/impl/IonReaderBinarySystemX.java:235-249 | a symbol payload loads exactly when its value narrowed to a long is a positive int; longer than 8 bytes or empty is refused |
| SystemReader.LoadScalarValue | src/com/amazon/ion/impl/IonReaderBinarySystemX.java:151-257 | at most one representation, fitting the value's type; a non-null one leaves the value read; none or a null leaves the reader as it was |
| SystemReader.LoadKinds | src/com/amazon/ion/impl/IonReaderBinarySystemX.java:151-257 | nulls load without reading, containers and lobs load nothing, a zero-length timestamp loads as absent |
| SystemReader.PrepareValue | src/com/amazon/ion/impl/IonReaderBinarySystemX.java:86-111 | decodes only into an empty cache, then converts if the asked type is missing; afterwards the cache holds the asked type and every earlier representation unchanged |
| ScalarValues.Convert | src/com/amazon/ion/impl/IonReaderBinarySystemX.java:100-110 | succeeds exactly when the cache is non-empty and the authoritative value converts to the asked type; the cache grows by that one value, the earlier ones kept, and no other type's lookup changes; a refusal is an illegal state |
| SystemReader.PrepareDecodesOnce | src/com/amazon/ion/impl/IonReaderBinarySystemX.java:86-131 | preparing is idempotent, and a prepared value is never decoded again |
| SystemReader.PrepareDecoded | src/com/amazon/ion/impl/IonReaderBinarySystemX.java:86-111 | a value decoded as the asked type needs no conversion, whatever the table |
| SystemReader.PrepareRefuses | src/com/amazon/ion/impl/IonReaderBinarySystemX.java:100-107 | a representation that cannot be converted to the asked type is an illegal state |
| SystemReader.BooleanValue | src/com/amazon/ion/impl/IonReaderBinarySystemX.java:269-273 | the boolean returned is the one cached afterwards |
| SystemReader.IntValue | src/com/amazon/ion/impl/IonReaderBinarySystemX.java:281-292 | refused unless int, decimal or float; the int returned is the one cached afterwards |
| SystemReader.LongValue | src/com/amazon/ion/impl/IonReaderBinarySystemX.java:294-305 | refused unless int, decimal or float; the long returned is the one cached afterwards |
| SystemReader.LongValueOfInt | src/com/amazon/ion/impl/IonReaderBinarySystemX.java:294-305 | on a fresh int whose magnitude fits, the long is the magnitude with the sign, whatever the conversion table |
| SystemReader.BigIntegerValue | src/com/amazon/ion/impl/IonReaderBinarySystemX.java:307-321 | refused unless int, decimal or float; null for a null; otherwise the cached big integer |
| SystemReader.BigIntegerValueOfInt | src/com/amazon/ion/impl/IonReaderBinarySystemX.java:307-321 | on a fresh wide int the big integer is the magnitude with the sign, whatever the conversion table |
| SystemReader.DecimalValue | src/com/amazon/ion/impl/IonReaderBinarySystemX.java:332-339 | null for a null; otherwise the cached decimal |
| SystemReader.TimestampValue | src/com/amazon/ion/impl/IonReaderBinarySystemX.java:350-357 | null for a null; otherwise the cached timestamp |
| SystemReader.SymbolId | src/com/amazon/ion/impl/IonReaderBinarySystemX.java:394-401 | refused unless a symbol, none for a null symbol; otherwise the cached id, with no text cached by the way |
| SystemReader.SymbolIdOfPayload | src/com/amazon/ion/impl/IonReaderBinarySystemX.java:394-401 | a fresh symbol's id is its payload's, whatever the conversion table |
| SystemReader.StringValue | src/com/amazon/ion/impl/IonReaderBinarySystemX.java:361-380 | the reader invariant and the table are kept, and a returned text leaves text cached |
| SystemReader.SymbolText | src/com/amazon/ion/impl/IonReaderBinarySystemX.java:361-380 | a symbol resolves exactly when the table knows its id, to the table's text, which is then cached |
| SystemReader.StringValueCached | src/com/amazon/ion/impl/IonReaderBinarySystemX.java:361-380 | once the text is cached, asking again reads and looks up nothing |
| SystemReader.SymbolValue | src/com/amazon/ion/impl/IonReaderBinarySystemX.java:382-392 | refused unless a symbol, none for a null; otherwise the id with its text when known |
| SystemReader.GetFieldName | src/com/amazon/ion/impl/IonReaderBinarySystemX.java:403-416 | none for the unknown field id; otherwise the table's text of the id, which must be known |
| SystemReader.GetFieldNameSymbol | src/com/amazon/ion/impl/IonReaderBinarySystemX.java:418-424 | none for the unknown field id; otherwise the id with its text, agreeing with `getFieldName` |
| SystemReader.AnnotationIds | src/com/amazon/ion/impl/IonReaderBinaryRawX.java:286-312 | every id is in the int range; an empty block has none; the only errors are an unexpected end and an overflow |
| SystemReader.AnnotationIdsRoundTrip | src/com/amazon/ion/impl/IonReaderBinaryRawX.java:286-312 | a block written as the ids' VarUInts reads back as those ids |
| SystemReader.LoadAnnotations | src/com/amazon/ion/impl/IonReaderBinaryRawX.java:286-312 | the current value's annotation ids, refused unless the value is ready |
| SystemReader.GetTypeAnnotations | src/com/amazon/ion/impl/IonReaderBinarySystemX.java:432-449 | the texts of the annotations in order; the first unknown id is an unknown-symbol error |
| SystemReader.GetTypeAnnotationSymbols | src/com/amazon/ion/impl/IonReaderBinarySystemX.java:63-83 | every annotation id, with its text when the table knows it |
| SystemReader.AnnotationsAgree | src/com/amazon/ion/impl/IonReaderBinarySystemX.java:63-83 | the texts resolve exactly when every annotation symbol has its text, and they are then those texts |
| SystemReader.SysNext | src/com/amazon/ion/impl/IonReaderBinaryRawX.java:186-190 | the raw `next`, with the cache cleared whenever a new value is scanned |
| SystemReader.NextForgets | src/com/amazon/ion/impl/IonReaderBinaryRawX.java:186-190 | after `next` finds an ordinary value the cache is empty, so the first getter decodes the new payload |
| SystemReader.SysStepIn | src/com/amazon/ion/impl/IonReaderBinaryRawX.java:447-482 | the raw `stepIn` with the cache emptied |
| SystemReader.SysHasNext | src/com/amazon/ion/impl/IonReaderBinaryRawX.java:146-157 | the raw `hasNext` with the symbol table kept; when it scans, the value cache is emptied, otherwise nothing changes |
| SystemReader.SysStepOut | src/com/amazon/ion/impl/IonReaderBinaryRawX.java:483-536 | the raw `stepOut`, failing exactly when it fails, with every other field kept |
| SystemReader.MarkerSymbolId | src/com/amazon/ion/impl/IonReaderBinaryRawX.java:222-226 | after the version marker its id `$ion_1_0` comes from the cache, without touching the input |
| StructLite.LastBelow | src/com/amazon/ion/impl/lite/IonStructLite.java:235-246 | the last position below a bound whose child has the name, or -1 |
| StructLite.BuildMap | src/com/amazon/ion/impl/lite/IonStructLite.java:89-106 | each name maps to the position of its last child, and the count is the number of children repeating an earlier name |
| StructLite.IndexedChecks | src/com/amazon/ion/impl/lite/IonStructLite.java:216-233 | the struct's invariant implies what `debug_check_map` checks |
| StructLite.TransitionToLargeSize | src/com/amazon/ion/impl/lite/IonStructLite.java:82-87 | the map, once built, indexes the children exactly; the children do not change |
| StructLite.AddField | src/com/amazon/ion/impl/lite/IonStructLite.java:107-117 | the name enters the map at the new index unless it is already there, in which case the duplicate count grows and the entry is one of the two indexes, never smaller; no other entry changes |
| StructLite.AddKeepsIndex | src/com/amazon/ion/impl/lite/IonStructLite.java:107-117 | adding a field to an exact index keeps it exact: the name points at its last copy, and the duplicate count is the children less the distinct names |
| StructLite.Append | src/com/amazon/ion/impl/lite/IonStructLite.java:440-460 | the child goes last, and the map if built stays exact |
| StructLite.FindField | src/com/amazon/ion/impl/lite/IonStructLite.java:383-407 | -1 in a null struct; otherwise a position whose child has the name, -1 exactly when there is none |
| StructLite.FindAgrees | src/com/amazon/ion/impl/lite/IonStructLite.java:383-407 | without the map the first child with the name is found, with it the last |
| StructLite.HashCode | src/com/amazon/ion/impl/lite/IonStructLite.java:294-303 | a null struct hashes to the signature; otherwise the signature xor the fold of each child's name-and-value hash |
| StructLite.HashIgnoresOrder | src/com/amazon/ion/impl/lite/IonStructLite.java:294-303 | the hash is the same for any order of the same children |
| StructLite.Patch | src/com/amazon/ion/impl/lite/IonStructLite.java:169-195 | the keys stay; a key whose last copy is at or after the removal point points at it, the others keep their entry |
| StructLite.PatchExact | src/com/amazon/ion/impl/lite/IonStructLite.java:169-195 | patching after a removal restores the exact index when the entries below were right |
| StructLite.RemoveField | src/com/amazon/ion/impl/lite/IonStructLite.java:129-167 | only the removed name's entry can change: it is dropped or moved only when it pointed at the removed index, and then moves to an earlier child with that name; the duplicate count drops by one unless the name's entry was that index |
| StructLite.RemoveFieldExact | src/com/amazon/ion/impl/lite/IonStructLite.java:129-167 | after removing a child from an exact index the keys are the remaining names, the duplicate count is right, and every entry below the removal point is right |
| StructLite.RemoveCopies | src/com/amazon/ion/impl/lite/IonStructLite.java:118-128 | exactly the children with the name go, in order; the struct stays indexed, null-ness and map presence kept |
| StructLite.RemoveFieldCopies | src/com/amazon/ion/impl/lite/IonStructLite.java:118-128 | the name leaves the map, every other key stays |
| StructLite.RemoveValue | src/com/amazon/ion/impl/lite/IonStructLite.java:626-658 | the answer is whether the child was found; if so it leaves the list and the index stays right, otherwise nothing changes |
| StructLite.RemoveFound | src/com/amazon/ion/impl/lite/IonStructLite.java:596-624 | the child `get` finds leaves the struct and is returned; none when absent |
| StructLite.RemoveFoundCopy | src/com/amazon/ion/impl/lite/IonStructLite.java:596-624 | the last copy goes when the map is built, the first when not |
| StructLite.Scan | src/com/amazon/ion/impl/lite/IonStructLite.java:515-537 | every child with the name below the bound is dropped, with the lowest position and the copy count kept |
| StructLite.ScanWhole | src/com/amazon/ion/impl/lite/IonStructLite.java:515-537 | over the whole list the scan leaves the list without the name and counts its copies |
| StructLite.Replace | src/com/amazon/ion/impl/lite/IonStructLite.java:490-559 | every child with the name goes, then the value, unless null, is added under it |
| StructLite.PutOnly | src/com/amazon/ion/impl/lite/IonStructLite.java:490-559 | after `put` the value is the only child with the name, `get` finds it, and the other children are as before in order |
| StructLite.PutNullRemoves | src/com/amazon/ion/impl/lite/IonStructLite.java:490-559 | `put` of null only removes: `get` then finds nothing |
| StructLite.Clear | src/com/amazon/ion/impl/lite/IonStructLite.java:409-415 | no children and no map |
| StructLite.RemoveAll | src/com/amazon/ion/impl/lite/IonStructLite.java:660-677 | exactly the children with listed names go, the rest keep their order, and the answer is whether any went |
| StructLite.RetainAll | src/com/amazon/ion/impl/lite/IonStructLite.java:679-696 | exactly the children with unlisted names go, and the answer is whether any went |
| StructLite.DoClone | src/com/amazon/ion/impl/lite/IonStructLite.java:315-345 | a null struct clones to null; otherwise the children whose being listed equals `keep`, in order, with no map |
| StructLite.CloneAgreesWithRemoval | src/com/amazon/ion/impl/lite/IonStructLite.java:305-313 | `cloneAndRemove` copies what `removeAll` leaves, `cloneAndRetain` what `retainAll` leaves |
| StructLite.Add | src/com/amazon/ion/impl/lite/IonStructLite.java:440-460 | an empty name is an illegal argument (`validateFieldName`); otherwise the child is appended and the struct is no longer null |
| StructLite.Get | src/com/amazon/ion/impl/lite/IonStructLite.java:369-381 | an empty name is an illegal argument; otherwise a child with the name, none exactly when the struct is null or lacks the name |
| StructLite.ContainsKey | src/com/amazon/ion/impl/lite/IonStructLite.java:357-361 | an empty name is an illegal argument; otherwise whether a child has the name |
| StructLite.Remove | src/com/amazon/ion/impl/lite/IonStructLite.java:596-624 | an empty name is an illegal argument; otherwise one child with the name leaves, none when absent |
| StructLite.Put | src/com/amazon/ion/impl/lite/IonStructLite.java:490-559 | an empty name is an illegal argument; otherwise the children are those without the name, then the new child unless null |
| StructLite.PutThenGet | src/com/amazon/ion/impl/lite/IonStructLite.java:722-728 | for a non-empty name, `get` after `put` finds the value, after `put` of null nothing; `remove` after `add` finds a child |
| ManagedWriter.FlatAdd | src/software/amazon/ion/impl/bin/IonManagedBinaryWriter.java:327-341 | every declared text not yet mapped gets its id; null texts still take an id; the next free id is returned |
| ManagedWriter.AddSymbolTable | src/software/amazon/ion/impl/bin/IonManagedBinaryWriter.java:327-341 | the mode is kept, and the next free id is the start plus the table's contribution: FLAT its declared count, DELEGATE its max id |
| ManagedWriter.AddSymbolTableResolves | src/software/amazon/ion/impl/bin/IonManagedBinaryWriter.java:366-385 | a text already resolved resolves as before; otherwise the new table resolves it at its id shifted by the start |
| ManagedWriter.PutAll | src/software/amazon/ion/impl/bin/IonManagedBinaryWriter.java:320-323 | `put` of each name in turn: the keys are the old ones and the names; each name maps to the id of its last occurrence, and other keys keep their ids |
| ManagedWriter.CreateBuilder | src/software/amazon/ion/impl/bin/IonManagedBinaryWriter.java:315-388 | FLAT holds exactly the system names, each at the id of its last declaration; DELEGATE holds only the system table, at start id 1 |
| ManagedWriter.Resolve | src/software/amazon/ion/impl/bin/IonManagedBinaryWriter.java:345-386 | FLAT finds exactly the texts in its map; DELEGATE finds nothing exactly when no table finds the text |
| ManagedWriter.DuplicateSystemNameSplitsBuilders | src/software/amazon/ion/impl/bin/IonManagedBinaryWriter.java:315-388 | with a system table declaring "a" twice, FLAT resolves "a" to 2 (last put wins) and DELEGATE to 1 (first table match) |
| ManagedWriter.CreateBuilderResolves | src/software/amazon/ion/impl/bin/IonManagedBinaryWriter.java:315-388 | a fresh DELEGATE builder resolves every text as the system table's `find` does, to the id of its first declaration; a fresh FLAT builder does too when the system names are distinct, as they are in the Ion 1.0 system table |
| ManagedWriter.CreateBuilderBelow | src/software/amazon/ion/impl/bin/IonManagedBinaryWriter.java:315-363 | the system symbols take ids 1 to 9 |
| ManagedWriter.AddImports | src/software/amazon/ion/impl/bin/IonManagedBinaryWriter.java:405-432 | a non-shared table is refused, system tables are skipped, the rest are added in order at the next free id |
| ManagedWriter.NewContext | src/software/amazon/ion/impl/bin/IonManagedBinaryWriter.java:405-432 | the parents are the non-system imports, and locals start after the system symbols and every import's contribution |
| ManagedWriter.OnlySystemImports | src/software/amazon/ion/impl/bin/IonManagedBinaryWriter.java:434-435 | no parents, and locals start right after the system symbols |
| ManagedWriter.ImportedBelowLocals | src/software/amazon/ion/impl/bin/IonManagedBinaryWriter.java:405-432 | every imported id lies below `localSidStart`, so no local id collides with one |
| ManagedWriter.FlatAgreesWithDelegate | src/software/amazon/ion/impl/bin/IonManagedBinaryWriter.java:312-390 | when the system names are distinct and each import's max id counts its declared names, FLAT and DELEGATE resolve every text alike and start locals alike |
| ManagedWriter.InternText | src/software/amazon/ion/impl/bin/IonManagedBinaryWriter.java:570-599 | null gives null; an imported text its imported id (one above the system symbols needs a local table); a local its id; a new text the next local id unless locals are locked |
| ManagedWriter.InternIdempotent | src/software/amazon/ion/impl/bin/IonManagedBinaryWriter.java:570-599 | interning the same text again gives the same token and changes nothing |
| ManagedWriter.InternDense | src/software/amazon/ion/impl/bin/IonManagedBinaryWriter.java:570-599 | a new local takes the next id, so local ids stay dense |
| ManagedWriter.InternSeparates | src/software/amazon/ion/impl/bin/IonManagedBinaryWriter.java:570-599 | two different texts get different ids unless both are imported |
| ManagedWriter.InternToken | src/software/amazon/ion/impl/bin/IonManagedBinaryWriter.java:601-621 | a token with text is interned by it; one without is kept unless its id is beyond the current table's max id |
| ManagedWriter.InternTokenFixes | src/software/amazon/ion/impl/bin/IonManagedBinaryWriter.java:601-621 | a token `intern` handed out comes back unchanged |
| ManagedWriter.SetFieldName | src/software/amazon/ion/impl/bin/IonManagedBinaryWriter.java:629-641 | outside a struct an illegal state, a null name a null pointer, otherwise the interned token |
| ManagedWriter.Flush | src/software/amazon/ion/impl/bin/IonManagedBinaryWriter.java:811-819 | only at top level; the symbol state is unchanged |
| ManagedWriter.Finish | src/software/amazon/ion/impl/bin/IonManagedBinaryWriter.java:821-832 | only at top level; locals dropped and unlocked, imports back to the original context |
| ManagedWriter.FinishRestartsLocals | src/software/amazon/ion/impl/bin/IonManagedBinaryWriter.java:821-832 | after `finish` the first new text gets the original imports' `localSidStart` again |
| LstDeclarations.Fresh | src/software/amazon/ion/impl/LSTWriter.java:34-53 | a constructor leaves depth 0, no state, no imports or symbols, imports unseen |
| LstDeclarations.StepOut | src/software/amazon/ion/impl/LSTWriter.java:90-120 | depth drops first; it succeeds exactly in `preImp`, or in `imp` with a complete last import, which builds the table from the imports; the null state is a null dereference, an empty import list has no last element |
| LstDeclarations.StepOutSound | src/software/amazon/ion/impl/LSTWriter.java:90-120 | `stepOut` keeps the writer's invariant, never changes the table, and always throws in `imp` |
| LstDeclarations.WriteInt | src/software/amazon/ion/impl/LSTWriter.java:168-180 | in `impVer` the value narrowed to an int is the last import's version, in `impMID` its max id; elsewhere it throws |
| LstDeclarations.WriteIntSound | src/software/amazon/ion/impl/LSTWriter.java:168-180 | `writeInt` keeps the invariant: it never sets a name |
| LstDeclarations.WriteIntLastWins | src/software/amazon/ion/impl/LSTWriter.java:168-176 | a second `writeInt` in the same state overwrites the first |
| LstDeclarations.DepthRoundTrip | src/software/amazon/ion/impl/LSTWriter.java:59-120 | `stepOut` undoes the depth change of `stepIn`, wrap-around included |
| LstWriter.New | src/software/amazon/ion/impl/LSTWriter.java:34-39 | only a local table is accepted |
| LstWriter.WithSystem | src/software/amazon/ion/impl/LSTWriter.java:41-53 | the import list starts with the system table, prepended only when missing |
| LstWriter.WithSystemIdempotent | src/software/amazon/ion/impl/LSTWriter.java:41-53 | prepending happens at most once |
| LstWriter.NewFrom | src/software/amazon/ion/impl/LSTWriter.java:41-53 | a fresh writer: depth 0, no state, no imports or symbols; its table is built from the declared symbols and the imports with a system table first, prepended only when missing |
| LstWriter.StepIn | src/software/amazon/ion/impl/LSTWriter.java:59-88 | depth grows first; succeeds exactly in `preImp`, `preSym`, `imp` with a list, and `sym` on a scalar; `preImp` opens the import list and marks imports seen |
| LstWriter.SetFieldName | src/software/amazon/ion/impl/LSTWriter.java:122-142 | accepted exactly for "imports"/"symbols" in the null state and any name in `imp`, where the import fields select their state |
| LstWriter.SetFieldNameInStruct | src/software/amazon/ion/impl/LSTWriter.java:194-196 | a field name is only taken where `isInStruct` holds |
| LstWriter.WriteString | src/software/amazon/ion/impl/LSTWriter.java:144-153 | always throws; in `sym` the text is interned first |
| LstWriter.WriteSymbol | src/software/amazon/ion/impl/LSTWriter.java:155-163 | succeeds exactly for `$ion_symbol_table` in `preImp`, marking imports seen |
| LstWriter.RunSound | src/software/amazon/ion/impl/LSTWriter.java:59-180 | any call sequence keeps the invariant and the table: no import ever gets a name, so none is accepted |
| LstWriter.ReachableSound | src/software/amazon/ion/impl/LSTWriter.java:34-53 | after either constructor, no call sequence changes the table |
| WriterLstFactory.New | src/software/amazon/ion/impl/PrivateWriterLSTFactory.java:40-43 | the given table is kept, at depth 0 with no state |
| WriterLstFactory.NewFrom | src/software/amazon/ion/impl/PrivateWriterLSTFactory.java:40-48 | the import list is taken as given, with no system table prepended |
| WriterLstFactory.StepIn | src/software/amazon/ion/impl/PrivateWriterLSTFactory.java:54-82 | the `LSTWriter` transitions without marking imports seen |
| WriterLstFactory.StepInMatchesLstWriter | src/software/amazon/ion/impl/PrivateWriterLSTFactory.java:54-82 | the two `stepIn`s agree on everything but `seenImports` |
| WriterLstFactory.SetFieldName | src/software/amazon/ion/impl/PrivateWriterLSTFactory.java:116-132 | accepted exactly for "decImports"/"symbols" in the null state and any name in `imp` and `sym`, where names are ignored |
| WriterLstFactory.SetFieldNameNeverSelectsField | src/software/amazon/ion/impl/PrivateWriterLSTFactory.java:116-132 | no import field state is ever entered by a field name |
| WriterLstFactory.WriteSymbol | src/software/amazon/ion/impl/PrivateWriterLSTFactory.java:208 | always throws and changes nothing |
| WriterLstFactory.RunBlank | src/software/amazon/ion/impl/PrivateWriterLSTFactory.java:54-171 | any call sequence keeps every import blank, leaves the table alone, and `writeInt` never succeeds |
| WriterLstFactory.ReachableBlank | src/software/amazon/ion/impl/PrivateWriterLSTFactory.java:40-48 | after either constructor, no call sequence changes the table |

## Left out

- VarInts.ReadVarUInt: corrected member. Where the code wraps a five-byte value above Integer.MAX_VALUE, this reports an overflow; `ReadVarUIntAsWritten` models the wrap. `RawCursor.FieldStep`, `RawCursor.DecodeHeader`, `RawCursor.AnnotationWrapper` (the annotation block length), `Timestamps.ReadUnits` (the date and time fields) and `SystemReader.AnnotationIds` use the corrected reader, so on such input they diverge from the code (see Findings). `AnnotationWrapperAsWritten` and `ReadUnitsAsWritten` model the code's wrap there.
- VarInts.ReadVarUIntOrEof: corrected member. The field id `0F 7F 7F 7F FF` is an overflow here, but -1 (EOF) in the code.
- VarInts.ReadVarInt: corrected member. It reports an overflow where the code wraps a magnitude above 2^31, or 2^31 with a clear sign; `ReadVarIntAsWritten` states the wrapped value. `Decimals.ReadDecimal` reads its exponent with this reader, so a wrapping exponent is an overflow there; `ReadDecimalAsWritten` wraps it (`WrappedExponentReadsAsZero`).
- VarInts.ReadVarInteger: corrected member. A negative magnitude of 2^32 (`50 00 00 00 80`) is an overflow here, but null in the code. `Timestamps.ReadTimestamp` reads its offset with this reader; `ReadTimestampAsWritten` wraps it (`WrappedOffsetReadsAsUnknown`).
- RawCursor.FieldStep: reads field ids with the corrected `ReadVarUIntOrEof`, so a field id that wraps to -1 in the code is an overflow here, not the end of the struct.
- ByteSource.RestoreBudget: corrected member. At top level, `NO_LIMIT` minus `len` stays unlimited, where the code leaves the limit 2^31 - len.
- Decimals.ReadDecimal: uses the corrected `RestoreBudget`, so a top-level decimal leaves no limit, where the code leaves 2^31 - len.
- Decimals.ReadDecimal: does not model the DECIMAL128 rounding of `MathContext.DECIMAL128` (IonReaderBinaryRawX.java:1009). The coefficient is kept exact.
- Timestamps.ReadTimestamp: uses the corrected `RestoreBudget`, `ReadVarInteger` and `ReadVarUInt` (see above).
- Decimals.ReadDecimalAsWritten: where the corrected read reports an exponent overflow, only the result's shape and restored budget are stated; the wrapped decimal itself is exhibited for one input, by `WrappedExponentReadsAsZero`.
- Timestamps.ReadTimestampAsWritten: likewise, where the corrected read reports an overflow only the timestamp's shape and restored budget are stated; `WrappedOffsetReadsAsUnknown` exhibits one wrapped offset.
- Timestamps.ReadUnitsAsWritten: the wrapped field values are not stated beyond `UnitsAgree`, which covers the inputs the corrected reader accepts.
- RawCursor.AnnotationWrapper: corrected member. A block length that wraps in the code is an overflow here; `TypedValue`, and through it `Scan`, `HasNext` and `Next`, use it. `AnnotationWrapperAsWritten` models the wrap, and `WrappedAnnotationLengthSkipsNothing` exhibits it.
- Timestamps.ReadTimestamp: returns the offset, fields, precision and fraction. It does not model `Timestamp.createFromUtcFields` or its range checks.
- Utf8Strings.ReadString: uses the corrected `RestoreBudget`, so a top-level string leaves no limit.
- RawCursor.StepOut: corrected member. The skip is not charged to the restored budget; `StepOutAsWritten` models the charge.
- RawCursor.StepOut: when the invalid-position error or a skip's unexpected end is thrown, Java has already popped the frame and restored the parent (IonReaderBinaryRawX.java:495-508). The `Err` result drops that partially updated state.
- RawCursor.StepOutAsWritten: the same. Its `Err` result drops the frame already popped and the parent already restored.
- RawCursor.StepOutAsWritten: its landing position and budget are stated only when the container end is at most MAX_SKIP (Integer.MAX_VALUE - 1) bytes ahead. The loop of longer skips is modelled, but where it lands is not promised.
- ByteSource.Read: the input stream (`UnifiedInputStreamX`) is an in-memory byte sequence with a position. Buffer refills, blocking I/O and `IOException` are not modelled.
- ScalarValues.Convert: the `Conversion` parameter stands for `ValueVariant`'s `can_convert`/`cast` table. It is not part of this model.
- SystemReader.LoadFloat: keeps the double as its 64 IEEE 754 bits. It does not load a 4-byte float. `doubleValue`, `bigDecimalValue` and `dateValue` are not modelled (floating point and `java.util.Date`).
- SystemReader.PrepareValue: the `as_type == 0` shortcut of `prepare_value` is not modelled. Every getter names its type.
- StructLite.Append: the container's own growth calling `transitionToLargeSize` past a child-count threshold is not modelled. The map is built only where `TransitionToLargeSize` is called.
- StructLite.DoClone: annotations are not copied and values are not deep-cloned. A clone holds the same values.
- LstWriter.NewFrom: the Java constructor inserts the system table into the caller's own list object. The model builds a new list and does not model that aliasing side effect.
- ManagedWriter.CreateBuilder: the system symbol table is a parameter. `systemSymbols()` and the catalog are not part of this model.
- ManagedWriter.FlatAgreesWithDelegate: FLAT keeps the last `put` of a name and DELEGATE its first match, so the two are promised to agree only when the system table's names are distinct (`DuplicateSystemNameSplitsBuilders` shows a table where they differ).
- ManagedWriter.InternToken: the current symbol table's max id is a parameter (`getSymbolTable()`).
- ManagedWriter.InternText: symbol ids are unbounded integers. A Java int overflow after 2^31 local symbols is not modelled.
- ManagedWriter: the writer's constructor, its output buffers, `writeLocalSymbolTable` and the user and symbol writers are not modelled. A symbol table is abstracted to its declared texts, max id and kind.
- StructLite.Add: a null field name (a NullPointerException) and `checkForLock`/`validateNewChild` are not modelled.
- StructLite: `putAll`, the iterator's `remove`, and `containsValue` are not modelled.
- ContainerStack.Push: the growth of the container array is not modelled. The stack is a sequence.
- WriterLstFactory: its `writeString` (PrivateWriterLSTFactory.java:134-141) is not valid Java and is not modelled.
- LstDeclarations.StepOut: the local symbol table and catalog are abstracted to the table the declarations build. Building a `LocalSymbolTable` is not modelled.

## Findings

| source | as written | input that shows it | evidently intended | confidence | as-written member | corrected member |
|---|---|---|---|---|---|---|
| src/com/amazon/ion/impl/IonReaderBinaryRawX.java:765-968 | `readVarUInt`, `readVarUIntOrEOF`, `readVarInt` and `readVarInteger` accumulate up to 35 bits in a Java int, which silently wraps | field id `0F 7F 7F 7F FF` (2^32 - 1) wraps to -1, the EOF sentinel, ending the struct; VarInt `10 00 00 00 80` wraps to 0; VarInteger `50 00 00 00 80` wraps to null; in context, a decimal exponent `10 00 00 00 80` makes the decimal 0d0, a timestamp offset `50 00 00 00 80` becomes unknown, and an annotation block length `10 00 00 00 80` becomes an empty block | a value outside the int range is an overflow error | high; not executed | VarInts.ReadVarUIntOrEofAsWritten, VarInts.WrappedFieldIdReadsAsEof, VarInts.ReadVarIntAsWritten, VarInts.WrappedVarIntReadsAsZero, VarInts.ReadVarIntegerAsWritten, VarInts.WrappedVarIntegerReadsAsNull, Decimals.WrappedExponentReadsAsZero, Timestamps.WrappedOffsetReadsAsUnknown, RawCursor.WrappedAnnotationLengthSkipsNothing | VarInts.ReadVarUInt, VarInts.VarUIntRoundTrip, VarInts.ReadVarInt, VarInts.VarIntRoundTrip, VarInts.ReadVarInteger, VarInts.ReadVarIntegerValue |
| src/com/amazon/ion/impl/IonReaderBinaryRawX.java:1019 | `save_limit = _local_remaining - len` in `readDecimal`, `readTimestamp` and `readString` (also 1074 and 1134) wraps `NO_LIMIT` (Integer.MIN_VALUE) to 2^31 - len | a top-level decimal `51 80` leaves the top-level reader with a limit of 2^31 - 1 bytes instead of none | an unlimited budget stays unlimited | medium; not executed | ByteSource.RestoreBudgetAsWritten, Decimals.TopLevelDecimalLeavesLimit, Utf8Strings.TopLevelStringLeavesLimit | ByteSource.RestoreBudget, Decimals.DecimalRoundTrip, Utf8Strings.StringRoundTrip |
| src/com/amazon/ion/impl/IonReaderBinaryRawX.java:495-522 | `stepOut` restores the parent's budget, which already had the container's length taken off at `stepIn`, and then charges the skip to the container end to it | `B3 B2 21 01` (the list `[[1]]`): step into both lists and straight out of the inner one; the skip to its end fails as an unexpected end (StepOutChargesTwice). `B5 B2 21 01 21 02` (the list `[[1] 2]`): the same steps succeed but leave the outer list's budget at 0, so the trailing `2` is silently never seen (StepOutShortensParent) | the skip is not charged to the parent budget | high; not executed | RawCursor.StepOutAsWritten, RawCursor.StepOutChargesTwice, RawCursor.StepOutShortensParent | RawCursor.StepOut, RawCursor.StepInThenOut |
