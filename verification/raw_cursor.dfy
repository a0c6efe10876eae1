/** The cursor of the raw binary reader (`IonReaderBinaryRawX`): value
    headers, the `hasNext`/`next` state machine, the version marker and
    annotation wrappers, and stepping in and out of containers. */
module RawCursor {
  import opened Wrappers
  import opened JavaInts
  import opened ByteSource
  import opened VarInts
  import opened ContainerStack

  // Type codes (the high nibble of a type descriptor), `IonConstants.tid*`.
  const TID_NULL: int := 0
  const TID_BOOL: int := 1
  const TID_POS_INT: int := 2
  const TID_NEG_INT: int := 3
  const TID_SYMBOL: int := 7
  const TID_LIST: int := 11
  const TID_SEXP: int := 12
  const TID_STRUCT: int := 13
  const TID_TYPEDECL: int := 14

  // Length nibbles with a meaning of their own, `IonConstants.ln*`.
  const LN_VAR_LEN: int := 14
  const LN_NULL: int := 15

  /** `UnifiedSymbolTable.UNKNOWN_SID`: no field name. */
  const UNKNOWN_SID: int := -1

  /** The symbol id of `$ion_1_0`, which the version marker reads as. */
  const ION_1_0_SID: int := 2

  /** `IonType` of the values the cursor can stand on. */
  datatype IonType =
    | IonNull | IonBool | IonInt | IonFloat | IonDecimal | IonTimestamp | IonSymbol
    | IonString | IonClob | IonBlob | IonList | IonSexp | IonStruct

  /** The reader's `State`; `S_INVALID` is never entered and is left out. */
  datatype State = BeforeField | BeforeTid | BeforeValue | AfterValue | AtEof

  /** The fields describing the value the cursor stands on.  `annotations`
      holds the bytes of its annotation block (the range the reader keeps a
      save point on); `preset` is a value already
      put in the value cache (the version marker's symbol id). */
  datatype Current = Current(
    ionType: Option<IonType>,
    isNull: bool,
    isTrue: bool,
    fieldId: int,
    tid: int,
    len: int,
    annotations: Option<seq<byte>>,
    preset: Option<int>)

  /** The fields of the raw reader the cursor works on. */
  datatype Reader = Reader(
    src: Source,
    state: State,
    eof: bool,
    hasNextNeeded: bool,
    cur: Current,
    inStruct: bool,
    structIsOrdered: bool,
    parentTid: int,
    stack: Stack)

  /** Every frame is two Java longs and holds a type id a container can have. */
  predicate GoodFrame(f: Frame) {
    IsLong(f.position) && IsLong(f.typeLimit) && TopType(f).Ok?
  }

  /** What holds of every reader the operations below produce: an in-memory
      input of at most Integer.MAX_VALUE bytes, a length that is a
      non-negative int, a parent type id, `S_EOF` only together with `_eof`,
      a known type only together with its type code, the struct flag set
      exactly in a struct, and well-formed frames. */
  predicate Good(r: Reader) {
    Valid(r.src) && |r.src.data| <= INT_MAX && 0 <= r.cur.len <= INT_MAX &&
    (r.cur.ionType.Some? ==> Typed(r.cur)) &&
    0 <= r.parentTid <= TID_DATAGRAM && r.inStruct == (r.parentTid == TID_STRUCT) &&
    (r.state.AtEof? ==> r.eof) &&
    forall i | 0 <= i < |r.stack| :: GoodFrame(r.stack[i])
  }

  /** `init`: a reader at the start of `data`, at top level, with no budget. */
  function Init(data: seq<byte>): (r: Reader)
    requires |data| <= INT_MAX
    ensures Good(r) && r.stack == [] && r.hasNextNeeded && !r.eof
  {
    Reader(Source(data, 0, NoLimit), BeforeTid, false, true,
           Current(None, false, false, UNKNOWN_SID, 0, 0, None, None), false, false, TID_DATAGRAM, [])
  }

  /** `getDepth`. */
  function Depth(r: Reader): nat {
    |r.stack|
  }

  /** `get_iontype_from_tid`: the type of a type code; the annotation-wrapper
      code has none yet, and code 15 is unrecognized. */
  function IonTypeOf(tid: int): (r: Result<Option<IonType>>)
    ensures r.Err? <==> !(0 <= tid <= TID_TYPEDECL)
    ensures r.Err? ==> r.error == UnrecognizedType
    ensures r.Ok? ==> (r.value.None? <==> tid == TID_TYPEDECL)
    ensures r.Ok? && r.value.Some? ==> TypeCodes(r.value.value, tid)
  {
    if tid == 0 then Ok(Some(IonNull))
    else if tid == 1 then Ok(Some(IonBool))
    else if tid == 2 || tid == 3 then Ok(Some(IonInt))
    else if tid == 4 then Ok(Some(IonFloat))
    else if tid == 5 then Ok(Some(IonDecimal))
    else if tid == 6 then Ok(Some(IonTimestamp))
    else if tid == 7 then Ok(Some(IonSymbol))
    else if tid == 8 then Ok(Some(IonString))
    else if tid == 9 then Ok(Some(IonClob))
    else if tid == 10 then Ok(Some(IonBlob))
    else if tid == 11 then Ok(Some(IonList))
    else if tid == 12 then Ok(Some(IonSexp))
    else if tid == 13 then Ok(Some(IonStruct))
    else if tid == 14 then Ok(None)
    else Err(UnrecognizedType)
  }

  /** The type codes of each type, by the Ion 1.0 binary encoding: integers
      have one code per sign, every other type one code. */
  predicate TypeCodes(t: IonType, tid: int) {
    match t
    case IonNull => tid == 0
    case IonBool => tid == 1
    case IonInt => tid == 2 || tid == 3
    case IonFloat => tid == 4
    case IonDecimal => tid == 5
    case IonTimestamp => tid == 6
    case IonSymbol => tid == 7
    case IonString => tid == 8
    case IonClob => tid == 9
    case IonBlob => tid == 10
    case IonList => tid == 11
    case IonSexp => tid == 12
    case IonStruct => tid == 13
  }

  // ------------------------------------------------------- type descriptors

  /** What a type descriptor says besides its type code and length. */
  datatype Kind =
    | Plain                       // nothing more
    | IsNull                      // the null of its type
    | IsBool(value: bool)         // a boolean, its value in the length nibble
    | IsStruct(ordered: bool)     // a struct, with sorted fields when the nibble is 1

  /** A decoded value header. */
  datatype Header = Header(tid: int, len: int, kind: Kind)

  /** The descriptor byte and any VarUInt length after it, as `read_type_id`
      decodes them: the type code is the high nibble; length nibble 14 asks
      for a VarUInt length (before any other check); the null type code
      accepts only the null nibble 15, which means null for every type code;
      a boolean accepts only the false and true nibbles; a struct with
      nibble 1 is ordered and takes a VarUInt length.  `None` is the end of
      input. */
  function ReadHeader(s: Source): (r: Result<(Option<Header>, Source)>)
    requires Valid(s)
    ensures r.Ok? ==> Valid(r.value.1) && r.value.1.data == s.data && s.pos <= r.value.1.pos
    ensures r.Ok? ==> (r.value.0.None? <==> !Avail(s, 1))
    ensures r.Ok? && r.value.0.Some? ==>
              var h := r.value.0.value;
              0 <= h.tid < 16 && 0 <= h.len <= INT_MAX && s.pos < r.value.1.pos
    ensures r.Err? ==> r.error in {UnexpectedEof, IntOverflow, InvalidNullDescriptor, InvalidBoolNibble}
  {
    var (td, s1) := Read(s);
    if td < 0 then Ok((None, s1)) else DecodeHeader(td, s1)
  }

  /** The header starting with descriptor byte `td`, `s1` being the source
      just past it. */
  function DecodeHeader(td: byte, s1: Source): (r: Result<(Option<Header>, Source)>)
    requires Valid(s1)
    ensures r.Ok? ==> Valid(r.value.1) && r.value.1.data == s1.data && s1.pos <= r.value.1.pos
    ensures r.Ok? ==> r.value.0.Some? && 0 <= r.value.0.value.tid < 16 &&
                      0 <= r.value.0.value.len <= INT_MAX
    ensures r.Err? ==> r.error in {UnexpectedEof, IntOverflow, InvalidNullDescriptor, InvalidBoolNibble}
  {
    var tid := td / 16;
    var ln := td % 16;
    if ln == LN_VAR_LEN then LengthFollows(tid, Plain, s1)
    else if tid == TID_NULL then
      if ln != LN_NULL then Err(InvalidNullDescriptor) else Ok((Some(Header(tid, 0, IsNull)), s1))
    else if ln == LN_NULL then Ok((Some(Header(tid, 0, IsNull)), s1))
    else if tid == TID_BOOL then
      if ln > 1 then Err(InvalidBoolNibble) else Ok((Some(Header(tid, 0, IsBool(ln == 1))), s1))
    else if tid == TID_STRUCT && ln == 1 then LengthFollows(tid, IsStruct(true), s1)
    else if tid == TID_STRUCT then Ok((Some(Header(tid, ln, IsStruct(false))), s1))
    else Ok((Some(Header(tid, ln, Plain)), s1))
  }

  /** A header whose length is the VarUInt after the descriptor byte. */
  function LengthFollows(tid: int, kind: Kind, s1: Source): (r: Result<(Option<Header>, Source)>)
    requires Valid(s1)
    ensures r.Ok? ==> Valid(r.value.1) && r.value.1.data == s1.data && s1.pos < r.value.1.pos
    ensures r.Ok? ==> r.value.0.Some? && r.value.0.value.tid == tid && r.value.0.value.kind == kind &&
                      0 <= r.value.0.value.len <= INT_MAX
    ensures r.Err? ==> r.error in {UnexpectedEof, IntOverflow}
  {
    var (len, s2) :- ReadVarUInt(s1);
    Ok((Some(Header(tid, len, kind)), s2))
  }

  /** The reader fields `read_type_id` sets from a header: nulls and
      booleans have no payload to read, so the state moves past the value. */
  function ApplyHeader(r: Reader, h: Header): (r': Reader)
    ensures r'.cur.tid == h.tid && r'.cur.len == h.len
    ensures r'.src == r.src && r'.stack == r.stack && r'.parentTid == r.parentTid && r'.eof == r.eof
    ensures r'.inStruct == r.inStruct && r'.hasNextNeeded == r.hasNextNeeded
    ensures r'.cur.ionType == r.cur.ionType && r'.cur.fieldId == r.cur.fieldId &&
            r'.cur.annotations == r.cur.annotations && r'.cur.preset == r.cur.preset
    ensures r'.state == (if h.kind.IsNull? || h.kind.IsBool? then AfterValue else r.state)
    ensures r'.cur.isNull == (h.kind.IsNull? || r.cur.isNull)
    ensures r'.cur == HeaderCursor(r.cur, h)
  {
    var c := HeaderCursor(r.cur, h);
    match h.kind
    case Plain => r.(cur := c)
    case IsNull => r.(cur := c, state := AfterValue)
    case IsBool(_) => r.(cur := c, state := AfterValue)
    case IsStruct(ordered) => r.(cur := c, structIsOrdered := ordered)
  }

  /** The cursor fields a header sets: its type code and length, and the
      null or boolean flag it carries. */
  function HeaderCursor(c: Current, h: Header): Current {
    var c' := c.(tid := h.tid, len := h.len);
    match h.kind
    case IsNull => c'.(isNull := true)
    case IsBool(v) => c'.(isTrue := v)
    case _ => c'
  }

  /** `read_type_id`: the type code of the next header, or `EOF`. */
  function ReadTypeId(r: Reader): (res: Result<(int, Reader)>)
    requires Valid(r.src)
    ensures res.Ok? ==> var r' := res.value.1;
              Valid(r'.src) && r'.src.data == r.src.data && r.src.pos <= r'.src.pos &&
              r'.stack == r.stack && r'.parentTid == r.parentTid && r'.eof == r.eof &&
              r'.inStruct == r.inStruct && r'.hasNextNeeded == r.hasNextNeeded &&
              r'.cur.ionType == r.cur.ionType && r'.cur.fieldId == r.cur.fieldId &&
              r'.cur.annotations == r.cur.annotations && r'.cur.preset == r.cur.preset &&
              (r'.state == r.state || r'.state == AfterValue)
    ensures res.Ok? && res.value.0 != EOF ==>
              0 <= res.value.0 < 16 && res.value.1.cur.tid == res.value.0 &&
              0 <= res.value.1.cur.len <= INT_MAX
    ensures res.Ok? && res.value.0 == EOF ==> res.value.1 == r.(src := res.value.1.src)
    ensures res.Err? ==> res.error in {UnexpectedEof, IntOverflow, InvalidNullDescriptor, InvalidBoolNibble}
  {
    var (oh, s1) :- ReadHeader(r.src);
    match oh
    case None => Ok((EOF, r.(src := s1)))
    case Some(h) => Ok((h.tid, ApplyHeader(r.(src := s1), h)))
  }

  /** A value header, as the Ion 1.0 binary encoding lays it out. */
  datatype Descriptor =
    | NullOf(code: int)                 // the null of a type: length nibble 15
    | BoolOf(value: bool)               // false or true in the length nibble
    | Ordered(len: nat)                 // struct with sorted fields: nibble 1, VarUInt length
    | Sized(code: int, len: nat)        // any other value of `len` bytes

  predicate Encodable(d: Descriptor) {
    match d
    case NullOf(t) => 0 <= t < 16
    case BoolOf(_) => true
    case Ordered(len) => len <= INT_MAX
    case Sized(t, len) => 0 <= t < 16 && len <= INT_MAX
  }

  /** The short form holds the length in the nibble; it is used unless the
      nibble would mean something else for that type code. */
  predicate ShortForm(t: int, len: nat) {
    len < LN_VAR_LEN && t != TID_NULL && t != TID_BOOL && t != TID_STRUCT
  }

  /** The bytes of a value header. */
  function DescriptorBytes(d: Descriptor): (bs: seq<byte>)
    requires Encodable(d)
    ensures |bs| >= 1
  {
    match d
    case NullOf(t) => [t * 16 + LN_NULL]
    case BoolOf(v) => [TID_BOOL * 16 + (if v then 1 else 0)]
    case Ordered(len) => [TID_STRUCT * 16 + 1] + VarUIntBytes(len)
    case Sized(t, len) =>
      if ShortForm(t, len) then [t * 16 + len] else [t * 16 + LN_VAR_LEN] + VarUIntBytes(len)
  }

  /** The header a descriptor reads as. */
  function HeaderOf(d: Descriptor): Header {
    match d
    case NullOf(t) => Header(t, 0, IsNull)
    case BoolOf(v) => Header(TID_BOOL, 0, IsBool(v))
    case Ordered(len) => Header(TID_STRUCT, len, IsStruct(true))
    case Sized(t, len) => Header(t, len, Plain)
  }

  /** Every header reads back as itself, and the reader ends just past it. */
  lemma DescriptorRoundTrip(s: Source, d: Descriptor)
    requires Encodable(d) && At(s, DescriptorBytes(d))
    ensures ReadHeader(s) == Ok((Some(HeaderOf(d)), Advance(s, |DescriptorBytes(d)|)))
  {
    match d
    case NullOf(t) =>
      FirstByte(s, DescriptorBytes(d));
      NullHeader(t, Advance(s, 1));
    case BoolOf(v) =>
      FirstByte(s, DescriptorBytes(d));
      BoolHeader(v, Advance(s, 1));
    case Ordered(len) => LongRoundTrip(s, d);
    case Sized(t, len) =>
      if ShortForm(t, len) {
        ShortRoundTrip(s, t, len);
      } else {
        LongRoundTrip(s, d);
      }
  }

  /** The first byte of the bytes at the read position. */
  lemma FirstByte(s: Source, bs: seq<byte>)
    requires At(s, bs) && |bs| >= 1
    ensures Avail(s, 1) && ReadHeader(s) == DecodeHeader(bs[0], Advance(s, 1))
  {
    assert s.data[s.pos] == s.data[s.pos..s.pos + |bs|][0];
  }

  /** A header whose length fits in the nibble. */
  lemma ShortRoundTrip(s: Source, t: int, len: nat)
    requires 0 <= t < 16 && ShortForm(t, len) && At(s, DescriptorBytes(Sized(t, len)))
    ensures ReadHeader(s) == Ok((Some(Header(t, len, Plain)), Advance(s, 1)))
  {
    FirstByte(s, DescriptorBytes(Sized(t, len)));
    ShortHeader(t, len, Advance(s, 1));
  }

  /** A header whose length follows the descriptor byte as a VarUInt. */
  lemma LongRoundTrip(s: Source, d: Descriptor)
    requires Encodable(d) && At(s, DescriptorBytes(d))
    requires d.Ordered? || (d.Sized? && !ShortForm(d.code, d.len))
    ensures ReadHeader(s) == Ok((Some(HeaderOf(d)), Advance(s, |DescriptorBytes(d)|)))
  {
    var bs := DescriptorBytes(d);
    FirstByte(s, bs);
    LengthAfter(s, bs[0], d.len);
    var s1 := Advance(s, 1);
    if d.Ordered? {
      OrderedHeader(d.len, s1);
    } else {
      VarLenHeader(d.code, d.len, s1);
    }
  }

  lemma NullHeader(t: int, s1: Source)
    requires Valid(s1) && 0 <= t < 16
    ensures DecodeHeader(t * 16 + LN_NULL, s1) == Ok((Some(Header(t, 0, IsNull)), s1))
  {
    var td := t * 16 + LN_NULL;
    assert td / 16 == t && td % 16 == LN_NULL;
  }

  lemma BoolHeader(v: bool, s1: Source)
    requires Valid(s1)
    ensures DecodeHeader(TID_BOOL * 16 + (if v then 1 else 0), s1) == Ok((Some(Header(TID_BOOL, 0, IsBool(v))), s1))
  {
  }

  lemma ShortHeader(t: int, len: nat, s1: Source)
    requires Valid(s1) && 0 <= t < 16 && ShortForm(t, len)
    ensures DecodeHeader(t * 16 + len, s1) == Ok((Some(Header(t, len, Plain)), s1))
  {
    var td := t * 16 + len;
    assert td / 16 == t && td % 16 == len;
  }

  /** A type code with the VarUInt length nibble: the length follows. */
  lemma VarLenHeader(t: int, len: nat, s1: Source)
    requires Valid(s1) && 0 <= t < 16 && ReadVarUInt(s1).Ok? && ReadVarUInt(s1).value.0 == len
    ensures DecodeHeader(t * 16 + LN_VAR_LEN, s1) == Ok((Some(Header(t, len, Plain)), ReadVarUInt(s1).value.1))
  {
    var td := t * 16 + LN_VAR_LEN;
    assert td / 16 == t && td % 16 == LN_VAR_LEN;
    assert DecodeHeader(td, s1) == LengthFollows(t, Plain, s1);
  }

  /** An ordered struct, nibble 1: the length follows. */
  lemma OrderedHeader(len: nat, s1: Source)
    requires Valid(s1) && ReadVarUInt(s1).Ok? && ReadVarUInt(s1).value.0 == len
    ensures DecodeHeader(TID_STRUCT * 16 + 1, s1) ==
              Ok((Some(Header(TID_STRUCT, len, IsStruct(true))), ReadVarUInt(s1).value.1))
  {
    assert DecodeHeader(TID_STRUCT * 16 + 1, s1) == LengthFollows(TID_STRUCT, IsStruct(true), s1);
  }

  /** The VarUInt length after a descriptor byte reads back, and the source
      ends past both. */
  lemma LengthAfter(s: Source, td: byte, len: nat)
    requires len <= INT_MAX && At(s, [td] + VarUIntBytes(len))
    ensures Avail(s, 1 + |VarUIntBytes(len)|)
    ensures ReadVarUInt(Advance(s, 1)) == Ok((len, Advance(s, 1 + |VarUIntBytes(len)|)))
  {
    var v := VarUIntBytes(len);
    SplitAdvance(s, [td], v);
    VarUIntRoundTrip(Advance(s, 1), len);
    AdvanceAdd(s, 1, |v|);
  }

  /** The length nibble of a null type code must be the null nibble, unless
      it asks for a VarUInt length. */
  lemma NullNibble(s: Source)
    requires Valid(s) && Avail(s, 1)
    requires var td := s.data[s.pos]; td / 16 == TID_NULL && td % 16 != LN_NULL && td % 16 != LN_VAR_LEN
    ensures ReadHeader(s) == Err(InvalidNullDescriptor)
  {
  }

  /** A boolean with a length nibble other than 0, 1, 14 or 15 is an error. */
  lemma BoolNibble(s: Source)
    requires Valid(s) && Avail(s, 1)
    requires var td := s.data[s.pos]; td / 16 == TID_BOOL && 2 <= td % 16 < LN_VAR_LEN
    ensures ReadHeader(s) == Err(InvalidBoolNibble)
  {
  }

  // ------------------------------------------------------- hasNext / next

  /** The cursor stands on a value whose type agrees with its type code, or
      on an annotation wrapper inside a wrapper, whose type is unknown. */
  predicate Typed(c: Current) {
    0 <= c.tid <= TID_TYPEDECL &&
    match c.ionType
    case None => c.tid == TID_TYPEDECL
    case Some(t) => TypeCodes(t, c.tid)
  }

  /** `clear_value`: the cursor stands on no value; the length and the
      cached boolean are left as they were. */
  function ClearValue(c: Current): (c': Current)
    ensures c'.tid == -1 && c'.ionType.None? && c'.len == c.len
  {
    c.(ionType := None, isNull := false, fieldId := UNKNOWN_SID, tid := -1, annotations := None, preset := None)
  }

  /** The three bytes after `E0` that complete the Ion 1.0 version marker. */
  const BVM_TAIL: seq<byte> := [0x01, 0x00, 0xEA]

  /** What a step of the scan leaves alone: the input, the container the
      cursor is in, and whether a scan is due; the position only grows. */
  predicate Keeps(r: Reader, r': Reader) {
    r'.src.data == r.src.data && r.src.pos <= r'.src.pos && r'.stack == r.stack &&
    r'.parentTid == r.parentTid && r'.inStruct == r.inStruct && r'.hasNextNeeded == r.hasNextNeeded
  }

  /** The rest of a version marker, read one byte at a time; a wrong or
      missing byte is an invalid binary image.  The marker then stands as
      the symbol `$ion_1_0`: symbol type code, length 0, no annotations and
      no field name, its symbol id already in the value cache. */
  function VersionMarker(r: Reader): (res: Result<Reader>)
    requires Good(r)
    ensures res.Ok? ==> var r' := res.value;
              Good(r') && Keeps(r, r') && r'.eof == r.eof && r'.state == AfterValue &&
              r'.src.pos == r.src.pos + 3 && Typed(r'.cur) &&
              r'.cur == r.cur.(ionType := Some(IonSymbol), isNull := false, fieldId := UNKNOWN_SID,
                               tid := TID_SYMBOL, len := 0, annotations := None, preset := Some(ION_1_0_SID))
    ensures res.Err? ==> res.error == InvalidBinaryImage
  {
    var s3 :- MarkerTail(r.src);
    Ok(r.(src := s3, state := AfterValue,
          cur := r.cur.(ionType := Some(IonSymbol), isNull := false, fieldId := UNKNOWN_SID,
                        tid := TID_SYMBOL, len := 0, annotations := None, preset := Some(ION_1_0_SID))))
  }

  /** The three tail bytes of the version marker, read and compared one at a
      time. */
  function MarkerTail(s: Source): (r: Result<Source>)
    requires Valid(s)
    ensures r.Ok? ==> Valid(r.value) && r.value.data == s.data && r.value.pos == s.pos + 3
    ensures r.Err? ==> r.error == InvalidBinaryImage
  {
    var (b1, s1) := Read(s);
    if b1 != BVM_TAIL[0] then Err(InvalidBinaryImage)
    else
      var (b2, s2) := Read(s1);
      if b2 != BVM_TAIL[1] then Err(InvalidBinaryImage)
      else
        var (b3, s3) := Read(s2);
        if b3 != BVM_TAIL[2] then Err(InvalidBinaryImage)
        else Ok(s3)
  }

  /** The version marker is recognised exactly when its three tail bytes
      follow, within the input and the budget, and the reader then stands
      just past them. */
  lemma VersionMarkerAccepts(s: Source)
    requires Valid(s)
    ensures MarkerTail(s).Ok? <==> At(s, BVM_TAIL)
    ensures MarkerTail(s).Ok? ==> MarkerTail(s).value == Advance(s, 3)
  {
    if At(s, BVM_TAIL) {
      MarkerTailReads(s);
    } else if MarkerTail(s).Ok? {
      MarkerTailFound(s);
    }
  }

  lemma MarkerTailReads(s: Source)
    requires At(s, BVM_TAIL)
    ensures MarkerTail(s) == Ok(Advance(s, 3))
  {
    var w := s.data[s.pos..s.pos + 3];
    assert s.data[s.pos] == w[0] == 0x01 && s.data[s.pos + 1] == w[1] == 0x00 && s.data[s.pos + 2] == w[2] == 0xEA;
    var s1 := Advance(s, 1);
    assert Read(s) == (0x01, s1);
    var s2 := Advance(s1, 1);
    assert Read(s1) == (0x00, s2);
    assert Read(s2) == (0xEA, Advance(s2, 1));
    AdvanceAdd(s, 1, 1);
    AdvanceAdd(s, 2, 1);
  }

  lemma MarkerTailFound(s: Source)
    requires Valid(s) && MarkerTail(s).Ok?
    ensures At(s, BVM_TAIL)
  {
    var (b1, s1) := Read(s);
    assert b1 == 0x01 && Avail(s, 1) && s1 == Advance(s, 1);
    var (b2, s2) := Read(s1);
    assert b2 == 0x00 && Avail(s1, 1) && s2 == Advance(s1, 1);
    var (b3, s3) := Read(s2);
    assert b3 == 0xEA && Avail(s2, 1);
    assert Avail(s, 3);
    var w := s.data[s.pos..s.pos + 3];
    assert w[0] == 0x01 && w[1] == 0x00 && w[2] == 0xEA;
    assert w == BVM_TAIL;
  }

  /** An annotation wrapper: the VarUInt length of the annotation block,
      the block itself (skipped, its byte range kept), then the header of
      the annotated value, which must be there.  A wrapper inside a wrapper
      leaves the type unknown. */
  function AnnotationWrapper(r: Reader): (res: Result<Reader>)
    requires Good(r)
    ensures res.Ok? ==> var r' := res.value;
              Good(r') && Keeps(r, r') && r'.eof == r.eof && Typed(r'.cur) &&
              r'.cur.fieldId == r.cur.fieldId && r'.cur.preset == r.cur.preset && r'.cur.annotations.Some?
  {
    var (alen, s1) :- ReadVarUInt(r.src);
    var s2 :- Skip(s1, alen);
    AnnotatedValue(r.(src := s2, cur := r.cur.(annotations := Some(s1.data[s1.pos..s2.pos]))))
  }

  /** `AnnotationWrapper` as written: the length of the annotation block is
      read with the wrapping `readVarUInt`, so a length the corrected reader
      finds too large may wrap to a small one and be skipped. */
  function AnnotationWrapperAsWritten(r: Reader): (res: Result<Reader>)
    requires Good(r)
    ensures AnnotationWrapper(r).Ok? ==> res == AnnotationWrapper(r)
    ensures res.Err? ==> AnnotationWrapper(r).Err?
    ensures res.Ok? ==> var r' := res.value;
              Good(r') && Keeps(r, r') && r'.eof == r.eof && Typed(r'.cur) &&
              r'.cur.fieldId == r.cur.fieldId && r'.cur.preset == r.cur.preset && r'.cur.annotations.Some?
  {
    var (alen, s1) :- ReadVarUIntAsWritten(r.src);
    var s2 :- Skip(s1, alen);
    AnnotatedValue(r.(src := s2, cur := r.cur.(annotations := Some(s1.data[s1.pos..s2.pos]))))
  }

  /** The annotation length 10 00 00 00 80 is 2^32: as written it wraps to 0,
      an empty annotation block, and the header after it is read as the
      annotated value; the corrected reader reports an overflow. */
  lemma WrappedAnnotationLengthSkipsNothing(r: Reader)
    requires Good(r) && At(r.src, [0x10, 0x00, 0x00, 0x00, 0x80])
    ensures AnnotationWrapper(r) == Err(IntOverflow)
    ensures AnnotationWrapperAsWritten(r) ==
            AnnotatedValue(r.(src := Advance(r.src, 5), cur := r.cur.(annotations := Some([]))))
  {
    WrappedVarUIntAt(r.src);
    var s1 := Advance(r.src, 5);
    assert Skip(s1, 0) == Ok(s1);
    assert s1.data[s1.pos..s1.pos] == [];
  }

  /** The header after an annotation block, which must be there. */
  function AnnotatedValue(r: Reader): (res: Result<Reader>)
    requires Good(r)
    ensures res.Ok? ==> var r' := res.value;
              Good(r') && Keeps(r, r') && r.src.pos < r'.src.pos && r'.eof == r.eof && Typed(r'.cur) &&
              r'.cur.fieldId == r.cur.fieldId && r'.cur.preset == r.cur.preset &&
              r'.cur.annotations == r.cur.annotations
  {
    var (tid, r1) :- ReadTypeId(r);
    if tid == EOF then Err(UnexpectedEof)
    else
      var t :- IonTypeOf(tid);
      Ok(r1.(cur := r1.cur.(ionType := t)))
  }

  /** The `S_BEFORE_TID` step: the next header, which is the end of input,
      a version marker, an annotation wrapper or a value. */
  function TypeStep(r: Reader): (res: Result<Reader>)
    requires Good(r) && !r.eof && r.cur.tid == -1
    ensures res.Ok? ==> Good(res.value) && Keeps(r, res.value)
    ensures res.Ok? ==> if res.value.eof then res.value.cur.ionType == r.cur.ionType else Typed(res.value.cur)
  {
    var (tid, r1) :- ReadTypeId(r.(state := BeforeValue));
    if tid == EOF then Ok(r1.(state := AtEof, eof := true, cur := r1.cur.(tid := EOF)))
    else TypedValue(r1)
  }

  /** What follows a header other than the end of input. */
  function TypedValue(r: Reader): (res: Result<Reader>)
    requires Good(r) && 0 <= r.cur.tid < 16
    ensures res.Ok? ==> Good(res.value) && Keeps(r, res.value) && res.value.eof == r.eof && Typed(res.value.cur)
  {
    if r.cur.tid == TID_TYPEDECL then
      if r.cur.len == 0 then VersionMarker(r) else AnnotationWrapper(r)
    else
      var t :- IonTypeOf(r.cur.tid);
      Ok(r.(cur := r.cur.(ionType := t)))
  }

  /** The `S_BEFORE_FIELD` step: a field id, or the end of the struct, then
      the `S_BEFORE_TID` step. */
  function FieldStep(r: Reader): (res: Result<Reader>)
    requires Good(r) && !r.eof && r.cur.tid == -1
    ensures res.Ok? ==> Good(res.value) && Keeps(r, res.value)
    ensures res.Ok? ==> if res.value.eof then res.value.cur.ionType == r.cur.ionType else Typed(res.value.cur)
  {
    var (fid, s1) :- ReadVarUIntOrEof(r.src);
    match fid
    case None => Ok(r.(src := s1, eof := true, cur := r.cur.(fieldId := EOF)))
    case Some(id) => TypeStep(r.(src := s1, cur := r.cur.(fieldId := id)))
  }

  /** The state after a value: a field id comes next in a struct, a type
      descriptor elsewhere. */
  function NextState(inStruct: bool): State {
    if inStruct then BeforeField else BeforeTid
  }

  /** How far the loop of `has_next_helper_raw` still is from its exit. */
  function Rank(r: Reader): nat {
    if r.cur.tid != -1 || r.eof then 0
    else match r.state
      case BeforeValue => 2
      case AfterValue => 2
      case BeforeField => 1
      case BeforeTid => 1
      case AtEof => 0
  }

  /** One pass of the loop of `has_next_helper_raw`: each state does its
      part, a skipped value falling through to the state after it. */
  function Step(r: Reader): (res: Result<Reader>)
    requires Good(r) && Rank(r) > 0
    ensures res.Ok? ==> Good(res.value) && Keeps(r, res.value)
    ensures res.Ok? ==> Rank(res.value) < Rank(r)
    ensures res.Ok? && Rank(res.value) > 0 ==> res.value.cur == r.cur
    ensures res.Ok? && Rank(res.value) == 0 ==>
              if res.value.eof then res.value.cur.ionType == r.cur.ionType else Typed(res.value.cur)
  {
    match r.state
    case BeforeField => FieldStep(r)
    case BeforeTid => TypeStep(r)
    case BeforeValue =>
      var s1 :- Skip(r.src, r.cur.len);
      Ok(r.(src := s1, state := NextState(r.inStruct)))
    case AfterValue => Ok(r.(state := NextState(r.inStruct)))
  }

  /** The loop of `has_next_helper_raw`: steps until the cursor stands on a
      value or at the end of its container. */
  function Scan(r: Reader): (res: Result<Reader>)
    requires Good(r)
    ensures res.Ok? ==> Good(res.value) && Keeps(r, res.value)
    ensures res.Ok? ==> Rank(res.value) == 0
    ensures res.Ok? && Rank(r) > 0 ==>
              if res.value.eof then res.value.cur.ionType == r.cur.ionType else Typed(res.value.cur)
    decreases Rank(r)
  {
    if Rank(r) == 0 then Ok(r)
    else
      var r1 :- Step(r);
      Scan(r1)
  }

  /** `has_next_helper_raw`: forget the current value, scan to the next
      one, and record that the scan is done. */
  function FetchNext(r: Reader): (res: Result<Reader>)
    requires Good(r)
    ensures res.Ok? ==> Good(res.value) && !res.value.hasNextNeeded && Rank(res.value) == 0
    ensures res.Ok? ==> res.value.stack == r.stack && res.value.parentTid == r.parentTid &&
                        res.value.inStruct == r.inStruct && res.value.src.data == r.src.data
    ensures res.Ok? && !r.eof ==>
              if res.value.eof then res.value.cur.ionType.None? else Typed(res.value.cur)
  {
    var r1 :- Scan(r.(cur := ClearValue(r.cur)));
    Ok(r1.(hasNextNeeded := false))
  }

  /** `hasNext`: whether another value follows in the current container;
      the scan runs only when the previous value was consumed. */
  function HasNext(r: Reader): (res: Result<(bool, Reader)>)
    requires Good(r)
    ensures res.Ok? ==> Good(res.value.1) && res.value.0 == !res.value.1.eof
    ensures res.Ok? ==> res.value.1.stack == r.stack && res.value.1.parentTid == r.parentTid
    ensures r.eof || !r.hasNextNeeded ==> res == Ok((!r.eof, r))
  {
    if !r.eof && r.hasNextNeeded then
      var r1 :- FetchNext(r);
      Ok((!r1.eof, r1))
    else Ok((!r.eof, r))
  }

  /** `next`: the type of the next value, `None` at the end of the
      container; the value counts as consumed afterwards. */
  function Next(r: Reader): (res: Result<(Option<IonType>, Reader)>)
    requires Good(r)
    ensures res.Ok? ==> Good(res.value.1)
    ensures res.Ok? && !r.eof ==> res.value.1.hasNextNeeded
    ensures res.Ok? ==> res.value.1.stack == r.stack && res.value.1.parentTid == r.parentTid
    ensures r.eof ==> res == Ok((None, r))
  {
    if r.eof then Ok((None, r))
    else
      var r1 :- if r.hasNextNeeded then FetchNext(r) else Ok(r);
      Ok((r1.cur.ionType, r1.(hasNextNeeded := true)))
  }

  /** `getType`: the type of the current value, refused until the scan that
      finds it has run.  Because `next` marks its value consumed, this
      refuses after every `next` and answers only after `hasNext`. */
  function GetType(r: Reader): (res: Result<Option<IonType>>)
    ensures res.Err? <==> r.hasNextNeeded
    ensures res.Ok? ==> res.value == r.cur.ionType
  {
    if r.hasNextNeeded then Err(IllegalState) else Ok(r.cur.ionType)
  }

  /** `hasNext` twice in a row answers the same and changes nothing the
      second time. */
  lemma HasNextIdempotent(r: Reader)
    requires Good(r) && HasNext(r).Ok?
    ensures var (b, r1) := HasNext(r).value; HasNext(r1) == Ok((b, r1))
  {
  }

  /** `hasNext` does not consume: `next` after it yields what `next` alone
      would, and leaves the same reader when a value was found. */
  lemma HasNextThenNext(r: Reader)
    requires Good(r) && HasNext(r).Ok?
    ensures var (b, r1) := HasNext(r).value;
            Next(r1).Ok? == Next(r).Ok? &&
            (Next(r).Ok? ==> Next(r1).value.0 == Next(r).value.0) &&
            (b ==> Next(r1) == Next(r))
  {
  }

  /** The source side of an annotation wrapper's body: the annotation
      block's length, the block, and the annotated value's header. */
  lemma WrapperBytes(s: Source, ann: seq<byte>, d: Descriptor) returns (s1: Source, s2: Source, s3: Source)
    requires |ann| <= INT_MAX && Encodable(d)
    requires At(s, VarUIntBytes(|ann|) + (ann + DescriptorBytes(d)))
    ensures ReadVarUInt(s) == Ok((|ann|, s1)) && s1.pos == s.pos + |VarUIntBytes(|ann|)|
    ensures Valid(s1) && Skip(s1, |ann|) == Ok(s2) && s2.pos == s1.pos + |ann|
    ensures s1.data == s.data && s1.pos + |ann| <= |s1.data| && s1.data[s1.pos..s2.pos] == ann
    ensures Valid(s2) && ReadHeader(s2) == Ok((Some(HeaderOf(d)), s3))
    ensures s3 == Advance(s, |VarUIntBytes(|ann|) + (ann + DescriptorBytes(d))|)
    ensures s2.data == s.data && At(s2, DescriptorBytes(d)) && s3 == Advance(s2, |DescriptorBytes(d)|)
  {
    var v := VarUIntBytes(|ann|);
    var bs := DescriptorBytes(d);
    s1 := AtSplit(s, v, ann + bs);
    VarUIntRoundTrip(s, |ann|);
    s2 := AtSplit(s1, ann, bs);
    DescriptorRoundTrip(s2, d);
    s3 := Advance(s2, |bs|);
    assert Advance(s1, |ann + bs|) == s3;
  }

  /** The header after an annotation block, read like any other. */
  lemma AnnotatedValueReads(r: Reader, d: Descriptor) returns (r': Reader)
    requires Good(r) && Encodable(d) && At(r.src, DescriptorBytes(d)) && HeaderOf(d).tid < TID_TYPEDECL
    ensures AnnotatedValue(r) == Ok(r')
    ensures r'.cur.annotations == r.cur.annotations &&
            r'.cur.tid == HeaderOf(d).tid && r'.cur.len == HeaderOf(d).len &&
            r'.cur.ionType.Some? && TypeCodes(r'.cur.ionType.value, HeaderOf(d).tid) &&
            r'.src == Advance(r.src, |DescriptorBytes(d)|)
  {
    DescriptorRoundTrip(r.src, d);
    var h := HeaderOf(d);
    var r1 := ApplyHeader(r.(src := Advance(r.src, |DescriptorBytes(d)|)), h);
    assert ReadTypeId(r) == Ok((h.tid, r1));
    r' := r1.(cur := r1.cur.(ionType := IonTypeOf(h.tid).value));
  }

  /** An annotation wrapper's body: the annotation block is passed over and
      its byte range kept, and the cursor stands on the annotated value. */
  lemma AnnotationWrapperReads(r: Reader, ann: seq<byte>, d: Descriptor) returns (r': Reader)
    requires Good(r) && |ann| <= INT_MAX && Encodable(d) && HeaderOf(d).tid < TID_TYPEDECL
    requires At(r.src, VarUIntBytes(|ann|) + (ann + DescriptorBytes(d)))
    ensures AnnotationWrapper(r) == Ok(r')
    ensures r'.cur.annotations == Some(ann)
    ensures r'.cur.tid == HeaderOf(d).tid && r'.cur.len == HeaderOf(d).len
    ensures r'.cur.ionType.Some? && TypeCodes(r'.cur.ionType.value, HeaderOf(d).tid)
    ensures r'.src == Advance(r.src, |VarUIntBytes(|ann|) + (ann + DescriptorBytes(d))|)
  {
    var s1, s2, s3 := WrapperBytes(r.src, ann, d);
    var r2 := r.(src := s2, cur := r.cur.(annotations := Some(s1.data[s1.pos..s2.pos])));
    assert Good(r2);
    assert AnnotationWrapper(r) == AnnotatedValue(r2);
    r' := AnnotatedValueReads(r2, d);
  }

  /** An annotation wrapper whose annotation block ends the input or the
      budget has no value to annotate: that is an unexpected end. */
  lemma AnnotationWrapperTruncated(r: Reader, ann: seq<byte>)
    requires Good(r) && |ann| <= INT_MAX && At(r.src, VarUIntBytes(|ann|) + ann)
    requires !Avail(r.src, |VarUIntBytes(|ann|) + ann| + 1)
    ensures AnnotationWrapper(r) == Err(UnexpectedEof)
  {
    var s := r.src;
    var v := VarUIntBytes(|ann|);
    var s1 := AtSplit(s, v, ann);
    VarUIntRoundTrip(s, |ann|);
    AdvanceAdd(s, |v|, |ann|);
    assert Skip(s1, |ann|) == Ok(Advance(s1, |ann|));
  }

  /** The `S_BEFORE_TID` step on a value header other than an annotation
      wrapper: the cursor stands on the value the header describes. */
  lemma TypeStepReadsHeader(r: Reader, d: Descriptor)
    requires Good(r) && !r.eof && r.cur.tid == -1
    requires Encodable(d) && At(r.src, DescriptorBytes(d)) && HeaderOf(d).tid < TID_TYPEDECL
    ensures TypeStep(r).Ok?
    ensures var h := HeaderOf(d);
            TypeStep(r).value ==
              ApplyHeader(r.(state := BeforeValue, src := Advance(r.src, |DescriptorBytes(d)|)), h)
                .(cur := ApplyHeader(r, h).cur.(ionType := IonTypeOf(h.tid).value))
  {
    var h := HeaderOf(d);
    var r0 := r.(state := BeforeValue, src := Advance(r.src, |DescriptorBytes(d)|));
    TypeIdOfHeader(r, d);
    SameHeaderCursor(r0, r, h);
    var r1 := ApplyHeader(r0, h);
    assert TypedValue(r1) == Ok(r1.(cur := r1.cur.(ionType := IonTypeOf(h.tid).value)));
  }

  /** The type id of an encoded header is read as its header applied. */
  lemma TypeIdOfHeader(r: Reader, d: Descriptor)
    requires Valid(r.src) && Encodable(d) && At(r.src, DescriptorBytes(d))
    ensures ReadTypeId(r.(state := BeforeValue)) ==
              Ok((HeaderOf(d).tid,
                  ApplyHeader(r.(state := BeforeValue, src := Advance(r.src, |DescriptorBytes(d)|)), HeaderOf(d))))
  {
    DescriptorRoundTrip(r.src, d);
  }

  /** Applying a header to two readers with the same cursor gives the same cursor. */
  lemma SameHeaderCursor(a: Reader, b: Reader, h: Header)
    requires a.cur == b.cur
    ensures ApplyHeader(a, h).cur == ApplyHeader(b, h).cur
  {
  }

  /** `next` on a value header at a point where a type descriptor is due
      yields the type of the header's type code; the reader stands after
      the header, with the header's length, and past the value already
      when it is a null or a boolean. */
  lemma NextReadsHeader(r: Reader, d: Descriptor)
    requires Good(r) && !r.eof && r.hasNextNeeded && r.state == BeforeTid
    requires Encodable(d) && At(r.src, DescriptorBytes(d)) && HeaderOf(d).tid < TID_TYPEDECL
    ensures Next(r).Ok?
    ensures var (t, r') := Next(r).value;
            t.Some? && TypeCodes(t.value, HeaderOf(d).tid) &&
            r'.cur.len == HeaderOf(d).len && r'.src == Advance(r.src, |DescriptorBytes(d)|) &&
            r'.cur.isNull == d.NullOf? && (d.BoolOf? ==> r'.cur.isTrue == d.value) &&
            r'.state == (if d.NullOf? || d.BoolOf? then AfterValue else BeforeValue)
  {
    var r0 := r.(cur := ClearValue(r.cur));
    TypeStepReadsHeader(r0, d);
    assert Step(r0) == TypeStep(r0);
    var r1 := TypeStep(r0).value;
    assert Scan(r1) == Ok(r1);
    assert Scan(r0) == Ok(r1);
  }

  /** The `S_BEFORE_VALUE` step skips whatever is left of the current
      value's payload: scanning from there is scanning from just past it. */
  lemma ScanSkipsPayload(r: Reader)
    requires Good(r) && !r.eof && r.cur.tid == -1 && r.state == BeforeValue && Avail(r.src, r.cur.len)
    ensures Scan(r) == Scan(r.(src := Advance(r.src, r.cur.len), state := NextState(r.inStruct)))
  {
  }

  // ------------------------------------------------------- stepIn / stepOut

  /** `stepIn`: only a struct, list or sexp can be entered, and not at the
      end of a container.  The frame records where the container ends and
      what the enclosing budget will be there (never below 0); the body is
      read under a budget of the container's length. */
  function StepIn(r: Reader): (res: Result<Reader>)
    requires Good(r)
    ensures res.Err? <==> r.eof || r.cur.ionType !in {Some(IonStruct), Some(IonList), Some(IonSexp)}
    ensures res.Err? ==> res.error == IllegalState
    ensures res.Ok? ==> var r' := res.value;
              Good(r') && Depth(r') == Depth(r) + 1 && r'.stack[..Depth(r)] == r.stack &&
              r'.parentTid == r.cur.tid && r'.inStruct == (r.cur.tid == TID_STRUCT) &&
              r'.src == r.src.(budget := Limit(r.cur.len)) && r'.hasNextNeeded && !r'.eof
  {
    if r.eof || r.cur.ionType !in {Some(IonStruct), Some(IonList), Some(IonSexp)} then Err(IllegalState)
    else
      var len := r.cur.len;
      var nextPosition := r.src.pos + len;
      var nextRemaining := match r.src.budget
        case NoLimit => INT_MIN
        case Limit(n) => var m := ToInt(n - len); if m < 0 then 0 else m;
      var inStruct := r.cur.tid == TID_STRUCT;
      Ok(r.(stack := Push(r.stack, r.parentTid, nextPosition, nextRemaining),
            inStruct := inStruct,
            src := r.src.(budget := Limit(len)),
            state := NextState(inStruct),
            parentTid := r.cur.tid,
            cur := ClearValue(r.cur),
            hasNextNeeded := true))
  }

  /** The enclosing container's side of `stepOut`, shared by both versions:
      the frame is popped, the parent's type restored, and a scan is due. */
  function Leave(r: Reader, parent: int, src: Source): (r': Reader)
    requires Good(r) && |r.stack| > 0 && 0 <= parent <= TID_DATAGRAM
    requires Valid(src) && src.data == r.src.data
    ensures Good(r') && r'.stack == r.stack[..|r.stack| - 1] && r'.src == src
    ensures r'.parentTid == parent && r'.hasNextNeeded && !r'.eof
  {
    r.(src := src, stack := Pop(r.stack), eof := false, parentTid := parent, inStruct := parent == TID_STRUCT,
       state := NextState(parent == TID_STRUCT), hasNextNeeded := true)
  }

  /** `stepOut`, with the unread rest of the container passed over without
      charging the enclosing budget, which already had the container's
      length taken off when the frame was pushed.  At top level it is an
      illegal state; a position already past the container end is an
      error. */
  function StepOut(r: Reader): (res: Result<Reader>)
    requires Good(r)
    ensures Depth(r) == 0 <==> res == Err(IllegalState)
    ensures res.Ok? ==> var r' := res.value;
              Good(r') && Depth(r') == Depth(r) - 1 && r'.stack == r.stack[..Depth(r) - 1] &&
              r'.src.data == r.src.data && r'.hasNextNeeded && !r'.eof
    ensures res.Ok? && r.stack[|r.stack| - 1].position <= |r.src.data| ==>
              res.value.src.pos == r.stack[|r.stack| - 1].position
    ensures Depth(r) > 0 && Top(r.stack).position < r.src.pos ==> res == Err(InvalidPosition)
  {
    if |r.stack| < 1 then Err(IllegalState)
    else
      var f := Top(r.stack);
      // every frame `push` writes holds a valid parent type, so the
      // invalid-type error of `get_top_type` cannot arise here
      var parent := TopType(f).value;
      if f.position < r.src.pos then Err(InvalidPosition)
      else
        var s1 := InputSkip(r.src, f.position - r.src.pos);
        Ok(Leave(r, parent, s1.(budget := FromRaw(TopRemaining(f)))))
  }

  /** Whatever the cursor did inside a container it stepped into, as long
      as it stayed within the container, stepping out lands just past the
      container, at the depth and in the parent it started from, with the
      enclosing budget less the container's length (clamped at 0). */
  lemma StepInThenOut(r: Reader, r1: Reader)
    requires Good(r) && StepIn(r).Ok? && r.src.pos + r.cur.len <= |r.src.data|
    requires Good(r1) && r1.stack == StepIn(r).value.stack && r1.src.data == r.src.data
    requires r1.src.pos <= r.src.pos + r.cur.len
    ensures StepOut(r1).Ok?
    ensures var r2 := StepOut(r1).value;
            r2.stack == r.stack && r2.parentTid == r.parentTid && r2.inStruct == r.inStruct &&
            r2.src.pos == r.src.pos + r.cur.len && r2.state == NextState(r.inStruct) &&
            (r.src.budget.NoLimit? ==> r2.src.budget.NoLimit?) &&
            (r.src.budget.Limit? && r.src.budget.n >= r.cur.len ==>
               r2.src.budget == Limit(r.src.budget.n - r.cur.len)) &&
            (r.src.budget.Limit? && INT_MIN <= r.src.budget.n - r.cur.len < 0 ==>
               r2.src.budget == Limit(0))
  {
    var len := r.cur.len;
    var rem := match r.src.budget
      case NoLimit => INT_MIN
      case Limit(n) => var m := ToInt(n - len); if m < 0 then 0 else m;
    PushPop(r.stack, r.parentTid, r.src.pos + len, rem);
  }

  /** `max_skip` of `stepOut`. */
  const MAX_SKIP: int := INT_MAX - 1

  /** The skip loop of `stepOut`: `distance` bytes in pieces of at most
      `MAX_SKIP`, each charged to the budget as `skip` charges it. */
  function SkipLong(s: Source, distance: nat): (r: Result<Source>)
    requires Valid(s)
    ensures r.Ok? ==> Valid(r.value) && r.value.data == s.data && s.pos <= r.value.pos
    ensures r.Err? ==> r.error == UnexpectedEof
    ensures s.budget.NoLimit? ==>
              r.Ok? && r.value.budget == NoLimit && r.value.pos == Min(s.pos + distance, |s.data|)
    ensures s.budget.Limit? && distance <= s.budget.n ==>
              r.Ok? && r.value.budget == Limit(s.budget.n - distance) &&
              r.value.pos == Min(s.pos + distance, |s.data|)
    decreases distance
  {
    if distance > MAX_SKIP then
      var s1 :- Skip(s, MAX_SKIP);
      SkipLong(s1, distance - MAX_SKIP)
    else if distance > 0 then Skip(s, distance)
    else Ok(s)
  }

  /** `stepOut` as written: the enclosing budget is restored first and the
      skip to the container end is then charged to it, although that budget
      already had the container's length taken off at `stepIn`. */
  function StepOutAsWritten(r: Reader): (res: Result<Reader>)
    requires Good(r)
    ensures Depth(r) == 0 <==> res == Err(IllegalState)
    ensures res.Ok? ==> var r' := res.value;
              Good(r') && r'.stack == r.stack[..Depth(r) - 1] && r'.src.data == r.src.data
    ensures Depth(r) > 0 && Top(r.stack).position < r.src.pos ==> res == Err(InvalidPosition)
    ensures Depth(r) > 0 && r.src.pos < Top(r.stack).position <= r.src.pos + MAX_SKIP ==>
              var d := Top(r.stack).position - r.src.pos;
              var b := FromRaw(TopRemaining(Top(r.stack)));
              (res == Err(UnexpectedEof) <==> b.Limit? && b.n < 1) &&
              (res.Ok? && b.NoLimit? ==>
                 res.value.src.budget == NoLimit && res.value.src.pos == Min(r.src.pos + d, |r.src.data|)) &&
              (res.Ok? && b.Limit? ==>
                 res.value.src.budget == Limit(b.n - Min(b.n, d)) &&
                 res.value.src.pos == Min(r.src.pos + Min(b.n, d), |r.src.data|))
  {
    if |r.stack| < 1 then Err(IllegalState)
    else
      var f := Top(r.stack);
      // every frame `push` writes holds a valid parent type, so the
      // invalid-type error of `get_top_type` cannot arise here
      var parent := TopType(f).value;
      var s1 := r.src.(budget := FromRaw(TopRemaining(f)));
      if f.position > r.src.pos then
        var s2 :- SkipLong(s1, f.position - r.src.pos);
        Ok(Leave(r, parent, s2))
      else if f.position < r.src.pos then Err(InvalidPosition)
      else Ok(Leave(r, parent, s1))
  }

  /** When the container was read to its end the two versions agree. */
  lemma StepOutAtEnd(r: Reader)
    requires Good(r) && Depth(r) > 0 && Top(r.stack).position == r.src.pos
    ensures StepOutAsWritten(r) == StepOut(r)
  {
  }

  /** Stepping into a container that fills the rest of its parent and out
      again without reading it: as written the restored budget is 0 and the
      skip over the body fails, where the container end is within reach. */
  lemma StepOutChargesTwice(r: Reader)
    requires Good(r) && StepIn(r).Ok? && r.cur.len >= 1 && r.src.budget == Limit(r.cur.len)
    requires r.src.pos + r.cur.len <= |r.src.data|
    ensures StepOutAsWritten(StepIn(r).value) == Err(UnexpectedEof)
    ensures StepOut(StepIn(r).value).Ok? &&
            StepOut(StepIn(r).value).value.src.pos == r.src.pos + r.cur.len
  {
    StepInThenOut(r, StepIn(r).value);
    PushPop(r.stack, r.parentTid, r.src.pos + r.cur.len, 0);
  }

  /** Stepping into a container that leaves room after it in its parent, and
      out again without reading it: as written the skip over the body is
      charged to the parent's remaining budget a second time.  When that
      budget covers the body twice, the reader lands at the container end
      with the body's length lost from the parent, so the parent's last
      values are silently never seen; otherwise the skip stops short inside
      the body with the budget spent.  The corrected reader lands at the end
      with the parent's true remainder. */
  lemma StepOutShortensParent(r: Reader)
    requires Good(r) && StepIn(r).Ok? && r.cur.len >= 1
    requires r.src.budget.Limit? && r.src.budget.n > r.cur.len
    requires r.src.pos + r.cur.len <= |r.src.data|
    ensures var n := r.src.budget.n;
            var len := r.cur.len;
            var out := StepOutAsWritten(StepIn(r).value);
            out.Ok? &&
            out.value.src.budget == Limit(if n >= 2 * len then n - 2 * len else 0) &&
            out.value.src.pos == r.src.pos + (if n >= 2 * len then len else n - len)
    ensures StepOut(StepIn(r).value).Ok? &&
            StepOut(StepIn(r).value).value.src.budget == Limit(r.src.budget.n - r.cur.len) &&
            StepOut(StepIn(r).value).value.src.pos == r.src.pos + r.cur.len
  {
    var n := r.src.budget.n;
    var len := r.cur.len;
    StepInThenOut(r, StepIn(r).value);
    assert ToInt(n - len) == n - len;
    PushPop(r.stack, r.parentTid, r.src.pos + len, n - len);
  }
}
