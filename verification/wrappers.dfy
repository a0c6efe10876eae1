/** Failure-compatible wrappers shared by every module of the model, and the
    exceptions of the modelled Java code as one datatype. */
module Wrappers {

  /** Java's nullable reference: `None` is `null`. */
  datatype Option<+T> = None | Some(value: T)

  /** The exceptions the modelled code throws.  Messages are not modelled. */
  datatype Error =
    | UnexpectedEof                  // throwUnexpectedEOFException
    | IntOverflow                    // throwIntOverflowExeption
    | ValueTooLarge                  // readULong with a length above 8
    | InvalidUtf8                    // throwUTF8Exception, scalar above 0x10FFFF
    | InvalidNullDescriptor          // null type with a non-null length nibble
    | InvalidBoolNibble              // boolean with neither the false nor the true nibble
    | InvalidBinaryImage             // version marker with a wrong tail byte
    | UnrecognizedType               // type code 15
    | InvalidParentType              // packed container stack holds an out-of-range type
    | InvalidPosition                // stepOut finds the input already past the container end
    | InternalError                  // reader in the invalid state
    | SymbolIdOutOfRange             // symbol payload outside 1..Integer.MAX_VALUE
    | FloatLength                    // float payload that is neither 0 nor 8 bytes
    | IllegalState                   // IllegalStateException
    | IllegalArgument                // IllegalArgumentException
    | NullPointer                    // NullPointerException
    | NullValue                      // NullValueException
    | UnknownSymbol(sid: int)        // UnknownSymbolException
    | Unsupported                    // UnsupportedOperationException
    | NoSuchElement                  // NoSuchElementException from LinkedList.getLast
    | NotLocalTable                  // java.lang.Error from the LSTWriter constructor
    | ImportNotShared                // IonException for a non-shared import
    | LocalsLocked                   // IonException for interning into a locked table

  /** Either a value or the exception that ended the call. */
  datatype Result<+T> = Ok(value: T) | Err(error: Error) {
    predicate IsFailure() {
      Err?
    }

    function PropagateFailure<U>(): Result<U>
      requires Err?
    {
      Err(error)
    }

    function Extract(): T
      requires Ok?
    {
      value
    }
  }
}

/** Java's fixed-width integer arithmetic, written out over unbounded integers. */
module JavaInts {

  const TWO_32: int := 0x1_0000_0000
  const TWO_63: int := 0x8000_0000_0000_0000
  const TWO_64: int := 0x1_0000_0000_0000_0000
  const INT_MIN: int := -0x8000_0000
  const INT_MAX: int := 0x7FFF_FFFF
  const LONG_MIN: int := -0x8000_0000_0000_0000
  const LONG_MAX: int := 0x7FFF_FFFF_FFFF_FFFF

  predicate IsInt(x: int) {
    INT_MIN <= x <= INT_MAX
  }

  predicate IsLong(x: int) {
    LONG_MIN <= x <= LONG_MAX
  }

  /** The `(int)` narrowing and every 32-bit wrap-around: the unique Java int
      congruent to `x` modulo 2^32. */
  function ToInt(x: int): (r: int)
    ensures IsInt(r)
    ensures (x - r) % TWO_32 == 0
    ensures IsInt(x) ==> r == x
  {
    var u := x % TWO_32;
    if u > INT_MAX then u - TWO_32 else u
  }

  /** The 64-bit counterpart of `ToInt`. */
  function ToLong(x: int): (r: int)
    ensures IsLong(r)
    ensures (x - r) % TWO_64 == 0
    ensures IsLong(x) ==> r == x
  {
    var u := x % TWO_64;
    if u > LONG_MAX then u - TWO_64 else u
  }
}
