/** The system reader's value cache (`ValueVariant` as the binary system
    reader uses it): the representations the current value has been decoded
    or converted into, the one it was decoded as first. */
module ScalarValues {
  import opened Wrappers
  import opened RawCursor
  import opened Decimals
  import opened Timestamps
  import opened Utf8Strings

  /** `AS_TYPE`: the representations a getter can ask for. */
  datatype AsType =
    | NullAs | BooleanAs | IntAs | LongAs | BigIntegerAs | DecimalAs | DoubleAs | TimestampAs | StringAs

  /** One representation of a value.  A double is kept as the 64 bits of its
      IEEE 754 form read as a Java long; a timestamp may be absent (the
      zero-length payload). */
  datatype Rep =
    | NullRep(nullType: IonType)
    | BoolRep(b: bool)
    | IntRep(i: int)
    | LongRep(l: int)
    | BigIntegerRep(n: int)
    | DecimalRep(d: Decimal)
    | DoubleRep(bits: int)
    | TimestampRep(t: Option<Timestamp>)
    | StringRep(text: seq<jchar>)

  /** The `AS_TYPE` of a representation. */
  function AsTypeOf(x: Rep): AsType {
    match x
    case NullRep(_) => NullAs
    case BoolRep(_) => BooleanAs
    case IntRep(_) => IntAs
    case LongRep(_) => LongAs
    case BigIntegerRep(_) => BigIntegerAs
    case DecimalRep(_) => DecimalAs
    case DoubleRep(_) => DoubleAs
    case TimestampRep(_) => TimestampAs
    case StringRep(_) => StringAs
  }

  /** The cache: the authoritative representation first, then those added
      by conversion; no representation at all when it is empty. */
  datatype Variant = Variant(reps: seq<Rep>)

  /** `clear`: the empty cache. */
  const Empty: Variant := Variant([])

  /** `isEmpty`. */
  predicate IsEmpty(v: Variant) {
    |v.reps| == 0
  }

  /** The first representation of type `a`, if any. */
  function FindIn(reps: seq<Rep>, a: AsType): (r: Option<Rep>)
    ensures r.Some? ==> AsTypeOf(r.value) == a && r.value in reps
    ensures r.None? <==> forall i | 0 <= i < |reps| :: AsTypeOf(reps[i]) != a
  {
    if |reps| == 0 then None
    else if AsTypeOf(reps[0]) == a then Some(reps[0])
    else FindIn(reps[1..], a)
  }

  /** The cached representation of type `a` (`getInt`, `getString`, ...). */
  function Find(v: Variant, a: AsType): Option<Rep> {
    FindIn(v.reps, a)
  }

  /** `hasValueOfType`. */
  predicate HasValueOfType(v: Variant, a: AsType) {
    Find(v, a).Some?
  }

  /** The cached `int`, `long` and `BigInteger` of a value that holds one. */
  function IntOf(v: Variant): (i: int)
    requires HasValueOfType(v, IntAs)
    ensures Find(v, IntAs) == Some(IntRep(i))
  {
    Find(v, IntAs).value.i
  }

  function LongOf(v: Variant): (l: int)
    requires HasValueOfType(v, LongAs)
    ensures Find(v, LongAs) == Some(LongRep(l))
  {
    Find(v, LongAs).value.l
  }

  function BigIntegerOf(v: Variant): (n: int)
    requires HasValueOfType(v, BigIntegerAs)
    ensures Find(v, BigIntegerAs) == Some(BigIntegerRep(n))
  {
    Find(v, BigIntegerAs).value.n
  }

  /** Appending a representation leaves the ones found before where they
      were, and makes the new one findable when none of its type was. */
  lemma {:induction false} FindAppend(reps: seq<Rep>, x: Rep, a: AsType)
    ensures FindIn(reps + [x], a) ==
              if FindIn(reps, a).Some? then FindIn(reps, a)
              else if AsTypeOf(x) == a then Some(x) else None
    decreases |reps|
  {
    if |reps| > 0 {
      assert (reps + [x])[1..] == reps[1..] + [x];
      FindAppend(reps[1..], x, a);
    }
  }

  /** `addValue`: one more representation, kept after those already held. */
  function AddValue(v: Variant, x: Rep): (w: Variant)
    ensures |w.reps| == |v.reps| + 1 && w.reps[..|v.reps|] == v.reps
    ensures forall a :: HasValueOfType(v, a) || a != AsTypeOf(x) ==> Find(w, a) == Find(v, a)
    ensures !HasValueOfType(v, AsTypeOf(x)) ==> Find(w, AsTypeOf(x)) == Some(x)
    ensures HasValueOfType(w, AsTypeOf(x))
  {
    forall a ensures FindIn(v.reps + [x], a) ==
                     if FindIn(v.reps, a).Some? then FindIn(v.reps, a)
                     else if AsTypeOf(x) == a then Some(x) else None {
      FindAppend(v.reps, x, a);
    }
    Variant(v.reps + [x])
  }

  /** `can_convert` together with `cast`: the conversion the scalar
      conversion table provides from a representation to a type, `None`
      where it has none. */
  type Conversion = (Rep, AsType) -> Option<Rep>

  /** The conversion step of `prepare_value`: the authoritative
      representation is converted to `a` and the result added to the cache;
      a cache that holds nothing, or a conversion the table does not offer
      (or that yields another type), is an illegal state. */
  function Convert(v: Variant, a: AsType, conv: Conversion): (r: Result<Variant>)
    ensures r.Ok? <==> |v.reps| > 0 && conv(v.reps[0], a).Some? && AsTypeOf(conv(v.reps[0], a).value) == a
    ensures r.Ok? ==> |r.value.reps| == |v.reps| + 1 && r.value.reps[..|v.reps|] == v.reps
    ensures r.Ok? ==> r.value.reps[0] == v.reps[0]
    ensures r.Ok? && !HasValueOfType(v, a) ==> HasValueOfType(r.value, a)
    ensures r.Ok? ==> forall b :: b != a ==> Find(r.value, b) == Find(v, b)
    ensures r.Err? ==> r.error == IllegalState
  {
    if IsEmpty(v) then Err(IllegalState)
    else match conv(v.reps[0], a)
      case None => Err(IllegalState)
      case Some(x) => if AsTypeOf(x) == a then Ok(AddValue(v, x)) else Err(IllegalState)
  }
}
