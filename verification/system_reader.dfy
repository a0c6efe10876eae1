/** The binary system reader (`IonReaderBinarySystemX`) on top of the raw
    cursor: scalar payloads decoded once into the value cache, typed getters
    over the cache, and symbol ids resolved through the symbol table. */
module SystemReader {
  import opened Wrappers
  import opened JavaInts
  import opened ByteSource
  import opened VarInts
  import opened Decimals
  import opened Timestamps
  import opened Utf8Strings
  import opened RawCursor
  import opened ScalarValues

  /** The symbol table, as the texts of the symbol ids it knows. */
  type Symbols = map<int, seq<jchar>>

  /** `findKnownSymbol`: the text of a symbol id, if the table knows it. */
  function FindKnownSymbol(symbols: Symbols, sid: int): Option<seq<jchar>> {
    if sid in symbols then Some(symbols[sid]) else None
  }

  /** `SymbolTokenImpl`: a symbol id with its text, when known. */
  datatype SymbolToken = SymbolToken(text: Option<seq<jchar>>, sid: int)

  /** The reader: the raw cursor, the value cache `_v`, and `_symbols`. */
  datatype SysReader = SysReader(raw: Reader, v: Variant, symbols: Symbols)

  // ----------------------------------------------------------- integers

  /** `MAX_BINARY_LENGTH_LONG`: the longest integer payload read as a long. */
  const MAX_BINARY_LENGTH_LONG: int := 8

  /** The bytes `(val >> 8 * (k - 1)) & 0xFF`, ..., `val & 0xFF` of a long:
      `>>` shifts arithmetically, a floor division by a power of 256, and
      `& 0xFF` keeps the low byte, the non-negative remainder. */
  function LongBytes(v: int, k: nat): (bs: seq<byte>)
    ensures |bs| == k
    decreases k
  {
    if k == 0 then [] else LongBytes(v / 256, k - 1) + [v % 256]
  }

  /** `unsignedLongToBigInteger`: `new BigInteger(signum, magnitude)` over
      the eight bytes of the long, big end first. */
  function UnsignedLongToBigInteger(signum: int, v: int): (r: int)
    requires signum == 1 || signum == -1
    ensures r == signum * (v % TWO_64)
  {
    var h := Horner(256, 0, LongBytes(v, 8));
    assert h == v % TWO_64 by {
      LongBytesValue(v, 8);
      Pow256Eight();
    }
    signum * h
  }

  lemma ModUnique(x: int, m: int, q: int, b: int)
    requires m > 0 && x == m * q + b && 0 <= b < m
    ensures x % m == b
  {
    MulSign(m, x / m - q);
  }

  lemma MulSign(m: int, d: int)
    requires m > 0
    ensures d >= 1 ==> m * d >= m
    ensures d <= -1 ==> m * d <= -m
  {
  }

  /** Taking the low byte off and the next `k - 1` bytes of the rest is
      taking the low `k` bytes. */
  lemma ModSplit(v: int, p: int)
    requires p >= 1
    ensures ((v / 256) % p) * 256 + v % 256 == v % (256 * p)
  {
    var q := v / 256;
    var a := q / p;
    var b := q % p;
    assert v == 256 * q + v % 256;
    assert q == p * a + b;
    assert v == (256 * p) * a + (256 * b + v % 256);
    ModUnique(v, 256 * p, a, 256 * b + v % 256);
  }

  lemma {:induction false} LongBytesValue(v: int, k: nat)
    ensures Horner(256, 0, LongBytes(v, k)) == v % Pow256(k)
    decreases k
  {
    if k > 0 {
      LongBytesValue(v / 256, k - 1);
      HornerLast(256, 0, LongBytes(v / 256, k - 1), v % 256);
      ModSplit(v, Pow256(k - 1));
    }
  }

  /** The conversion reads the long as an unsigned 64-bit magnitude. */
  lemma UnsignedMagnitude(signum: int, v: int)
    requires signum == 1 || signum == -1
    ensures UnsignedLongToBigInteger(signum, v) == signum * (v % TWO_64)
    ensures IsLong(v) && v < 0 ==> UnsignedLongToBigInteger(signum, v) == signum * (v + TWO_64)
  {
    LongBytesValue(v, 8);
    Pow256Eight();
    if IsLong(v) && v < 0 {
      ModUnique(v, TWO_64, -1, v + TWO_64);
    }
  }

  /** `readBigInteger(len, is_negative)`: the payload read whole (a short
      read leaves zero bytes) as a magnitude with the given sign; zero when
      the length is zero. */
  function ReadBigInteger(s: Source, len: int, negative: bool): (r: Result<(int, Source)>)
    requires Valid(s)
    ensures r.Ok? ==> Valid(r.value.1) && r.value.1.data == s.data
    ensures len <= 0 ==> r == Ok((0, s))
    ensures 0 < len && Avail(s, len) ==>
              r == Ok(((if negative then -1 else 1) * Horner(256, 0, s.data[s.pos..s.pos + len]), Advance(s, len)))
  {
    if len > 0 then
      var p :- ReadInto(s, len);
      Ok(((if negative then -1 else 1) * Horner(256, 0, p.0), p.1))
    else Ok((0, s))
  }

  /** The sign the type code gives an integer: negative for `tidNegInt`. */
  function Sign(tid: int): int {
    if tid == TID_NEG_INT then -1 else 1
  }

  /** The integer an integer representation holds, in whichever form. */
  function IntegerOf(x: Rep): Option<int> {
    match x
    case IntRep(i) => Some(i)
    case LongRep(l) => Some(l)
    case BigIntegerRep(n) => Some(n)
    case _ => None
  }

  /** The INT case of `load_scalar_value`: an empty payload is the int 0;
      up to eight bytes are read as a long and negated for the negative
      type code, unless the magnitude does not fit, which makes a big
      integer signed by the type code; a longer payload is always a big
      integer. */
  function LoadInt(tid: int, len: int, s: Source): (r: Result<(Rep, Source)>)
    requires Valid(s) && 0 <= len
    ensures r.Ok? ==> Valid(r.value.1) && r.value.1.data == s.data && IntegerOf(r.value.0).Some?
    ensures 0 < len <= MAX_BINARY_LENGTH_LONG ==> (r.Ok? <==> Avail(s, len))
  {
    if len == 0 then Ok((IntRep(0), s))
    else if len <= MAX_BINARY_LENGTH_LONG then
      var p :- ReadULong(s, len);
      if p.0 < 0 then
        Ok((BigIntegerRep(UnsignedLongToBigInteger(if tid == TID_POS_INT then 1 else -1, p.0)), p.1))
      else
        Ok((LongRep(if tid == TID_NEG_INT then -p.0 else p.0), p.1))
    else
      var p :- ReadBigInteger(s, len, tid == TID_NEG_INT);
      Ok((BigIntegerRep(p.0), p.1))
  }

  /** The magnitude of an integer payload: its bytes read big end first. */
  function Magnitude(s: Source, len: nat): (m: nat)
    requires Avail(s, len)
    ensures m < Pow256(len)
  {
    UIntBound(s.data[s.pos..s.pos + len]);
    Horner(256, 0, s.data[s.pos..s.pos + len])
  }

  /** Whatever form it takes, the integer loaded is the payload's magnitude
      with the type code's sign, and the whole payload is consumed: the int
      0 for an empty payload, a long while the magnitude stays below 2^63,
      a big integer from there on and for every payload over eight bytes. */
  lemma LoadIntValue(tid: int, len: int, s: Source)
    requires Valid(s) && (tid == TID_POS_INT || tid == TID_NEG_INT) && 0 <= len && Avail(s, len)
    ensures LoadInt(tid, len, s).Ok?
    ensures var (x, s') := LoadInt(tid, len, s).value;
            IntegerOf(x) == Some(Sign(tid) * Magnitude(s, len)) && s' == Advance(s, len) &&
            (len == 0 ==> x == IntRep(0)) &&
            (0 < len <= 8 ==> (x.LongRep? <==> Magnitude(s, len) < TWO_63)) &&
            (0 < len ==> (x.BigIntegerRep? <==> len > 8 || Magnitude(s, len) >= TWO_63))
  {
    if len == 0 {
      LoadIntEmpty(tid, s);
    } else if len <= 8 {
      LoadIntLong(tid, len, s);
    }
  }

  lemma LoadIntEmpty(tid: int, s: Source)
    requires Valid(s) && Avail(s, 0)
    ensures LoadInt(tid, 0, s) == Ok((IntRep(0), Advance(s, 0)))
    ensures Magnitude(s, 0) == 0
  {
    assert s.data[s.pos..s.pos] == [];
  }

  lemma LoadIntLong(tid: int, len: int, s: Source)
    requires Valid(s) && (tid == TID_POS_INT || tid == TID_NEG_INT) && 0 < len <= 8 && Avail(s, len)
    ensures LoadInt(tid, len, s).Ok?
    ensures var (x, s') := LoadInt(tid, len, s).value;
            IntegerOf(x) == Some(Sign(tid) * Magnitude(s, len)) && s' == Advance(s, len) &&
            (x.LongRep? <==> Magnitude(s, len) < TWO_63) &&
            (x.BigIntegerRep? <==> Magnitude(s, len) >= TWO_63)
  {
    var m := Magnitude(s, len);
    Pow256Mono(len, 8);
    Pow256Eight();
    ULongReadSome(s, m, len);
    if m < TWO_63 {
      LoadIntFits(tid, len, s, m);
    } else {
      LoadIntWide(tid, len, s, m);
    }
  }

  lemma Pow256Eight()
    ensures Pow256(8) == TWO_64
  {
    Pow256Mono(7, 7);
    assert Pow256(8) == 256 * Pow256(7);
  }

  lemma LoadIntFits(tid: int, len: int, s: Source, m: nat)
    requires Valid(s) && 0 < len <= 8 && Avail(s, len) && m < TWO_63
    requires ReadULong(s, len) == Ok((ToLong(m), Advance(s, len)))
    ensures LoadInt(tid, len, s) == Ok((LongRep(Sign(tid) * m), Advance(s, len)))
  {
    assert ToLong(m) == m;
    var v: int := m;
    assert (if tid == TID_NEG_INT then -v else v) == Sign(tid) * v;
  }

  lemma LoadIntWide(tid: int, len: int, s: Source, m: nat)
    requires Valid(s) && (tid == TID_POS_INT || tid == TID_NEG_INT) && 0 < len <= 8 && Avail(s, len)
    requires TWO_63 <= m < TWO_64
    requires ReadULong(s, len) == Ok((ToLong(m), Advance(s, len)))
    ensures LoadInt(tid, len, s) == Ok((BigIntegerRep(Sign(tid) * m), Advance(s, len)))
  {
    var v := ToLong(m);
    ToLongWide(m);
    UnsignedMagnitude(Sign(tid), v);
    assert (if tid == TID_POS_INT then 1 else -1) == Sign(tid);
    assert UnsignedLongToBigInteger(Sign(tid), v) == Sign(tid) * m;
  }

  /** A magnitude of 2^63 or more narrows to a negative long. */
  lemma ToLongWide(m: int)
    requires TWO_63 <= m < TWO_64
    ensures ToLong(m) == m - TWO_64 < 0
  {
    ModUnique(m, TWO_64, 0, m);
  }

  // ------------------------------------------------------------ other scalars

  /** The FLOAT case with `readFloat`: an empty payload is 0.0, eight bytes
      are the bits of a double, any other length is refused. */
  function LoadFloat(len: int, s: Source): (r: Result<(Rep, Source)>)
    requires Valid(s)
    ensures r.Ok? ==> Valid(r.value.1) && r.value.1.data == s.data && r.value.0.DoubleRep?
    ensures len != 0 && len != 8 ==> r == Err(FloatLength)
    ensures len == 8 ==> (r.Ok? <==> Avail(s, 8))
  {
    if len == 0 then Ok((DoubleRep(0), s))
    else if len != 8 then Err(FloatLength)
    else
      var p :- ReadULong(s, 8);
      Ok((DoubleRep(p.0), p.1))
  }

  /** The SYMBOL case: the payload is a UInt symbol id, which must lie in
      1..Integer.MAX_VALUE and is then kept as an int. */
  function LoadSymbolId(len: int, s: Source): (r: Result<(Rep, Source)>)
    requires Valid(s)
    ensures r.Ok? ==> Valid(r.value.1) && r.value.1.data == s.data
    ensures r.Ok? ==> r.value.0.IntRep? && 1 <= r.value.0.i <= INT_MAX
  {
    var p :- ReadULong(s, len);
    if p.0 < 1 || p.0 > INT_MAX then Err(SymbolIdOutOfRange) else Ok((IntRep(p.0), p.1))
  }

  /** A symbol payload of one to eight bytes loads exactly when its value,
      narrowed to a long, is a positive int; below eight bytes the value is
      the magnitude itself.  A longer payload is too large, and an empty one
      is symbol id 0, out of range. */
  lemma SymbolIdRange(len: int, s: Source)
    requires Valid(s)
    ensures len > 8 || len < 0 ==> LoadSymbolId(len, s) == Err(ValueTooLarge)
    ensures len == 0 ==> LoadSymbolId(len, s) == Err(SymbolIdOutOfRange)
    ensures 0 < len <= 8 && Avail(s, len) ==>
              var sid := ToLong(Magnitude(s, len));
              LoadSymbolId(len, s) ==
                (if 1 <= sid <= INT_MAX then Ok((IntRep(sid), Advance(s, len))) else Err(SymbolIdOutOfRange))
    ensures 0 < len < 8 && Avail(s, len) ==> ToLong(Magnitude(s, len)) == Magnitude(s, len)
  {
    if 0 < len <= 8 && Avail(s, len) {
      ULongReadSome(s, Magnitude(s, len), len);
      if len < 8 {
        ULongBound(s, len);
      }
    }
  }

  /** The types `load_scalar_value` decodes. */
  predicate IsScalar(t: IonType) {
    t in {IonNull, IonBool, IonInt, IonFloat, IonDecimal, IonTimestamp, IonSymbol, IonString}
  }

  /** The representation each type is decoded as. */
  predicate RepFits(t: IonType, x: Rep) {
    match x
    case NullRep(nt) => nt == t
    case BoolRep(_) => t == IonBool
    case IntRep(_) => t == IonInt || t == IonSymbol
    case LongRep(_) => t == IonInt
    case BigIntegerRep(_) => t == IonInt
    case DecimalRep(_) => t == IonDecimal
    case DoubleRep(_) => t == IonFloat
    case TimestampRep(_) => t == IonTimestamp
    case StringRep(_) => t == IonString
  }

  /** The payload of a non-null scalar; a non-null value of the null type
      (a NOP pad) has none. */
  function LoadPayload(t: IonType, c: Current, s: Source): (r: Result<(Option<Rep>, Source)>)
    requires Valid(s) && 0 <= c.len <= INT_MAX && IsScalar(t)
    ensures r.Ok? ==> Valid(r.value.1) && r.value.1.data == s.data
    ensures r.Ok? ==> match r.value.0
                      case None => t == IonNull && r.value.1 == s
                      case Some(x) => RepFits(t, x) && !x.NullRep?
  {
    match t
    case IonBool => Ok((Some(BoolRep(c.isTrue)), s))
    case IonInt =>
      var p :- LoadInt(c.tid, c.len, s);
      Ok((Some(p.0), p.1))
    case IonFloat =>
      var p :- LoadFloat(c.len, s);
      Ok((Some(p.0), p.1))
    case IonDecimal =>
      var p :- ReadDecimal(s, c.len);
      Ok((Some(DecimalRep(p.0)), p.1))
    case IonTimestamp =>
      var p :- ReadTimestamp(s, c.len);
      Ok((Some(TimestampRep(p.0)), p.1))
    case IonSymbol =>
      var p :- LoadSymbolId(c.len, s);
      Ok((Some(p.0), p.1))
    case IonString =>
      var p :- StringPayload(s, c.len);
      Ok((Some(StringRep(p.0)), p.1))
    case _ => Ok((None, s))
  }

  /** `load_scalar_value`: nothing for a container, a lob or no value; the
      null representation for a null of any scalar type; otherwise the
      payload decoded, after which the value counts as read. */
  function LoadScalarValue(r: Reader): (res: Result<(Variant, Reader)>)
    requires Good(r)
    ensures res.Ok? ==> var (w, r') := res.value;
              Good(r') && r'.cur == r.cur && r'.stack == r.stack && r'.src.data == r.src.data &&
              r'.eof == r.eof && r'.hasNextNeeded == r.hasNextNeeded && r'.parentTid == r.parentTid
    ensures res.Ok? ==> var (w, r') := res.value;
              |w.reps| <= 1 &&
              (|w.reps| == 1 ==> r.cur.ionType.Some? && RepFits(r.cur.ionType.value, w.reps[0])) &&
              (|w.reps| == 1 && !w.reps[0].NullRep? ==> r'.state == AfterValue) &&
              (|w.reps| == 0 || w.reps[0].NullRep? ==> r' == r)
  {
    match r.cur.ionType
    case None => Ok((Empty, r))
    case Some(t) =>
      if !IsScalar(t) then Ok((Empty, r))
      else if r.cur.isNull then Ok((Variant([NullRep(t)]), r))
      else
        var p :- LoadPayload(t, r.cur, r.src);
        match p.0
        case None => Ok((Empty, r))
        case Some(x) => Ok((Variant([x]), r.(src := p.1, state := AfterValue)))
  }

  /** A null of any scalar type loads as that type's null without reading;
      containers, lobs and the absence of a value load nothing; a
      zero-length timestamp loads as an absent timestamp. */
  lemma LoadKinds(r: Reader)
    requires Good(r)
    ensures r.cur.ionType.Some? && IsScalar(r.cur.ionType.value) && r.cur.isNull ==>
              LoadScalarValue(r) == Ok((Variant([NullRep(r.cur.ionType.value)]), r))
    ensures r.cur.ionType.None? || !IsScalar(r.cur.ionType.value) ==> LoadScalarValue(r) == Ok((Empty, r))
    ensures r.cur.ionType == Some(IonTimestamp) && !r.cur.isNull && r.cur.len == 0 ==>
              LoadScalarValue(r) == Ok((Variant([TimestampRep(None)]), r.(state := AfterValue)))
  {
  }

  // ------------------------------------------------------------ the cache

  /** `prepare_value`: decode the value if nothing is cached, then convert
      the authoritative representation if the one asked for is missing. */
  function PrepareValue(sr: SysReader, a: AsType, conv: Conversion): (res: Result<SysReader>)
    requires Good(sr.raw)
    ensures res.Ok? ==> Good(res.value.raw) && res.value.symbols == sr.symbols && HasValueOfType(res.value.v, a)
    ensures res.Ok? ==> res.value.raw.cur == sr.raw.cur && res.value.raw.stack == sr.raw.stack
    ensures res.Ok? && !IsEmpty(sr.v) ==> forall b :: b != a ==> Find(res.value.v, b) == Find(sr.v, b)
    ensures res.Ok? && !IsEmpty(sr.v) ==>
              res.value.raw == sr.raw && |res.value.v.reps| >= |sr.v.reps| &&
              res.value.v.reps[..|sr.v.reps|] == sr.v.reps
    ensures res.Err? && !IsEmpty(sr.v) ==> res.error == IllegalState
  {
    var loaded :- if IsEmpty(sr.v) then LoadScalarValue(sr.raw) else Ok((sr.v, sr.raw));
    if HasValueOfType(loaded.0, a) then Ok(sr.(raw := loaded.1, v := loaded.0))
    else
      var w :- Convert(loaded.0, a, conv);
      Ok(sr.(raw := loaded.1, v := w))
  }

  /** Preparing is idempotent, and a prepared value is never decoded
      again: preparing it for any representation leaves the raw reader
      alone and keeps every representation already cached. */
  lemma PrepareDecodesOnce(sr: SysReader, a: AsType, b: AsType, conv: Conversion)
    requires Good(sr.raw) && PrepareValue(sr, a, conv).Ok?
    ensures var sr1 := PrepareValue(sr, a, conv).value;
            PrepareValue(sr1, a, conv) == Ok(sr1) &&
            (PrepareValue(sr1, b, conv).Ok? ==>
               PrepareValue(sr1, b, conv).value.raw == sr1.raw &&
               PrepareValue(sr1, b, conv).value.v.reps[..|sr1.v.reps|] == sr1.v.reps)
  {
  }

  /** With an empty cache, a value decoded as the representation asked for
      needs no conversion: whatever the conversion table, the cache then
      holds exactly the decoded representation. */
  lemma PrepareDecoded(sr: SysReader, a: AsType, conv: Conversion)
    requires Good(sr.raw) && IsEmpty(sr.v) && LoadScalarValue(sr.raw).Ok?
    requires var w := LoadScalarValue(sr.raw).value.0; |w.reps| == 1 && AsTypeOf(w.reps[0]) == a
    ensures PrepareValue(sr, a, conv) ==
              Ok(sr.(raw := LoadScalarValue(sr.raw).value.1, v := LoadScalarValue(sr.raw).value.0))
  {
  }

  /** A cached representation that cannot be converted to the one asked
      for is an illegal state. */
  lemma PrepareRefuses(sr: SysReader, a: AsType, conv: Conversion)
    requires Good(sr.raw) && !IsEmpty(sr.v) && !HasValueOfType(sr.v, a) && conv(sr.v.reps[0], a).None?
    ensures PrepareValue(sr, a, conv) == Err(IllegalState)
  {
  }

  // ------------------------------------------------------------ getters

  /** The guard of `intValue`, `longValue` and `bigIntegerValue`. */
  predicate IsNumeric(t: Option<IonType>) {
    t == Some(IonInt) || t == Some(IonDecimal) || t == Some(IonFloat)
  }

  /** `booleanValue`. */
  function BooleanValue(sr: SysReader, conv: Conversion): (res: Result<(bool, SysReader)>)
    requires Good(sr.raw)
    ensures res.Ok? ==> Good(res.value.1.raw) && Find(res.value.1.v, BooleanAs) == Some(BoolRep(res.value.0))
  {
    var sr1 :- PrepareValue(sr, BooleanAs, conv);
    Ok((Find(sr1.v, BooleanAs).value.b, sr1))
  }

  /** `intValue`: refused unless the value is an int, a decimal or a float. */
  function IntValue(sr: SysReader, conv: Conversion): (res: Result<(int, SysReader)>)
    requires Good(sr.raw)
    ensures !IsNumeric(sr.raw.cur.ionType) ==> res == Err(IllegalState)
    ensures res.Ok? ==> Good(res.value.1.raw) && Find(res.value.1.v, IntAs) == Some(IntRep(res.value.0))
  {
    if !IsNumeric(sr.raw.cur.ionType) then Err(IllegalState)
    else
      var sr1 :- PrepareValue(sr, IntAs, conv);
      Ok((IntOf(sr1.v), sr1))
  }

  /** `longValue`: refused unless the value is an int, a decimal or a float. */
  function LongValue(sr: SysReader, conv: Conversion): (res: Result<(int, SysReader)>)
    requires Good(sr.raw)
    ensures !IsNumeric(sr.raw.cur.ionType) ==> res == Err(IllegalState)
    ensures res.Ok? ==> Good(res.value.1.raw) && Find(res.value.1.v, LongAs) == Some(LongRep(res.value.0))
  {
    if !IsNumeric(sr.raw.cur.ionType) then Err(IllegalState)
    else
      var sr1 :- PrepareValue(sr, LongAs, conv);
      Ok((LongOf(sr1.v), sr1))
  }

  /** `bigIntegerValue`: refused unless the value is an int, a decimal or a
      float; absent for a null. */
  function BigIntegerValue(sr: SysReader, conv: Conversion): (res: Result<(Option<int>, SysReader)>)
    requires Good(sr.raw)
    ensures !IsNumeric(sr.raw.cur.ionType) ==> res == Err(IllegalState)
    ensures IsNumeric(sr.raw.cur.ionType) && sr.raw.cur.isNull ==> res == Ok((None, sr))
    ensures res.Ok? && res.value.0.Some? ==>
              Good(res.value.1.raw) && Find(res.value.1.v, BigIntegerAs) == Some(BigIntegerRep(res.value.0.value))
  {
    if !IsNumeric(sr.raw.cur.ionType) then Err(IllegalState)
    else if sr.raw.cur.isNull then Ok((None, sr))
    else
      var sr1 :- PrepareValue(sr, BigIntegerAs, conv);
      Ok((Some(BigIntegerOf(sr1.v)), sr1))
  }

  /** `decimalValue`: absent for a null. */
  function DecimalValue(sr: SysReader, conv: Conversion): (res: Result<(Option<Decimal>, SysReader)>)
    requires Good(sr.raw)
    ensures sr.raw.cur.isNull ==> res == Ok((None, sr))
    ensures res.Ok? && res.value.0.Some? ==>
              Good(res.value.1.raw) && Find(res.value.1.v, DecimalAs) == Some(DecimalRep(res.value.0.value))
  {
    if sr.raw.cur.isNull then Ok((None, sr))
    else
      var sr1 :- PrepareValue(sr, DecimalAs, conv);
      Ok((Some(Find(sr1.v, DecimalAs).value.d), sr1))
  }

  /** `timestampValue`: absent for a null, and for a zero-length payload. */
  function TimestampValue(sr: SysReader, conv: Conversion): (res: Result<(Option<Timestamp>, SysReader)>)
    requires Good(sr.raw)
    ensures sr.raw.cur.isNull ==> res == Ok((None, sr))
    ensures res.Ok? && !sr.raw.cur.isNull ==>
              Good(res.value.1.raw) && Find(res.value.1.v, TimestampAs) == Some(TimestampRep(res.value.0))
  {
    if sr.raw.cur.isNull then Ok((None, sr))
    else
      var sr1 :- PrepareValue(sr, TimestampAs, conv);
      Ok((Find(sr1.v, TimestampAs).value.t, sr1))
  }

  /** The value's payload is readable, the cache empty, the reader on a
      non-null int: what the integer getters below start from. */
  predicate FreshInt(sr: SysReader) {
    Good(sr.raw) && IsEmpty(sr.v) && sr.raw.cur.ionType == Some(IonInt) && !sr.raw.cur.isNull &&
    Avail(sr.raw.src, sr.raw.cur.len)
  }

  /** On a fresh int of one to eight bytes whose magnitude fits, `longValue`
      is the magnitude with the type code's sign, whatever the conversion
      table, and the payload is consumed. */
  lemma LongValueOfInt(sr: SysReader, conv: Conversion)
    requires FreshInt(sr) && 0 < sr.raw.cur.len <= 8 && Magnitude(sr.raw.src, sr.raw.cur.len) < TWO_63
    ensures LongValue(sr, conv).Ok?
    ensures var (l, sr1) := LongValue(sr, conv).value;
            l == Sign(sr.raw.cur.tid) * Magnitude(sr.raw.src, sr.raw.cur.len) &&
            sr1.raw.src == Advance(sr.raw.src, sr.raw.cur.len) && sr1.raw.state == AfterValue
  {
    LoadIntValue(sr.raw.cur.tid, sr.raw.cur.len, sr.raw.src);
  }

  /** On a fresh int of more than eight bytes, or whose magnitude reaches
      2^63, `bigIntegerValue` is the magnitude with the type code's sign,
      whatever the conversion table. */
  lemma BigIntegerValueOfInt(sr: SysReader, conv: Conversion)
    requires FreshInt(sr) && sr.raw.cur.len > 0
    requires sr.raw.cur.len > 8 || Magnitude(sr.raw.src, sr.raw.cur.len) >= TWO_63
    ensures BigIntegerValue(sr, conv).Ok?
    ensures var (n, sr1) := BigIntegerValue(sr, conv).value;
            n == Some(Sign(sr.raw.cur.tid) * Magnitude(sr.raw.src, sr.raw.cur.len)) &&
            sr1.raw.src == Advance(sr.raw.src, sr.raw.cur.len)
  {
    LoadIntValue(sr.raw.cur.tid, sr.raw.cur.len, sr.raw.src);
  }

  // ------------------------------------------------------------ symbols

  /** `getSymbolId`: refused unless the value is a symbol; a null symbol
      has no id. */
  function SymbolId(sr: SysReader, conv: Conversion): (res: Result<(int, SysReader)>)
    requires Good(sr.raw)
    ensures sr.raw.cur.ionType != Some(IonSymbol) ==> res == Err(IllegalState)
    ensures sr.raw.cur.ionType == Some(IonSymbol) && sr.raw.cur.isNull ==> res == Err(NullValue)
    ensures res.Ok? ==> Good(res.value.1.raw) && res.value.1.symbols == sr.symbols &&
                        res.value.1.raw.cur == sr.raw.cur &&
                        Find(res.value.1.v, IntAs) == Some(IntRep(res.value.0))
    ensures res.Ok? && !HasValueOfType(sr.v, StringAs) ==> !HasValueOfType(res.value.1.v, StringAs)
  {
    if sr.raw.cur.ionType != Some(IonSymbol) then Err(IllegalState)
    else if sr.raw.cur.isNull then Err(NullValue)
    else
      var sr1 :- PrepareValue(sr, IntAs, conv);
      PrepareKeepsText(sr, conv);
      Ok((IntOf(sr1.v), sr1))
  }

  /** Preparing a symbol's id never caches a text: the payload decodes as
      an int, and converting adds only the representation asked for. */
  lemma PrepareKeepsText(sr: SysReader, conv: Conversion)
    requires Good(sr.raw) && sr.raw.cur.ionType == Some(IonSymbol)
    requires PrepareValue(sr, IntAs, conv).Ok?
    ensures !HasValueOfType(sr.v, StringAs) ==>
              !HasValueOfType(PrepareValue(sr, IntAs, conv).value.v, StringAs)
  {
    if IsEmpty(sr.v) {
      var w := LoadScalarValue(sr.raw).value.0;
      assert |w.reps| == 1 ==> AsTypeOf(w.reps[0]) != StringAs;
      assert !HasValueOfType(w, StringAs) by {
        if |w.reps| == 1 {
          assert w.reps[1..] == [];
        }
      }
    }
  }

  /** A fresh symbol value's id is the one its payload holds, whatever the
      conversion table. */
  lemma SymbolIdOfPayload(sr: SysReader, conv: Conversion)
    requires Good(sr.raw) && IsEmpty(sr.v) && sr.raw.cur.ionType == Some(IonSymbol) && !sr.raw.cur.isNull
    requires LoadSymbolId(sr.raw.cur.len, sr.raw.src).Ok?
    ensures var (x, s') := LoadSymbolId(sr.raw.cur.len, sr.raw.src).value;
            SymbolId(sr, conv) == Ok((x.i, sr.(raw := sr.raw.(src := s', state := AfterValue), v := Variant([x]))))
  {
  }

  /** `stringValue`: refused unless the value is text; absent for a null; a
      symbol's text is looked up by its id, which must be known, and cached
      as its string form. */
  function StringValue(sr: SysReader, conv: Conversion): (res: Result<(Option<seq<jchar>>, SysReader)>)
    requires Good(sr.raw)
    ensures res.Ok? ==> Good(res.value.1.raw) && res.value.1.symbols == sr.symbols
    ensures res.Ok? && res.value.0.Some? ==> HasValueOfType(res.value.1.v, StringAs)
  {
    var t := sr.raw.cur.ionType;
    if t != Some(IonString) && t != Some(IonSymbol) then Err(IllegalState)
    else if sr.raw.cur.isNull then Ok((None, sr))
    else if t == Some(IonSymbol) && !HasValueOfType(sr.v, StringAs) then SymbolString(sr, conv)
    else
      var sr1 :- PrepareValue(sr, StringAs, conv);
      Ok((Some(Find(sr1.v, StringAs).value.text), sr1))
  }

  /** The symbol branch of `stringValue`: the text of the symbol's id, added
      to the cache. */
  function SymbolString(sr: SysReader, conv: Conversion): (res: Result<(Option<seq<jchar>>, SysReader)>)
    requires Good(sr.raw)
    ensures res.Ok? ==> Good(res.value.1.raw) && res.value.1.symbols == sr.symbols && res.value.0.Some?
    ensures res.Ok? ==> HasValueOfType(res.value.1.v, StringAs)
  {
    var p :- SymbolId(sr, conv);
    WithText(p.0, p.1)
  }

  /** The text of a symbol id, which must be known, cached as its string
      form; nothing else changes. */
  function WithText(sid: int, sr: SysReader): (res: Result<(Option<seq<jchar>>, SysReader)>)
    ensures res.Ok? <==> sid in sr.symbols
    ensures res.Err? ==> res.error == UnknownSymbol(sid)
    ensures res.Ok? ==> res.value.0 == Some(sr.symbols[sid]) && res.value.1.raw == sr.raw &&
                        res.value.1.symbols == sr.symbols && HasValueOfType(res.value.1.v, StringAs)
  {
    match FindKnownSymbol(sr.symbols, sid)
    case None => Err(UnknownSymbol(sid))
    case Some(name) => Ok((Some(name), sr.(v := AddValue(sr.v, StringRep(name)))))
  }

  /** `symbolValue`: refused unless the value is a symbol; absent for a
      null; otherwise the id with its text, known or not. */
  function SymbolValue(sr: SysReader, conv: Conversion): (res: Result<(Option<SymbolToken>, SysReader)>)
    requires Good(sr.raw)
    ensures sr.raw.cur.ionType != Some(IonSymbol) ==> res == Err(IllegalState)
    ensures sr.raw.cur.ionType == Some(IonSymbol) && sr.raw.cur.isNull ==> res == Ok((None, sr))
    ensures res.Ok? && res.value.0.Some? ==>
              var tok := res.value.0.value;
              SymbolId(sr, conv) == Ok((tok.sid, res.value.1)) && tok.text == FindKnownSymbol(sr.symbols, tok.sid)
  {
    if sr.raw.cur.ionType != Some(IonSymbol) then Err(IllegalState)
    else if sr.raw.cur.isNull then Ok((None, sr))
    else
      var p :- SymbolId(sr, conv);
      Ok((Some(SymbolToken(FindKnownSymbol(p.1.symbols, p.0), p.0)), p.1))
  }

  /** Text resolution of a symbol value: refused for anything but text; a
      symbol whose id the table does not know is an unknown symbol, one it
      knows reads as the table's text, which is then cached. */
  lemma SymbolText(sr: SysReader, conv: Conversion)
    requires Good(sr.raw)
    ensures sr.raw.cur.ionType !in {Some(IonString), Some(IonSymbol)} ==> StringValue(sr, conv) == Err(IllegalState)
    ensures sr.raw.cur.ionType in {Some(IonString), Some(IonSymbol)} && sr.raw.cur.isNull ==>
              StringValue(sr, conv) == Ok((None, sr))
    ensures sr.raw.cur.ionType == Some(IonSymbol) && !HasValueOfType(sr.v, StringAs) && SymbolId(sr, conv).Ok? ==>
              var (sid, sr1) := SymbolId(sr, conv).value;
              if sid in sr.symbols then
                StringValue(sr, conv) == Ok((Some(sr.symbols[sid]), sr1.(v := AddValue(sr1.v, StringRep(sr.symbols[sid])))))
              else StringValue(sr, conv) == Err(UnknownSymbol(sid))
  {
  }

  /** Once a symbol's text is cached, asking again neither reads nor looks
      up anything. */
  lemma StringValueCached(sr: SysReader, conv: Conversion)
    requires Good(sr.raw) && StringValue(sr, conv).Ok?
    ensures var (text, sr1) := StringValue(sr, conv).value;
            StringValue(sr1, conv) == Ok((text, sr1))
  {
    var (text, sr1) := StringValue(sr, conv).value;
    if text.Some? && sr.raw.cur.ionType == Some(IonString) {
      PrepareDecodesOnce(sr, StringAs, StringAs, conv);
    }
  }

  /** `getFieldName`: none for `UNKNOWN_SYMBOL_ID`; otherwise the text of
      the field id, which the table must know. */
  function GetFieldName(sr: SysReader): (res: Result<Option<seq<jchar>>>)
    ensures sr.raw.cur.fieldId == UNKNOWN_SID <==> res == Ok(None)
    ensures res.Ok? && res.value.Some? ==>
              sr.raw.cur.fieldId in sr.symbols && sr.symbols[sr.raw.cur.fieldId] == res.value.value
    ensures res.Err? <==> sr.raw.cur.fieldId != UNKNOWN_SID && sr.raw.cur.fieldId !in sr.symbols
    ensures res.Err? ==> res.error == UnknownSymbol(sr.raw.cur.fieldId)
  {
    var fid := sr.raw.cur.fieldId;
    if fid == UNKNOWN_SID then Ok(None)
    else match FindKnownSymbol(sr.symbols, fid)
      case None => Err(UnknownSymbol(fid))
      case Some(name) => Ok(Some(name))
  }

  /** `getFieldNameSymbol`: none for `UNKNOWN_SYMBOL_ID`; otherwise the
      field id with its text, known or not. */
  function GetFieldNameSymbol(sr: SysReader): (res: Option<SymbolToken>)
    ensures res.None? <==> sr.raw.cur.fieldId == UNKNOWN_SID
    ensures res.Some? ==> res.value.sid == sr.raw.cur.fieldId &&
                          (res.value.text.Some? <==> GetFieldName(sr).Ok?) &&
                          (res.value.text.Some? ==> GetFieldName(sr) == Ok(res.value.text))
  {
    var fid := sr.raw.cur.fieldId;
    if fid == UNKNOWN_SID then None else Some(SymbolToken(FindKnownSymbol(sr.symbols, fid), fid))
  }

  // ------------------------------------------------------------ annotations

  /** The annotation ids in an annotation block: VarUInts read one after the
      other until the block is used up; an empty block holds none. */
  function AnnotationIds(s: Source): (r: Result<seq<int>>)
    requires Valid(s) && s.budget.NoLimit?
    ensures r.Ok? ==> forall i | 0 <= i < |r.value| :: 0 <= r.value[i] <= INT_MAX
    ensures !Avail(s, 1) ==> r == Ok([])
    ensures r.Err? ==> r.error == UnexpectedEof || r.error == IntOverflow
    decreases |s.data| - s.pos
  {
    var p :- ReadVarUIntOrEof(s);
    match p.0
    case None => Ok([])
    case Some(a) =>
      if IsEof(p.1) then Ok([a])
      else
        var rest :- AnnotationIds(p.1);
        Ok([a] + rest)
  }

  /** The bytes of an annotation block: the ids' VarUInts in order. */
  function AnnotationBytes(ids: seq<int>): seq<byte>
    requires forall i | 0 <= i < |ids| :: 0 <= ids[i] <= INT_MAX
  {
    if |ids| == 0 then [] else VarUIntBytes(ids[0]) + AnnotationBytes(ids[1..])
  }

  /** An annotation block written as the ids' VarUInts reads back as those
      ids. */
  lemma {:induction false} AnnotationIdsRoundTrip(s: Source, ids: seq<int>)
    requires forall i | 0 <= i < |ids| :: 0 <= ids[i] <= INT_MAX
    requires s.budget.NoLimit? && At(s, AnnotationBytes(ids)) && s.pos + |AnnotationBytes(ids)| == |s.data|
    ensures AnnotationIds(s) == Ok(ids)
    decreases |ids|
  {
    if |ids| > 0 {
      var s1 := AnnotationStep(s, ids);
      if |ids| > 1 {
        AnnotationIdsRoundTrip(s1, ids[1..]);
        AnnotationCons(s, s1, ids);
      } else {
        AnnotationLast(s, s1, ids);
      }
    }
  }

  lemma AnnotationStep(s: Source, ids: seq<int>) returns (s1: Source)
    requires |ids| > 0 && forall i | 0 <= i < |ids| :: 0 <= ids[i] <= INT_MAX
    requires s.budget.NoLimit? && At(s, AnnotationBytes(ids)) && s.pos + |AnnotationBytes(ids)| == |s.data|
    ensures Valid(s) && ReadVarUIntOrEof(s) == Ok((Some(ids[0]), s1))
    ensures s1.budget.NoLimit? && At(s1, AnnotationBytes(ids[1..])) && s1.pos + |AnnotationBytes(ids[1..])| == |s1.data|
    ensures IsEof(s1) <==> |ids| == 1
  {
    var head := VarUIntBytes(ids[0]);
    var tail := AnnotationBytes(ids[1..]);
    s1 := AtSplit(s, head, tail);
    VarUIntRoundTrip(s, ids[0]);
    if |ids| > 1 {
      assert |VarUIntBytes(ids[1])| >= 1;
    }
  }

  lemma AnnotationCons(s: Source, s1: Source, ids: seq<int>)
    requires |ids| > 1 && Valid(s) && s.budget.NoLimit?
    requires ReadVarUIntOrEof(s) == Ok((Some(ids[0]), s1)) && !IsEof(s1)
    requires Valid(s1) && s1.budget.NoLimit? && AnnotationIds(s1) == Ok(ids[1..])
    ensures AnnotationIds(s) == Ok(ids)
  {
    assert [ids[0]] + ids[1..] == ids;
  }

  lemma AnnotationLast(s: Source, s1: Source, ids: seq<int>)
    requires |ids| == 1 && Valid(s) && s.budget.NoLimit?
    requires ReadVarUIntOrEof(s) == Ok((Some(ids[0]), s1)) && Valid(s1) && IsEof(s1)
    ensures AnnotationIds(s) == Ok(ids)
  {
    assert [ids[0]] == ids;
  }

  /** `load_annotations`: the annotation ids of the current value, read
      from its annotation block; refused unless the value is ready. */
  function LoadAnnotations(r: Reader): (res: Result<seq<int>>)
    ensures !(r.state.BeforeValue? || r.state.AfterValue?) <==> res == Err(IllegalState)
    ensures r.cur.annotations.None? && (r.state.BeforeValue? || r.state.AfterValue?) ==> res == Ok([])
    ensures res.Ok? ==> forall i | 0 <= i < |res.value| :: 0 <= res.value[i] <= INT_MAX
  {
    if !(r.state.BeforeValue? || r.state.AfterValue?) then Err(IllegalState)
    else match r.cur.annotations
      case None => Ok([])
      case Some(block) => AnnotationIds(Source(block, 0, NoLimit))
  }

  /** The texts of the annotation ids, in order; the first id the table
      does not know is an unknown symbol. */
  function ResolveAll(ids: seq<int>, symbols: Symbols): (r: Result<seq<seq<jchar>>>)
    ensures r.Ok? <==> forall i | 0 <= i < |ids| :: ids[i] in symbols
    ensures r.Ok? ==> |r.value| == |ids| && forall i | 0 <= i < |ids| :: r.value[i] == symbols[ids[i]]
    ensures r.Err? ==> exists i | 0 <= i < |ids| ::
                         ids[i] !in symbols && r.error == UnknownSymbol(ids[i]) &&
                         forall j | 0 <= j < i :: ids[j] in symbols
    decreases |ids|
  {
    if |ids| == 0 then Ok([])
    else match FindKnownSymbol(symbols, ids[0])
      case None => Err(UnknownSymbol(ids[0]))
      case Some(name) =>
        var rest :- ResolveAll(ids[1..], symbols);
        Ok([name] + rest)
  }

  /** `getTypeAnnotations`: the texts of the current value's annotations. */
  function GetTypeAnnotations(sr: SysReader): (res: Result<seq<seq<jchar>>>)
    ensures res.Ok? ==> LoadAnnotations(sr.raw).Ok? &&
                        ResolveAll(LoadAnnotations(sr.raw).value, sr.symbols) == res
  {
    var ids :- LoadAnnotations(sr.raw);
    ResolveAll(ids, sr.symbols)
  }

  /** `getTypeAnnotationSymbols`: the current value's annotation ids, each
      with its text when the table knows it. */
  function GetTypeAnnotationSymbols(sr: SysReader): (res: Result<seq<SymbolToken>>)
    ensures res.Ok? <==> LoadAnnotations(sr.raw).Ok?
    ensures res.Ok? ==> var ids := LoadAnnotations(sr.raw).value;
              |res.value| == |ids| &&
              forall i | 0 <= i < |ids| :: res.value[i] == SymbolToken(FindKnownSymbol(sr.symbols, ids[i]), ids[i])
  {
    var ids :- LoadAnnotations(sr.raw);
    Ok(seq(|ids|, i requires 0 <= i < |ids| => SymbolToken(FindKnownSymbol(sr.symbols, ids[i]), ids[i])))
  }

  /** The annotation texts are all there or the call fails: they resolve
      exactly when every annotation symbol has its text, and then they are
      those texts. */
  lemma AnnotationsAgree(sr: SysReader)
    requires LoadAnnotations(sr.raw).Ok?
    ensures GetTypeAnnotationSymbols(sr).Ok?
    ensures var toks := GetTypeAnnotationSymbols(sr).value;
            (GetTypeAnnotations(sr).Ok? <==> forall i | 0 <= i < |toks| :: toks[i].text.Some?) &&
            (GetTypeAnnotations(sr).Ok? ==>
               |GetTypeAnnotations(sr).value| == |toks| &&
               forall i | 0 <= i < |toks| :: Some(GetTypeAnnotations(sr).value[i]) == toks[i].text)
  {
  }

  // ------------------------------------------------------------ navigation

  /** Whether `hasNext` or `next` scans for a new value, clearing the old. */
  predicate Fetches(r: Reader) {
    !r.eof && r.hasNextNeeded
  }

  /** The cache after a scan: empty, except that the version marker leaves
      its symbol id in it. */
  function FreshCache(c: Current): Variant {
    if c.preset.Some? then Variant([IntRep(c.preset.value)]) else Empty
  }

  /** `hasNext` of the system reader: the raw reader's, with the cache reset
      whenever a new value is scanned. */
  function SysHasNext(sr: SysReader): (res: Result<(bool, SysReader)>)
    requires Good(sr.raw)
    ensures res.Ok? ==> Good(res.value.1.raw) && res.value.1.symbols == sr.symbols
    ensures res.Ok? ==> HasNext(sr.raw) == Ok((res.value.0, res.value.1.raw))
    ensures res.Ok? && Fetches(sr.raw) ==> res.value.1.v == FreshCache(res.value.1.raw.cur)
    ensures !Fetches(sr.raw) ==> res == Ok((!sr.raw.eof, sr))
  {
    var p :- HasNext(sr.raw);
    Ok((p.0, sr.(raw := p.1, v := if Fetches(sr.raw) then FreshCache(p.1.cur) else sr.v)))
  }

  /** `next` of the system reader: the raw reader's, with the cache reset
      whenever a new value is scanned. */
  function SysNext(sr: SysReader): (res: Result<(Option<IonType>, SysReader)>)
    requires Good(sr.raw)
    ensures res.Ok? ==> Good(res.value.1.raw) && res.value.1.symbols == sr.symbols
    ensures res.Ok? ==> Next(sr.raw) == Ok((res.value.0, res.value.1.raw))
    ensures res.Ok? && Fetches(sr.raw) ==> res.value.1.v == FreshCache(res.value.1.raw.cur)
    ensures res.Ok? && !Fetches(sr.raw) ==> res.value.1.v == sr.v
  {
    var p :- Next(sr.raw);
    Ok((p.0, sr.(raw := p.1, v := if Fetches(sr.raw) then FreshCache(p.1.cur) else sr.v)))
  }

  /** `stepIn`: the container's value is cleared, so the cache is emptied. */
  function SysStepIn(sr: SysReader): (res: Result<SysReader>)
    requires Good(sr.raw)
    ensures res.Ok? <==> StepIn(sr.raw).Ok?
    ensures res.Ok? ==> res.value == SysReader(StepIn(sr.raw).value, Empty, sr.symbols)
  {
    var raw :- StepIn(sr.raw);
    Ok(SysReader(raw, Empty, sr.symbols))
  }

  /** `stepOut`: the raw reader's, which leaves the cache as it is. */
  function SysStepOut(sr: SysReader): (res: Result<SysReader>)
    requires Good(sr.raw)
    ensures res.Ok? <==> StepOut(sr.raw).Ok?
    ensures res.Ok? ==> res.value == sr.(raw := StepOut(sr.raw).value)
  {
    var raw :- StepOut(sr.raw);
    Ok(sr.(raw := raw))
  }

  /** A scan forgets the previous value: after `next` finds an ordinary
      value, the cache is empty, so the first getter decodes the new
      payload; `hasNext` before `next` scans once, and the value found is
      neither scanned nor cleared again. */
  lemma NextForgets(sr: SysReader)
    requires Good(sr.raw) && Fetches(sr.raw) && SysNext(sr).Ok?
    ensures var sr1 := SysNext(sr).value.1;
            sr1.raw.cur.preset.None? ==> IsEmpty(sr1.v)
    ensures SysHasNext(sr).Ok? && SysHasNext(sr).value.0 ==>
              var sr1 := SysHasNext(sr).value.1;
              SysNext(sr1) == Ok((sr1.raw.cur.ionType, sr1.(raw := sr1.raw.(hasNextNeeded := true))))
  {
  }

  /** After the version marker, its symbol id `$ion_1_0` is read from the
      cache, whatever the conversion table, without touching the input. */
  lemma MarkerSymbolId(sr: SysReader, conv: Conversion)
    requires Good(sr.raw) && sr.raw.cur.ionType == Some(IonSymbol) && !sr.raw.cur.isNull
    requires sr.raw.cur.preset == Some(ION_1_0_SID) && sr.v == FreshCache(sr.raw.cur)
    ensures SymbolId(sr, conv) == Ok((ION_1_0_SID, sr))
  {
  }
}
