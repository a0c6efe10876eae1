/** The decimal payload of the raw binary reader (`readDecimal`): a VarInt
    exponent followed by a sign-and-magnitude coefficient. */
module Decimals {
  import opened Wrappers
  import opened JavaInts
  import opened ByteSource
  import opened VarInts

  /** An Ion decimal, coefficient × 10^(−scale).  A zero coefficient read
      with the sign bit set is kept apart as `negativeZero`. */
  datatype Decimal = Decimal(unscaled: int, scale: int, negativeZero: bool)

  /** The value a zero-length decimal payload stands for. */
  const Zero := Decimal(0, 0, false)

  /** The coefficient bytes: sign in the high bit of the first byte, magnitude
      big-endian in the rest of the bits.  No bytes is a positive zero. */
  function CoefficientSign(bs: seq<byte>): bool {
    |bs| > 0 && bs[0] >= 128
  }

  function CoefficientMagnitude(bs: seq<byte>): int {
    if |bs| == 0 then 0 else Horner(256, 0, [bs[0] % 128] + bs[1..])
  }

  /** The decimal an exponent and the coefficient bytes after it stand for.
      The scale is the exponent negated as a Java int, so the exponent
      Integer.MIN_VALUE gives itself back as the scale. */
  function FromParts(exponent: int, bs: seq<byte>): (d: Decimal)
    ensures d.negativeZero ==> d.unscaled == 0
    ensures IsInt(-exponent) ==> d.scale == -exponent
  {
    var negative := CoefficientSign(bs);
    var magnitude := CoefficientMagnitude(bs);
    Decimal(if negative then -magnitude else magnitude, ToInt(-exponent), negative && magnitude == 0)
  }

  /** The payload, read under a budget of its own (`_local_remaining = len`):
      the decimal and the source after it, still under that budget. */
  function ReadPayload(s: Source): (r: Result<(Decimal, Source)>)
    requires Valid(s) && s.budget.Limit?
    ensures r.Ok? ==> Valid(r.value.1) && r.value.1.data == s.data && r.value.1.budget.Limit?
    ensures r.Ok? ==> r.value.0.negativeZero ==> r.value.0.unscaled == 0
  {
    var e :- ReadVarInt(s);
    var n := e.1.budget.n;
    var c :- if n > 0 then ReadInto(e.1, n) else Ok(([], e.1));
    Ok((FromParts(e.0, c.0), c.1))
  }

  /** The payload as `readDecimal` reads it: the exponent is read with the
      wrapping `readVarInt`.  Wherever the corrected payload reader succeeds
      the two agree. */
  function ReadPayloadAsWritten(s: Source): (r: Result<(Decimal, Source)>)
    requires Valid(s) && s.budget.Limit?
    ensures ReadPayload(s).Ok? ==> r == ReadPayload(s)
    ensures r.Err? ==> ReadPayload(s).Err?
    ensures r.Ok? ==> Valid(r.value.1) && r.value.1.data == s.data && r.value.1.budget.Limit?
  {
    var e :- ReadVarIntAsWritten(s);
    var n := e.1.budget.n;
    var c :- if n > 0 then ReadInto(e.1, n) else Ok(([], e.1));
    Ok((FromParts(e.0, c.0), c.1))
  }

  /** `readDecimal(len)`: zero for an empty payload; otherwise the payload
      read under a budget of `len`, after which the outer budget is reset to
      what it was less `len`. */
  function ReadDecimal(s: Source, len: int): (r: Result<(Decimal, Source)>)
    requires Valid(s) && 0 <= len <= INT_MAX
    ensures len == 0 ==> r == Ok((Zero, s))
    ensures r.Ok? ==> Valid(r.value.1) && r.value.1.data == s.data
    ensures r.Ok? && len > 0 ==> r.value.1.budget == RestoreBudget(s.budget, len)
    ensures r.Ok? ==> r.value.0.negativeZero ==> r.value.0.unscaled == 0
  {
    if len == 0 then Ok((Zero, s))
    else
      var p :- ReadPayload(s.(budget := Limit(len)));
      Ok((p.0, p.1.(budget := RestoreBudget(s.budget, len))))
  }

  /** `readDecimal(len)` as written: the exponent wraps like `readVarInt`, and
      the outer budget is restored with the wrapping int subtraction.  Where
      the corrected reader succeeds the decimal and the position agree, and
      on a limited budget so does everything; where it fails so does this
      one, except on an exponent that only the corrected reader rejects. */
  function ReadDecimalAsWritten(s: Source, len: int): (r: Result<(Decimal, Source)>)
    requires Valid(s) && 0 <= len <= INT_MAX
    ensures len == 0 ==> r == Ok((Zero, s))
    ensures ReadDecimal(s, len).Ok? ==>
              r.Ok? && r.value.0 == ReadDecimal(s, len).value.0 &&
              r.value.1.pos == ReadDecimal(s, len).value.1.pos
    ensures s.budget.Limit? && ReadDecimal(s, len).Ok? ==> r == ReadDecimal(s, len)
    ensures r.Err? ==> ReadDecimal(s, len).Err?
    ensures r.Ok? ==> Valid(r.value.1) && r.value.1.data == s.data
    ensures r.Ok? && len > 0 ==> r.value.1.budget == RestoreBudgetAsWritten(s.budget, len)
  {
    if len == 0 then Ok((Zero, s))
    else
      var p :- ReadPayloadAsWritten(s.(budget := Limit(len)));
      Ok((p.0, p.1.(budget := RestoreBudgetAsWritten(s.budget, len))))
  }

  function Abs(x: int): nat {
    if x < 0 then -x else x
  }

  /** The decimals `DecimalBytes` can write with a `k`-byte magnitude: an
      int-sized scale, a magnitude below 256^k, and negative zero only with a
      zero coefficient. */
  predicate Encodable(d: Decimal, k: nat) {
    -INT_MAX <= d.scale <= INT_MAX && Abs(d.unscaled) < Pow256(k) &&
    (d.negativeZero ==> d.unscaled == 0)
  }

  /** The coefficient bytes of `d`: nothing for a positive zero, otherwise a
      sign byte followed by the magnitude in `k` bytes. */
  function CoefficientBytes(d: Decimal, k: nat): seq<byte>
    requires Encodable(d, k)
  {
    if d.unscaled == 0 && !d.negativeZero then []
    else [if d.unscaled < 0 || d.negativeZero then 0x80 else 0x00] + UIntBytes(Abs(d.unscaled), k)
  }

  /** The Ion binary payload of a decimal whose coefficient magnitude fits in
      `k` bytes: the exponent (the negated scale) as a VarInt, then the
      coefficient bytes. */
  function DecimalBytes(d: Decimal, k: nat): seq<byte>
    requires Encodable(d, k)
  {
    VarIntBytes(d.scale > 0, Abs(d.scale)) + CoefficientBytes(d, k)
  }

  /** The coefficient bytes of `d` read back after its exponent give `d`. */
  lemma CoefficientRoundTrip(d: Decimal, k: nat)
    requires Encodable(d, k)
    ensures FromParts(-d.scale, CoefficientBytes(d, k)) == d
  {
    var cb := CoefficientBytes(d, k);
    if |cb| > 0 {
      var ub := UIntBytes(Abs(d.unscaled), k);
      assert cb[1..] == ub;
      assert [cb[0] % 128] + cb[1..] == [0] + ub;
    }
  }

  /** `ReadPayload` in terms of the exponent read first and the coefficient
      bytes read after it. */
  lemma PayloadSteps(s: Source, exponent: int, s1: Source, cb: seq<byte>, d: Decimal, t: Source)
    requires Valid(s) && s.budget.Limit? && ReadVarInt(s) == Ok((exponent, s1))
    requires s1.budget.n == |cb| && Avail(s1, |cb|) && s1.data[s1.pos..s1.pos + |cb|] == cb
    requires FromParts(exponent, cb) == d && t == Advance(s1, |cb|)
    ensures ReadPayload(s) == Ok((d, t))
  {
    CoefficientRead(s1, cb, t);
  }

  /** The coefficient read takes exactly the bytes the budget covers. */
  lemma CoefficientRead(s1: Source, cb: seq<byte>, t: Source)
    requires Valid(s1) && s1.budget == Limit(|cb|) && Avail(s1, |cb|)
    requires s1.data[s1.pos..s1.pos + |cb|] == cb && t == Advance(s1, |cb|)
    ensures (if s1.budget.n > 0 then ReadInto(s1, s1.budget.n) else Ok(([], s1))) == Ok((cb, t))
  {
    if |cb| == 0 {
      assert cb == [] && t == s1;
    }
  }

  /** A payload of `len` bytes made of a VarInt exponent and coefficient
      bytes `cb` that stand for `d`, read under a budget of exactly `len`. */
  lemma PartsRoundTrip(s: Source, negative: bool, m: nat, cb: seq<byte>, d: Decimal, len: nat)
    requires Valid(s) && m <= INT_MAX && len == |VarIntBytes(negative, m)| + |cb|
    requires FromParts(if negative then -(m as int) else m, cb) == d
    requires s.budget == Limit(len) && Avail(s, len)
    requires s.data[s.pos..s.pos + len] == VarIntBytes(negative, m) + cb
    ensures ReadPayload(s) == Ok((d, Advance(s, len)))
  {
    var eb := VarIntBytes(negative, m);
    assert At(s, eb + cb);
    var s1 := AtSplit(s, eb, cb);
    VarIntRoundTrip(s, negative, m);
    assert s1.budget.n == |cb|;
    PayloadSteps(s, if negative then -(m as int) else m, s1, cb, d, Advance(s, len));
  }

  /** The payload read under its own budget of exactly its length. */
  lemma PayloadRoundTrip(s: Source, d: Decimal, k: nat)
    requires Valid(s) && Encodable(d, k) && s.budget == Limit(|DecimalBytes(d, k)|)
    requires Avail(s, |DecimalBytes(d, k)|)
    requires s.data[s.pos..s.pos + |DecimalBytes(d, k)|] == DecimalBytes(d, k)
    ensures ReadPayload(s) == Ok((d, Advance(s, |DecimalBytes(d, k)|)))
  {
    var eb := VarIntBytes(d.scale > 0, Abs(d.scale));
    var cb := CoefficientBytes(d, k);
    assert DecimalBytes(d, k) == eb + cb;
    CoefficientRoundTrip(d, k);
    assert (if d.scale > 0 then -(Abs(d.scale) as int) else Abs(d.scale)) == -d.scale;
    PartsRoundTrip(s, d.scale > 0, Abs(d.scale), cb, d, |DecimalBytes(d, k)|);
  }

  /** Reading the payload `DecimalBytes(d, k)` gives back `d`, consumes exactly
      the payload and leaves the outer budget less the payload length. */
  lemma DecimalRoundTrip(s: Source, d: Decimal, k: nat)
    requires Valid(s) && Encodable(d, k)
    requires |DecimalBytes(d, k)| <= INT_MAX && Avail(s, |DecimalBytes(d, k)|)
    requires s.data[s.pos..s.pos + |DecimalBytes(d, k)|] == DecimalBytes(d, k)
    ensures ReadDecimal(s, |DecimalBytes(d, k)|) == Ok((d, Advance(s, |DecimalBytes(d, k)|)))
  {
    var len := |DecimalBytes(d, k)|;
    var s0 := s.(budget := Limit(len));
    PayloadRoundTrip(s0, d, k);
    var t := Advance(s0, len);
    assert ReadPayload(s0) == Ok((d, t));
    assert t.(budget := RestoreBudget(s.budget, len)) == Advance(s, len);
  }

  /** A top-level decimal 0d0 (type descriptor 0x51, payload 0x80) read with
      the as-written restore leaves the unlimited top-level budget limited to
      2^31 - 1 bytes; the corrected restore leaves it unlimited. */
  lemma TopLevelDecimalLeavesLimit()
    ensures ReadDecimalAsWritten(Source([0x51, 0x80], 1, NoLimit), 1) ==
            Ok((Decimal(0, 0, false), Source([0x51, 0x80], 2, Limit(0x7FFF_FFFF))))
    ensures ReadDecimal(Source([0x51, 0x80], 1, NoLimit), 1) ==
            Ok((Decimal(0, 0, false), Source([0x51, 0x80], 2, NoLimit)))
  {
    var s := Source([0x51, 0x80], 1, Limit(1));
    var t := Source([0x51, 0x80], 2, Limit(0));
    assert Read(s) == (0x80, t);
    assert s.data[1..2] == [0x80];
    assert ReadVarIntParts(s) == Ok((false, 0, t));
    assert ReadVarInt(s) == Ok((0, t));
    assert ReadPayload(s) == Ok((Decimal(0, 0, false), t));
  }

  /** The exponent 10 00 00 00 80 is 2^32: `readDecimal` as written wraps it
      to 0 and reads the five-byte payload as 0d0, leaving an unlimited
      budget limited; the corrected reader reports an overflow. */
  lemma WrappedExponentReadsAsZero()
    ensures ReadDecimalAsWritten(Source([0x10, 0x00, 0x00, 0x00, 0x80], 0, NoLimit), 5) ==
            Ok((Decimal(0, 0, false), Source([0x10, 0x00, 0x00, 0x00, 0x80], 5, Limit(0x8000_0000 - 5))))
    ensures ReadDecimal(Source([0x10, 0x00, 0x00, 0x00, 0x80], 0, NoLimit), 5) == Err(IntOverflow)
  {
    var run: seq<byte> := [0x10, 0x00, 0x00, 0x00, 0x80];
    var s0 := Source(run, 0, NoLimit);
    var s := s0.(budget := Limit(5));
    assert s.data[0..5] == run;
    WrappedExponentPayload(s);
    DecimalOfPayload(s0, 5);
    assert ReadDecimalAsWritten(s0, 5) == Ok((Decimal(0, 0, false), Source(run, 5, Limit(0x8000_0000 - 5)))) by {
      var t := Source(run, 5, Limit(0));
      assert Advance(s, 5) == t;
      var b := RestoreBudgetAsWritten(s0.budget, 5);
      assert b == Limit(0x8000_0000 - 5);
      assert t.(budget := b) == Source(run, 5, Limit(0x8000_0000 - 5));
    }
  }

  /** A non-empty decimal is its payload read under a budget of `len`, with
      the outer budget then restored, by each reader its own way. */
  lemma DecimalOfPayload(s: Source, len: int)
    requires Valid(s) && 0 < len <= INT_MAX
    ensures var p := ReadPayloadAsWritten(s.(budget := Limit(len)));
            p.Ok? ==> ReadDecimalAsWritten(s, len) ==
                      Ok((p.value.0, p.value.1.(budget := RestoreBudgetAsWritten(s.budget, len))))
    ensures var p := ReadPayload(s.(budget := Limit(len)));
            p.Err? ==> ReadDecimal(s, len) == Err(p.error)
  {
  }

  /** A payload of exactly the five exponent bytes 10 00 00 00 80. */
  lemma WrappedExponentPayload(s: Source)
    requires s.budget == Limit(5) && At(s, [0x10, 0x00, 0x00, 0x00, 0x80])
    ensures ReadPayloadAsWritten(s) == Ok((Decimal(0, 0, false), Advance(s, 5)))
    ensures ReadPayload(s) == Err(IntOverflow)
  {
    WrappedVarIntAt(s, [0x10, 0x00, 0x00, 0x00, 0x80]);
    assert Advance(s, 5).budget == Limit(0);
    assert FromParts(0, []) == Decimal(0, 0, false);
  }
}
