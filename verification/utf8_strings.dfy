/** The string payload of the raw binary reader (`readString` and
    `readUnicodeScalar`): UTF-8 sequences, as section 3 of RFC 3629 lays them
    out, decoded one scalar at a time into Java chars, with scalars above
    0xFFFF split into the surrogate pairs of section 2.1 of RFC 2781. */
module Utf8Strings {
  import opened Wrappers
  import opened JavaInts
  import opened ByteSource

  /** A Java `char`: one UTF-16 code unit. */
  type jchar = c: int | 0 <= c < 0x1_0000

  /** A Unicode scalar value: a code point that is not a surrogate. */
  type Scalar = c: int | 0 <= c <= 0x10_FFFF && !(0xD800 <= c <= 0xDFFF)

  /** The length of the UTF-8 sequence a byte starts, by the lead-byte
      patterns 0xxxxxxx, 110xxxxx, 1110xxxx and 11110xxx; 0 for a byte that
      starts none (a continuation byte, or 11111xxx). */
  function SequenceLength(b: byte): nat {
    if b < 0x80 then 1
    else if 0xC0 <= b < 0xE0 then 2
    else if 0xE0 <= b < 0xF0 then 3
    else if 0xF0 <= b < 0xF8 then 4
    else 0
  }

  /** A continuation byte, 10xxxxxx.  The end-of-input value -1 is none. */
  predicate IsContinuation(b: int) {
    0x80 <= b < 0xC0
  }

  /** One continuation byte: its six payload bits, or an encoding error. */
  function ReadContinuation(s: Source): (r: Result<(int, Source)>)
    requires Valid(s)
    ensures r.Ok? ==> 0 <= r.value.0 < 64 && Avail(s, 1) && r.value.1 == Advance(s, 1) &&
                      r.value.0 + 0x80 == s.data[s.pos]
    ensures r.Err? ==> r.error == InvalidUtf8
  {
    var (b, t) := Read(s);
    if IsContinuation(b) then Ok((b % 64, t)) else Err(InvalidUtf8)
  }

  /** The rest of a two-byte sequence after its lead byte `b`. */
  function TwoByteScalar(b: byte, s: Source): (r: Result<(int, Source)>)
    requires Valid(s)
    ensures r.Ok? ==> 0 <= r.value.0 < 0x800 && Avail(s, 1) && r.value.1 == Advance(s, 1)
    ensures r.Err? ==> r.error == InvalidUtf8
  {
    var c2 :- ReadContinuation(s);
    Ok(((b % 32) * 64 + c2.0, c2.1))
  }

  /** The rest of a three-byte sequence after its lead byte `b`. */
  function ThreeByteScalar(b: byte, s: Source): (r: Result<(int, Source)>)
    requires Valid(s)
    ensures r.Ok? ==> 0 <= r.value.0 < 0x1_0000 && Avail(s, 2) && r.value.1 == Advance(s, 2)
    ensures r.Err? ==> r.error == InvalidUtf8
  {
    var c2 :- ReadContinuation(s);
    var c3 :- ReadContinuation(c2.1);
    AdvanceAdd(s, 1, 1);
    Ok(((b % 16) * 4096 + c2.0 * 64 + c3.0, c3.1))
  }

  /** The rest of a four-byte sequence after its lead byte `b`; a scalar
      above 0x10FFFF is an encoding error. */
  function FourByteScalar(b: byte, s: Source): (r: Result<(int, Source)>)
    requires Valid(s)
    ensures r.Ok? ==> 0 <= r.value.0 <= 0x10_FFFF && Avail(s, 3) && r.value.1 == Advance(s, 3)
    ensures r.Err? ==> r.error == InvalidUtf8
  {
    var c2 :- ReadContinuation(s);
    var c3 :- ReadContinuation(c2.1);
    var c4 :- ReadContinuation(c3.1);
    AdvanceAdd(s, 1, 1);
    AdvanceAdd(s, 2, 1);
    var c := (b % 8) * 0x4_0000 + c2.0 * 4096 + c3.0 * 64 + c4.0;
    if c > 0x10_FFFF then Err(InvalidUtf8) else Ok((c, c4.1))
  }

  /** `readUnicodeScalar`: one UTF-8 sequence folded into its scalar, the
      payload bits of the lead byte first.  A one-byte sequence, and the end
      of input, are returned as read; a bad lead or continuation byte, or a
      four-byte sequence above 0x10FFFF, is an encoding error.  Overlong forms
      and surrogate code points are not rejected. */
  function ReadUnicodeScalar(s: Source): (r: Result<(int, Source)>)
    requires Valid(s)
    ensures r.Ok? ==> Valid(r.value.1) && r.value.1.data == s.data
    ensures r.Ok? ==> (r.value.0 == EOF <==> !Avail(s, 1)) && EOF <= r.value.0 <= 0x10_FFFF
    ensures r.Ok? && r.value.0 != EOF ==>
              var k := r.value.1.pos - s.pos;
              1 <= k <= 4 && Avail(s, k) && r.value.1 == Advance(s, k) &&
              (r.value.0 >= 0x1_0000 ==> k == 4)
    ensures r.Err? ==> r.error == InvalidUtf8
  {
    var (b, s1) := Read(s);
    if b < 0x80 then Ok((b, s1)) else MultiByteScalar(s, b, s1)
  }

  /** The sequence a lead byte `b` of 0x80 or more starts, read at `s`
      with `s1` the source past the lead byte. */
  function MultiByteScalar(s: Source, b: byte, s1: Source): (r: Result<(int, Source)>)
    requires Valid(s) && Avail(s, 1) && b >= 0x80 && s1 == Advance(s, 1)
    ensures r.Ok? ==>
              var k := r.value.1.pos - s.pos;
              2 <= k <= 4 && Avail(s, k) && r.value.1 == Advance(s, k) &&
              0 <= r.value.0 <= 0x10_FFFF && (r.value.0 >= 0x1_0000 ==> k == 4)
    ensures r.Err? ==> r.error == InvalidUtf8
  {
    var n := SequenceLength(b);
    if n < 2 then Err(InvalidUtf8)
    else
      var c :- ContinuedScalar(n, b, s1);
      AdvanceAdd(s, 1, n - 1);
      Ok(c)
  }

  /** The continuation bytes of an `n`-byte sequence with lead byte `b`. */
  function ContinuedScalar(n: nat, b: byte, s1: Source): (r: Result<(int, Source)>)
    requires Valid(s1) && 2 <= n <= 4
    ensures r.Ok? ==> Avail(s1, n - 1) && r.value.1 == Advance(s1, n - 1) &&
                      0 <= r.value.0 <= 0x10_FFFF && (r.value.0 >= 0x1_0000 ==> n == 4)
    ensures r.Err? ==> r.error == InvalidUtf8
  {
    if n == 2 then TwoByteScalar(b, s1)
    else if n == 3 then ThreeByteScalar(b, s1)
    else FourByteScalar(b, s1)
  }

  /** A scalar as Java chars: itself below 0x10000, otherwise the high and
      the low surrogate of the 20 bits of `c - 0x10000`. */
  function Utf16(c: int): (u: seq<jchar>)
    requires 0 <= c <= 0x10_FFFF
    ensures 1 <= |u| <= 2 && (|u| == 2 <==> c >= 0x1_0000)
    ensures |u| == 2 ==> 0xD800 <= u[0] < 0xDC00 && 0xDC00 <= u[1] < 0xE000
  {
    if c < 0x1_0000 then [c]
    else [0xD800 + (c - 0x1_0000) / 0x400, 0xDC00 + (c - 0x1_0000) % 0x400]
  }

  /** The loop of `readString` after the chars `acc`: scalars are read while
      the budget is positive; an end of input inside the payload is an
      unexpected end. */
  function ReadChars(s: Source, acc: seq<jchar>): (r: Result<(seq<jchar>, Source)>)
    requires Valid(s) && s.budget.Limit?
    decreases if s.budget.n > 0 then s.budget.n else 0
    ensures r.Ok? ==> var t := r.value.1;
              Valid(t) && t.data == s.data && s.pos <= t.pos && t.budget.Limit? && t.budget.n <= 0 &&
              (t.pos > s.pos ==> t.budget.n == 0 && t.pos - s.pos == s.budget.n) &&
              (t.pos == s.pos ==> t == s)
    ensures r.Ok? ==> |acc| <= |r.value.0| <= |acc| + (r.value.1.pos - s.pos)
    ensures r.Err? ==> r.error == InvalidUtf8 || r.error == UnexpectedEof
  {
    if s.budget.n <= 0 then Ok((acc, s))
    else
      var c :- ReadUnicodeScalar(s);
      if c.0 < 0 then Err(UnexpectedEof)
      else ReadChars(c.1, acc + Utf16(c.0))
  }

  /** `readString(len)`: the payload read under a budget of `len`, after
      which the outer budget is reset to what it was less `len`. */
  function StringPayload(s: Source, len: int): (r: Result<(seq<jchar>, Source)>)
    requires Valid(s) && 0 <= len <= INT_MAX
    ensures r.Ok? ==> |r.value.0| <= len && Valid(r.value.1) && r.value.1.data == s.data &&
                      r.value.1.budget == RestoreBudget(s.budget, len)
    ensures len == 0 ==> r == Ok(([], s.(budget := RestoreBudget(s.budget, 0))))
  {
    var p :- ReadChars(s.(budget := Limit(len)), []);
    Ok((p.0, p.1.(budget := RestoreBudget(s.budget, len))))
  }

  /** `readString(len)` with its loop: the chars of the payload, never more
      than its byte length, and the source after it. */
  method ReadString(s: Source, len: int) returns (r: Result<(seq<jchar>, Source)>)
    requires Valid(s) && 0 <= len <= INT_MAX
    ensures r == StringPayload(s, len)
    ensures r.Ok? ==> |r.value.0| <= len && r.value.1.budget == RestoreBudget(s.budget, len)
  {
    var t := s.(budget := Limit(len));
    var chars: seq<jchar> := [];
    while !IsEof(t)
      invariant Valid(t) && t.budget.Limit? && t.data == s.data
      invariant ReadChars(t, chars) == ReadChars(s.(budget := Limit(len)), [])
      decreases t.budget.n
    {
      var c := ReadUnicodeScalar(t);
      if c.Err? {
        return Err(c.error);
      }
      if c.value.0 < 0 {
        return Err(UnexpectedEof);
      }
      chars := chars + Utf16(c.value.0);
      t := c.value.1;
    }
    r := Ok((chars, t.(budget := RestoreBudget(s.budget, len))));
  }

  /** `readString(len)` as written: the outer budget is restored with the
      wrapping int subtraction. */
  function StringPayloadAsWritten(s: Source, len: int): (r: Result<(seq<jchar>, Source)>)
    requires Valid(s) && 0 <= len <= INT_MAX
    ensures s.budget.Limit? ==> r == StringPayload(s, len)
    ensures r.Ok? <==> StringPayload(s, len).Ok?
    ensures r.Ok? ==> r.value.0 == StringPayload(s, len).value.0
    ensures r.Ok? ==> r.value.1 == StringPayload(s, len).value.1.(budget := RestoreBudgetAsWritten(s.budget, len))
    ensures r.Ok? && s.budget.NoLimit? && len >= 1 ==> r.value.1.budget == Limit(0x8000_0000 - len)
  {
    var p :- ReadChars(s.(budget := Limit(len)), []);
    Ok((p.0, p.1.(budget := RestoreBudgetAsWritten(s.budget, len))))
  }

  /** The UTF-8 form of a scalar, by the table of section 3 of RFC 3629:
      the scalar's bits taken six at a time from the low end, the highest
      ones going into the lead byte. */
  function Utf8Encode(c: Scalar): (e: seq<byte>)
    ensures 1 <= |e| <= 4 && SequenceLength(e[0]) == |e|
    ensures forall i | 1 <= i < |e| :: IsContinuation(e[i])
  {
    var c1 := c / 64;
    var c2 := c1 / 64;
    if c < 0x80 then [c]
    else if c < 0x800 then [0xC0 + c1, 0x80 + c % 64]
    else if c < 0x1_0000 then [0xE0 + c2, 0x80 + c1 % 64, 0x80 + c % 64]
    else [0xF0 + c2 / 64, 0x80 + c2 % 64, 0x80 + c1 % 64, 0x80 + c % 64]
  }

  /** The UTF-8 form of a run of scalars. */
  function Utf8Bytes(cs: seq<Scalar>): (bs: seq<byte>)
    ensures |cs| <= |bs| <= 4 * |cs|
  {
    if cs == [] then [] else Utf8Encode(cs[0]) + Utf8Bytes(cs[1..])
  }

  /** The Java chars of a run of scalars. */
  function Utf16s(cs: seq<Scalar>): (u: seq<jchar>)
    ensures |cs| <= |u| <= 2 * |cs|
  {
    if cs == [] then [] else Utf16(cs[0]) + Utf16s(cs[1..])
  }

  /** The scalar a surrogate pair, or a single char, stands for. */
  function FromUtf16(u: seq<jchar>): (c: int)
    requires 1 <= |u| <= 2
  {
    if |u| == 1 then u[0] else 0x1_0000 + (u[0] as int - 0xD800) * 0x400 + (u[1] as int - 0xDC00)
  }

  /** A scalar is recovered from its Java chars. */
  lemma Utf16RoundTrip(c: Scalar)
    ensures FromUtf16(Utf16(c)) == c
    ensures |Utf16(c)| == 1 ==> !(0xD800 <= Utf16(c)[0] < 0xE000)
  {
  }

  /** A one-byte sequence reads back as its scalar. */
  lemma OneByteRoundTrip(s: Source, c: Scalar)
    requires c < 0x80 && At(s, Utf8Encode(c))
    ensures ReadUnicodeScalar(s) == Ok((c as int, Advance(s, 1)))
  {
    assert s.data[s.pos] == Utf8Encode(c)[0];
  }

  /** A two-byte sequence reads back as its scalar. */
  lemma TwoByteRoundTrip(s: Source, c: Scalar)
    requires 0x80 <= c < 0x800 && At(s, Utf8Encode(c))
    ensures ReadUnicodeScalar(s) == Ok((c as int, Advance(s, 2)))
  {
    var e := Utf8Encode(c);
    assert s.data[s.pos] == e[0] && s.data[s.pos + 1] == e[1];
    AdvanceAdd(s, 1, 1);
  }

  /** A three-byte sequence reads back as its scalar. */
  lemma ThreeByteRoundTrip(s: Source, c: Scalar)
    requires 0x800 <= c < 0x1_0000 && At(s, Utf8Encode(c))
    ensures ReadUnicodeScalar(s) == Ok((c as int, Advance(s, 3)))
  {
    AtTail(s, Utf8Encode(c));
    ThreeByteTail(Advance(s, 1), c);
    AdvanceAdd(s, 1, 2);
  }

  /** The continuation bytes of a three-byte sequence read back as its scalar. */
  lemma ThreeByteTail(s: Source, c: Scalar)
    requires 0x800 <= c < 0x1_0000 && At(s, Utf8Encode(c)[1..])
    ensures ThreeByteScalar(Utf8Encode(c)[0], s) == Ok((c as int, Advance(s, 2)))
  {
    var e := Utf8Encode(c);
    assert s.data[s.pos] == e[1] && s.data[s.pos + 1] == e[2];
    AdvanceAdd(s, 1, 1);
  }

  /** The bits of a four-byte sequence put back together give its scalar. */
  lemma FourByteValue(c: Scalar)
    requires 0x1_0000 <= c
    ensures var e := Utf8Encode(c);
            (e[0] as int % 8) * 0x4_0000 + (e[1] as int % 64) * 4096 + (e[2] as int % 64) * 64 + e[3] as int % 64 == c
  {
    var c1 := c / 64;
    var c2 := c1 / 64;
    var c3 := c2 / 64;
    assert c == c1 * 64 + c % 64 && c1 == c2 * 64 + c1 % 64 && c2 == c3 * 64 + c2 % 64;
    assert c3 <= 4;
    var e := Utf8Encode(c);
    assert e[0] as int % 8 == c3 && e[1] as int % 64 == c2 % 64;
    assert e[2] as int % 64 == c1 % 64 && e[3] as int % 64 == c % 64;
  }

  /** The continuation bytes of a four-byte sequence read back as its scalar. */
  lemma FourByteTail(s: Source, c: Scalar)
    requires 0x1_0000 <= c && At(s, Utf8Encode(c)[1..])
    ensures FourByteScalar(Utf8Encode(c)[0], s) == Ok((c as int, Advance(s, 3)))
  {
    var e := Utf8Encode(c);
    assert s.data[s.pos] == e[1] && s.data[s.pos + 1] == e[2] && s.data[s.pos + 2] == e[3];
    FourByteValue(c);
    AdvanceAdd(s, 1, 1);
    AdvanceAdd(s, 2, 1);
  }

  /** Past the first of the bytes at the read position are the rest. */
  lemma AtTail(s: Source, e: seq<byte>)
    requires |e| >= 1 && At(s, e)
    ensures Read(s) == (e[0], Advance(s, 1)) && At(Advance(s, 1), e[1..])
  {
    assert s.data[s.pos] == e[0];
    var t := Advance(s, 1);
    assert t.data[t.pos..t.pos + |e[1..]|] == e[1..];
  }

  /** A four-byte sequence reads back as its scalar. */
  lemma FourByteRoundTrip(s: Source, c: Scalar)
    requires 0x1_0000 <= c && At(s, Utf8Encode(c))
    ensures ReadUnicodeScalar(s) == Ok((c as int, Advance(s, 4)))
  {
    AtTail(s, Utf8Encode(c));
    FourByteTail(Advance(s, 1), c);
    AdvanceAdd(s, 1, 3);
  }

  /** Every scalar's UTF-8 form reads back as the scalar. */
  lemma ScalarRoundTrip(s: Source, c: Scalar)
    requires At(s, Utf8Encode(c))
    ensures ReadUnicodeScalar(s) == Ok((c as int, Advance(s, |Utf8Encode(c)|)))
  {
    if c < 0x80 { OneByteRoundTrip(s, c); }
    else if c < 0x800 { TwoByteRoundTrip(s, c); }
    else if c < 0x1_0000 { ThreeByteRoundTrip(s, c); }
    else { FourByteRoundTrip(s, c); }
  }

  /** Chars appended one scalar at a time are the chars of the whole run. */
  lemma Utf16sStep(acc: seq<jchar>, cs: seq<Scalar>)
    requires cs != []
    ensures acc + Utf16s(cs) == (acc + Utf16(cs[0])) + Utf16s(cs[1..])
  {
    var u, rest := Utf16(cs[0]), Utf16s(cs[1..]);
    assert Utf16s(cs) == u + rest;
    assert acc + (u + rest) == (acc + u) + rest;
  }

  /** The UTF-8 form of a run starts with that of its first scalar. */
  lemma Utf8BytesStep(cs: seq<Scalar>) returns (e: seq<byte>, rest: seq<byte>)
    requires cs != []
    ensures e == Utf8Encode(cs[0]) && rest == Utf8Bytes(cs[1..]) && Utf8Bytes(cs) == e + rest
  {
    e, rest := Utf8Encode(cs[0]), Utf8Bytes(cs[1..]);
  }

  /** The first scalar of an encoded run is at the read position and the
      rest of the run after it. */
  lemma CharsSplit(s: Source, cs: seq<Scalar>) returns (s1: Source)
    requires cs != [] && Encoded(s, Utf8Bytes(cs), 0)
    ensures Valid(s) && s.budget.Limit? && s.budget.n > 0
    ensures ReadUnicodeScalar(s) == Ok((cs[0] as int, s1))
    ensures Encoded(s1, Utf8Bytes(cs[1..]), 0)
    ensures Advance(s1, |Utf8Bytes(cs[1..])|) == Advance(s, |Utf8Bytes(cs)|)
  {
    var e, rest := Utf8BytesStep(cs);
    EncodedSplit(s, e, rest, 0);
    ScalarRoundTrip(s, cs[0]);
    s1 := Advance(s, |e|);
  }

  /** The loop of `readString` over the UTF-8 form of a run of scalars
      appends their Java chars and consumes exactly their bytes. */
  lemma {:induction false} CharsRoundTrip(s: Source, acc: seq<jchar>, cs: seq<Scalar>)
    requires Encoded(s, Utf8Bytes(cs), 0)
    ensures ReadChars(s, acc) == Ok((acc + Utf16s(cs), Advance(s, |Utf8Bytes(cs)|)))
    decreases |cs|
  {
    if cs == [] {
      assert acc + Utf16s(cs) == acc;
      assert Advance(s, 0) == s;
    } else {
      var s1 := CharsSplit(s, cs);
      CharsRoundTrip(s1, acc + Utf16(cs[0]), cs[1..]);
      Utf16sStep(acc, cs);
    }
  }

  /** A string payload written as the UTF-8 form of a run of scalars reads
      back as their Java chars, and the reader ends just past it with the
      outer budget charged for it. */
  lemma StringRoundTrip(s: Source, cs: seq<Scalar>)
    requires Valid(s) && |Utf8Bytes(cs)| <= INT_MAX && At(s, Utf8Bytes(cs))
    ensures StringPayload(s, |Utf8Bytes(cs)|) == Ok((Utf16s(cs), Advance(s, |Utf8Bytes(cs)|)))
  {
    var bs := Utf8Bytes(cs);
    var s0 := EncodedPayload(s, bs);
    CharsRoundTrip(s0, [], cs);
    assert [] + Utf16s(cs) == Utf16s(cs);
    RestoreAfterPayload(s, |bs|);
  }

  /** A lead byte that starts no sequence is an encoding error. */
  lemma InvalidLeadByte(s: Source)
    requires Valid(s) && Avail(s, 1) && s.data[s.pos] >= 0x80 && SequenceLength(s.data[s.pos]) == 0
    ensures ReadUnicodeScalar(s) == Err(InvalidUtf8)
  {
  }

  /** Within a sequence, the first byte that is not a continuation byte is
      an encoding error, whether it is in the input or past its end. */
  lemma MissingContinuation(s: Source, i: nat)
    requires Valid(s) && Avail(s, i) && 1 <= i < SequenceLength(s.data[s.pos])
    requires i >= 2 ==> IsContinuation(s.data[s.pos + 1])
    requires i >= 3 ==> IsContinuation(s.data[s.pos + 2])
    requires !Avail(s, i + 1) || !IsContinuation(s.data[s.pos + i])
    ensures ReadUnicodeScalar(s) == Err(InvalidUtf8)
  {
    if i == 1 { SecondByteMissing(s); }
    else if i == 2 { ThirdByteMissing(s); }
    else { FourthByteMissing(s); }
  }

  /** The byte after a multi-byte lead is not a continuation byte. */
  lemma SecondByteMissing(s: Source)
    requires Valid(s) && Avail(s, 1) && SequenceLength(s.data[s.pos]) >= 2
    requires !Avail(s, 2) || !IsContinuation(s.data[s.pos + 1])
    ensures ReadUnicodeScalar(s) == Err(InvalidUtf8)
  {
    AdvanceAdd(s, 1, 0);
    assert ReadContinuation(Advance(s, 1)).Err?;
  }

  /** The third byte of a three- or four-byte sequence is not one. */
  lemma ThirdByteMissing(s: Source)
    requires Valid(s) && Avail(s, 2) && SequenceLength(s.data[s.pos]) >= 3
    requires IsContinuation(s.data[s.pos + 1])
    requires !Avail(s, 3) || !IsContinuation(s.data[s.pos + 2])
    ensures ReadUnicodeScalar(s) == Err(InvalidUtf8)
  {
    ContinuationAt(s, 1);
    AdvanceAdd(s, 1, 1);
    assert ReadContinuation(Advance(s, 2)).Err?;
  }

  /** The fourth byte of a four-byte sequence is not one. */
  lemma FourthByteMissing(s: Source)
    requires Valid(s) && Avail(s, 3) && SequenceLength(s.data[s.pos]) == 4
    requires IsContinuation(s.data[s.pos + 1]) && IsContinuation(s.data[s.pos + 2])
    requires !Avail(s, 4) || !IsContinuation(s.data[s.pos + 3])
    ensures ReadUnicodeScalar(s) == Err(InvalidUtf8)
  {
    ContinuationAt(s, 1);
    ContinuationAt(s, 2);
    AdvanceAdd(s, 1, 1);
    AdvanceAdd(s, 2, 1);
    assert ReadContinuation(Advance(s, 3)).Err?;
  }

  /** A continuation byte `k` bytes past the read position reads as one. */
  lemma ContinuationAt(s: Source, k: nat)
    requires Valid(s) && Avail(s, k + 1) && IsContinuation(s.data[s.pos + k])
    ensures Avail(s, k) && ReadContinuation(Advance(s, k)) == Ok((s.data[s.pos + k] as int % 64, Advance(s, k + 1)))
  {
    AdvanceAdd(s, k, 1);
  }

  /** A well-formed four-byte sequence whose bits make a number above
      0x10FFFF is an encoding error (F4 90 80 80 is the smallest). */
  lemma AboveMaxScalar(s: Source)
    requires Valid(s) && Avail(s, 4) && 0xF0 <= s.data[s.pos] < 0xF8
    requires IsContinuation(s.data[s.pos + 1]) && IsContinuation(s.data[s.pos + 2]) &&
             IsContinuation(s.data[s.pos + 3])
    requires (s.data[s.pos] as int % 8) * 0x4_0000 + (s.data[s.pos + 1] as int % 64) * 4096 +
             (s.data[s.pos + 2] as int % 64) * 64 + s.data[s.pos + 3] as int % 64 > 0x10_FFFF
    ensures ReadUnicodeScalar(s) == Err(InvalidUtf8)
  {
    var s1 := Advance(s, 1);
    AdvanceAdd(s, 1, 3);
    ContinuationsRead(s1);
  }

  /** Three continuation bytes at the read position are read one after another. */
  lemma ContinuationsRead(s1: Source)
    requires Valid(s1) && Avail(s1, 3)
    requires IsContinuation(s1.data[s1.pos]) && IsContinuation(s1.data[s1.pos + 1]) &&
             IsContinuation(s1.data[s1.pos + 2])
    ensures ReadContinuation(s1) == Ok((s1.data[s1.pos] as int % 64, Advance(s1, 1)))
    ensures ReadContinuation(Advance(s1, 1)) == Ok((s1.data[s1.pos + 1] as int % 64, Advance(s1, 2)))
    ensures ReadContinuation(Advance(s1, 2)) == Ok((s1.data[s1.pos + 2] as int % 64, Advance(s1, 3)))
  {
    AdvanceAdd(s1, 1, 2);
    AdvanceAdd(s1, 2, 1);
    AdvanceAdd(s1, 1, 1);
  }

  /** An end of input inside the payload is an unexpected end. */
  lemma ShortInput()
    ensures StringPayload(Source([0x41], 0, NoLimit), 2) == Err(UnexpectedEof)
  {
    var data: seq<byte> := [0x41];
    assert ReadUnicodeScalar(Source(data, 0, Limit(2))) == Ok((0x41, Source(data, 1, Limit(1))));
    assert ReadUnicodeScalar(Source(data, 1, Limit(1))) == Ok((EOF, Source(data, 1, Limit(0))));
  }

  /** A string read at top level, with no budget, leaves a budget of
      2^31 - len behind it as written, so the values after it are read under
      a limit that does not exist; the corrected read leaves none. */
  lemma TopLevelStringLeavesLimit(s: Source, cs: seq<Scalar>)
    requires Valid(s) && s.budget.NoLimit? && cs != []
    requires |Utf8Bytes(cs)| <= INT_MAX && At(s, Utf8Bytes(cs))
    ensures var len := |Utf8Bytes(cs)|;
            StringPayload(s, len) == Ok((Utf16s(cs), Advance(s, len))) &&
            Advance(s, len).budget == NoLimit &&
            StringPayloadAsWritten(s, len) ==
              Ok((Utf16s(cs), Advance(s, len).(budget := Limit(0x8000_0000 - len))))
  {
    StringRoundTrip(s, cs);
  }
}
