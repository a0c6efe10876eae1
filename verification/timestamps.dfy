/** The timestamp payload of the raw binary reader (`readTimestamp`): an
    offset, then the date and time fields, each present only while the
    payload has bytes left, the last of them fixing the precision. */
module Timestamps {
  import opened Wrappers
  import opened JavaInts
  import opened ByteSource
  import opened VarInts
  import opened Decimals

  datatype Precision = Year | Month | Day | Minute | Second | Fraction

  /** The fields handed to `Timestamp.createFromUtcFields`: the precision
      (`None` when no field was read), the offset in minutes (`None` for an
      unknown offset), the date and time fields (0 when absent) and the
      fractional seconds. */
  datatype Timestamp = Timestamp(precision: Option<Precision>, offset: Option<int>,
                                 year: int, month: int, day: int, hour: int, minute: int,
                                 second: int, fraction: Option<Decimal>)

  /** How many of the six VarUInt fields (year, month, day, hour, minute,
      second) a read can end with: hour and minute always come together. */
  predicate UnitCount(n: nat) {
    n == 0 || n == 1 || n == 2 || n == 3 || n == 5 || n == 6
  }

  /** A field value: what a VarUInt read into a Java int can hold. */
  type Field = x: int | 0 <= x <= INT_MAX

  /** The VarUInt fields after the `count` already read.  Each is read only
      while the payload budget is positive, except the minute, which always
      follows the hour. */
  function ReadUnits(s: Source, count: nat): (r: Result<(seq<Field>, Source)>)
    requires Valid(s) && s.budget.Limit? && count <= 6
    decreases 6 - count
    ensures r.Ok? ==> var t := r.value.1;
              Valid(t) && t.data == s.data && s.pos <= t.pos && (t.pos > s.pos ==> t.pos <= s.pos + s.budget.n) &&
              t.budget == Limit(s.budget.n - (t.pos - s.pos))
    ensures r.Ok? ==> UnitCount(count + |r.value.0|)
  {
    if count == 6 || (count != 4 && s.budget.n <= 0) then Ok(([], s))
    else
      var v :- ReadVarUInt(s);
      var r :- ReadUnits(v.1, count + 1);
      Ok(([v.0 as Field] + r.0, r.1))
  }

  /** The fields as `readTimestamp` reads them: each VarUInt wraps around in a
      Java int, so a field is any int. */
  function ReadUnitsAsWritten(s: Source, count: nat): (r: Result<(seq<int>, Source)>)
    requires Valid(s) && s.budget.Limit? && count <= 6
    decreases 6 - count
    ensures r.Ok? ==> var t := r.value.1;
              Valid(t) && t.data == s.data && s.pos <= t.pos && (t.pos > s.pos ==> t.pos <= s.pos + s.budget.n) &&
              t.budget == Limit(s.budget.n - (t.pos - s.pos))
    ensures r.Ok? ==> UnitCount(count + |r.value.0|)
  {
    if count == 6 || (count != 4 && s.budget.n <= 0) then Ok(([], s))
    else
      var v :- ReadVarUIntAsWritten(s);
      var r :- ReadUnitsAsWritten(v.1, count + 1);
      Ok(([v.0] + r.0, r.1))
  }

  /** Where the corrected field reader succeeds the as-written one reads the
      same fields; where it fails so does the as-written one, except on a
      field only it finds too large. */
  lemma {:induction false} UnitsAgree(s: Source, count: nat)
    requires Valid(s) && s.budget.Limit? && count <= 6
    decreases 6 - count
    ensures ReadUnits(s, count).Ok? ==>
              ReadUnitsAsWritten(s, count).Ok? &&
              ReadUnitsAsWritten(s, count).value.0 == ReadUnits(s, count).value.0 &&
              ReadUnitsAsWritten(s, count).value.1 == ReadUnits(s, count).value.1
    ensures ReadUnitsAsWritten(s, count).Err? ==> ReadUnits(s, count).Err?
  {
    if count < 6 && (count == 4 || s.budget.n > 0) {
      var v := ReadVarUIntAsWritten(s);
      if v.Ok? {
        UnitsAgree(v.value.1, count + 1);
      }
    }
  }

  /** `ReadUnits` stops early only on a spent budget, never between the hour
      and the minute, and never reads a seventh field. */
  lemma {:induction false} ReadUnitsShape(s: Source, count: nat)
    requires Valid(s) && s.budget.Limit? && count <= 6
    decreases 6 - count
    ensures var r := ReadUnits(s, count);
            r.Ok? && count + |r.value.0| < 6 ==> r.value.1.budget.n <= 0
    ensures count == 6 || (count != 4 && s.budget.n <= 0) ==> ReadUnits(s, count) == Ok(([], s))
  {
    if count < 6 && (count == 4 || s.budget.n > 0) {
      var v := ReadVarUInt(s);
      if v.Ok? {
        ReadUnitsShape(v.value.1, count + 1);
      }
    }
  }

  /** The precision a read ends with: fraction when the fractional seconds
      were read, otherwise the last VarUInt field read. */
  function PrecisionOf(count: nat, hasFraction: bool): Option<Precision> {
    if hasFraction then Some(Fraction)
    else if count == 0 then None
    else if count == 1 then Some(Year)
    else if count == 2 then Some(Month)
    else if count < 6 then Some(if count == 3 then Day else Minute)
    else Some(Second)
  }

  function UnitAt(units: seq<int>, i: nat): int {
    if i < |units| then units[i] else 0
  }

  /** The record the fields read make up. */
  function Build(offset: Option<int>, units: seq<int>, fraction: Option<Decimal>): Timestamp {
    Timestamp(PrecisionOf(|units|, fraction.Some?), offset,
              UnitAt(units, 0), UnitAt(units, 1), UnitAt(units, 2),
              UnitAt(units, 3), UnitAt(units, 4), UnitAt(units, 5), fraction)
  }

  /** The fractional seconds: whatever of the payload is left after the
      seconds, read as a decimal. */
  function ReadFraction(s: Source, count: nat): (r: Result<(Option<Decimal>, Source)>)
    requires Valid(s) && s.budget.Limit? && s.budget.n <= INT_MAX
    ensures r.Ok? ==> Valid(r.value.1) && r.value.1.data == s.data
    ensures count < 6 || s.budget.n <= 0 ==> r == Ok((None, s))
    ensures r.Ok? && r.value.0.Some? ==> count == 6 && r.value.1.budget == Limit(0)
  {
    if count == 6 && s.budget.n > 0 then
      var d :- ReadDecimal(s, s.budget.n);
      Ok((Some(d.0), d.1))
    else Ok((None, s))
  }

  /** The fractional seconds as `readTimestamp` reads them, with the
      as-written `readDecimal`. */
  function ReadFractionAsWritten(s: Source, count: nat): (r: Result<(Option<Decimal>, Source)>)
    requires Valid(s) && s.budget.Limit? && s.budget.n <= INT_MAX
    ensures ReadFraction(s, count).Ok? ==> r == ReadFraction(s, count)
    ensures r.Err? ==> ReadFraction(s, count).Err?
    ensures r.Ok? ==> Valid(r.value.1) && r.value.1.data == s.data
    ensures count < 6 || s.budget.n <= 0 ==> r == Ok((None, s))
    ensures r.Ok? && r.value.0.Some? ==> count == 6 && r.value.1.budget == Limit(0)
  {
    if count == 6 && s.budget.n > 0 then
      var d :- ReadDecimalAsWritten(s, s.budget.n);
      Ok((Some(d.0), d.1))
    else Ok((None, s))
  }

  /** `readTimestamp(len)`: `None` (a null timestamp) for a length below 1;
      otherwise the payload read under a budget of `len`, after which the
      outer budget is reset to what it was less `len`. */
  function ReadTimestamp(s: Source, len: int): (r: Result<(Option<Timestamp>, Source)>)
    requires Valid(s) && len <= INT_MAX
    ensures len < 1 ==> r == Ok((None, s))
    ensures r.Ok? && len >= 1 ==> r.value.0.Some? && Valid(r.value.1) && r.value.1.data == s.data &&
                                  r.value.1.budget == RestoreBudget(s.budget, len)
    ensures r.Ok? && len >= 1 ==> var t := r.value.0.value;
              (t.precision == Some(Fraction) <==> t.fraction.Some?) &&
              (t.precision.None? ==> t.year == 0 && t.month == 0 && t.day == 0)
  {
    if len < 1 then Ok((None, s))
    else
      var o :- ReadVarInteger(s.(budget := Limit(len)));
      var u :- ReadUnits(o.1, 0);
      var f :- ReadFraction(u.1, |u.0|);
      Ok((Some(Build(o.0, u.0, f.0)), f.1.(budget := RestoreBudget(s.budget, len))))
  }

  /** `readTimestamp(len)` as written: the offset, the fields and the
      fractional seconds are read with the wrapping readers, and the outer
      budget is restored with the wrapping int subtraction. */
  function ReadTimestampAsWritten(s: Source, len: int): (r: Result<(Option<Timestamp>, Source)>)
    requires Valid(s) && len <= INT_MAX
    ensures len < 1 ==> r == Ok((None, s))
    ensures r.Ok? && len >= 1 ==> r.value.0.Some? && Valid(r.value.1) && r.value.1.data == s.data &&
                                  r.value.1.budget == RestoreBudgetAsWritten(s.budget, len)
    ensures r.Ok? && s.budget.NoLimit? && len >= 1 ==> r.value.1.budget == Limit(0x8000_0000 - len)
    ensures r.Ok? && len >= 1 ==> var t := r.value.0.value;
              (t.precision == Some(Fraction) <==> t.fraction.Some?) &&
              (t.precision.None? ==> t.year == 0 && t.month == 0 && t.day == 0)
  {
    if len < 1 then Ok((None, s))
    else
      var o :- ReadVarIntegerAsWritten(s.(budget := Limit(len)));
      var u :- ReadUnitsAsWritten(o.1, 0);
      var f :- ReadFractionAsWritten(u.1, |u.0|);
      Ok((Some(Build(o.0, u.0, f.0)), f.1.(budget := RestoreBudgetAsWritten(s.budget, len))))
  }

  /** Where the corrected timestamp reader succeeds the as-written one reads
      the same timestamp and ends at the same position, and on a limited
      budget leaves the same budget too; where it fails so does the
      as-written one, except on a value only the corrected readers find too
      large. */
  lemma TimestampAgrees(s: Source, len: int)
    requires Valid(s) && len <= INT_MAX
    ensures ReadTimestamp(s, len).Ok? ==>
              ReadTimestampAsWritten(s, len).Ok? &&
              ReadTimestampAsWritten(s, len).value.0 == ReadTimestamp(s, len).value.0 &&
              ReadTimestampAsWritten(s, len).value.1.pos == ReadTimestamp(s, len).value.1.pos
    ensures s.budget.Limit? && ReadTimestamp(s, len).Ok? ==> ReadTimestampAsWritten(s, len) == ReadTimestamp(s, len)
    ensures ReadTimestampAsWritten(s, len).Err? ==> ReadTimestamp(s, len).Err?
  {
    if len >= 1 {
      var s0 := s.(budget := Limit(len));
      var o := ReadVarIntegerAsWritten(s0);
      if o.Ok? {
        var s1 := o.value.1;
        UnitsAgree(s1, 0);
        var u := ReadUnitsAsWritten(s1, 0);
        if u.Ok? {
          var s2 := u.value.1;
          var f := ReadFractionAsWritten(s2, |u.value.0|);
          if ReadTimestamp(s, len).Ok? {
            assert ReadVarInteger(s0) == o;
            assert ReadUnits(s1, 0).value == (u.value.0, s2);
            assert ReadFraction(s2, |u.value.0|) == f;
          }
        }
      }
    }
  }

  /** The offset 50 00 00 00 80 is negative with magnitude 2^32: as written
      it wraps to negative zero, an unknown offset, and the payload then reads
      as the year 1 (the field 81); the corrected reader reports an
      overflow. */
  lemma WrappedOffsetReadsAsUnknown()
    ensures ReadTimestampAsWritten(Source([0x50, 0x00, 0x00, 0x00, 0x80, 0x81], 0, NoLimit), 6) ==
            Ok((Some(Timestamp(Some(Year), None, 1, 0, 0, 0, 0, 0, None)),
                Source([0x50, 0x00, 0x00, 0x00, 0x80, 0x81], 6, Limit(0x8000_0000 - 6))))
    ensures ReadTimestamp(Source([0x50, 0x00, 0x00, 0x00, 0x80, 0x81], 0, NoLimit), 6) == Err(IntOverflow)
  {
    var data: seq<byte> := [0x50, 0x00, 0x00, 0x00, 0x80, 0x81];
    var s := Source(data, 0, NoLimit);
    var s0 := s.(budget := Limit(6));
    var s1 := Source(data, 5, Limit(1));
    var s2 := Source(data, 6, Limit(0));
    assert At(s0, [0x50, 0x00, 0x00, 0x00, 0x80]) by {
      assert s0.data[0..5] == [0x50, 0x00, 0x00, 0x00, 0x80];
    }
    assert At(s1, [0x81]) by {
      assert s1.data[5..6] == [0x81];
    }
    assert Advance(s0, 5) == s1;
    WrappedVarIntAt(s0, [0x50, 0x00, 0x00, 0x00, 0x80]);
    YearOnly(s1);
    assert Advance(s1, 1) == s2;
    assert ReadFractionAsWritten(s2, 1) == Ok((None, s2));
    assert Build(None, [1], None) == Timestamp(Some(Year), None, 1, 0, 0, 0, 0, 0, None);
    assert RestoreBudgetAsWritten(NoLimit, 6) == Limit(0x8000_0000 - 6);
  }

  /** A payload left with the one field 81 holds the year 1 alone. */
  lemma YearOnly(s: Source)
    requires s.budget == Limit(1) && At(s, [0x81])
    ensures ReadUnitsAsWritten(s, 0) == Ok(([1], Advance(s, 1)))
  {
    OneByteVarUInt(s, 0x81);
    var t := Advance(s, 1);
    assert t.budget == Limit(0);
    assert ReadUnitsAsWritten(t, 1) == Ok(([], t));
    assert [1] + [] == [1];
  }

  /** The VarUInt fields written one after the other. */
  function UnitsBytes(units: seq<Field>): (bs: seq<byte>) {
    if units == [] then [] else VarUIntBytes(units[0]) + UnitsBytes(units[1..])
  }

  /** The fields `rest` still to be read after `count` fields end at a
      field count a read can end with, and leave no bytes over before that. */
  predicate UnitsLeft(count: nat, rest: seq<Field>, extra: nat) {
    count <= 6 && UnitCount(count + |rest|) && (count + |rest| < 6 ==> extra == 0)
  }

  /** Reading the encoded fields `rest` after `count` fields gives `rest`,
      when the budget covers exactly those bytes (and, after all six fields,
      possibly more). */
  lemma {:induction false} UnitsRoundTrip(s: Source, count: nat, rest: seq<Field>, extra: nat)
    requires UnitsLeft(count, rest, extra) && Encoded(s, UnitsBytes(rest), extra)
    decreases |rest|
    ensures ReadUnits(s, count) == Ok((rest, Advance(s, |UnitsBytes(rest)|)))
  {
    if rest == [] {
      assert Advance(s, 0) == s;
    } else {
      var s1 := UnitsSplit(s, count, rest, extra);
      UnitsRoundTrip(s1, count + 1, rest[1..], extra);
      UnitsStep(s, count, rest, s1, Advance(s1, |UnitsBytes(rest[1..])|));
    }
  }

  /** The first field of `rest` is read back from the front of its encoding,
      and the encoding of the others follows. */
  lemma UnitsSplit(s: Source, count: nat, rest: seq<Field>, extra: nat) returns (s1: Source)
    requires |rest| >= 1 && UnitsLeft(count, rest, extra) && Encoded(s, UnitsBytes(rest), extra)
    ensures UnitsLeft(count + 1, rest[1..], extra) && Encoded(s1, UnitsBytes(rest[1..]), extra)
    ensures Valid(s) && s.budget.Limit? && count < 6 && s.budget.n > 0
    ensures ReadVarUInt(s) == Ok((rest[0] as int, s1))
    ensures Advance(s1, |UnitsBytes(rest[1..])|) == Advance(s, |UnitsBytes(rest)|)
  {
    var a := VarUIntBytes(rest[0]);
    var b := UnitsBytes(rest[1..]);
    assert UnitsBytes(rest) == a + b;
    UnitsLeftNext(count, rest, extra);
    EncodedSplit(s, a, b, extra);
    VarUIntRoundTrip(s, rest[0]);
    s1 := Advance(s, |a|);
  }

  lemma UnitsLeftNext(count: nat, rest: seq<Field>, extra: nat)
    requires |rest| >= 1 && UnitsLeft(count, rest, extra)
    ensures count < 6 && UnitsLeft(count + 1, rest[1..], extra)
  {
  }

  /** `ReadUnits` in terms of its first field and the rest, when it reads on. */
  lemma UnitsStep(s: Source, count: nat, rest: seq<Field>, s1: Source, t: Source)
    requires Valid(s) && s.budget.Limit? && count < 6 && s.budget.n > 0 && |rest| >= 1
    requires ReadVarUInt(s) == Ok((rest[0] as int, s1))
    requires ReadUnits(s1, count + 1) == Ok((rest[1..], t))
    ensures ReadUnits(s, count) == Ok((rest, t))
  {
    assert [rest[0]] + rest[1..] == rest;
  }

  // ------------------------------------------------ the whole payload

  /** The offset field: an unknown offset is negative zero, a known one its
      sign and magnitude. */
  function OffsetBytes(offset: Option<int>): seq<byte>
    requires offset.Some? ==> Abs(offset.value) <= INT_MAX
  {
    match offset
    case None => VarIntBytes(true, 0)
    case Some(o) => VarIntBytes(o < 0, Abs(o))
  }

  function FractionBytes(fraction: Option<Decimal>, k: nat): seq<byte>
    requires fraction.Some? ==> Encodable(fraction.value, k)
  {
    match fraction
    case None => []
    case Some(d) => DecimalBytes(d, k)
  }

  /** What a timestamp payload can hold: an int-sized offset, a field count a
      read can end with, and fractional seconds only after the seconds. */
  predicate TimestampEncodable(offset: Option<int>, units: seq<Field>, fraction: Option<Decimal>, k: nat) {
    (offset.Some? ==> Abs(offset.value) <= INT_MAX) && UnitCount(|units|) &&
    (fraction.Some? ==> |units| == 6 && Encodable(fraction.value, k))
  }

  /** A timestamp payload: the offset, the fields, the fractional seconds. */
  function TimestampBytes(offset: Option<int>, units: seq<Field>, fraction: Option<Decimal>, k: nat): seq<byte>
    requires TimestampEncodable(offset, units, fraction, k)
  {
    OffsetBytes(offset) + (UnitsBytes(units) + FractionBytes(fraction, k))
  }

  /** Reading the payload `TimestampBytes` gives back the offset, the fields
      and the fractional seconds, with the precision the last of them fixes,
      and consumes exactly the payload. */
  lemma TimestampRoundTrip(s: Source, offset: Option<int>, units: seq<Field>, fraction: Option<Decimal>, k: nat)
    requires Valid(s) && TimestampEncodable(offset, units, fraction, k)
    requires |TimestampBytes(offset, units, fraction, k)| <= INT_MAX
    requires Avail(s, |TimestampBytes(offset, units, fraction, k)|)
    requires s.data[s.pos..s.pos + |TimestampBytes(offset, units, fraction, k)|] ==
             TimestampBytes(offset, units, fraction, k)
    ensures ReadTimestamp(s, |TimestampBytes(offset, units, fraction, k)|) ==
            Ok((Some(Build(offset, units, fraction)), Advance(s, |TimestampBytes(offset, units, fraction, k)|)))
  {
    var bs := TimestampBytes(offset, units, fraction, k);
    var fb := FractionBytes(fraction, k);
    var s0 := EncodedPayload(s, bs);
    var s1, s2 := FrontReads(s0, bs, offset, units, fb);
    FractionRoundTrip(s2, |units|, fraction, k);
    TimestampSteps(s, |bs|, offset, s1, units, s2, fraction, Advance(s2, |fb|));
  }

  /** The offset and the fields read off the front of an encoded payload,
      leaving the fractional seconds. */
  lemma FrontReads(s: Source, bs: seq<byte>, offset: Option<int>, units: seq<Field>, fb: seq<byte>)
      returns (s1: Source, s2: Source)
    requires offset.Some? ==> Abs(offset.value) <= INT_MAX
    requires UnitCount(|units|) && (|units| < 6 ==> fb == [])
    requires bs == OffsetBytes(offset) + (UnitsBytes(units) + fb) && |bs| <= INT_MAX
    requires Encoded(s, bs, 0)
    ensures 1 <= |bs| && |fb| <= INT_MAX
    ensures ReadVarInteger(s) == Ok((offset, s1))
    ensures Valid(s1) && s1.budget.Limit? && ReadUnits(s1, 0) == Ok((units, s2))
    ensures Encoded(s2, fb, 0) && Valid(s2) && s2.budget.Limit? && s2.budget.n <= INT_MAX
    ensures Advance(s2, |fb|) == Advance(s, |bs|)
  {
    s1 := OffsetPart(s, offset, UnitsBytes(units) + fb);
    s2 := UnitsPart(s1, units, fb);
  }

  /** The offset read off the front of an encoded payload. */
  lemma OffsetPart(s: Source, offset: Option<int>, rest: seq<byte>) returns (s1: Source)
    requires offset.Some? ==> Abs(offset.value) <= INT_MAX
    requires Encoded(s, OffsetBytes(offset) + rest, 0)
    ensures ReadVarInteger(s) == Ok((offset, s1))
    ensures Encoded(s1, rest, 0) && Advance(s1, |rest|) == Advance(s, |OffsetBytes(offset) + rest|)
  {
    EncodedSplit(s, OffsetBytes(offset), rest, 0);
    s1 := Advance(s, |OffsetBytes(offset)|);
    OffsetRoundTrip(s, offset);
  }

  /** The fields read off the front of what follows the offset. */
  lemma UnitsPart(s: Source, units: seq<Field>, fb: seq<byte>) returns (s2: Source)
    requires UnitCount(|units|) && (|units| < 6 ==> fb == [])
    requires Encoded(s, UnitsBytes(units) + fb, 0)
    ensures Valid(s) && s.budget.Limit? && ReadUnits(s, 0) == Ok((units, s2))
    ensures Encoded(s2, fb, 0) && Advance(s2, |fb|) == Advance(s, |UnitsBytes(units) + fb|)
  {
    EncodedPrefix(s, UnitsBytes(units), fb, 0);
    UnitsRoundTrip(s, 0, units, |fb|);
    EncodedSplit(s, UnitsBytes(units), fb, 0);
    s2 := Advance(s, |UnitsBytes(units)|);
  }

  /** The offset field reads back as the offset. */
  lemma OffsetRoundTrip(s: Source, offset: Option<int>)
    requires Valid(s) && (offset.Some? ==> Abs(offset.value) <= INT_MAX)
    requires Avail(s, |OffsetBytes(offset)|) && s.data[s.pos..s.pos + |OffsetBytes(offset)|] == OffsetBytes(offset)
    ensures ReadVarInteger(s) == Ok((offset, Advance(s, |OffsetBytes(offset)|)))
  {
    match offset
    case None => VarIntRoundTrip(s, true, 0);
    case Some(o) => KnownOffsetRoundTrip(s, o);
  }

  lemma KnownOffsetRoundTrip(s: Source, o: int)
    requires Valid(s) && Abs(o) <= INT_MAX
    requires Avail(s, |VarIntBytes(o < 0, Abs(o))|)
    requires s.data[s.pos..s.pos + |VarIntBytes(o < 0, Abs(o))|] == VarIntBytes(o < 0, Abs(o))
    ensures ReadVarInteger(s) == Ok((Some(o), Advance(s, |VarIntBytes(o < 0, Abs(o))|)))
  {
    VarIntRoundTrip(s, o < 0, Abs(o));
    assert (if o < 0 then -(Abs(o) as int) else Abs(o)) == o;
  }

  /** The fractional seconds read back from what is left of the payload. */
  lemma FractionRoundTrip(s: Source, count: nat, fraction: Option<Decimal>, k: nat)
    requires fraction.Some? ==> count == 6 && Encodable(fraction.value, k)
    requires |FractionBytes(fraction, k)| <= INT_MAX && Encoded(s, FractionBytes(fraction, k), 0)
    ensures ReadFraction(s, count) == Ok((fraction, Advance(s, |FractionBytes(fraction, k)|)))
  {
    match fraction
    case None =>
      assert Advance(s, 0) == s;
    case Some(d) =>
      DecimalRoundTrip(s, d, k);
  }

  /** `ReadTimestamp` in terms of its three reads, when they consume the
      whole payload. */
  lemma TimestampSteps(s: Source, len: int, offset: Option<int>, s1: Source, units: seq<Field>,
                       s2: Source, fraction: Option<Decimal>, s3: Source)
    requires Valid(s) && 1 <= len <= INT_MAX && Avail(s, len)
    requires ReadVarInteger(s.(budget := Limit(len))) == Ok((offset, s1))
    requires Valid(s1) && s1.budget.Limit? && ReadUnits(s1, 0) == Ok((units, s2))
    requires Valid(s2) && s2.budget.Limit? && s2.budget.n <= INT_MAX
    requires ReadFraction(s2, |units|) == Ok((fraction, s3))
    requires s3 == Advance(s.(budget := Limit(len)), len)
    ensures ReadTimestamp(s, len) == Ok((Some(Build(offset, units, fraction)), Advance(s, len)))
  {
    var t := s3.(budget := RestoreBudget(s.budget, len));
    BudgetRestored(s, len, s3);
    assert ReadTimestamp(s, len) == Ok((Some(Build(offset, units, fraction)), t));
  }

  /** Reading the whole payload under its own budget and then restoring the
      outer budget is reading `len` bytes under the outer budget. */
  lemma BudgetRestored(s: Source, len: int, s3: Source)
    requires Valid(s) && 1 <= len <= INT_MAX && Avail(s, len)
    requires s3 == Advance(s.(budget := Limit(len)), len)
    ensures s3.(budget := RestoreBudget(s.budget, len)) == Advance(s, len)
  {
  }
}
