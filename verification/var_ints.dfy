/** The basic field formats of the Ion 1.0 binary encoding as the raw reader
    decodes them: VarUInt, VarInt (with negative zero) and UInt.  Each decoder
    takes a source and returns the value with the source after it, or the
    exception the reader throws. */
module VarInts {
  import opened Wrappers
  import opened JavaInts
  import opened ByteSource

  function Pow256(e: nat): (p: nat)
    ensures p >= 1
  {
    if e == 0 then 1 else 256 * Pow256(e - 1)
  }

  /** Horner evaluation of base-`radix` digits, most significant first, each
      digit being a byte reduced modulo the radix (`b & 0x7F` for 128). */
  function Horner(radix: nat, acc: int, bs: seq<byte>): int
    requires radix >= 1
    decreases |bs|
  {
    if |bs| == 0 then acc else Horner(radix, acc * radix + bs[0] % radix, bs[1..])
  }

  lemma {:induction false} HornerAppend(radix: nat, acc: int, a: seq<byte>, b: seq<byte>)
    requires radix >= 1
    ensures Horner(radix, acc, a + b) == Horner(radix, Horner(radix, acc, a), b)
    decreases |a|
  {
    if |a| == 0 {
      assert a + b == b;
    } else {
      assert (a + b)[1..] == a[1..] + b;
      HornerAppend(radix, acc * radix + a[0] % radix, a[1..], b);
    }
  }

  lemma HornerLast(radix: nat, acc: int, a: seq<byte>, x: byte)
    requires radix >= 1
    ensures Horner(radix, acc, a + [x]) == Horner(radix, acc, a) * radix + x % radix
  {
    HornerAppend(radix, acc, a, [x]);
    assert [x][1..] == [];
  }

  /** A VarUInt's bytes: the last one has the end flag `0x80`, no earlier one has. */
  predicate IsStopRun(bs: seq<byte>) {
    |bs| >= 1 && bs[|bs| - 1] >= 128 && forall i | 0 <= i < |bs| - 1 :: bs[i] < 128
  }

  /** None of the bytes has the end flag. */
  predicate NoStop(bs: seq<byte>) {
    forall i | 0 <= i < |bs| :: bs[i] < 128
  }

  /** The loop shared by every VarUInt/VarInt reader: at most `left` more
      bytes, each contributing its low seven bits below `acc`, ending at the
      first byte with the end flag.  Running out of input is an unexpected
      end; `left` bytes without the end flag are an int overflow. */
  function ReadGroups(s: Source, acc: int, left: nat): (r: Result<(int, Source)>)
    requires Valid(s) && left >= 1
    ensures r.Ok? ==>
              var t := r.value.1;
              s.pos < t.pos <= s.pos + left && Avail(s, t.pos - s.pos) &&
              t == Advance(s, t.pos - s.pos)
    ensures r.Err? ==> r.error == UnexpectedEof || r.error == IntOverflow
    decreases left
  {
    var (b, s1) := Read(s);
    if b < 0 then Err(UnexpectedEof)
    else
      var acc1 := acc * 128 + b % 128;
      if b >= 128 then Ok((acc1, s1))
      else if left == 1 then Err(IntOverflow)
      else
        var r := ReadGroups(s1, acc1, left - 1);
        if r.Ok? then
          AdvanceAdd(s, 1, r.value.1.pos - s1.pos);
          r
        else r
  }

  /** What a result `r` of `ReadGroups(s, acc, left)` says: the bytes up to
      and including the first with the end flag, folded below `acc`; an int
      overflow exactly when `left` bytes without the end flag are available. */
  predicate GroupsRead(s: Source, acc: int, left: nat, r: Result<(int, Source)>)
    requires Valid(s)
  {
    GroupsRun(s, acc, r) && OverflowRead(s, left, r)
  }

  predicate GroupsRun(s: Source, acc: int, r: Result<(int, Source)>)
    requires Valid(s)
  {
    r.Ok? ==> var t := r.value.1;
              s.pos <= t.pos <= |s.data| &&
              IsStopRun(s.data[s.pos..t.pos]) && r.value.0 == Horner(128, acc, s.data[s.pos..t.pos])
  }

  predicate OverflowRead(s: Source, left: nat, r: Result<(int, Source)>)
    requires Valid(s)
  {
    r == Err(IntOverflow) <==> Avail(s, left) && NoStop(s.data[s.pos..s.pos + left])
  }

  /** `ReadGroups` reads what `GroupsRead` describes. */
  lemma {:induction false} ReadGroupsValue(s: Source, acc: int, left: nat)
    requires Valid(s) && left >= 1
    ensures GroupsRead(s, acc, left, ReadGroups(s, acc, left))
    decreases left
  {
    if !Avail(s, 1) {
      GroupsEof(s, acc, left);
    } else if s.data[s.pos] >= 128 {
      GroupsStopRead(s, acc, left);
    } else if left == 1 {
      GroupsOverflowRead(s, acc);
    } else {
      ReadGroupsValue(Advance(s, 1), acc * 128 + s.data[s.pos] % 128, left - 1);
      ReadGroupsStep(s, acc, left);
    }
  }

  /** No byte to read is an unexpected end. */
  lemma GroupsEof(s: Source, acc: int, left: nat)
    requires Valid(s) && left >= 1 && !Avail(s, 1)
    ensures GroupsRead(s, acc, left, ReadGroups(s, acc, left))
  {
    assert ReadGroups(s, acc, left) == Err(UnexpectedEof);
    assert !Avail(s, left);
  }

  lemma GroupsStopRead(s: Source, acc: int, left: nat)
    requires Valid(s) && left >= 1 && Avail(s, 1) && s.data[s.pos] >= 128
    ensures GroupsRead(s, acc, left, ReadGroups(s, acc, left))
  {
    GroupsStop(s, acc, left);
  }

  lemma GroupsOverflowRead(s: Source, acc: int)
    requires Valid(s) && Avail(s, 1) && s.data[s.pos] < 128
    ensures GroupsRead(s, acc, 1, ReadGroups(s, acc, 1))
  {
    GroupsOverflow(s, acc);
  }

  /** A first byte with the end flag is the whole run. */
  lemma GroupsStop(s: Source, acc: int, left: nat)
    requires Valid(s) && left >= 1 && Avail(s, 1) && s.data[s.pos] >= 128
    ensures ReadGroups(s, acc, left) == Ok((Horner(128, acc, s.data[s.pos..s.pos + 1]), Advance(s, 1)))
    ensures IsStopRun(s.data[s.pos..s.pos + 1])
    ensures Avail(s, left) ==> !NoStop(s.data[s.pos..s.pos + left])
  {
    var b := s.data[s.pos];
    assert s.data[s.pos..s.pos + 1] == [b];
    if Avail(s, left) {
      assert s.data[s.pos..s.pos + left][0] == b;
    }
  }

  /** A last allowed byte without the end flag is an int overflow. */
  lemma GroupsOverflow(s: Source, acc: int)
    requires Valid(s) && Avail(s, 1) && s.data[s.pos] < 128
    ensures ReadGroups(s, acc, 1) == Err(IntOverflow)
    ensures NoStop(s.data[s.pos..s.pos + 1])
  {
    assert s.data[s.pos..s.pos + 1] == [s.data[s.pos]];
  }

  /** One step of `ReadGroups` past a byte without the end flag. */
  lemma ReadGroupsStep(s: Source, acc: int, left: nat)
    requires Valid(s) && left >= 2 && Avail(s, 1) && s.data[s.pos] < 128
    requires var s1 := Advance(s, 1);
             var acc1 := acc * 128 + s.data[s.pos] % 128;
             GroupsRead(s1, acc1, left - 1, ReadGroups(s1, acc1, left - 1))
    ensures GroupsRead(s, acc, left, ReadGroups(s, acc, left))
  {
    var s1 := Advance(s, 1);
    var r := ReadGroups(s1, acc * 128 + s.data[s.pos] % 128, left - 1);
    assert ReadGroups(s, acc, left) == r;
    StepRun(s, acc, r);
    StepOverflow(s, left, r);
  }

  lemma StepRun(s: Source, acc: int, r: Result<(int, Source)>)
    requires Valid(s) && Avail(s, 1) && s.data[s.pos] < 128
    requires GroupsRun(Advance(s, 1), acc * 128 + s.data[s.pos] % 128, r)
    ensures GroupsRun(s, acc, r)
  {
    if r.Ok? {
      var s1 := Advance(s, 1);
      var t := r.value.1;
      var run := s.data[s.pos..t.pos];
      assert run[0] == s.data[s.pos] && run[1..] == s1.data[s1.pos..t.pos];
      StopRunCons(acc, run, s1.data[s1.pos..t.pos]);
    }
  }

  lemma StepOverflow(s: Source, left: nat, r: Result<(int, Source)>)
    requires Valid(s) && left >= 2 && Avail(s, 1) && s.data[s.pos] < 128
    requires OverflowRead(Advance(s, 1), left - 1, r)
    ensures OverflowRead(s, left, r)
  {
    var s1 := Advance(s, 1);
    if Avail(s, left) {
      AdvanceAdd(s, 1, left - 1);
      NoStopCons(s.data[s.pos..s.pos + left], s1.data[s1.pos..s1.pos + (left - 1)]);
    } else {
      assert !Avail(s1, left - 1);
    }
  }

  /** A byte without the end flag in front of a run: the run has no end flag
      exactly when the longer one has none. */
  lemma NoStopCons(all: seq<byte>, tail: seq<byte>)
    requires |all| >= 1 && all[0] < 128 && all[1..] == tail
    ensures NoStop(all) <==> NoStop(tail)
  {
    if NoStop(tail) {
      forall i | 0 <= i < |all| ensures all[i] < 128 {
        if i > 0 { assert all[i] == tail[i - 1]; }
      }
    }
    if NoStop(all) {
      forall i | 0 <= i < |tail| ensures tail[i] < 128 {
        assert tail[i] == all[i + 1];
      }
    }
  }

  /** A byte without the end flag in front of a stop run: a stop run again,
      folding to the same value as the shorter one below the extended
      accumulator. */
  lemma StopRunCons(acc: int, run: seq<byte>, rest: seq<byte>)
    requires |run| >= 1 && run[0] < 128 && run[1..] == rest && IsStopRun(rest)
    ensures IsStopRun(run)
    ensures Horner(128, acc, run) == Horner(128, acc * 128 + run[0] % 128, rest)
  {
    assert run[|run| - 1] == rest[|rest| - 1];
    forall i | 0 <= i < |run| - 1 ensures run[i] < 128 {
      if i > 0 { assert run[i] == rest[i - 1]; }
    }
  }

  /** A stop run available at the read position is read in full, whatever
      follows it. */
  lemma {:induction false} ReadGroupsRun(s: Source, acc: int, left: nat, run: seq<byte>)
    requires Valid(s) && left >= 1
    requires IsStopRun(run) && |run| <= left && Avail(s, |run|)
    requires s.data[s.pos..s.pos + |run|] == run
    ensures ReadGroups(s, acc, left) == Ok((Horner(128, acc, run), Advance(s, |run|)))
    decreases left
  {
    if |run| == 1 {
      GroupsRunLast(s, acc, left, run);
    } else {
      var s1, rest := RunTail(s, run);
      ReadGroupsRun(s1, acc * 128 + run[0] % 128, left - 1, rest);
      GroupsRunStep(s, acc, left, run);
    }
  }

  /** A one-byte stop run is read as its single group. */
  lemma GroupsRunLast(s: Source, acc: int, left: nat, run: seq<byte>)
    requires Valid(s) && left >= 1 && |run| == 1 && run[0] >= 128
    requires Avail(s, 1) && s.data[s.pos..s.pos + 1] == run
    ensures ReadGroups(s, acc, left) == Ok((Horner(128, acc, run), Advance(s, 1)))
  {
    assert s.data[s.pos] == run[0];
    assert Horner(128, acc, run) == acc * 128 + run[0] % 128;
  }

  /** Past the first byte of a stop run of two or more bytes is the rest of
      the run, itself a stop run. */
  lemma RunTail(s: Source, run: seq<byte>) returns (s1: Source, rest: seq<byte>)
    requires Valid(s) && IsStopRun(run) && |run| >= 2
    requires Avail(s, |run|) && s.data[s.pos..s.pos + |run|] == run
    ensures s1 == Advance(s, 1) && rest == run[1..] && IsStopRun(rest)
    ensures Avail(s1, |rest|) && s1.data[s1.pos..s1.pos + |rest|] == rest
  {
    s1, rest := Advance(s, 1), run[1..];
    assert forall i | 0 <= i < |rest| :: rest[i] == run[i + 1];
    AdvanceAdd(s, 1, |rest|);
  }

  /** A stop run is read as its first group and then the rest of the run. */
  lemma GroupsRunStep(s: Source, acc: int, left: nat, run: seq<byte>)
    requires Valid(s) && left >= 2 && IsStopRun(run) && 2 <= |run| <= left
    requires Avail(s, |run|) && s.data[s.pos..s.pos + |run|] == run
    requires var s1 := Advance(s, 1);
             var acc1 := acc * 128 + run[0] % 128;
             ReadGroups(s1, acc1, left - 1) == Ok((Horner(128, acc1, run[1..]), Advance(s1, |run| - 1)))
    ensures ReadGroups(s, acc, left) == Ok((Horner(128, acc, run), Advance(s, |run|)))
  {
    assert s.data[s.pos] == run[0] && run[0] < 128;
    AdvanceAdd(s, 1, |run| - 1);
  }

  // ---------------------------------------------------------------- VarUInt

  /** The low-order seven-bit groups of `m`, none with the end flag. */
  function GroupsOf(m: nat): (bs: seq<byte>)
    ensures NoStop(bs) && Horner(128, 0, bs) == m
  {
    if m == 0 then []
    else
      var p := GroupsOf(m / 128);
      HornerLast(128, 0, p, m % 128);
      StopAppended(p, m % 128);
      p + [m % 128]
  }

  /** A byte after a run without the end flag: a run without it again, or a
      stop run when the byte has it. */
  lemma StopAppended(p: seq<byte>, x: byte)
    requires NoStop(p)
    ensures x < 128 ==> NoStop(p + [x])
    ensures x >= 128 ==> IsStopRun(p + [x])
  {
    assert forall i | 0 <= i < |p| :: (p + [x])[i] == p[i];
  }

  /** The groups of a value below 2^28 take at most four bytes. */
  lemma {:induction false} GroupsOfLength(m: nat)
    ensures m < 0x80 ==> |GroupsOf(m)| <= 1
    ensures m < 0x4000 ==> |GroupsOf(m)| <= 2
    ensures m < 0x20_0000 ==> |GroupsOf(m)| <= 3
    ensures m < 0x1000_0000 ==> |GroupsOf(m)| <= 4
    decreases m
  {
    if m > 0 {
      GroupsOfLength(m / 128);
    }
  }

  /** The shortest VarUInt encoding of `n`. */
  function VarUIntBytes(n: nat): (bs: seq<byte>)
    ensures IsStopRun(bs) && Horner(128, 0, bs) == n
    ensures n <= INT_MAX ==> |bs| <= 5
  {
    var p := GroupsOf(n / 128);
    HornerLast(128, 0, p, n % 128 + 128);
    StopAppended(p, n % 128 + 128);
    GroupsOfLength(n / 128);
    p + [n % 128 + 128]
  }

  /** `readVarUInt`, with the overflow check the five-byte int accumulator
      needs: a value above Integer.MAX_VALUE is an int overflow. */
  function ReadVarUInt(s: Source): (r: Result<(int, Source)>)
    requires Valid(s)
    ensures r.Ok? ==> 0 <= r.value.0 <= INT_MAX && Valid(r.value.1) &&
                      r.value.1.data == s.data && s.pos < r.value.1.pos <= s.pos + 5 &&
                      Avail(s, r.value.1.pos - s.pos) && r.value.1 == Advance(s, r.value.1.pos - s.pos)
    ensures !Avail(s, 1) ==> r == Err(UnexpectedEof)
    ensures r.Err? ==> r.error == UnexpectedEof || r.error == IntOverflow
  {
    var p :- ReadGroups(s, 0, 5);
    ReadGroupsValue(s, 0, 5);
    HornerNonNeg(s.data[s.pos..p.1.pos]);
    if p.0 > INT_MAX then Err(IntOverflow) else Ok(p)
  }

  /** What `ReadVarUInt` reads: a run of at most five bytes ending at the
      first with the end flag, whose seven-bit groups make up the value, big
      end first; five bytes without the end flag, or a value above
      Integer.MAX_VALUE, are an int overflow. */
  lemma ReadVarUIntValue(s: Source)
    requires Valid(s)
    ensures var r := ReadVarUInt(s);
            r.Ok? ==> IsStopRun(s.data[s.pos..r.value.1.pos]) &&
                      r.value.0 == Horner(128, 0, s.data[s.pos..r.value.1.pos])
    ensures Avail(s, 5) && NoStop(s.data[s.pos..s.pos + 5]) ==> ReadVarUInt(s) == Err(IntOverflow)
    ensures ReadGroups(s, 0, 5).Ok? && ReadGroups(s, 0, 5).value.0 > INT_MAX ==>
              ReadVarUInt(s) == Err(IntOverflow)
  {
    ReadGroupsValue(s, 0, 5);
  }

  lemma {:induction false} HornerNonNeg(bs: seq<byte>)
    ensures Horner(128, 0, bs) >= 0
  {
    HornerFromNonNeg(0, bs);
  }

  lemma {:induction false} HornerFromNonNeg(acc: nat, bs: seq<byte>)
    ensures Horner(128, acc, bs) >= 0
    decreases |bs|
  {
    if |bs| > 0 {
      HornerFromNonNeg(acc * 128 + bs[0] % 128, bs[1..]);
    }
  }

  /** The minimal encoding of any int-sized length decodes back to it and
      consumes exactly its bytes. */
  lemma VarUIntRoundTrip(s: Source, n: nat)
    requires Valid(s) && n <= INT_MAX
    requires Avail(s, |VarUIntBytes(n)|)
    requires s.data[s.pos..s.pos + |VarUIntBytes(n)|] == VarUIntBytes(n)
    ensures ReadVarUInt(s) == Ok((n, Advance(s, |VarUIntBytes(n)|)))
  {
    ReadGroupsRun(s, 0, 5, VarUIntBytes(n));
  }

  /** `readVarUIntOrEOF`: an end of input before the first byte is reported
      as `None` instead of thrown; from the first byte on it is `readVarUInt`. */
  function ReadVarUIntOrEof(s: Source): (r: Result<(Option<int>, Source)>)
    requires Valid(s)
    ensures (r.Ok? && r.value.0.None?) <==> !Avail(s, 1)
    ensures Avail(s, 1) ==>
              (r.Ok? <==> ReadVarUInt(s).Ok?) &&
              (r.Ok? ==> r.value == (Some(ReadVarUInt(s).value.0), ReadVarUInt(s).value.1)) &&
              (r.Err? ==> r.error == ReadVarUInt(s).error)
  {
    if !Avail(s, 1) then Ok((None, Read(s).1))
    else
      var p :- ReadVarUInt(s);
      Ok((Some(p.0), p.1))
  }

  /** `readVarUInt` as written: the value is accumulated in a Java int, so the
      35 bits of a five-byte field wrap around.  It fails only where the
      corrected reader fails for want of input or of an end flag, and
      otherwise reads the groups of the run, wrapped. */
  function ReadVarUIntAsWritten(s: Source): (r: Result<(int, Source)>)
    requires Valid(s)
    ensures ReadVarUInt(s).Ok? ==> r == ReadVarUInt(s)
    ensures r.Ok? ==>
              IsInt(r.value.0) && RunBetween(s, r.value.1) &&
              r.value.0 == ToInt(Horner(128, 0, s.data[s.pos..r.value.1.pos]))
    ensures r.Err? ==> ReadVarUInt(s) == Err(r.error)
    ensures r == Err(IntOverflow) <==> Avail(s, 5) && NoStop(s.data[s.pos..s.pos + 5])
    ensures ReadVarUInt(s).Err? && r.Ok? ==> ReadVarUInt(s).error == IntOverflow
  {
    ReadGroupsValue(s, 0, 5);
    var p :- ReadGroups(s, 0, 5);
    Ok((ToInt(p.0), p.1))
  }

  /** `readVarUIntOrEOF` as written: the end of input is the int -1 and the
      value wraps around like `ReadVarUIntAsWritten`. */
  function ReadVarUIntOrEofAsWritten(s: Source): (r: Result<(int, Source)>)
    requires Valid(s)
    ensures !Avail(s, 1) ==> r.Ok? && r.value.0 == EOF
    ensures Avail(s, 1) && r.Ok? ==>
              RunBetween(s, r.value.1) &&
              r.value.0 == ToInt(Horner(128, 0, s.data[s.pos..r.value.1.pos]))
    ensures r.Err? ==> ReadVarUIntOrEof(s) == Err(r.error)
    ensures ReadVarUIntOrEof(s).Ok? ==>
              r.Ok? && r.value.1 == ReadVarUIntOrEof(s).value.1 &&
              r.value.0 == match ReadVarUIntOrEof(s).value.0 case None => EOF case Some(v) => v
  {
    if !Avail(s, 1) then Ok((EOF, Read(s).1))
    else ReadVarUIntAsWritten(s)
  }

  /** The five-byte field 0F 7F 7F 7F FF holds 2^32 - 1, which the as-written
      reader wraps to -1, the end-of-input sentinel: a field id read in a struct
      ends the struct silently.  The corrected reader reports an overflow. */
  lemma WrappedFieldIdReadsAsEof()
    ensures ReadVarUIntOrEofAsWritten(Source([0x0F, 0x7F, 0x7F, 0x7F, 0xFF], 0, NoLimit)) ==
            Ok((EOF, Source([0x0F, 0x7F, 0x7F, 0x7F, 0xFF], 5, NoLimit)))
    ensures ReadVarUIntOrEofAsWritten(Source([], 0, NoLimit)) == Ok((EOF, Source([], 0, NoLimit)))
    ensures ReadVarUIntOrEof(Source([0x0F, 0x7F, 0x7F, 0x7F, 0xFF], 0, NoLimit)) == Err(IntOverflow)
  {
    var run: seq<byte> := [0x0F, 0x7F, 0x7F, 0x7F, 0xFF];
    var s := Source(run, 0, NoLimit);
    var t := Source(run, 5, NoLimit);
    assert s.data[0..5] == run;
    ReadGroupsRun(s, 0, 5, run);
    AllOnesField();
    assert ReadGroups(s, 0, 5) == Ok((0xFFFF_FFFF, t));
    assert ToInt(0xFFFF_FFFF) == -1;
    assert ReadVarUIntAsWritten(s) == Ok((-1, t));
    assert Avail(s, 1);
  }

  /** The VarUInt 0F 7F 7F 7F FF holds 2^32 - 1. */
  lemma AllOnesField()
    ensures Horner(128, 0, [0x0F, 0x7F, 0x7F, 0x7F, 0xFF]) == 0xFFFF_FFFF
  {
    var a1: seq<byte> := [0x0F];
    assert Horner(128, 0, a1) == 0x0F by { HornerLast(128, 0, [], 0x0F); assert [] + [0x0F] == a1; }
    HornerLast(128, 0, a1, 0x7F);
    var a2 := a1 + [0x7F];
    HornerLast(128, 0, a2, 0x7F);
    var a3 := a2 + [0x7F];
    HornerLast(128, 0, a3, 0x7F);
    var a4 := a3 + [0x7F];
    HornerLast(128, 0, a4, 0xFF);
    assert a4 + [0xFF] == [0x0F, 0x7F, 0x7F, 0x7F, 0xFF];
  }

  // ----------------------------------------------------------------- VarInt

  /** The value of a VarInt's bytes: six magnitude bits in the first byte below
      the sign flag `0x40`, seven in each later byte. */
  function VarIntMagnitude(bs: seq<byte>): int
    requires |bs| >= 1
  {
    Horner(128, bs[0] % 64, bs[1..])
  }

  predicate VarIntNegative(bs: seq<byte>)
    requires |bs| >= 1
  {
    bs[0] / 64 % 2 == 1
  }

  /** The sign flag, the magnitude and the source after a VarInt of at most
      five bytes. */
  function ReadVarIntParts(s: Source): (r: Result<(bool, int, Source)>)
    requires Valid(s)
    ensures r.Ok? ==> var t := r.value.2;
              Valid(t) && t.data == s.data && s.pos < t.pos <= s.pos + 5 &&
              Avail(s, t.pos - s.pos) && t == Advance(s, t.pos - s.pos)
    ensures !Avail(s, 1) ==> r == Err(UnexpectedEof)
    ensures r.Err? ==> r.error == UnexpectedEof || r.error == IntOverflow
  {
    var (b, s1) := Read(s);
    if b < 0 then Err(UnexpectedEof)
    else
      var negative := b / 64 % 2 == 1;
      if b >= 128 then Ok((negative, b % 64, s1))
      else
        var p :- ReadGroups(s1, b % 64, 4);
        AdvanceAdd(s, 1, p.1.pos - s1.pos);
        Ok((negative, p.0, p.1))
  }

  /** What `ReadVarIntParts` reads: a run of at most five bytes ending at the
      first with the end flag, whose sign flag and magnitude bits it returns;
      five bytes without the end flag are an int overflow. */
  lemma ReadVarIntPartsValue(s: Source)
    requires Valid(s)
    ensures var r := ReadVarIntParts(s);
            r.Ok? ==> IsStopRun(s.data[s.pos..r.value.2.pos]) &&
                      r.value.0 == VarIntNegative(s.data[s.pos..r.value.2.pos]) &&
                      r.value.1 == VarIntMagnitude(s.data[s.pos..r.value.2.pos])
    ensures Avail(s, 5) && NoStop(s.data[s.pos..s.pos + 5]) ==> ReadVarIntParts(s) == Err(IntOverflow)
  {
    var (b, s1) := Read(s);
    if b >= 128 {
      assert s.data[s.pos..s1.pos] == [b];
    } else if b >= 0 {
      ReadGroupsValue(s1, b % 64, 4);
      PartsRun(s, b, s1);
      PartsOverflow(s, b, s1);
    }
  }

  lemma PartsRun(s: Source, b: int, s1: Source)
    requires Valid(s) && Read(s) == (b, s1) && 0 <= b < 128
    requires GroupsRead(s1, b % 64, 4, ReadGroups(s1, b % 64, 4))
    ensures var r := ReadVarIntParts(s);
            r.Ok? ==> IsStopRun(s.data[s.pos..r.value.2.pos]) &&
                      r.value.0 == VarIntNegative(s.data[s.pos..r.value.2.pos]) &&
                      r.value.1 == VarIntMagnitude(s.data[s.pos..r.value.2.pos])
  {
    var r := ReadGroups(s1, b % 64, 4);
    if r.Ok? {
      var t := r.value.1;
      assert s1 == Advance(s, 1) && b == s.data[s.pos];
      AdvanceAdd(s, 1, t.pos - s1.pos);
      assert ReadVarIntParts(s) == Ok((b / 64 % 2 == 1, r.value.0, t));
      var bs := s.data[s.pos..t.pos];
      var tail := s1.data[s1.pos..t.pos];
      assert bs[0] == b && bs[1..] == tail;
      StopRunCons(0, bs, tail);
      assert VarIntMagnitude(bs) == Horner(128, b % 64, tail);
    }
  }

  lemma PartsOverflow(s: Source, b: int, s1: Source)
    requires Valid(s) && Read(s) == (b, s1) && 0 <= b < 128
    requires GroupsRead(s1, b % 64, 4, ReadGroups(s1, b % 64, 4))
    ensures Avail(s, 5) && NoStop(s.data[s.pos..s.pos + 5]) ==> ReadVarIntParts(s) == Err(IntOverflow)
  {
    if Avail(s, 5) && NoStop(s.data[s.pos..s.pos + 5]) {
      assert s1 == Advance(s, 1) && b == s.data[s.pos];
      AdvanceAdd(s, 1, 4);
      NoStopCons(s.data[s.pos..s.pos + 5], s1.data[s1.pos..s1.pos + 4]);
      assert ReadGroups(s1, b % 64, 4) == Err(IntOverflow);
    }
  }

  /** A sign flag and a magnitude as one signed value. */
  function Signed(negative: bool, m: int): int {
    if negative then -m else m
  }

  /** `readVarInt`, with a signed value outside the Java int range reported
      as an int overflow: a magnitude up to Integer.MAX_VALUE, or 2^31 with
      the sign flag set, which is Integer.MIN_VALUE.  Negative zero reads as
      0. */
  function ReadVarInt(s: Source): (r: Result<(int, Source)>)
    requires Valid(s)
    ensures r.Ok? ==> var t := r.value.1;
              IsInt(r.value.0) && Valid(t) && t.data == s.data &&
              s.pos < t.pos <= s.pos + 5 && Avail(s, t.pos - s.pos) && t == Advance(s, t.pos - s.pos)
    ensures !Avail(s, 1) ==> r == Err(UnexpectedEof)
    ensures r.Err? ==> r.error == UnexpectedEof || r.error == IntOverflow
  {
    var p :- ReadVarIntParts(s);
    if p.1 < 0 || !IsInt(Signed(p.0, p.1)) then Err(IntOverflow)
    else Ok((Signed(p.0, p.1), p.2))
  }

  /** What `ReadVarInt` reads: the magnitude of a VarInt, negated when the
      sign flag is set; a signed value outside the int range is an
      overflow. */
  lemma ReadVarIntValue(s: Source)
    requires Valid(s)
    ensures var r := ReadVarInt(s);
            r.Ok? ==> var bs := s.data[s.pos..r.value.1.pos];
                      IsStopRun(bs) && 0 <= VarIntMagnitude(bs) &&
                      r.value.0 == (if VarIntNegative(bs) then -1 else 1) * VarIntMagnitude(bs)
    ensures ReadVarIntParts(s).Ok? && !IsInt(Signed(ReadVarIntParts(s).value.0, ReadVarIntParts(s).value.1)) ==>
              ReadVarInt(s) == Err(IntOverflow)
  {
    ReadVarIntPartsValue(s);
    var p := ReadVarIntParts(s);
    if p.Ok? {
      var bs := s.data[s.pos..p.value.2.pos];
      HornerFromNonNeg(bs[0] % 64, bs[1..]);
    }
  }

  /** `readVarInteger`: like `ReadVarInt`, but negative zero is `None`. */
  function ReadVarInteger(s: Source): (r: Result<(Option<int>, Source)>)
    requires Valid(s)
    ensures r.Ok? <==> ReadVarInt(s).Ok?
    ensures r.Err? ==> r.error == ReadVarInt(s).error
    ensures r.Ok? ==> r.value.1 == ReadVarInt(s).value.1 &&
                      (r.value.0.Some? ==> r.value.0.value == ReadVarInt(s).value.0) &&
                      (r.value.0.None? ==> ReadVarInt(s).value.0 == 0)
  {
    var p :- ReadVarIntParts(s);
    if p.1 < 0 || !IsInt(Signed(p.0, p.1)) then Err(IntOverflow)
    else if p.0 && p.1 == 0 then Ok((None, p.2))
    else Ok((Some(Signed(p.0, p.1)), p.2))
  }

  /** `ReadVarInteger` gives `None` exactly for negative zero: the sign flag
      set and a zero magnitude. */
  lemma ReadVarIntegerValue(s: Source)
    requires Valid(s)
    ensures var r := ReadVarInteger(s);
            r.Ok? ==> var bs := s.data[s.pos..r.value.1.pos];
                      (r.value.0.None? <==> VarIntNegative(bs) && VarIntMagnitude(bs) == 0)
  {
    ReadVarIntPartsValue(s);
  }

  /** `t` follows `s` by one run of at most five bytes whose last byte alone
      carries the end flag. */
  predicate RunBetween(s: Source, t: Source)
    requires Valid(s)
  {
    s.pos < t.pos <= s.pos + 5 && Avail(s, t.pos - s.pos) && t == Advance(s, t.pos - s.pos) &&
    IsStopRun(s.data[s.pos..t.pos])
  }

  /** A sign flag and a magnitude as `readVarInt` combines them in Java ints:
      the magnitude wraps, then its negation wraps. */
  function WrappedSigned(negative: bool, m: int): int {
    if negative then ToInt(-ToInt(m)) else ToInt(m)
  }

  /** `readVarInt` as written: the magnitude wraps in a Java int before the
      (also wrapping) negation.  It fails only where the corrected reader
      fails for want of input or of an end flag. */
  function ReadVarIntAsWritten(s: Source): (r: Result<(int, Source)>)
    requires Valid(s)
    ensures ReadVarInt(s).Ok? ==> r == ReadVarInt(s)
    ensures r.Ok? ==>
              IsInt(r.value.0) && RunBetween(s, r.value.1) &&
              r.value.0 == WrappedSigned(VarIntNegative(s.data[s.pos..r.value.1.pos]),
                                         VarIntMagnitude(s.data[s.pos..r.value.1.pos]))
    ensures r.Err? ==> ReadVarInt(s) == Err(r.error)
    ensures ReadVarInt(s).Err? && r.Ok? ==> ReadVarInt(s).error == IntOverflow
  {
    ReadVarIntPartsValue(s);
    var p :- ReadVarIntParts(s);
    WrapAgrees(p.0, p.1);
    Ok((WrappedSigned(p.0, p.1), p.2))
  }

  /** Wrapping the magnitude and then the negation changes nothing when the
      signed value is an int. */
  lemma WrapAgrees(negative: bool, m: int)
    ensures 0 <= m && IsInt(Signed(negative, m)) ==> WrappedSigned(negative, m) == Signed(negative, m)
  {
    if 0 <= m && IsInt(Signed(negative, m)) && !IsInt(m) {
      assert ToInt(m) == INT_MIN;
    }
  }

  /** `readVarInteger` as written: the magnitude wraps in a Java int, and a
      negative one is `None` when the wrapped magnitude is zero. */
  function ReadVarIntegerAsWritten(s: Source): (r: Result<(Option<int>, Source)>)
    requires Valid(s)
    ensures ReadVarInteger(s).Ok? ==> r == ReadVarInteger(s)
    ensures r.Ok? ==>
              RunBetween(s, r.value.1) &&
              var bs := s.data[s.pos..r.value.1.pos];
              (r.value.0.None? <==> VarIntNegative(bs) && ToInt(VarIntMagnitude(bs)) == 0) &&
              (r.value.0.Some? ==> r.value.0.value == WrappedSigned(VarIntNegative(bs), VarIntMagnitude(bs)))
    ensures r.Ok? && r.value.0.Some? ==> IsInt(r.value.0.value)
    ensures r.Err? ==> ReadVarInteger(s) == Err(r.error)
    ensures ReadVarInteger(s).Err? && r.Ok? ==> ReadVarInteger(s).error == IntOverflow
  {
    ReadVarIntPartsValue(s);
    var p :- ReadVarIntParts(s);
    WrapAgrees(p.0, p.1);
    if p.0 && ToInt(p.1) == 0 then Ok((None, p.2))
    else Ok((Some(WrappedSigned(p.0, p.1)), p.2))
  }

  /** The most significant magnitude bits: at most six bits of `q`, then the
      remaining seven-bit groups, with the sign in the first byte. */
  function VarIntHead(negative: bool, q: nat): (bs: seq<byte>)
    ensures |bs| >= 1 && NoStop(bs)
    ensures VarIntNegative(bs) == negative
    ensures VarIntMagnitude(bs) == q
    decreases q
  {
    if q < 64 then [q + (if negative then 64 else 0)]
    else
      var p := VarIntHead(negative, q / 128);
      GroupAppended(p, q % 128);
      p + [q % 128]
  }

  /** One more seven-bit group below a VarInt's leading bytes. */
  lemma GroupAppended(p: seq<byte>, x: byte)
    requires |p| >= 1
    ensures var bs := p + [x];
            bs[0] == p[0] && VarIntMagnitude(bs) == VarIntMagnitude(p) * 128 + x % 128
    ensures NoStop(p) && x < 128 ==> NoStop(p + [x])
    ensures NoStop(p) && x >= 128 ==> IsStopRun(p + [x])
  {
    var bs := p + [x];
    assert bs[1..] == p[1..] + [x];
    HornerLast(128, p[0] % 64, p[1..], x);
    assert forall i | 0 <= i < |p| :: bs[i] == p[i];
  }

  /** The leading bytes of a magnitude below 2^27 take at most four bytes. */
  lemma {:induction false} VarIntHeadLength(negative: bool, q: nat)
    ensures q < 64 ==> |VarIntHead(negative, q)| == 1
    ensures q < 0x2000 ==> |VarIntHead(negative, q)| <= 2
    ensures q < 0x10_0000 ==> |VarIntHead(negative, q)| <= 3
    ensures q < 0x800_0000 ==> |VarIntHead(negative, q)| <= 4
    decreases q
  {
    if q >= 64 {
      VarIntHeadLength(negative, q / 128);
    }
  }

  /** The shortest VarInt encoding of a sign and magnitude. */
  function VarIntBytes(negative: bool, m: nat): (bs: seq<byte>)
    ensures IsStopRun(bs)
    ensures VarIntNegative(bs) == negative
    ensures VarIntMagnitude(bs) == m
    ensures m <= INT_MAX ==> |bs| <= 5
  {
    if m < 64 then [m + (if negative then 64 else 0) + 128]
    else
      var p := VarIntHead(negative, m / 128);
      GroupAppended(p, m % 128 + 128);
      VarIntHeadLength(negative, m / 128);
      p + [m % 128 + 128]
  }

  /** A stop run of at most five bytes at the read position is read as one
      VarInt: its sign flag and its magnitude. */
  lemma PartsOfRun(s: Source, run: seq<byte>)
    requires IsStopRun(run) && |run| <= 5 && At(s, run)
    ensures ReadVarIntParts(s) == Ok((VarIntNegative(run), VarIntMagnitude(run), Advance(s, |run|)))
  {
    var b := run[0];
    var rest := run[1..];
    assert run == [b] + rest;
    var s1 := AtSplit(s, [b], rest);
    assert s.data[s.pos] == b;
    assert Read(s) == (b, s1);
    if |rest| > 0 {
      assert b < 128;
      assert IsStopRun(rest) by {
        assert forall i | 0 <= i < |rest| :: rest[i] == run[i + 1];
      }
      ReadGroupsRun(s1, b % 64, 4, rest);
    }
  }

  /** A VarInt encoding is read back as its sign and magnitude. */
  lemma VarIntPartsRoundTrip(s: Source, negative: bool, m: nat)
    requires Valid(s) && m <= INT_MAX
    requires Avail(s, |VarIntBytes(negative, m)|)
    requires s.data[s.pos..s.pos + |VarIntBytes(negative, m)|] == VarIntBytes(negative, m)
    ensures ReadVarIntParts(s) == Ok((negative, m as int, Advance(s, |VarIntBytes(negative, m)|)))
  {
    PartsOfRun(s, VarIntBytes(negative, m));
  }

  /** A VarInt encoding of any magnitude up to Integer.MAX_VALUE decodes back
      to its signed value; negative zero reads as 0, and as `None` through
      `ReadVarInteger`. */
  lemma VarIntRoundTrip(s: Source, negative: bool, m: nat)
    requires Valid(s) && m <= INT_MAX
    requires Avail(s, |VarIntBytes(negative, m)|)
    requires s.data[s.pos..s.pos + |VarIntBytes(negative, m)|] == VarIntBytes(negative, m)
    ensures ReadVarInt(s) == Ok((if negative then -(m as int) else m, Advance(s, |VarIntBytes(negative, m)|)))
    ensures ReadVarInteger(s) ==
            Ok((if negative && m == 0 then None else Some(if negative then -(m as int) else m),
                Advance(s, |VarIntBytes(negative, m)|)))
  {
    VarIntPartsRoundTrip(s, negative, m);
  }

  /** The five-byte VarInt 10 00 00 00 80 holds 2^32, which the as-written
      reader wraps to 0; the corrected reader reports an overflow. */
  lemma WrappedVarIntReadsAsZero()
    ensures ReadVarIntAsWritten(Source([0x10, 0x00, 0x00, 0x00, 0x80], 0, NoLimit)) ==
            Ok((0, Source([0x10, 0x00, 0x00, 0x00, 0x80], 5, NoLimit)))
    ensures ReadVarInt(Source([0x10, 0x00, 0x00, 0x00, 0x80], 0, NoLimit)) == Err(IntOverflow)
  {
    var run: seq<byte> := [0x10, 0x00, 0x00, 0x00, 0x80];
    var s := Source(run, 0, NoLimit);
    assert s.data[0..5] == run;
    WrappedVarIntAt(s, run);
  }

  /** Wherever the VarUInt 10 00 00 00 80 stands, its value 2^32 wraps to 0
      as written; the corrected reader reports an overflow. */
  lemma WrappedVarUIntAt(s: Source)
    requires At(s, [0x10, 0x00, 0x00, 0x00, 0x80])
    ensures ReadVarUIntAsWritten(s) == Ok((0, Advance(s, 5)))
    ensures ReadVarUInt(s) == Err(IntOverflow)
  {
    UnsignedTwoToThe32(s);
    WrapTwoToThe32();
  }

  lemma UnsignedTwoToThe32(s: Source)
    requires At(s, [0x10, 0x00, 0x00, 0x00, 0x80])
    ensures ReadGroups(s, 0, 5) == Ok((0x1_0000_0000, Advance(s, 5)))
  {
    var run: seq<byte> := [0x10, 0x00, 0x00, 0x00, 0x80];
    assert IsStopRun(run);
    ReadGroupsRun(s, 0, 5, run);
    TwoToThe32(run);
  }

  lemma WrapTwoToThe32()
    ensures ToInt(0x1_0000_0000) == 0
  {
  }

  /** A one-byte field carries its value in the low seven bits. */
  lemma OneByteVarUInt(s: Source, b: byte)
    requires b >= 128 && At(s, [b])
    ensures ReadVarUIntAsWritten(s) == Ok((b - 128, Advance(s, 1)))
  {
    assert IsStopRun([b]);
    ReadGroupsRun(s, 0, 5, [b]);
    assert Horner(128, 0, [b]) == b - 128;
  }

  /** Wherever the run 10 00 00 00 80 (or 50 00 00 00 80) stands, the
      as-written readers take its magnitude 2^32 for zero and the corrected
      ones report an overflow. */
  lemma WrappedVarIntAt(s: Source, run: seq<byte>)
    requires run == [0x10, 0x00, 0x00, 0x00, 0x80] || run == [0x50, 0x00, 0x00, 0x00, 0x80]
    requires At(s, run)
    ensures ReadVarIntAsWritten(s) == Ok((0, Advance(s, 5)))
    ensures ReadVarIntegerAsWritten(s) ==
              Ok((if run[0] == 0x50 then None else Some(0), Advance(s, 5)))
    ensures ReadVarInt(s) == Err(IntOverflow) && ReadVarInteger(s) == Err(IntOverflow)
  {
    var negative := run[0] == 0x50;
    assert ReadVarIntParts(s) == Ok((negative, 0x1_0000_0000, Advance(s, 5))) by {
      assert IsStopRun(run);
      TwoToThe32(run);
      PartsOfRun(s, run);
    }
    WrapTwoToThe32();
    assert WrappedSigned(negative, 0x1_0000_0000) == 0;
  }

  /** The five-byte VarInt 50 00 00 00 80 is negative with magnitude 2^32,
      which the as-written `readVarInteger` wraps to zero and so reads as
      negative zero, the unknown timestamp offset; the corrected reader
      reports an overflow. */
  lemma WrappedVarIntegerReadsAsNull()
    ensures ReadVarIntegerAsWritten(Source([0x50, 0x00, 0x00, 0x00, 0x80], 0, NoLimit)) ==
            Ok((None, Source([0x50, 0x00, 0x00, 0x00, 0x80], 5, NoLimit)))
    ensures ReadVarInteger(Source([0x50, 0x00, 0x00, 0x00, 0x80], 0, NoLimit)) == Err(IntOverflow)
  {
    var run: seq<byte> := [0x50, 0x00, 0x00, 0x00, 0x80];
    var s := Source(run, 0, NoLimit);
    assert s.data[0..5] == run;
    WrappedVarIntAt(s, run);
  }

  /** The five-byte VarInt 48 00 00 00 80 is negative with magnitude 2^31:
      it is Integer.MIN_VALUE, which both readers return. */
  lemma MinIntVarInt()
    ensures ReadVarInt(Source([0x48, 0x00, 0x00, 0x00, 0x80], 0, NoLimit)) ==
            Ok((INT_MIN, Source([0x48, 0x00, 0x00, 0x00, 0x80], 5, NoLimit)))
    ensures ReadVarIntAsWritten(Source([0x48, 0x00, 0x00, 0x00, 0x80], 0, NoLimit)) ==
            Ok((INT_MIN, Source([0x48, 0x00, 0x00, 0x00, 0x80], 5, NoLimit)))
  {
    var run: seq<byte> := [0x48, 0x00, 0x00, 0x00, 0x80];
    var s := Source(run, 0, NoLimit);
    assert s.data[0..5] == run;
    assert IsStopRun(run);
    TwoToThe31(run);
    PartsOfRun(s, run);
  }

  /** The VarInt 48 00 00 00 80 is negative with magnitude 2^31. */
  lemma TwoToThe31(run: seq<byte>)
    requires run == [0x48, 0x00, 0x00, 0x00, 0x80]
    ensures VarIntNegative(run) && VarIntMagnitude(run) == 0x8000_0000
  {
    var a1: seq<byte> := [];
    HornerLast(128, 8, a1, 0x00);
    var a2 := a1 + [0x00];
    HornerLast(128, 8, a2, 0x00);
    var a3 := a2 + [0x00];
    HornerLast(128, 8, a3, 0x00);
    var a4 := a3 + [0x00];
    HornerLast(128, 8, a4, 0x80);
    assert run[1..] == a4 + [0x80];
  }

  /** The VarInt 10 00 00 00 80 is positive, and 50 00 00 00 80 negative,
      with magnitude 2^32. */
  lemma TwoToThe32(run: seq<byte>)
    requires run == [0x10, 0x00, 0x00, 0x00, 0x80] || run == [0x50, 0x00, 0x00, 0x00, 0x80]
    ensures VarIntNegative(run) == (run[0] == 0x50) && VarIntMagnitude(run) == 0x1_0000_0000
    ensures run[0] == 0x10 ==> Horner(128, 0, run) == 0x1_0000_0000
  {
    var a1: seq<byte> := [];
    HornerLast(128, 16, a1, 0x00);
    var a2 := a1 + [0x00];
    HornerLast(128, 16, a2, 0x00);
    var a3 := a2 + [0x00];
    HornerLast(128, 16, a3, 0x00);
    var a4 := a3 + [0x00];
    HornerLast(128, 16, a4, 0x80);
    assert run[1..] == a4 + [0x80];
  }

  // ------------------------------------------------------------------- UInt

  /** The reading loop of `readULong` over `k` more bytes. */
  function ReadBytesBigEndian(s: Source, acc: int, k: nat): (r: Result<(int, Source)>)
    requires Valid(s)
    ensures k == 0 ==> r == Ok((acc, s))
    ensures k > 0 ==> (r.Ok? <==> Avail(s, k))
    ensures k > 0 && r.Ok? ==> r.value == (Horner(256, acc, s.data[s.pos..s.pos + k]), Advance(s, k))
    ensures r.Err? ==> r.error == UnexpectedEof
    decreases k
  {
    if k == 0 then Ok((acc, s))
    else
      var (b, s1) := Read(s);
      if b < 0 then Err(UnexpectedEof)
      else
        var r := ReadBytesBigEndian(s1, acc * 256 + b, k - 1);
        if Avail(s, k) then
          SliceCons(s, k);
          AdvanceAdd(s, 1, k - 1);
          r
        else r
  }

  /** `len` big-endian bytes hold a value below 256^len. */
  lemma {:induction false} UIntBound(bs: seq<byte>)
    ensures 0 <= Horner(256, 0, bs) < Pow256(|bs|)
    decreases |bs|
  {
    if |bs| > 0 {
      var init := bs[..|bs| - 1];
      assert bs == init + [bs[|bs| - 1]];
      HornerLast(256, 0, init, bs[|bs| - 1]);
      UIntBound(init);
    }
  }

  /** `readULong(len)`: a big-endian unsigned value of 0 to 8 bytes held in a
      Java long, so eight bytes with the high bit set come out negative. */
  function ReadULong(s: Source, len: int): (r: Result<(int, Source)>)
    requires Valid(s)
    ensures (len < 0 || len > 8) <==> r == Err(ValueTooLarge)
    ensures len == 0 ==> r == Ok((0, s))
    ensures 0 < len <= 8 ==> (r.Ok? <==> Avail(s, len))
    ensures 0 < len <= 8 && Avail(s, len) ==>
              r == Ok((ToLong(Horner(256, 0, s.data[s.pos..s.pos + len])), Advance(s, len)))
    ensures r.Err? ==> r.error == ValueTooLarge || r.error == UnexpectedEof
  {
    if len < 0 || len > 8 then Err(ValueTooLarge)
    else if len == 0 then Ok((0, s))
    else
      var p :- ReadBytesBigEndian(s, 0, len);
      Ok((ToLong(p.0), p.1))
  }

  /** Fewer than eight bytes always fit a long: the value read is the
      unsigned value of the bytes, below 256^len. */
  lemma ULongBound(s: Source, len: int)
    requires Valid(s) && 0 <= len < 8
    ensures ReadULong(s, len).Ok? ==>
              0 <= ReadULong(s, len).value.0 < Pow256(len) &&
              (len > 0 ==> ReadULong(s, len).value.0 == Horner(256, 0, s.data[s.pos..s.pos + len]))
  {
    var r := ReadULong(s, len);
    if r.Ok? && len > 0 {
      var bs := s.data[s.pos..s.pos + len];
      var h := Horner(256, 0, bs);
      assert r.value.0 == ToLong(h);
      UIntBound(bs);
      Pow256Mono(len, 7);
      SmallLong(h);
    }
  }

  lemma SmallLong(h: int)
    requires 0 <= h < 0x100_0000_0000_0000
    ensures ToLong(h) == h
  {
    assert IsLong(h);
  }

  lemma {:induction false} Pow256Mono(i: nat, j: nat)
    ensures i <= j ==> Pow256(i) <= Pow256(j)
    ensures Pow256(7) == 0x100_0000_0000_0000
    decreases j
  {
    if i < j {
      Pow256Mono(i, j - 1);
    }
  }

  /** The big-endian bytes of `v` in a field of `len` bytes. */
  function UIntBytes(v: nat, len: nat): (bs: seq<byte>)
    requires v < Pow256(len)
    ensures |bs| == len && Horner(256, 0, bs) == v
  {
    if len == 0 then []
    else
      var p := UIntBytes(v / 256, len - 1);
      HornerLast(256, 0, p, v % 256);
      p + [v % 256]
  }

  /** A UInt field of up to eight bytes reads back as its value narrowed to a
      Java long; up to seven bytes it reads back exactly. */
  lemma ULongRoundTrip(s: Source, v: nat, len: nat)
    requires Valid(s) && len <= 8 && v < Pow256(len)
    requires Avail(s, len) && s.data[s.pos..s.pos + len] == UIntBytes(v, len)
    ensures ReadULong(s, len) == Ok((ToLong(v), Advance(s, len)))
    ensures len < 8 ==> ReadULong(s, len).value.0 == v
  {
    if len == 0 {
      ULongReadEmpty(s);
    } else {
      assert Horner(256, 0, s.data[s.pos..s.pos + len]) == v;
      ULongReadSome(s, v, len);
    }
    if len < 8 {
      ULongBound(s, len);
    }
  }

  lemma ULongReadEmpty(s: Source)
    requires Valid(s) && Avail(s, 0)
    ensures ReadULong(s, 0) == Ok((ToLong(0), Advance(s, 0)))
  {
  }

  lemma ULongReadSome(s: Source, v: nat, len: nat)
    requires Valid(s) && 0 < len <= 8 && Avail(s, len)
    requires Horner(256, 0, s.data[s.pos..s.pos + len]) == v
    ensures ReadULong(s, len) == Ok((ToLong(v), Advance(s, len)))
  {
  }
}
