/** The input side of the raw binary reader: an in-memory byte sequence, the
    read position, and the per-container byte budget `_local_remaining` that
    `read`, `read(byte[],int,int)`, `skip` and `isEOF` consult. */
module ByteSource {
  import opened Wrappers
  import opened JavaInts

  /** An unsigned byte, as `UnifiedInputStreamX.read` returns it. */
  type byte = b: int | 0 <= b < 256

  /** The end-of-input sentinel of `UnifiedInputStreamX`. */
  const EOF: int := -1

  /** `_local_remaining`: either `NO_LIMIT` (Integer.MIN_VALUE) or a Java int. */
  datatype Budget = NoLimit | Limit(n: int)

  /** The budget is a Java int other than the `NO_LIMIT` sentinel. */
  predicate ValidBudget(b: Budget) {
    b.Limit? ==> IsInt(b.n) && b.n != INT_MIN
  }

  /** The Java int stored in `_local_remaining` for a budget. */
  function Raw(b: Budget): (x: int)
    requires ValidBudget(b)
    ensures IsInt(x)
    ensures x == INT_MIN <==> b.NoLimit?
  {
    if b.NoLimit? then INT_MIN else b.n
  }

  /** The budget a Java int stored into `_local_remaining` stands for. */
  function FromRaw(x: int): (b: Budget)
    requires IsInt(x)
    ensures ValidBudget(b)
    ensures Raw(b) == x
  {
    if x == INT_MIN then NoLimit else Limit(x)
  }

  /** Storing a budget's Java int and reading it back gives the budget again. */
  lemma RawRoundTrip(b: Budget)
    requires ValidBudget(b)
    ensures FromRaw(Raw(b)) == b
  {
  }

  /** The reader's view of its input. */
  datatype Source = Source(data: seq<byte>, pos: nat, budget: Budget)

  predicate Valid(s: Source) {
    s.pos <= |s.data| && ValidBudget(s.budget)
  }

  /** `n` more bytes can be read: the input holds them and the budget allows them. */
  predicate Avail(s: Source, n: nat) {
    s.pos + n <= |s.data| && (s.budget.Limit? ==> n <= s.budget.n)
  }

  /** The source after `n` bytes have been read. */
  function Advance(s: Source, n: nat): (t: Source)
    requires Valid(s) && Avail(s, n)
    ensures Valid(t) && t.data == s.data && t.pos == s.pos + n
    ensures n == 0 ==> t == s
    ensures t.budget.NoLimit? <==> s.budget.NoLimit?
    ensures s.budget.Limit? ==> t.budget.n == s.budget.n - n
  {
    s.(pos := s.pos + n, budget := if s.budget.NoLimit? then NoLimit else Limit(s.budget.n - n))
  }

  /** Reading `a` bytes and then `b` more is reading `a + b` bytes. */
  lemma AdvanceAdd(s: Source, a: nat, b: nat)
    requires Valid(s) && Avail(s, a + b)
    ensures Avail(s, a) && Avail(Advance(s, a), b)
    ensures Advance(Advance(s, a), b) == Advance(s, a + b)
  {
  }

  /** `read()`: one byte, or EOF when the budget is spent or the input is
      exhausted.  A limited budget is charged even when the input then ends. */
  function Read(s: Source): (r: (int, Source))
    requires Valid(s)
    ensures Valid(r.1) && r.1.data == s.data
    ensures r.0 != EOF <==> Avail(s, 1)
    ensures Avail(s, 1) ==> r == (s.data[s.pos], Advance(s, 1))
    ensures !Avail(s, 1) ==> r.1.pos == s.pos
  {
    match s.budget
    case Limit(n) =>
      if n < 1 then (EOF, s)
      else
        var t := s.(budget := Limit(n - 1));
        if s.pos < |s.data| then (s.data[s.pos], t.(pos := s.pos + 1)) else (EOF, t)
    case NoLimit =>
      if s.pos < |s.data| then (s.data[s.pos], s.(pos := s.pos + 1)) else (EOF, s)
  }

  function Min(a: int, b: int): int {
    if a <= b then a else b
  }

  /** What the input stream's own `skip(len)` does: it moves forward by `len`,
      stopping at the end of the input. */
  function InputSkip(s: Source, len: nat): (t: Source)
    requires Valid(s)
    ensures Valid(t) && t.data == s.data && t.budget == s.budget
    ensures t.pos == if s.pos + len <= |s.data| then s.pos + len else |s.data|
  {
    s.(pos := if s.pos + len <= |s.data| then s.pos + len else |s.data|)
  }

  /** `skip(len)`: a negative length is an illegal argument; under a limit a
      length above the budget is cut down to it, unless the budget is already
      spent, which is an unexpected end of input. */
  function Skip(s: Source, len: int): (r: Result<Source>)
    requires Valid(s)
    ensures r.Ok? ==> Valid(r.value) && r.value.data == s.data && s.pos <= r.value.pos
    ensures len < 0 <==> r == Err(IllegalArgument)
    ensures r == Err(UnexpectedEof) <==>
              0 <= len && s.budget.Limit? && len > s.budget.n && s.budget.n < 1
    ensures 0 <= len && Avail(s, len) ==> r == Ok(Advance(s, len))
    ensures 0 <= len && s.budget.NoLimit? ==>
              r.Ok? && r.value.budget == NoLimit && r.value.pos == Min(s.pos + len, |s.data|)
    ensures 0 <= len && s.budget.Limit? && len <= s.budget.n ==>
              r.Ok? && r.value.budget == Limit(s.budget.n - len) && r.value.pos == Min(s.pos + len, |s.data|)
    ensures 0 <= len && s.budget.Limit? && 1 <= s.budget.n < len ==>
              r.Ok? && r.value.budget == Limit(0) && r.value.pos == Min(s.pos + s.budget.n, |s.data|)
  {
    if len < 0 then Err(IllegalArgument)
    else match s.budget
      case NoLimit => Ok(InputSkip(s, len))
      case Limit(n) =>
        if len > n && n < 1 then Err(UnexpectedEof)
        else
          var k := if len > n then n else len;
          Ok(InputSkip(s, k).(budget := Limit(n - k)))
  }

  /** `read(dst, 0, len)` into a fresh array of `len` bytes: the bytes copied
      (the rest of the array stays zero) and the source after them.  Under a
      limit, a length above the budget is cut down to it, unless the budget is
      spent, which is an unexpected end of input. */
  function ReadInto(s: Source, len: int): (r: Result<(seq<byte>, Source)>)
    requires Valid(s)
    ensures r.Ok? ==> |r.value.0| == len && Valid(r.value.1) && r.value.1.data == s.data
    ensures len < 0 <==> r == Err(IllegalArgument)
    ensures 0 <= len && Avail(s, len) ==>
              r == Ok((s.data[s.pos..s.pos + len], Advance(s, len)))
    ensures r.Ok? ==> var got := r.value.1.pos - s.pos;
              0 <= got <= len && r.value.0[..got] == s.data[s.pos..r.value.1.pos] &&
              forall i | got <= i < len :: r.value.0[i] == 0
  {
    if len < 0 then Err(IllegalArgument)
    else
      var want :- match s.budget
        case NoLimit => Ok(len)
        case Limit(n) => if len > n && n < 1 then Err(UnexpectedEof) else Ok(if len > n then n else len);
      var got := if s.pos + want <= |s.data| then want else |s.data| - s.pos;
      var t := s.(pos := s.pos + got,
                  budget := if s.budget.NoLimit? then NoLimit else Limit(s.budget.n - got));
      var copied := s.data[s.pos..s.pos + got];
      Ok((if got == len then copied else copied + seq(len - got, _ => 0), t))
  }

  /** `isEOF()`: a positive budget is never at the end; an unlimited one is at
      the end of the input; a spent one always is. */
  function IsEof(s: Source): (e: bool)
    requires Valid(s)
    ensures s.budget.Limit? ==> (e <==> s.budget.n <= 0)
    ensures s.budget.NoLimit? ==> (e <==> !Avail(s, 1))
  {
    match s.budget
    case Limit(n) => n <= 0
    case NoLimit => s.pos >= |s.data|
  }

  /** The outer budget after a payload of `len` bytes has been read under a
      budget of its own: the budget at the start of the payload less `len`,
      and still unlimited when it was unlimited. */
  function RestoreBudget(saved: Budget, len: int): (b: Budget)
    requires ValidBudget(saved) && 0 <= len <= INT_MAX
    ensures ValidBudget(b)
    ensures saved.NoLimit? ==> b.NoLimit?
    ensures saved.Limit? && saved.n >= len ==> b == Limit(saved.n - len)
  {
    if saved.NoLimit? then NoLimit else FromRaw(ToInt(saved.n - len))
  }

  /** `save_limit = _local_remaining - len` as written in `readDecimal`,
      `readTimestamp` and `readString`: on an unlimited budget the Java int
      Integer.MIN_VALUE - len wraps around to 2^31 - len. */
  function RestoreBudgetAsWritten(saved: Budget, len: int): (b: Budget)
    requires ValidBudget(saved) && 0 <= len <= INT_MAX
    ensures ValidBudget(b)
    ensures saved.Limit? ==> b == RestoreBudget(saved, len)
    ensures saved.NoLimit? && len >= 1 ==> b == Limit(0x8000_0000 - len)
  {
    FromRaw(ToInt(Raw(saved) - len))
  }

  /** Reading the first of two runs of bytes at the read position leaves the
      second at the new position. */
  lemma SplitAdvance(s: Source, a: seq<byte>, b: seq<byte>)
    requires Valid(s) && Avail(s, |a + b|)
    requires s.data[s.pos..s.pos + |a + b|] == a + b
    ensures Avail(s, |a|) && s.data[s.pos..s.pos + |a|] == a
    ensures var s1 := Advance(s, |a|);
            Avail(s1, |b|) && s1.data[s1.pos..s1.pos + |b|] == b &&
            Advance(s1, |b|) == Advance(s, |a + b|)
  {
    SliceSplit(s, a, b);
    AdvanceAdd(s, |a|, |b|);
  }

  /** Splitting the bytes at the read position in two. */
  lemma SliceSplit(s: Source, a: seq<byte>, b: seq<byte>)
    requires Valid(s) && s.pos + |a| + |b| <= |s.data|
    requires s.data[s.pos..s.pos + |a + b|] == a + b
    ensures s.data[s.pos..s.pos + |a|] == a
    ensures s.data[s.pos + |a|..s.pos + |a| + |b|] == b
  {
    assert s.data[s.pos..s.pos + |a|] == (a + b)[..|a|];
    assert s.data[s.pos + |a|..s.pos + |a| + |b|] == (a + b)[|a|..];
  }

  /** The first of `k` bytes at the read position, and the rest after it. */
  lemma SliceCons(s: Source, k: nat)
    requires Valid(s) && Avail(s, k) && k >= 1
    ensures var w := s.data[s.pos..s.pos + k];
            w[0] == s.data[s.pos] && w[1..] == s.data[s.pos + 1..s.pos + k] &&
            w == [s.data[s.pos]] + s.data[s.pos + 1..s.pos + k]
  {
  }

  /** The bytes `e` are at the read position and can be read. */
  predicate At(s: Source, e: seq<byte>) {
    Valid(s) && Avail(s, |e|) && s.data[s.pos..s.pos + |e|] == e
  }

  /** Reading the first of two runs at the read position leaves the second
      there. */
  lemma AtSplit(s: Source, a: seq<byte>, b: seq<byte>) returns (s1: Source)
    requires At(s, a + b)
    ensures At(s, a) && s1 == Advance(s, |a|) && At(s1, b)
    ensures Advance(s1, |b|) == Advance(s, |a + b|)
  {
    SplitAdvance(s, a, b);
    s1 := Advance(s, |a|);
  }

  /** The bytes `bs` are at the read position and the budget covers them and
      `extra` bytes more. */
  predicate Encoded(s: Source, bs: seq<byte>, extra: nat) {
    Valid(s) && s.budget == Limit(|bs| + extra) && Avail(s, |bs|) && s.data[s.pos..s.pos + |bs|] == bs
  }

  /** The payload at the read position, under a budget of its own length. */
  lemma EncodedPayload(s: Source, bs: seq<byte>) returns (s0: Source)
    requires Valid(s) && |bs| <= INT_MAX && Avail(s, |bs|) && s.data[s.pos..s.pos + |bs|] == bs
    ensures s0 == s.(budget := Limit(|bs|)) && Encoded(s0, bs, 0)
  {
    s0 := s.(budget := Limit(|bs|));
  }

  /** Reading the first of two encoded runs leaves the second encoded at the
      new position. */
  lemma EncodedSplit(s: Source, a: seq<byte>, b: seq<byte>, extra: nat)
    requires Encoded(s, a + b, extra)
    ensures Valid(s) && Avail(s, |a|) && s.data[s.pos..s.pos + |a|] == a
    ensures Encoded(Advance(s, |a|), b, extra)
    ensures Advance(Advance(s, |a|), |b|) == Advance(s, |a + b|)
  {
    SplitAdvance(s, a, b);
  }

  /** A prefix of an encoded run is encoded, with the rest as extra budget. */
  lemma EncodedPrefix(s: Source, a: seq<byte>, b: seq<byte>, extra: nat)
    requires Encoded(s, a + b, extra)
    ensures Encoded(s, a, |b| + extra)
  {
    SplitAdvance(s, a, b);
  }

  /** A payload read under a budget of its own length, then charged to the
      outer budget, leaves the reader where reading it directly would. */
  lemma RestoreAfterPayload(s: Source, len: nat)
    requires Valid(s) && len <= INT_MAX && Avail(s, len)
    ensures var s0 := s.(budget := Limit(len));
            Valid(s0) && Avail(s0, len) &&
            Advance(s0, len).(budget := RestoreBudget(s.budget, len)) == Advance(s, len)
  {
  }
}
