/** The raw reader's container stack (`push`, `get_top_position`,
    `get_top_type`, `get_top_local_remaining`, `pop`): one frame per open
    container, each a pair of Java longs holding the position to resume at
    and the parent's type id packed with its byte budget. */
module ContainerStack {
  import opened Wrappers
  import opened JavaInts

  /** `IonConstants.tidDATAGRAM`, the pseudo type id of the top level. */
  const TID_DATAGRAM: int := 16

  /** One frame: `position` and `type_limit`, both Java longs. */
  datatype Frame = Frame(position: int, typeLimit: int)

  /** The frames, innermost last; the depth is their number. */
  type Stack = seq<Frame>

  /** `type_limit = ((long) local_remaining << 32) | (type & TYPE_MASK)`.
      `TYPE_MASK` is declared `0xffffffff`, an int literal equal to -1, so the
      mask widens to all 64 bits: a non-negative type lands in the low 32
      bits, a negative one sign-extends over the budget. */
  function Pack(tid: int, position: int, remaining: int): (f: Frame)
    requires IsInt(tid) && IsInt(remaining) && IsLong(position)
    ensures IsLong(f.typeLimit) && f.position == position
    ensures 0 <= tid ==> f.typeLimit % TWO_32 == tid
  {
    var shifted := remaining * TWO_32;
    Frame(position, if tid >= 0 then shifted + tid else tid)
  }

  /** `get_top_type`: the low 32 bits of the packed word as an int; a type
      outside 0..tidDATAGRAM is an invalid parent type. */
  function TopType(f: Frame): (r: Result<int>)
    ensures r.Ok? ==> 0 <= r.value <= TID_DATAGRAM && (f.typeLimit - r.value) % TWO_32 == 0
    ensures r.Err? ==> r.error == InvalidParentType
  {
    var t := ToInt(f.typeLimit);
    if t < 0 || t > TID_DATAGRAM then Err(InvalidParentType) else Ok(t)
  }

  /** `get_top_local_remaining`: the high 32 bits (arithmetic shift) as an int. */
  function TopRemaining(f: Frame): (n: int)
    requires IsLong(f.typeLimit)
    ensures IsInt(n) && n * TWO_32 <= f.typeLimit < n * TWO_32 + TWO_32
  {
    f.typeLimit / TWO_32
  }

  /** `push`: a frame on top of the stack. */
  function Push(st: Stack, tid: int, position: int, remaining: int): (st': Stack)
    requires IsInt(tid) && IsInt(remaining) && IsLong(position)
    ensures |st'| == |st| + 1 && st'[..|st|] == st
    ensures 0 <= tid <= TID_DATAGRAM ==>
              var f := st'[|st|];
              IsLong(f.typeLimit) && f.position == position && TopType(f) == Ok(tid) && TopRemaining(f) == remaining
  {
    var f := Pack(tid, position, remaining);
    assert 0 <= tid <= TID_DATAGRAM ==> TopType(f) == Ok(tid) && TopRemaining(f) == remaining by {
      if 0 <= tid <= TID_DATAGRAM {
        PackRoundTrip(tid, position, remaining);
      }
    }
    st + [f]
  }

  /** `pop`: the stack without its top frame. */
  function Pop(st: Stack): (st': Stack)
    requires |st| > 0
    ensures |st'| == |st| - 1 && st' + [st[|st| - 1]] == st
  {
    st[..|st| - 1]
  }

  /** The top frame. */
  function Top(st: Stack): (f: Frame)
    requires |st| > 0
    ensures Pop(st) + [f] == st
  {
    st[|st| - 1]
  }

  /** Unpacking a frame returns exactly what was packed, for every type id
      a container can have as its parent and every budget, `NO_LIMIT`
      included. */
  lemma PackRoundTrip(tid: int, position: int, remaining: int)
    requires 0 <= tid <= TID_DATAGRAM && IsInt(remaining) && IsLong(position)
    ensures var f := Pack(tid, position, remaining);
            f.position == position && TopType(f) == Ok(tid) && TopRemaining(f) == remaining
  {
    var f := Pack(tid, position, remaining);
    assert f.typeLimit == remaining * TWO_32 + tid;
    assert ToInt(f.typeLimit) == tid by {
      assert (f.typeLimit - tid) % TWO_32 == 0;
    }
  }

  /** Because of the all-ones mask a negative type id would overwrite the
      budget: the budget then reads back as -1.  No caller pushes one. */
  lemma NegativeTypeHidesBudget(tid: int, position: int, remaining: int)
    requires INT_MIN <= tid < 0 && IsInt(remaining) && IsLong(position)
    ensures TopRemaining(Pack(tid, position, remaining)) == -1
    ensures TopType(Pack(tid, position, remaining)) == Err(InvalidParentType)
  {
  }

  /** Pushing and then popping leaves the stack as it was, and the frame in
      between reads back as pushed. */
  lemma PushPop(st: Stack, tid: int, position: int, remaining: int)
    requires 0 <= tid <= TID_DATAGRAM && IsInt(remaining) && IsLong(position)
    ensures var st' := Push(st, tid, position, remaining);
            Pop(st') == st && Top(st').position == position &&
            TopType(Top(st')) == Ok(tid) && TopRemaining(Top(st')) == remaining
  {
    PackRoundTrip(tid, position, remaining);
  }
}
