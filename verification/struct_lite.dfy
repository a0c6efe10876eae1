/** The struct of the lite DOM (`IonStructLite`): an ordered list of named
    children, optionally indexed by a map from each field name to the
    position of its last child, with a count of the children that repeat a
    name already present. */
module StructLite {
  import opened Wrappers
  import opened Utf8Strings

  /** A field name as the struct's hash sees it: a Java `String`, as UTF-16
      code units.  Everything else only compares names for equality, so it
      is stated for any name type `K`. */
  type FieldName = seq<jchar>

  /** A child value: `id` stands for its object identity and `hash` for its
      `hashCode()`. */
  datatype Value = Value(id: int, hash: bv32)

  /** A child with its field name. */
  datatype Child<K> = Child(name: K, value: Value)

  /** `isNullValue`, the children in order, `_field_map` when it has been
      built, and `_field_map_duplicate_count`. */
  datatype Struct<K(==)> = Struct(isNull: bool, children: seq<Child<K>>, fieldMap: Option<map<K, int>>, dupCount: int)

  /** The field names present. */
  function Names<K(==)>(cs: seq<Child<K>>): set<K> {
    set i | 0 <= i < |cs| :: cs[i].name
  }

  /** The last position below `ii` whose child is named `k`, or -1: the
      backward scan of `find_last_duplicate`. */
  function LastBelow<K(==)>(cs: seq<Child<K>>, k: K, ii: int): (r: int)
    requires 0 <= ii <= |cs|
    ensures -1 <= r < ii && (r >= 0 ==> cs[r].name == k)
    ensures forall j | r < j < ii :: cs[j].name != k
    decreases ii
  {
    if ii == 0 then -1
    else if cs[ii - 1].name == k then ii - 1
    else LastBelow(cs, k, ii - 1)
  }

  /** The position of the last child named `k`, or -1. */
  function LastIndex<K(==)>(cs: seq<Child<K>>, k: K): int {
    LastBelow(cs, k, |cs|)
  }

  /** The characterisation above pins the scan's answer down. */
  lemma {:induction false} LastBelowUnique<K>(cs: seq<Child<K>>, k: K, ii: int, r: int)
    requires 0 <= ii <= |cs| && -1 <= r < ii && (r >= 0 ==> cs[r].name == k)
    requires forall j | r < j < ii :: cs[j].name != k
    ensures LastBelow(cs, k, ii) == r
    decreases ii
  {
    if ii > 0 && r < ii - 1 {
      LastBelowUnique(cs, k, ii - 1, r);
    }
  }

  lemma NamesLast<K>(cs: seq<Child<K>>, k: K)
    ensures k in Names(cs) <==> LastIndex(cs, k) >= 0
  {
    if k in Names(cs) {
      var i :| 0 <= i < |cs| && cs[i].name == k;
      assert LastIndex(cs, k) >= i;
    }
  }

  /** The map indexes the children exactly: its keys are the names present,
      each mapped to the position of its last child. */
  predicate Exact<K(==)>(cs: seq<Child<K>>, m: map<K, int>) {
    m.Keys == Names(cs) && forall k | k in m :: m[k] == LastIndex(cs, k)
  }

  /** The struct's invariant: a built map indexes the children exactly and
      the duplicate count is the number of children beyond one per name. */
  predicate Indexed<K(==)>(st: Struct<K>) {
    st.fieldMap.Some? ==>
      Exact(st.children, st.fieldMap.value) && st.dupCount == |st.children| - |Names(st.children)|
  }

  /** `debug_check_map` finding nothing: every map entry is a position of
      the list whose child has the entry's name. */
  predicate MapChecks<K(==)>(st: Struct<K>) {
    st.fieldMap.Some? ==>
      forall k | k in st.fieldMap.value ::
        0 <= st.fieldMap.value[k] < |st.children| && st.children[st.fieldMap.value[k]].name == k
  }

  /** The invariant is what `debug_check_map` checks, and more. */
  lemma IndexedChecks<K>(st: Struct<K>)
    requires Indexed(st)
    ensures MapChecks(st)
  {
    if st.fieldMap.Some? {
      forall k | k in st.fieldMap.value
        ensures 0 <= st.fieldMap.value[k] < |st.children| && st.children[st.fieldMap.value[k]].name == k
      {
        NamesLast(st.children, k);
      }
    }
  }

  // ------------------------------------------------------------ building

  /** Appending a child adds its name. */
  lemma NamesAppend<K>(cs: seq<Child<K>>, c: Child<K>)
    ensures Names(cs + [c]) == Names(cs) + {c.name}
    ensures c.name !in Names(cs) ==> |Names(cs + [c])| == |Names(cs)| + 1
    ensures c.name in Names(cs) ==> Names(cs + [c]) == Names(cs)
  {
    var cs' := cs + [c];
    forall k ensures k in Names(cs') <==> k in Names(cs) + {c.name} {
      if k in Names(cs') {
        var i :| 0 <= i < |cs'| && cs'[i].name == k;
        if i < |cs| {
          assert cs[i].name == k;
        }
      }
      if k in Names(cs) {
        var i :| 0 <= i < |cs| && cs[i].name == k;
        assert cs'[i].name == k;
      }
      if k == c.name {
        assert cs'[|cs|].name == k;
      }
    }
  }

  /** The last positions after appending a child. */
  lemma LastAppend<K>(cs: seq<Child<K>>, c: Child<K>, k: K)
    ensures LastIndex(cs + [c], k) == if k == c.name then |cs| else LastIndex(cs, k)
  {
    var cs' := cs + [c];
    if k != c.name {
      var r := LastIndex(cs, k);
      LastBelowUnique(cs', k, |cs'|, r);
    }
  }

  /** The map and duplicate count of `build_field_map`: the children are
      entered in order, a later child overwriting an earlier one's
      position, each name already present counting one duplicate. */
  function BuildMap<K(==)>(cs: seq<Child<K>>): (r: (map<K, int>, int))
    ensures Exact(cs, r.0) && r.1 == |cs| - |Names(cs)|
  {
    if |cs| == 0 then (map[], 0)
    else
      var init := cs[..|cs| - 1];
      var c := cs[|cs| - 1];
      var p := BuildMap(init);
      assert cs == init + [c];
      BuildStep(init, c, p.0, p.1);
      (p.0[c.name := |init|], p.1 + (if c.name in p.0 then 1 else 0))
  }

  lemma BuildStep<K>(cs: seq<Child<K>>, c: Child<K>, m: map<K, int>, d: int)
    requires Exact(cs, m) && d == |cs| - |Names(cs)|
    ensures Exact(cs + [c], m[c.name := |cs|])
    ensures d + (if c.name in m then 1 else 0) == |cs + [c]| - |Names(cs + [c])|
  {
    NamesAppend(cs, c);
    forall k | k in m[c.name := |cs|] ensures m[c.name := |cs|][k] == LastIndex(cs + [c], k) {
      LastAppend(cs, c, k);
    }
  }

  /** `transitionToLargeSize`: build the map unless it exists. */
  function TransitionToLargeSize<K(==)>(st: Struct<K>): (st': Struct<K>)
    ensures st'.fieldMap.Some? && st'.children == st.children && st'.isNull == st.isNull
    ensures st.fieldMap.Some? ==> st' == st
    ensures Indexed(st) ==> Indexed(st')
  {
    if st.fieldMap.Some? then st
    else
      var p := BuildMap(st.children);
      st.(fieldMap := Some(p.0), dupCount := p.1)
  }

  // ------------------------------------------------------------ adding

  /** `add_field`: the new position is recorded unless the map already has
      a larger one; a name already present counts a duplicate. */
  function AddField<K(==)>(m: map<K, int>, d: int, name: K, idx: int): (r: (map<K, int>, int))
    ensures r.0.Keys == m.Keys + {name}
    ensures forall k | k in m && k != name :: r.0[k] == m[k]
    ensures r.0[name] >= idx && (name in m ==> r.0[name] >= m[name])
    ensures r.0[name] == idx || (name in m && r.0[name] == m[name])
    ensures r.1 == (if name in m then d + 1 else d)
  {
    if name in m then
      (m[name := if m[name] > idx then m[name] else idx], d + 1)
    else (m[name := idx], d)
  }

  /** `add(fieldName, value)` past the name check: the value is appended
      under the name, and the map, if built, updated. */
  function Append<K(==)>(st: Struct<K>, name: K, v: Value): (r: Struct<K>)
    requires Indexed(st)
    ensures Indexed(r) && r.children == st.children + [Child(name, v)]
    ensures !r.isNull && r.fieldMap.Some? == st.fieldMap.Some?
  {
    var cs := st.children + [Child(name, v)];
    match st.fieldMap
    case None => st.(isNull := false, children := cs)
    case Some(m) =>
      var p := AddField(m, st.dupCount, name, |st.children|);
      AddKeepsIndex(st.children, m, st.dupCount, Child(name, v));
      st.(isNull := false, children := cs, fieldMap := Some(p.0), dupCount := p.1)
  }

  lemma AddKeepsIndex<K>(cs: seq<Child<K>>, m: map<K, int>, d: int, c: Child<K>)
    requires Exact(cs, m) && d == |cs| - |Names(cs)|
    ensures var p := AddField(m, d, c.name, |cs|);
            Exact(cs + [c], p.0) && p.1 == |cs + [c]| - |Names(cs + [c])|
  {
    if c.name in m {
      NamesLast(cs, c.name);
    }
    BuildStep(cs, c, m, d);
  }

  // ------------------------------------------------------------ finding

  /** The first position whose child is named `k`, or -1: the linear scan
      of `find_field_helper`. */
  function FirstFrom<K(==)>(cs: seq<Child<K>>, k: K, ii: int): (r: int)
    requires 0 <= ii <= |cs|
    ensures r == -1 || (ii <= r < |cs| && cs[r].name == k)
    ensures forall j | ii <= j < |cs| && (r == -1 || j < r) :: cs[j].name != k
    decreases |cs| - ii
  {
    if ii == |cs| then -1
    else if cs[ii].name == k then ii
    else FirstFrom(cs, k, ii + 1)
  }

  /** `find_field_helper`: -1 in a null struct; otherwise the mapped
      position when the map is built, else the first child with the name;
      -1 when there is none. */
  function FindField<K(==)>(st: Struct<K>, name: K): (r: int)
    requires Indexed(st)
    ensures r == -1 <==> st.isNull || name !in Names(st.children)
    ensures r >= 0 ==> r < |st.children| && st.children[r].name == name
    ensures r >= 0 && st.fieldMap.Some? ==> r == LastIndex(st.children, name)
    ensures r >= 0 && st.fieldMap.None? ==> forall j | 0 <= j < r :: st.children[j].name != name
  {
    if st.isNull then -1
    else match st.fieldMap
      case Some(m) =>
        NamesLast(st.children, name);
        if name in m then m[name] else -1
      case None =>
        var r := FirstFrom(st.children, name, 0);
        assert name in Names(st.children) ==> r >= 0 by {
          if name in Names(st.children) {
            var i :| 0 <= i < |st.children| && st.children[i].name == name;
          }
        }
        r
  }

  /** `get(fieldName)` past the name check: the child found, none at -1. */
  function Lookup<K(==)>(st: Struct<K>, name: K): (r: Option<Value>)
    requires Indexed(st)
    ensures r.None? <==> st.isNull || name !in Names(st.children)
    ensures r.Some? ==> exists i | 0 <= i < |st.children| :: st.children[i] == Child(name, r.value)
  {
    var idx := FindField(st, name);
    if idx < 0 then None else Some(st.children[idx].value)
  }

  /** Whether the map is built or not, `get` finds a child with the name
      exactly when one is present; without the map it is the first such
      child, with it the last. */
  lemma FindAgrees<K>(st: Struct<K>, name: K)
    requires Indexed(st) && !st.isNull && name in Names(st.children)
    ensures FindField(st, name) >= 0
    ensures FindField(st.(fieldMap := None), name) == FirstFrom(st.children, name, 0)
    ensures FindField(TransitionToLargeSize(st), name) == LastIndex(st.children, name)
  {
  }

  // ------------------------------------------------------------ hashing

  /** `String.hashCode`: `31 * h + c` over the chars, wrapping at 32 bits. */
  function StringHash(s: seq<jchar>): bv32 {
    StringHashFrom(0, s)
  }

  function StringHashFrom(h: bv32, s: seq<jchar>): bv32
    decreases |s|
  {
    if |s| == 0 then h else StringHashFrom(h * 31 + (s[0] as bv32), s[1..])
  }

  /** `IonType.STRUCT.toString()`, the text "STRUCT". */
  const STRUCT_TEXT: seq<jchar> := [83, 84, 82, 85, 67, 84]

  /** `HASH_SIGNATURE`. */
  const HASH_SIGNATURE: bv32 := StringHash(STRUCT_TEXT)

  /** What a child contributes: its value's hash and its name's. */
  function ChildHash(c: Child<FieldName>): bv32 {
    c.value.hash ^ StringHash(c.name)
  }

  /** The loop of `hashCode`, from a running hash over the children in order. */
  function HashFrom(h: bv32, cs: seq<Child<FieldName>>): bv32
    decreases |cs|
  {
    if |cs| == 0 then h else HashFrom(h ^ cs[0].value.hash ^ StringHash(cs[0].name), cs[1..])
  }

  /** `hashCode`: the signature, with every child folded in unless the
      struct is null. */
  function HashCode(st: Struct<FieldName>): (h: bv32)
    ensures st.isNull ==> h == HASH_SIGNATURE
    ensures !st.isNull ==> h == HASH_SIGNATURE ^ XorAll(st.children)
  {
    HashFromXor(HASH_SIGNATURE, st.children);
    if st.isNull then HASH_SIGNATURE else HashFrom(HASH_SIGNATURE, st.children)
  }

  /** The children's hashes combined by exclusive or. */
  function XorAll(cs: seq<Child<FieldName>>): bv32
    decreases |cs|
  {
    if |cs| == 0 then 0 else ChildHash(cs[0]) ^ XorAll(cs[1..])
  }

  lemma {:induction false} HashFromXor(h: bv32, cs: seq<Child<FieldName>>)
    ensures HashFrom(h, cs) == h ^ XorAll(cs)
    decreases |cs|
  {
    if |cs| > 0 {
      HashFromXor(h ^ cs[0].value.hash ^ StringHash(cs[0].name), cs[1..]);
    }
  }

  lemma {:induction false} XorDelete(cs: seq<Child<FieldName>>, j: int)
    requires 0 <= j < |cs|
    ensures XorAll(cs) == ChildHash(cs[j]) ^ XorAll(cs[..j] + cs[j + 1..])
    decreases |cs|
  {
    if j > 0 {
      XorDelete(cs[1..], j - 1);
      var d := cs[..j] + cs[j + 1..];
      assert cs[1..][..j - 1] == cs[1..j] && cs[1..][j..] == cs[j + 1..];
      assert d[0] == cs[0] && d[1..] == cs[1..j] + cs[j + 1..];
    } else {
      assert cs[..j] + cs[j + 1..] == cs[1..];
    }
  }

  /** Deleting the child at `j` takes exactly that child out of the
      multiset. */
  lemma DeleteMultiset(b: seq<Child<FieldName>>, j: int)
    requires 0 <= j < |b|
    ensures multiset(b[..j] + b[j + 1..]) == multiset(b) - multiset{b[j]}
  {
    assert b == b[..j] + [b[j]] + b[j + 1..];
    assert multiset(b) == multiset(b[..j]) + multiset{b[j]} + multiset(b[j + 1..]);
  }

  lemma {:induction false} XorPermutation(a: seq<Child<FieldName>>, b: seq<Child<FieldName>>)
    requires multiset(a) == multiset(b)
    ensures XorAll(a) == XorAll(b)
    decreases |a|
  {
    if |a| > 0 {
      var j := MatchIndex(a[0], b);
      RestPermutation(a, b, j);
      XorPermutation(a[1..], b[..j] + b[j + 1..]);
      XorStep(a, b, j);
    } else {
      assert |b| == |multiset(b)| == 0;
    }
  }

  /** Two lists whose tails, once a matching child is taken out of each,
      combine alike, combine alike. */
  lemma XorStep(a: seq<Child<FieldName>>, b: seq<Child<FieldName>>, j: int)
    requires |a| > 0 && 0 <= j < |b| && b[j] == a[0]
    requires XorAll(a[1..]) == XorAll(b[..j] + b[j + 1..])
    ensures XorAll(a) == XorAll(b)
  {
    XorDelete(b, j);
  }

  /** Taking the first child of `a` and a matching child of `b` out of two
      permutations leaves two permutations. */
  lemma RestPermutation(a: seq<Child<FieldName>>, b: seq<Child<FieldName>>, j: int)
    requires multiset(a) == multiset(b) && |a| > 0 && 0 <= j < |b| && b[j] == a[0]
    ensures multiset(a[1..]) == multiset(b[..j] + b[j + 1..])
  {
    assert a[1..] == a[..0] + a[0 + 1..];
    DeleteMultiset(a, 0);
    DeleteMultiset(b, j);
  }

  /** A position in `b` holding `x`, which occurs there. */
  lemma MatchIndex(x: Child<FieldName>, b: seq<Child<FieldName>>) returns (j: int)
    requires x in multiset(b)
    ensures 0 <= j < |b| && b[j] == x
  {
    assert x in b;
    j :| 0 <= j < |b| && b[j] == x;
  }

  /** The hash does not depend on the children's order: structs with the
      same children, in whatever order, and the same null flag hash alike. */
  lemma HashIgnoresOrder(st: Struct<FieldName>, st': Struct<FieldName>)
    requires st.isNull == st'.isNull && multiset(st.children) == multiset(st'.children)
    ensures HashCode(st) == HashCode(st')
  {
    HashFromXor(HASH_SIGNATURE, st.children);
    HashFromXor(HASH_SIGNATURE, st'.children);
    XorPermutation(st.children, st'.children);
  }

  // ------------------------------------------------------------ sequences

  /** The children without the one at `j`. */
  function Delete<K(==)>(cs: seq<Child<K>>, j: int): (d: seq<Child<K>>)
    requires 0 <= j < |cs|
    ensures |d| == |cs| - 1
    ensures forall p | 0 <= p < |d| :: d[p] == if p < j then cs[p] else cs[p + 1]
  {
    cs[..j] + cs[j + 1..]
  }

  /** Whether a child goes when children whose name is (`listed`) or is
      not (`!listed`) among `names` are dropped. */
  predicate Goes<K(==)>(c: Child<K>, names: seq<K>, listed: bool) {
    (c.name in names) == listed
  }

  /** The children kept, in order, when those that go are dropped. */
  function Drop<K(==)>(cs: seq<Child<K>>, names: seq<K>, listed: bool): seq<Child<K>>
    decreases |cs|
  {
    if |cs| == 0 then []
    else
      var last := cs[|cs| - 1];
      Drop(cs[..|cs| - 1], names, listed) + (if Goes(last, names, listed) then [] else [last])
  }

  lemma {:induction false} DropAppend<K>(a: seq<Child<K>>, b: seq<Child<K>>, names: seq<K>, listed: bool)
    ensures Drop(a + b, names, listed) == Drop(a, names, listed) + Drop(b, names, listed)
    decreases |b|
  {
    if |b| == 0 {
      assert a + b == a;
    } else {
      var b' := b[..|b| - 1];
      assert (a + b)[..|a + b| - 1] == a + b';
      DropAppend(a, b', names, listed);
    }
  }

  /** Dropping keeps exactly the children that do not go. */
  lemma {:induction false} DropContents<K>(cs: seq<Child<K>>, names: seq<K>, listed: bool)
    ensures |Drop(cs, names, listed)| <= |cs|
    ensures forall c :: c in Drop(cs, names, listed) <==> c in cs && !Goes(c, names, listed)
    decreases |cs|
  {
    if |cs| > 0 {
      var init := cs[..|cs| - 1];
      DropContents(init, names, listed);
      assert cs == init + [cs[|cs| - 1]];
    }
  }

  /** When nothing goes, dropping changes nothing. */
  lemma {:induction false} DropNone<K>(cs: seq<Child<K>>, names: seq<K>, listed: bool)
    requires forall i | 0 <= i < |cs| :: !Goes(cs[i], names, listed)
    ensures Drop(cs, names, listed) == cs
    decreases |cs|
  {
    if |cs| > 0 {
      var init := cs[..|cs| - 1];
      DropNone(init, names, listed);
      assert cs == init + [cs[|cs| - 1]];
    }
  }

  lemma NamesOf<K>(cs: seq<Child<K>>, k: K)
    ensures k in Names(cs) <==> exists c | c in cs :: c.name == k
  {
    if k in Names(cs) {
      var i :| 0 <= i < |cs| && cs[i].name == k;
      assert cs[i] in cs;
    }
  }

  /** The names left after dropping. */
  lemma NamesDrop<K>(cs: seq<Child<K>>, names: seq<K>, listed: bool, k: K)
    ensures k in Names(Drop(cs, names, listed)) <==> k in Names(cs) && (k in names) != listed
  {
    DropContents(cs, names, listed);
    NamesOf(cs, k);
    NamesOf(Drop(cs, names, listed), k);
  }

  /** The children named `k`, in order. */
  function Copies<K(==)>(cs: seq<Child<K>>, k: K): seq<Child<K>> {
    Drop(cs, [k], false)
  }

  /** There are never more names than children. */
  lemma {:induction false} NamesCard<K>(cs: seq<Child<K>>)
    ensures |Names(cs)| <= |cs|
    decreases |cs|
  {
    if |cs| > 0 {
      var init := cs[..|cs| - 1];
      NamesCard(init);
      assert cs == init + [cs[|cs| - 1]];
      NamesAppend(init, cs[|cs| - 1]);
    }
  }

  /** Deleting a child whose name appears again keeps every name. */
  lemma NamesDeleteCopy<K>(cs: seq<Child<K>>, j: int, i: int)
    requires 0 <= i < |cs| && 0 <= j < |cs| && i != j && cs[i].name == cs[j].name
    ensures Names(Delete(cs, j)) == Names(cs)
  {
    var d := Delete(cs, j);
    forall k | k in Names(cs) ensures k in Names(d) {
      var p :| 0 <= p < |cs| && cs[p].name == k;
      var q := if p == j then i else p;
      assert d[if q < j then q else q - 1].name == k;
    }
  }

  /** With no duplicate counted, no name appears twice. */
  lemma Distinct<K>(cs: seq<Child<K>>, i: int, j: int)
    requires 0 <= i < |cs| && 0 <= j < |cs| && |Names(cs)| == |cs| && cs[i].name == cs[j].name
    ensures i == j
  {
    if i != j {
      NamesDeleteCopy(cs, j, i);
      NamesCard(Delete(cs, j));
    }
  }

  /** The last positions after a deletion: those above shift down by one,
      and the deleted one's name falls back to its previous copy. */
  lemma DeleteLast<K>(cs: seq<Child<K>>, j: int, k: K)
    requires 0 <= j < |cs|
    ensures var l := LastIndex(cs, k);
            LastIndex(Delete(cs, j), k) == if l > j then l - 1 else if l < j then l else LastBelow(cs, k, j)
  {
    var d := Delete(cs, j);
    var l := LastIndex(cs, k);
    var r := if l > j then l - 1 else if l < j then l else LastBelow(cs, k, j);
    LastBelowUnique(d, k, |d|, r);
  }

  /** Names after a deletion, from the last positions. */
  lemma NamesDelete<K>(cs: seq<Child<K>>, j: int)
    requires 0 <= j < |cs|
    ensures forall k :: k in Names(Delete(cs, j)) <==> k in Names(cs) && (k != cs[j].name || LastIndex(cs, k) != j || LastBelow(cs, k, j) >= 0)
  {
    forall k ensures k in Names(Delete(cs, j)) <==> k in Names(cs) && (k != cs[j].name || LastIndex(cs, k) != j || LastBelow(cs, k, j) >= 0) {
      NamesLast(cs, k);
      NamesLast(Delete(cs, j), k);
      DeleteLast(cs, j, k);
    }
  }

  // ------------------------------------------------------------ removing

  /** `patch_map_elements_helper` after a removal at `from`: walking
      forward, each child's name is pointed at the child's position. Every
      name from `from` on must be a key, which the struct's invariant
      ensures, so the map lookup never fails. The result points each key
      whose last child is at `from` or beyond at that child, and leaves the
      other keys alone. */
  function Patch<K(==)>(m: map<K, int>, cs: seq<Child<K>>, ii: int): (r: map<K, int>)
    requires 0 <= ii <= |cs| && forall p | ii <= p < |cs| :: cs[p].name in m
    ensures r.Keys == m.Keys
    ensures forall k | k in m :: r[k] == if LastIndex(cs, k) >= ii then LastIndex(cs, k) else m[k]
    decreases |cs| - ii
  {
    if ii == |cs| then m
    else
      var n := cs[ii].name;
      assert LastIndex(cs, n) >= ii;
      Patch(if m[n] != ii then m[n := ii] else m, cs, ii + 1)
  }

  /** The map part of a removal: patching from the removal point restores
      exactness when every key is a name present and the entries below the
      removal point are right already. */
  lemma PatchExact<K>(m: map<K, int>, cs: seq<Child<K>>, from: int)
    requires 0 <= from && m.Keys == Names(cs)
    requires forall k | k in m && LastIndex(cs, k) < from :: m[k] == LastIndex(cs, k)
    ensures forall p | from <= p < |cs| :: cs[p].name in m
    ensures from >= |cs| ==> Exact(cs, m)
    ensures from < |cs| ==> Exact(cs, Patch(m, cs, from))
  {
    forall p | from <= p < |cs| ensures cs[p].name in m {
      assert cs[p].name in Names(cs);
    }
    forall k | k in m ensures LastIndex(cs, k) < |cs| {
    }
  }

  /** `remove_field(fieldName, idx)`, before the child at `idx` leaves the
      list: a copy other than the mapped one only lowers the duplicate
      count; the mapped copy falls back to the previous copy when
      duplicates exist and one is found, and is removed from the map
      otherwise. The name must be a key. */
  function RemoveField<K(==)>(m: map<K, int>, d: int, cs: seq<Child<K>>, name: K, idx: int): (r: (map<K, int>, int))
    requires name in m && 0 <= idx <= |cs|
    ensures r.0.Keys <= m.Keys && r.0.Keys - {name} == m.Keys - {name}
    ensures forall k | k in r.0 && k != name :: r.0[k] == m[k]
    ensures name !in r.0 ==> m[name] == idx
    ensures name in r.0 && r.0[name] != m[name] ==>
              m[name] == idx && 0 <= r.0[name] < idx && cs[r.0[name]].name == name
    ensures r.1 == d || r.1 == d - 1
    ensures m[name] != idx ==> r.0 == m && r.1 == d - 1
  {
    if m[name] != idx then (m, d - 1)
    else if d > 0 then
      var ii := LastBelow(cs, name, idx);
      if ii == -1 then (m - {name}, d) else (m[name := ii], d - 1)
    else (m - {name}, d)
  }

  /** `remove_field(fieldName, lowest_idx, copies)`, after every copy of a
      name left the list: the name leaves the map and the copies beyond the
      first leave the duplicate count. */
  function RemoveFieldCopies<K(==)>(m: map<K, int>, d: int, name: K, copies: int): (r: (map<K, int>, int))
    requires name in m
    ensures r.0.Keys == m.Keys - {name}
  {
    (m - {name}, d - (copies - 1))
  }

  /** Two children sharing a name make a duplicate. */
  lemma SharedName<K>(cs: seq<Child<K>>, i: int, j: int)
    requires 0 <= i < |cs| && 0 <= j < |cs| && i != j && cs[i].name == cs[j].name
    ensures |cs| - |Names(cs)| > 0
  {
    NamesCard(cs);
    if |Names(cs)| == |cs| {
      Distinct(cs, i, j);
    }
  }

  /** When the name keeps another copy, `remove_field` keeps every key and
      counts one duplicate less. */
  lemma RemoveFieldKeeps<K>(m: map<K, int>, d: int, cs: seq<Child<K>>, n: K, idx: int)
    requires n in m && 0 <= idx <= |cs|
    requires m[n] != idx || (d > 0 && LastBelow(cs, n, idx) >= 0)
    ensures RemoveField(m, d, cs, n, idx).0.Keys == m.Keys
    ensures RemoveField(m, d, cs, n, idx).1 == d - 1
  {
  }

  /** The removed child's name keeps another copy: every name stays. */
  lemma RemoveFieldKept<K>(cs: seq<Child<K>>, m: map<K, int>, d: int, idx: int)
    requires 0 <= idx < |cs| && m.Keys == Names(cs) && d == |cs| - |Names(cs)|
    requires cs[idx].name in m && m[cs[idx].name] == LastIndex(cs, cs[idx].name)
    requires LastIndex(cs, cs[idx].name) != idx || LastBelow(cs, cs[idx].name, idx) >= 0
    ensures var r := RemoveField(m, d, cs, cs[idx].name, idx);
            var cs' := Delete(cs, idx);
            r.0.Keys == Names(cs') && r.1 == |cs'| - |Names(cs')|
  {
    var n := cs[idx].name;
    var l := LastIndex(cs, n);
    var i := if l != idx then l else LastBelow(cs, n, idx);
    assert i != idx && 0 <= i < |cs| && cs[i].name == n;
    NamesDeleteCopy(cs, idx, i);
    SharedName(cs, i, idx);
    RemoveFieldKeeps(m, d, cs, n, idx);
  }

  /** The removed child was its name's only copy: the name goes. */
  lemma RemoveFieldOnly<K>(cs: seq<Child<K>>, m: map<K, int>, d: int, idx: int)
    requires 0 <= idx < |cs| && m.Keys == Names(cs) && d == |cs| - |Names(cs)|
    requires cs[idx].name in m && m[cs[idx].name] == idx
    requires LastIndex(cs, cs[idx].name) == idx && LastBelow(cs, cs[idx].name, idx) < 0
    ensures var r := RemoveField(m, d, cs, cs[idx].name, idx);
            var cs' := Delete(cs, idx);
            r.0.Keys == Names(cs') && r.1 == |cs'| - |Names(cs')|
  {
    var n := cs[idx].name;
    NamesDelete(cs, idx);
    var ns := Names(Delete(cs, idx));
    assert ns == Names(cs) - {n};
    assert |ns| == |Names(cs)| - 1;
  }

  /** After `remove_field`, the entries below the removal point are right. */
  lemma RemoveFieldBelow<K>(cs: seq<Child<K>>, m: map<K, int>, d: int, idx: int)
    requires Exact(cs, m) && 0 <= idx < |cs| && cs[idx].name in m
    ensures var r := RemoveField(m, d, cs, cs[idx].name, idx);
            var cs' := Delete(cs, idx);
            forall k | k in r.0 && LastIndex(cs', k) < idx :: r.0[k] == LastIndex(cs', k)
  {
    var r := RemoveField(m, d, cs, cs[idx].name, idx);
    forall k | k in r.0 && LastIndex(Delete(cs, idx), k) < idx ensures r.0[k] == LastIndex(Delete(cs, idx), k) {
      DeleteLast(cs, idx, k);
    }
  }

  lemma RemoveFieldExact<K>(cs: seq<Child<K>>, m: map<K, int>, d: int, idx: int)
    requires Exact(cs, m) && d == |cs| - |Names(cs)| && 0 <= idx < |cs|
    ensures cs[idx].name in m
    ensures var r := RemoveField(m, d, cs, cs[idx].name, idx);
            var cs' := Delete(cs, idx);
            r.0.Keys == Names(cs') && r.1 == |cs'| - |Names(cs')|
            && forall k | k in r.0 && LastIndex(cs', k) < idx :: r.0[k] == LastIndex(cs', k)
  {
    var n := cs[idx].name;
    assert n in Names(cs);
    if LastIndex(cs, n) != idx || LastBelow(cs, n, idx) >= 0 {
      RemoveFieldKept(cs, m, d, idx);
    } else {
      RemoveFieldOnly(cs, m, d, idx);
    }
    RemoveFieldBelow(cs, m, d, idx);
  }

  /** The removal of the child at `idx` shared by `remove(IonValue)` and
      `remove(String)`: the map, if built, is updated for the child's name,
      the child leaves the list, and the map is patched from its position. */
  function RemoveIndexed<K(==)>(st: Struct<K>, idx: int): (r: Struct<K>)
    requires Indexed(st) && 0 <= idx < |st.children|
    ensures Indexed(r) && r.children == Delete(st.children, idx)
    ensures r.isNull == st.isNull && r.fieldMap.Some? == st.fieldMap.Some?
  {
    var cs' := Delete(st.children, idx);
    match st.fieldMap
    case None => st.(children := cs')
    case Some(m) =>
      RemoveFieldExact(st.children, m, st.dupCount, idx);
      var p := RemoveField(m, st.dupCount, st.children, st.children[idx].name, idx);
      PatchExact(p.0, cs', idx);
      var m' := if idx >= |cs'| then p.0 else Patch(p.0, cs', idx);
      st.(children := cs', fieldMap := Some(m'), dupCount := p.1)
  }

  /** `remove(IonValue)`: `pos` is the element's position when this struct
      contains it, `None` when it belongs elsewhere, in which case nothing
      changes and the answer is false. */
  function RemoveValue<K(==)>(st: Struct<K>, pos: Option<int>): (r: (bool, Struct))
    requires Indexed(st) && (pos.Some? ==> 0 <= pos.value < |st.children|)
    ensures Indexed(r.1) && (r.0 <==> pos.Some?)
    ensures pos.None? ==> r.1 == st
    ensures pos.Some? ==> r.1.children == Delete(st.children, pos.value) && r.1.isNull == st.isNull
  {
    match pos
    case None => (false, st)
    case Some(idx) => (true, RemoveIndexed(st, idx))
  }

  /** `remove(String)` past the name check: the child `get` finds leaves
      the struct and is returned; nothing happens when there is none. */
  function RemoveFound<K(==)>(st: Struct<K>, name: K): (r: (Option<Value>, Struct<K>))
    requires Indexed(st)
    ensures Indexed(r.1) && r.1.isNull == st.isNull
    ensures r.0.None? <==> st.isNull || name !in Names(st.children)
    ensures r.0.None? ==> r.1 == st
    ensures r.0.Some? ==>
              exists i | 0 <= i < |st.children| ::
                st.children[i] == Child(name, r.0.value) && r.1.children == Delete(st.children, i)
  {
    var idx := FindField(st, name);
    if idx < 0 then (None, st)
    else (Some(st.children[idx].value), RemoveIndexed(st, idx))
  }

  /** Which copy `remove(String)` takes depends on whether the map is
      built: the last one when it is, the first one when it is not. */
  lemma RemoveFoundCopy<K>(st: Struct<K>, name: K)
    requires Indexed(st) && !st.isNull && name in Names(st.children)
    ensures var i := LastIndex(st.children, name);
            var st' := TransitionToLargeSize(st);
            RemoveFound(st', name) == (Some(st.children[i].value), RemoveIndexed(st', i))
    ensures var i := FirstFrom(st.children, name, 0);
            var st' := st.(fieldMap := None);
            RemoveFound(st', name) == (Some(st.children[i].value), RemoveIndexed(st', i))
  {
    FindAgrees(st, name);
  }

  // ------------------------------------------------------------ put

  /** One step of dropping, from the end. */
  lemma DropStep<K>(cs: seq<Child<K>>, ii: int, names: seq<K>, listed: bool)
    requires 0 < ii <= |cs|
    ensures Drop(cs[..ii], names, listed) ==
              Drop(cs[..ii - 1], names, listed) + (if Goes(cs[ii - 1], names, listed) then [] else [cs[ii - 1]])
  {
    assert cs[..ii][..ii - 1] == cs[..ii - 1];
  }

  /** The backward scan of `put` when the map cannot answer: every child
      named `n` below `ii` is removed from the list as it is met, the
      lowest removed position and the number of copies being kept. */
  function Scan<K(==)>(cs: seq<Child<K>>, n: K, ii: int, lowest: int, copies: int): (r: (seq<Child<K>>, int, int))
    requires 0 <= ii <= |cs|
    ensures r.0 == Drop(cs[..ii], [n], true) + cs[ii..]
    ensures r.2 - copies == ii - |Drop(cs[..ii], [n], true)|
    decreases ii
  {
    if ii == 0 then (cs, lowest, copies)
    else
      ScanStep(cs, n, ii);
      if cs[ii - 1].name == n then Scan(Delete(cs, ii - 1), n, ii - 1, ii - 1, copies + 1)
      else Scan(cs, n, ii - 1, lowest, copies)
  }

  /** One step of the scan: a copy at `ii - 1` leaves the list and is
      dropped; any other child stays and is kept. */
  lemma ScanStep<K>(cs: seq<Child<K>>, n: K, ii: int)
    requires 0 < ii <= |cs|
    ensures cs[ii - 1].name == n ==>
              Delete(cs, ii - 1)[..ii - 1] == cs[..ii - 1] && Delete(cs, ii - 1)[ii - 1..] == cs[ii..] &&
              Drop(cs[..ii], [n], true) == Drop(cs[..ii - 1], [n], true)
    ensures cs[ii - 1].name != n ==>
              cs[ii - 1..] == [cs[ii - 1]] + cs[ii..] &&
              Drop(cs[..ii], [n], true) == Drop(cs[..ii - 1], [n], true) + [cs[ii - 1]]
  {
    DropStep(cs, ii, [n], true);
  }

  /** The scan's lowest position is the first copy below `ii`, or stays
      put when there is none. */
  lemma {:induction false} ScanLowest<K>(cs: seq<Child<K>>, n: K, ii: int, lowest: int, copies: int)
    requires 0 <= ii <= |cs|
    ensures var r := Scan(cs, n, ii, lowest, copies);
            if exists j | 0 <= j < ii :: cs[j].name == n
            then 0 <= r.1 < ii && cs[r.1].name == n && forall j | 0 <= j < r.1 :: cs[j].name != n
            else r.1 == lowest
    decreases ii
  {
    if ii > 0 {
      if cs[ii - 1].name == n {
        ScanLowestHit(cs, n, ii, lowest, copies);
      } else {
        ScanLowest(cs, n, ii - 1, lowest, copies);
        if exists j | 0 <= j < ii :: cs[j].name == n {
          var j :| 0 <= j < ii && cs[j].name == n;
          assert j < ii - 1;
        }
      }
    }
  }

  /** The step of `ScanLowest` where the child at `ii - 1` is a copy. */
  lemma {:induction false} ScanLowestHit<K>(cs: seq<Child<K>>, n: K, ii: int, lowest: int, copies: int)
    requires 0 < ii <= |cs| && cs[ii - 1].name == n
    ensures var r := Scan(cs, n, ii, lowest, copies);
            0 <= r.1 < ii && cs[r.1].name == n && forall j | 0 <= j < r.1 :: cs[j].name != n
    decreases ii, 0
  {
    var cs' := Delete(cs, ii - 1);
    ScanLowest(cs', n, ii - 1, ii - 1, copies + 1);
    var r := Scan(cs', n, ii - 1, ii - 1, copies + 1);
    assert Scan(cs, n, ii, lowest, copies) == r;
    assert forall j | 0 <= j < ii - 1 :: cs'[j] == cs[j];
    if exists j | 0 <= j < ii - 1 :: cs[j].name == n {
      var j :| 0 <= j < ii - 1 && cs[j].name == n;
      assert cs'[j].name == n;
    } else {
      assert r.1 == ii - 1;
    }
  }

  /** A name with no child: dropping it changes nothing. */
  lemma DropAbsent<K>(cs: seq<Child<K>>, n: K)
    ensures |Drop(cs, [n], true)| == |cs| <==> n !in Names(cs)
    ensures n !in Names(cs) ==> Drop(cs, [n], true) == cs
  {
    if n in Names(cs) {
      var i :| 0 <= i < |cs| && cs[i].name == n;
      DropShorter(cs, [n], true, i);
    } else {
      DropNone(cs, [n], true);
    }
  }

  /** Dropping a child that goes shortens the list. */
  lemma {:induction false} DropShorter<K>(cs: seq<Child<K>>, names: seq<K>, listed: bool, i: int)
    requires 0 <= i < |cs| && Goes(cs[i], names, listed)
    ensures |Drop(cs, names, listed)| < |cs|
    decreases |cs|
  {
    var init := cs[..|cs| - 1];
    DropContents(init, names, listed);
    if i < |cs| - 1 {
      DropShorter(init, names, listed, i);
    }
  }

  /** With no duplicate counted, no other child shares a child's name. */
  lemma NoOtherCopy<K>(cs: seq<Child<K>>, idx: int)
    requires 0 <= idx < |cs| && |Names(cs)| == |cs|
    ensures forall j | 0 <= j < |cs| && j != idx :: cs[j].name != cs[idx].name
  {
    forall j | 0 <= j < |cs| && j != idx ensures cs[j].name != cs[idx].name {
      if cs[j].name == cs[idx].name {
        Distinct(cs, j, idx);
      }
    }
  }

  /** Deleting a name's only copy is dropping the name. */
  lemma {:induction false} RemoveOnlyCopy<K>(cs: seq<Child<K>>, n: K, idx: int)
    requires 0 <= idx < |cs| && cs[idx].name == n
    requires forall j | 0 <= j < |cs| && j != idx :: cs[j].name != n
    ensures Delete(cs, idx) == Drop(cs, [n], true)
    decreases |cs|
  {
    var init := cs[..|cs| - 1];
    var last := cs[|cs| - 1];
    if idx == |cs| - 1 {
      DropNone(init, [n], true);
      assert Delete(cs, idx) == init;
    } else {
      RemoveOnlyCopy(init, n, idx);
      assert Drop(cs, [n], true) == Drop(init, [n], true) + [last];
      assert Delete(cs, idx) == Delete(init, idx) + [last];
    }
  }

  /** The map branch of `put`'s removal: with a map and no duplicates, the
      map finds the only copy, which is removed as `remove` would. */
  function RemoveMapped<K(==)>(st: Struct<K>, n: K): (r: Struct<K>)
    requires Indexed(st) && st.fieldMap.Some? && st.dupCount == 0
    ensures Indexed(r) && r.isNull == st.isNull && r.fieldMap.Some?
    ensures r.children == Drop(st.children, [n], true)
  {
    var m := st.fieldMap.value;
    if n in m then
      var idx := m[n];
      NamesLast(st.children, n);
      NoOtherCopy(st.children, idx);
      RemoveOnlyCopy(st.children, n, idx);
      RemoveIndexed(st, idx)
    else
      DropAbsent(st.children, n);
      st
  }

  /** The map after the scan removed every copy of `n` at or above `low`:
      the name gone, its copies beyond the first uncounted, and the entries
      below `low` right. */
  lemma ScanExact<K>(cs: seq<Child<K>>, cs': seq<Child<K>>, m: map<K, int>, d: int, n: K, low: int, copies: int)
    requires Exact(cs, m) && d == |cs| - |Names(cs)|
    requires cs' == Drop(cs, [n], true) && copies == |cs| - |cs'| && copies != 0
    requires 0 <= low < |cs| && cs[low].name == n && forall j | 0 <= j < low :: cs[j].name != n
    ensures n in m
    ensures var p := RemoveFieldCopies(m, d, n, copies);
            p.0.Keys == Names(cs') && p.1 == |cs'| - |Names(cs')|
            && forall k | k in p.0 && LastIndex(cs', k) < low :: p.0[k] == LastIndex(cs', k)
  {
    assert n in Names(cs);
    ScanNames(cs, cs', n);
    ScanBelow(cs, cs', m, n, low);
  }

  lemma ScanNames<K>(cs: seq<Child<K>>, cs': seq<Child<K>>, n: K)
    requires cs' == Drop(cs, [n], true) && n in Names(cs)
    ensures Names(cs') == Names(cs) - {n} && |Names(cs')| == |Names(cs)| - 1
  {
    forall k ensures k in Names(cs') <==> k in Names(cs) && k != n {
      NamesDrop(cs, [n], true, k);
    }
  }

  lemma ScanBelow<K>(cs: seq<Child<K>>, cs': seq<Child<K>>, m: map<K, int>, n: K, low: int)
    requires Exact(cs, m)
    requires cs' == Drop(cs, [n], true)
    requires 0 <= low <= |cs| && forall j | 0 <= j < low :: cs[j].name != n
    ensures forall k | k in m && k != n && LastIndex(cs', k) < low :: m[k] == LastIndex(cs', k)
  {
    var pre := cs[..low];
    var rest := cs[low..];
    var post := Drop(rest, [n], true);
    assert cs' == pre + post by {
      assert cs == pre + rest;
      DropAppend(pre, rest, [n], true);
      DropNone(pre, [n], true);
    }
    assert cs == pre + rest;
    forall k | k in m && k != n && LastIndex(cs', k) < low ensures m[k] == LastIndex(cs', k) {
      LastSplit(pre, rest, k);
      LastSplit(pre, post, k);
      NamesDrop(rest, [n], true, k);
    }
  }

  /** The last position in a concatenation. */
  lemma LastSplit<K>(a: seq<Child<K>>, b: seq<Child<K>>, k: K)
    ensures LastIndex(a + b, k) == if k in Names(b) then |a| + LastIndex(b, k) else LastIndex(a, k)
  {
    NamesLast(b, k);
    var r := if k in Names(b) then |a| + LastIndex(b, k) else LastIndex(a, k);
    var ab := a + b;
    forall j | r < j < |ab| ensures ab[j].name != k {
      if j >= |a| {
        assert ab[j] == b[j - |a|];
      }
    }
    LastBelowUnique(ab, k, |ab|, r);
  }

  /** What the scan over the whole list yields: the list without the name,
      the number of copies removed, and, when there were any, the first
      copy's position. */
  lemma ScanWhole<K>(cs: seq<Child<K>>, n: K)
    ensures var sc := Scan(cs, n, |cs|, |cs|, 0);
            && sc.0 == Drop(cs, [n], true) && sc.2 == |cs| - |sc.0|
            && (sc.2 == 0 <==> n !in Names(cs))
            && (sc.2 == 0 ==> sc.0 == cs)
            && (sc.2 != 0 ==> 0 <= sc.1 < |cs| && cs[sc.1].name == n && forall j | 0 <= j < sc.1 :: cs[j].name != n)
  {
    assert cs[..|cs|] == cs && cs[|cs|..] == [];
    DropAbsent(cs, n);
    ScanLowest(cs, n, |cs|, |cs|, 0);
    if n in Names(cs) {
      var j :| 0 <= j < |cs| && cs[j].name == n;
    }
  }

  /** `remove_field(fieldName, lowest_idx, copies)` followed by
      `patch_map_elements_helper(lowest_idx)`, after the scan: the index
      is exact again for the list without the name. */
  function ScannedIndex<K(==)>(cs: seq<Child<K>>, m: map<K, int>, d: int, n: K, cs': seq<Child<K>>, low: int, copies: int): (r: (map<K, int>, int))
    requires Exact(cs, m) && d == |cs| - |Names(cs)|
    requires cs' == Drop(cs, [n], true) && copies == |cs| - |cs'| && copies != 0
    requires 0 <= low < |cs| && cs[low].name == n && forall j | 0 <= j < low :: cs[j].name != n
    ensures Exact(cs', r.0) && r.1 == |cs'| - |Names(cs')|
  {
    ScanExact(cs, cs', m, d, n, low, copies);
    var p := RemoveFieldCopies(m, d, n, copies);
    PatchExact(p.0, cs', low);
    (if low >= |cs'| then p.0 else Patch(p.0, cs', low), p.1)
  }

  /** The scan branch of `put`'s removal: every copy of the name leaves
      the list; the map, if built, loses the name and is patched from the
      lowest removed position. */
  function RemoveScanned<K(==)>(st: Struct<K>, n: K): (r: Struct<K>)
    requires Indexed(st)
    ensures Indexed(r) && r.isNull == st.isNull && r.fieldMap.Some? == st.fieldMap.Some?
    ensures r.children == Drop(st.children, [n], true)
  {
    var sc := Scan(st.children, n, |st.children|, |st.children|, 0);
    ScanWhole(st.children, n);
    if sc.2 == 0 then st
    else match st.fieldMap
      case None => st.(children := sc.0)
      case Some(m) =>
        var p := ScannedIndex(st.children, m, st.dupCount, n, sc.0, sc.1, sc.2);
        st.(children := sc.0, fieldMap := Some(p.0), dupCount := p.1)
  }

  /** The removal half of `put`: with a map and no duplicates the map finds
      the only copy, otherwise the list is scanned. */
  function RemoveCopies<K(==)>(st: Struct<K>, n: K): (r: Struct<K>)
    requires Indexed(st)
    ensures Indexed(r) && r.isNull == st.isNull && r.fieldMap.Some? == st.fieldMap.Some?
    ensures r.children == Drop(st.children, [n], true)
  {
    if st.fieldMap.Some? && st.dupCount == 0 then RemoveMapped(st, n) else RemoveScanned(st, n)
  }

  /** `put(fieldName, value)` past the name check: every child with the
      name is removed, then the value, unless null, is added under it. */
  function Replace<K(==)>(st: Struct<K>, name: K, v: Option<Value>): (r: Struct<K>)
    requires Indexed(st)
    ensures Indexed(r) && r.fieldMap.Some? == st.fieldMap.Some?
    ensures r.children == Drop(st.children, [name], true) + (if v.Some? then [Child(name, v.value)] else [])
    ensures r.isNull == (st.isNull && v.None?)
  {
    var st' := RemoveCopies(st, name);
    match v
    case None => st'
    case Some(x) => Append(st', name, x)
  }

  /** Dropping from a list with one more child at the end. */
  lemma DropSnoc<K>(x: seq<Child<K>>, c: Child<K>, names: seq<K>, listed: bool)
    ensures Drop(x + [c], names, listed) == Drop(x, names, listed) + (if Goes(c, names, listed) then [] else [c])
  {
    assert (x + [c])[..|x|] == x;
  }

  /** When everything goes, nothing is left. */
  lemma {:induction false} DropAll<K>(cs: seq<Child<K>>, names: seq<K>, listed: bool)
    requires forall i | 0 <= i < |cs| :: Goes(cs[i], names, listed)
    ensures Drop(cs, names, listed) == []
    decreases |cs|
  {
    if |cs| > 0 {
      DropAll(cs[..|cs| - 1], names, listed);
    }
  }

  /** A child appended after children that all have other names is the
      only copy of its name. */
  lemma OnlyAtEnd<K>(rest: seq<Child<K>>, c: Child<K>)
    requires forall i | 0 <= i < |rest| :: rest[i].name != c.name
    ensures Copies(rest + [c], c.name) == [c]
    ensures Drop(rest + [c], [c.name], true) == rest
  {
    DropSnoc(rest, c, [c.name], false);
    DropSnoc(rest, c, [c.name], true);
    DropAll(rest, [c.name], false);
    DropNone(rest, [c.name], true);
  }

  /** What `put` promises: afterwards the value is the one and only child
      with the name, `get` returns it, and the children with other names
      are those before, in the same order. */
  lemma PutOnly<K>(st: Struct<K>, name: K, v: Value)
    requires Indexed(st)
    ensures var r := Replace(st, name, Some(v));
            && Copies(r.children, name) == [Child(name, v)]
            && Drop(r.children, [name], true) == Drop(st.children, [name], true)
            && Lookup(r, name) == Some(v)
  {
    var r := Replace(st, name, Some(v));
    var rest := Drop(st.children, [name], true);
    forall i | 0 <= i < |rest| ensures rest[i].name != name {
      NamesDrop(st.children, [name], true, name);
      assert rest[i].name in Names(rest);
    }
    OnlyAtEnd(rest, Child(name, v));
    var f := FindField(r, name);
    assert f == |rest| by {
      assert r.children[|rest|].name == name;
      assert name in Names(r.children);
    }
  }

  /** `put` with a null value only removes: afterwards `get` finds nothing. */
  lemma PutNullRemoves<K>(st: Struct<K>, name: K)
    requires Indexed(st)
    ensures Lookup(Replace(st, name, None), name).None?
  {
    NamesDrop(st.children, [name], true, name);
  }

  // ------------------------------------------------------------ bulk

  /** `clear`: no children and no map.  The container's own clearing is
      taken to leave an empty struct that is not null. */
  function Clear<K(==)>(st: Struct<K>): (r: Struct<K>)
    ensures Indexed(r) && |r.children| == 0 && !r.isNull && r.fieldMap.None?
  {
    st.(isNull := false, children := [], fieldMap := None, dupCount := 0)
  }

  /** A step of the loop below that removes the child at `ii - 1`. */
  lemma WhereGoes<K>(cs: seq<Child<K>>, names: seq<K>, listed: bool, ii: int, rest: seq<Child<K>>)
    requires 0 < ii <= |cs| && Goes(cs[ii - 1], names, listed)
    requires rest == Drop(Delete(cs, ii - 1)[..ii - 1], names, listed) + Delete(cs, ii - 1)[ii - 1..]
    ensures rest == Drop(cs[..ii], names, listed) + cs[ii..]
    ensures |Drop(cs[..ii], names, listed)| < ii
  {
    var d := Delete(cs, ii - 1);
    assert d[..ii - 1] == cs[..ii - 1] && d[ii - 1..] == cs[ii..];
    DropStep(cs, ii, names, listed);
    DropContents(cs[..ii - 1], names, listed);
  }

  /** A step of the loop below that keeps the child at `ii - 1`. */
  lemma WhereStays<K>(cs: seq<Child<K>>, names: seq<K>, listed: bool, ii: int, rest: seq<Child<K>>)
    requires 0 < ii <= |cs| && !Goes(cs[ii - 1], names, listed)
    requires rest == Drop(cs[..ii - 1], names, listed) + cs[ii - 1..]
    ensures rest == Drop(cs[..ii], names, listed) + cs[ii..]
    ensures |Drop(cs[..ii], names, listed)| == |Drop(cs[..ii - 1], names, listed)| + 1
  {
    DropStep(cs, ii, names, listed);
    assert cs[ii - 1..] == [cs[ii - 1]] + cs[ii..];
  }

  /** The loop of `removeAll` (`listed`) and `retainAll` (`!listed`):
      walking backwards from `ii`, every child that goes is removed as
      `remove(IonValue)` removes it; the answer says whether any was. */
  function RemoveWhere<K(==)>(st: Struct<K>, names: seq<K>, listed: bool, ii: int): (r: (bool, Struct<K>))
    requires Indexed(st) && 0 <= ii <= |st.children|
    ensures Indexed(r.1) && r.1.isNull == st.isNull && r.1.fieldMap.Some? == st.fieldMap.Some?
    ensures r.1.children == Drop(st.children[..ii], names, listed) + st.children[ii..]
    ensures r.0 <==> |Drop(st.children[..ii], names, listed)| < ii
    decreases ii
  {
    if ii == 0 then (false, st)
    else if Goes(st.children[ii - 1], names, listed) then
      var st' := RemoveValue(st, Some(ii - 1)).1;
      var r := RemoveWhere(st', names, listed, ii - 1);
      WhereGoes(st.children, names, listed, ii, r.1.children);
      (true, r.1)
    else
      var r := RemoveWhere(st, names, listed, ii - 1);
      WhereStays(st.children, names, listed, ii, r.1.children);
      r
  }

  /** `removeAll(fieldNames)`: every child whose name is listed goes. */
  function RemoveAll<K(==)>(st: Struct<K>, names: seq<K>): (r: (bool, Struct<K>))
    requires Indexed(st)
    ensures Indexed(r.1) && r.1.isNull == st.isNull
    ensures r.1.children == Drop(st.children, names, true)
    ensures r.0 <==> exists i | 0 <= i < |st.children| :: st.children[i].name in names
  {
    var r := RemoveWhere(st, names, true, |st.children|);
    WholeList(st.children, names, true);
    r
  }

  /** `retainAll(fieldNames)`: every child whose name is not listed goes. */
  function RetainAll<K(==)>(st: Struct<K>, names: seq<K>): (r: (bool, Struct<K>))
    requires Indexed(st)
    ensures Indexed(r.1) && r.1.isNull == st.isNull
    ensures r.1.children == Drop(st.children, names, false)
    ensures r.0 <==> exists i | 0 <= i < |st.children| :: st.children[i].name !in names
  {
    var r := RemoveWhere(st, names, false, |st.children|);
    WholeList(st.children, names, false);
    r
  }

  /** Over the whole list, the loop drops from all of it, and it shortens
      the list exactly when some child goes. */
  lemma WholeList<K>(cs: seq<Child<K>>, names: seq<K>, listed: bool)
    ensures Drop(cs[..|cs|], names, listed) + cs[|cs|..] == Drop(cs, names, listed)
    ensures |Drop(cs[..|cs|], names, listed)| < |cs| <==> exists i | 0 <= i < |cs| :: Goes(cs[i], names, listed)
  {
    assert cs[..|cs|] == cs && cs[|cs|..] == [];
    DropContents(cs, names, listed);
    if exists i | 0 <= i < |cs| :: Goes(cs[i], names, listed) {
      var i :| 0 <= i < |cs| && Goes(cs[i], names, listed);
      DropShorter(cs, names, listed, i);
    } else {
      DropNone(cs, names, listed);
    }
  }

  /** The copying loop of `doClone`: walking forward, each child that is
      kept is added to the clone under its name. */
  function CloneInto<K(==)>(acc: Struct<K>, cs: seq<Child<K>>, names: seq<K>, keep: bool): (r: Struct<K>)
    requires Indexed(acc) && !acc.isNull
    ensures Indexed(r) && !r.isNull && r.fieldMap.Some? == acc.fieldMap.Some?
    ensures r.children == acc.children + Drop(cs, names, !keep)
    decreases |cs|
  {
    if |cs| == 0 then acc
    else
      var c := cs[0];
      assert cs == [c] + cs[1..];
      DropAppend([c], cs[1..], names, !keep);
      DropSnoc([], c, names, !keep);
      assert [] + [c] == [c];
      var acc' := if (c.name in names) == keep then Append(acc, c.name, c.value) else acc;
      CloneInto(acc', cs[1..], names, keep)
  }

  /** `doClone(keep, fieldNames)`: a null struct clones to a null struct;
      otherwise a new, empty struct receives the children whose name's
      being listed equals `keep`.  The clones of the values are represented
      by the values themselves. */
  function DoClone<K(==)>(st: Struct<K>, names: seq<K>, keep: bool): (r: Struct<K>)
    ensures Indexed(r) && r.isNull == st.isNull && r.fieldMap.None?
    ensures r.children == if st.isNull then [] else Drop(st.children, names, !keep)
  {
    if st.isNull then Struct(true, [], None, 0)
    else CloneInto(Struct(false, [], None, 0), st.children, names, keep)
  }

  /** `cloneAndRemove` copies what `removeAll` leaves, and `cloneAndRetain`
      what `retainAll` leaves. */
  lemma CloneAgreesWithRemoval<K>(st: Struct<K>, names: seq<K>)
    requires Indexed(st) && !st.isNull
    ensures DoClone(st, names, false).children == RemoveAll(st, names).1.children
    ensures DoClone(st, names, true).children == RetainAll(st, names).1.children
  {
  }

  // ------------------------------------------------------------ named entry points

  /** `validateFieldName`, which `get` (and so `containsKey` and
      `remove(String)`), `add` and `put` call before anything else: an
      empty field name is an illegal argument. */
  predicate ValidName(name: FieldName) {
    |name| > 0
  }

  /** `add(fieldName, value)`. */
  function Add(st: Struct<FieldName>, name: FieldName, v: Value): (r: Result<Struct<FieldName>>)
    requires Indexed(st)
    ensures r.Err? <==> !ValidName(name)
    ensures r.Err? ==> r.error == IllegalArgument
    ensures r.Ok? ==> Indexed(r.value) && !r.value.isNull && r.value.children == st.children + [Child(name, v)]
  {
    if !ValidName(name) then Err(IllegalArgument) else Ok(Append(st, name, v))
  }

  /** `get(fieldName)`. */
  function Get(st: Struct<FieldName>, name: FieldName): (r: Result<Option<Value>>)
    requires Indexed(st)
    ensures r.Err? <==> !ValidName(name)
    ensures r.Err? ==> r.error == IllegalArgument
    ensures r.Ok? ==> (r.value.None? <==> st.isNull || name !in Names(st.children))
    ensures r.Ok? && r.value.Some? ==>
              exists i | 0 <= i < |st.children| :: st.children[i] == Child(name, r.value.value)
  {
    if !ValidName(name) then Err(IllegalArgument) else Ok(Lookup(st, name))
  }

  /** `containsKey(fieldName)`: whether `get` finds a child. */
  function ContainsKey(st: Struct<FieldName>, name: FieldName): (r: Result<bool>)
    requires Indexed(st)
    ensures r.Err? <==> !ValidName(name)
    ensures r.Err? ==> r.error == IllegalArgument
    ensures r.Ok? ==> (r.value <==> !st.isNull && name in Names(st.children))
  {
    var found :- Get(st, name);
    Ok(found.Some?)
  }

  /** `remove(String)`. */
  function Remove(st: Struct<FieldName>, name: FieldName): (r: Result<(Option<Value>, Struct<FieldName>)>)
    requires Indexed(st)
    ensures r.Err? <==> !ValidName(name)
    ensures r.Err? ==> r.error == IllegalArgument
    ensures r.Ok? ==> var (found, st') := r.value;
              Indexed(st') && st'.isNull == st.isNull &&
              (found.None? <==> st.isNull || name !in Names(st.children)) &&
              (found.None? ==> st' == st) &&
              (found.Some? ==>
                 (exists i | 0 <= i < |st.children| ::
                    st.children[i] == Child(name, found.value) && st'.children == Delete(st.children, i)))
  {
    if !ValidName(name) then Err(IllegalArgument) else Ok(RemoveFound(st, name))
  }

  /** `put(fieldName, value)`. */
  function Put(st: Struct<FieldName>, name: FieldName, v: Option<Value>): (r: Result<Struct<FieldName>>)
    requires Indexed(st)
    ensures r.Err? <==> !ValidName(name)
    ensures r.Err? ==> r.error == IllegalArgument
    ensures r.Ok? ==> Indexed(r.value) && r.value.isNull == (st.isNull && v.None?)
    ensures r.Ok? ==>
              r.value.children == Drop(st.children, [name], true) + (if v.Some? then [Child(name, v.value)] else [])
  {
    if !ValidName(name) then Err(IllegalArgument) else Ok(Replace(st, name, v))
  }

  /** For a valid name, `get` after `put` finds the value put, and after
      `put` of null finds nothing; `remove` after `add` finds a child with
      the name. */
  lemma PutThenGet(st: Struct<FieldName>, name: FieldName, v: Value)
    requires Indexed(st) && ValidName(name)
    ensures Put(st, name, Some(v)).Ok? && Get(Put(st, name, Some(v)).value, name) == Ok(Some(v))
    ensures Put(st, name, None).Ok? && Get(Put(st, name, None).value, name) == Ok(None)
    ensures Add(st, name, v).Ok? && Remove(Add(st, name, v).value, name).Ok? &&
            Remove(Add(st, name, v).value, name).value.0.Some?
  {
    PutOnly(st, name, v);
    PutNullRemoves(st, name);
    var st' := Add(st, name, v).value;
    assert st'.children[|st.children|] == Child(name, v);
    assert name in Names(st'.children);
  }
}
