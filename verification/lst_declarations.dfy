/** What the two local-symbol-table declaration writers have in common:
    `LSTWriter` and its draft twin `PrivateWriterLSTFactory.WriterLSTFactory`
    receive the calls a writer makes while it writes an
    `$ion_symbol_table` struct, and track them with the same enum state,
    the same import records and the same `stepOut` and `writeInt` code.
    Both are modelled as immutable records with transition functions.  A
    call that throws still leaves its earlier effects behind (the depth is
    changed before the `switch` that throws), so a transition yields an
    `Outcome`: the record after the call and the exception, if any. */
module LstDeclarations {
  import opened Wrappers
  import opened JavaInts

  /** The `State` enum; the Java field also takes `null`, which is `None`
      wherever a state is held. */
  datatype State = PreImp | Imp | ImpMid | ImpName | ImpVer | PreSym | Sym

  /** `SSTImport`: one declared import.  A fresh one has a null name and
      zero version and max id. */
  datatype Import = Import(name: Option<string>, version: int, maxId: int)

  const BlankImport: Import := Import(None, 0, 0)

  /** The check `stepOut` makes on the last import before it accepts the
      import list. */
  predicate Complete(i: Import) {
    i.maxId != 0 && i.name.Some? && i.version != 0
  }

  /** A table handed to a constructor; only whether it is a system table
      matters to the writers. */
  datatype TableRef = SystemTable | SharedTable(id: nat)

  /** The symbol table a writer holds.  Building a `LocalSymbolTable` and
      looking imports up in the catalog are not modelled: a table is
      recorded by what it was built from. */
  datatype SymTab =
    | Given                                                          // the table passed to the constructor
    | FromTables(tables: seq<TableRef>, declared: seq<string>)      // built by the list constructor
    | FromImports(imports: seq<Import>, symbols: Option<seq<string>>) // rebuilt by stepOut
    | Interned(base: SymTab, names: seq<string>)                    // `intern` of each name into base

  /** The writer's fields: `depth`, `symbolTable`, `state`, `decImports`,
      `decSymbols` and `seenImports` (null lists are `None`). */
  datatype Decl = Decl(
    depth: int,
    table: SymTab,
    state: Option<State>,
    imports: Option<seq<Import>>,
    symbols: Option<seq<string>>,
    seenImports: bool)

  /** The record a constructor leaves: depth 0, every other field at its
      Java default. */
  function Fresh(table: SymTab): (d: Decl)
    ensures d.depth == 0 && d.table == table && d.state.None?
    ensures d.imports.None? && d.symbols.None? && !d.seenImports
  {
    Decl(0, table, None, None, None, false)
  }

  /** The record after a call, and the exception the call threw. */
  datatype Outcome = Outcome(after: Decl, error: Option<Error>)

  function Done(d: Decl): Outcome {
    Outcome(d, None)
  }

  function Throw(d: Decl, e: Error): Outcome {
    Outcome(d, Some(e))
  }

  /** `isInStruct`: true exactly in the null state and in `imp`. */
  predicate IsInStruct(d: Decl) {
    d.state.None? || d.state == Some(Imp)
  }

  /** The list with its last element replaced. */
  function SetLast(xs: seq<Import>, x: Import): (r: seq<Import>)
    requires |xs| > 0
    ensures |r| == |xs| && r[..|r| - 1] == xs[..|xs| - 1] && r[|r| - 1] == x
  {
    xs[..|xs| - 1] + [x]
  }

  /** `stepOut`.  The depth drops first.  In `imp` the last import must be
      complete (a missing list is a null dereference, an empty one has no
      last element); when it is, the table is rebuilt from every declared
      import.  In `sym` the declared symbols are interned when imports
      were seen, and then, falling through, it throws like `preSym` and
      the import field states.  `preImp` passes.  A call that passes
      returns to the null state when the new depth is 1. */
  function StepOut(d: Decl): (r: Outcome)
    ensures r.after.depth == ToInt(d.depth - 1)
    ensures r.error.None? <==>
              d.state == Some(PreImp) ||
              (d.state == Some(Imp) && d.imports.Some? && |d.imports.value| > 0 &&
               Complete(d.imports.value[|d.imports.value| - 1]))
    ensures d.state.None? ==> r.error == Some(NullPointer)
    ensures d.state == Some(Imp) && d.imports == Some([]) ==> r.error == Some(NoSuchElement)
    ensures r.error.None? ==> r.after.state == if r.after.depth == 1 then None else d.state
    ensures r.error.Some? ==> r.after.state == d.state
    ensures r.error.None? && d.state == Some(Imp) ==> r.after.table == FromImports(d.imports.value, d.symbols)
    ensures r.after.table != d.table ==> d.state == Some(Imp) || d.state == Some(Sym)
    ensures r.after.imports == d.imports && r.after.symbols == d.symbols
    ensures r.after.seenImports == d.seenImports
  {
    var e := d.(depth := ToInt(d.depth - 1));
    match d.state
    case None => Throw(e, NullPointer)
    case Some(s) =>
      match s
      case Imp =>
        if d.imports.None? then Throw(e, NullPointer)
        else if |d.imports.value| == 0 then Throw(e, NoSuchElement)
        else if !Complete(d.imports.value[|d.imports.value| - 1]) then Throw(e, Unsupported)
        else
          var f := e.(table := FromImports(d.imports.value, d.symbols));
          Done(if f.depth == 1 then f.(state := None) else f)
      case Sym =>
        if !d.seenImports then Throw(e, Unsupported)
        else if d.symbols.None? then Throw(e, NullPointer)
        else Throw(e.(table := Interned(d.table, d.symbols.value)), Unsupported)
      case PreImp => Done(if e.depth == 1 then e.(state := None) else e)
      case _ => Throw(e, Unsupported)
  }

  /** `writeInt(long)`: in `impVer` the value, narrowed to an int, becomes
      the last import's version, in `impMID` its max id; every other state
      throws.  The state itself stays where it is. */
  function WriteInt(d: Decl, value: int): (r: Outcome)
    requires IsLong(value)
    ensures r.error.None? <==>
              (d.state == Some(ImpVer) || d.state == Some(ImpMid)) &&
              d.imports.Some? && |d.imports.value| > 0
    ensures r.error.Some? ==> r.after == d
    ensures r.error.None? ==> r.after.imports.Some?
    ensures r.error.None? ==>
              var xs := d.imports.value;
              var ys := r.after.imports.value;
              |ys| == |xs| && ys[..|ys| - 1] == xs[..|xs| - 1] &&
              ys[|ys| - 1] ==
                if d.state == Some(ImpVer) then xs[|xs| - 1].(version := ToInt(value))
                else xs[|xs| - 1].(maxId := ToInt(value))
    ensures r.error.None? ==> r.after == d.(imports := r.after.imports)
  {
    if d.state == Some(ImpVer) || d.state == Some(ImpMid) then
      if d.imports.None? then Throw(d, NullPointer)
      else if |d.imports.value| == 0 then Throw(d, NoSuchElement)
      else
        var last := d.imports.value[|d.imports.value| - 1];
        var last' := if d.state == Some(ImpVer) then last.(version := ToInt(value))
                     else last.(maxId := ToInt(value));
        Done(d.(imports := Some(SetLast(d.imports.value, last'))))
    else Throw(d, Unsupported)
  }

  /** The invariant of every record the writers can reach from a
      constructor: `sym` is never entered (no call sets it), the import
      field states only follow `imp` (so the list exists), and no import
      ever has a name (no call writes one). */
  predicate Sound(d: Decl) {
    && d.state != Some(Sym)
    && (InImports(d.state) ==> d.imports.Some?)
    && (d.imports.Some? ==> Nameless(d.imports.value))
  }

  /** `imp` and the three import field states. */
  predicate InImports(s: Option<State>) {
    s == Some(Imp) || s == Some(ImpMid) || s == Some(ImpName) || s == Some(ImpVer)
  }

  predicate Nameless(xs: seq<Import>) {
    forall i | 0 <= i < |xs| :: xs[i].name.None?
  }

  /** A fresh record is sound. */
  lemma FreshSound(table: SymTab)
    ensures Sound(Fresh(table))
  {
  }

  /** `stepOut` keeps the invariant, never changes the table of a sound
      record, and always throws in `imp`: the last import cannot have a
      name, so no import list is ever accepted. */
  lemma StepOutSound(d: Decl)
    requires Sound(d)
    ensures Sound(StepOut(d).after)
    ensures StepOut(d).after.table == d.table
    ensures d.state == Some(Imp) ==> StepOut(d).error.Some?
  {
    if d.state == Some(Imp) && d.imports.Some? && |d.imports.value| > 0 {
      assert d.imports.value[|d.imports.value| - 1].name.None?;
    }
  }

  /** `writeInt` keeps the invariant: it sets numbers, never a name. */
  lemma WriteIntSound(d: Decl, value: int)
    requires IsLong(value) && Sound(d)
    ensures Sound(WriteInt(d, value).after)
    ensures WriteInt(d, value).after.table == d.table
  {
    var r := WriteInt(d, value);
    if r.error.None? {
      var xs := d.imports.value;
      var ys := r.after.imports.value;
      forall i | 0 <= i < |ys| ensures ys[i].name.None? {
        if i < |ys| - 1 {
          assert ys[i] == ys[..|ys| - 1][i] == xs[..|xs| - 1][i] == xs[i];
        }
      }
    }
  }

  /** A second `writeInt` in the same field state overwrites the first. */
  lemma WriteIntLastWins(d: Decl, a: int, b: int)
    requires IsLong(a) && IsLong(b)
    requires WriteInt(d, a).error.None?
    ensures WriteInt(WriteInt(d, a).after, b) == WriteInt(d, b)
  {
    var xs := d.imports.value;
    var d1 := WriteInt(d, a).after;
    var ys := d1.imports.value;
    assert ys[..|ys| - 1] == xs[..|xs| - 1];
  }

  /** `stepOut` undoes the depth change of a `stepIn`, the Java int
      wrap-around included. */
  lemma DepthRoundTrip(depth: int)
    requires IsInt(depth)
    ensures ToInt(ToInt(depth + 1) - 1) == depth
  {
    if depth == INT_MAX {
      assert ToInt(depth + 1) == INT_MIN;
    }
  }
}
