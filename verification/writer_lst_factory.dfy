/** `PrivateWriterLSTFactory.WriterLSTFactory`: the draft twin of
    `LSTWriter`.  It shares the state, `stepOut` and `writeInt` of
    `LstDeclarations`; its constructors check nothing, its `stepIn` does not
    record that imports were seen, its import list is announced by the
    field name "decImports", it ignores field names inside `imp` and `sym`,
    and `writeSymbol` always throws. */
module WriterLstFactory {
  import opened Wrappers
  import opened JavaInts
  import opened LstDeclarations
  import RawCursor
  import LstWriter

  /** The constructor from an existing table. */
  function New(): (d: Decl)
    ensures d.table == Given && d.depth == 0 && d.state.None?
  {
    Fresh(Given)
  }

  /** The constructor from an import list: the list is taken as given, no
      system table is prepended. */
  function NewFrom(imports: seq<TableRef>, declared: seq<string>): (d: Decl)
    ensures d.table == FromTables(imports, declared) && d.depth == 0 && d.state.None?
  {
    Fresh(FromTables(imports, declared))
  }

  /** `stepIn`: `LSTWriter.stepIn` without setting `seenImports`.  The
      depth grows first; `preImp` opens an empty import list, `imp` a blank
      import, `preSym` an empty symbol list; the import field states throw;
      in `sym` a container is refused; the null state is a null
      dereference. */
  function StepIn(d: Decl, t: RawCursor.IonType): (r: Outcome)
    ensures r.after.depth == ToInt(d.depth + 1)
    ensures r.error.None? <==>
              d.state == Some(PreImp) || d.state == Some(PreSym) ||
              (d.state == Some(Imp) && d.imports.Some?) ||
              (d.state == Some(Sym) && !LstWriter.IsContainer(t))
    ensures d.state.None? ==> r.error == Some(NullPointer)
    ensures d.state == Some(PreImp) ==> r.after.state == Some(Imp) && r.after.imports == Some([])
    ensures d.state != Some(PreImp) ==> r.after.state == d.state
    ensures r.after.seenImports == d.seenImports
    ensures d.state == Some(Imp) && d.imports.Some? ==>
              r.after.imports == Some(d.imports.value + [BlankImport])
    ensures d.state != Some(PreImp) && d.state != Some(Imp) ==> r.after.imports == d.imports
    ensures r.after.symbols == if d.state == Some(PreSym) then Some([]) else d.symbols
    ensures r.after.table == d.table
  {
    var e := d.(depth := ToInt(d.depth + 1));
    match d.state
    case None => Throw(e, NullPointer)
    case Some(s) =>
      match s
      case PreImp => Done(e.(state := Some(Imp), imports := Some([])))
      case Imp =>
        if d.imports.None? then Throw(e, NullPointer)
        else Done(e.(imports := Some(d.imports.value + [BlankImport])))
      case PreSym => Done(e.(symbols := Some([])))
      case ImpMid => Throw(e, Unsupported)
      case ImpVer => Throw(e, Unsupported)
      case ImpName => Throw(e, Unsupported)
      case Sym => if LstWriter.IsContainer(t) then Throw(e, Unsupported) else Done(e)
  }

  /** The two `stepIn`s agree on everything but `seenImports`, which only
      `LSTWriter` sets, and only when it opens the import list. */
  lemma StepInMatchesLstWriter(d: Decl, t: RawCursor.IonType)
    ensures StepIn(d, t).error == LstWriter.StepIn(d, t).error
    ensures StepIn(d, t).after ==
              LstWriter.StepIn(d, t).after.(seenImports := d.seenImports)
    ensures d.state != Some(PreImp) ==> StepIn(d, t) == LstWriter.StepIn(d, t)
  {
  }

  /** `setFieldName`.  In the null state only "decImports" and "symbols"
      are accepted; in `imp` and `sym` any name is accepted and ignored;
      every other state throws.  Only the state changes. */
  function SetFieldName(d: Decl, name: string): (r: Outcome)
    ensures r.error.None? <==>
              (d.state.None? && (name == "decImports" || name == "symbols")) ||
              d.state == Some(Imp) || d.state == Some(Sym)
    ensures r.error.Some? ==> r.error == Some(Unsupported) && r.after == d
    ensures r.error.None? && d.state.None? ==>
              r.after == d.(state := if name == "decImports" then Some(PreImp) else Some(PreSym))
    ensures d.state.Some? ==> r.after == d
  {
    match d.state
    case None =>
      if name == "decImports" then Done(d.(state := Some(PreImp)))
      else if name == "symbols" then Done(d.(state := Some(PreSym)))
      else Throw(d, Unsupported)
    case Some(Imp) => Done(d)
    case Some(Sym) => Done(d)
    case Some(_) => Throw(d, Unsupported)
  }

  /** Where the two `setFieldName`s part: the factory never moves into an
      import field state, so its `writeInt` can never succeed from a sound
      record, and the word announcing imports differs. */
  lemma SetFieldNameNeverSelectsField(d: Decl, name: string)
    ensures SetFieldName(d, name).after.state == Some(ImpVer) ==> d.state == Some(ImpVer)
    ensures SetFieldName(d, name).after.state == Some(ImpMid) ==> d.state == Some(ImpMid)
    ensures SetFieldName(d, name).after.state == Some(ImpName) ==> d.state == Some(ImpName)
    ensures d.state.None? ==>
              (SetFieldName(d, name).error.None? && SetFieldName(d, name).after.state == Some(PreImp)
               <==> name == "decImports")
  {
  }

  /** `writeSymbol` throws in every state and changes nothing. */
  function WriteSymbol(d: Decl, content: string): (r: Outcome)
    ensures r.error == Some(Unsupported) && r.after == d
  {
    Throw(d, Unsupported)
  }

  /** The calls the factory receives (its `writeString` is not valid Java
      and is not modelled). */
  datatype Call =
    | CallSetFieldName(name: string)
    | CallStepIn(t: RawCursor.IonType)
    | CallStepOut
    | CallWriteInt(n: int)
    | CallWriteSymbol(symbol: string)

  function Apply(d: Decl, c: Call): Outcome {
    match c
    case CallSetFieldName(name) => SetFieldName(d, name)
    case CallStepIn(t) => StepIn(d, t)
    case CallStepOut => StepOut(d)
    case CallWriteInt(n) => WriteInt(d, ToLong(n))
    case CallWriteSymbol(symbol) => WriteSymbol(d, symbol)
  }

  function Run(d: Decl, calls: seq<Call>): Decl
    decreases |calls|
  {
    if |calls| == 0 then d else Run(Apply(d, calls[0]).after, calls[1..])
  }

  /** The factory's own invariant: besides `Sound`, no import field state
      is ever entered, so every import stays blank. */
  predicate Blank(d: Decl) {
    && Sound(d)
    && d.state != Some(ImpVer) && d.state != Some(ImpMid) && d.state != Some(ImpName)
    && (d.imports.Some? ==> forall i | 0 <= i < |d.imports.value| :: d.imports.value[i] == BlankImport)
  }

  /** One call keeps the invariant and the table. */
  lemma ApplyBlank(d: Decl, c: Call)
    requires Blank(d)
    ensures Blank(Apply(d, c).after)
    ensures Apply(d, c).after.table == d.table
  {
    match c
    case CallStepOut => StepOutSound(d);
    case CallStepIn(t) =>
      var r := StepIn(d, t);
      if d.state == Some(Imp) && d.imports.Some? {
        var ys := r.after.imports.value;
        forall i | 0 <= i < |ys| ensures ys[i] == BlankImport {
          if i < |d.imports.value| {
            assert ys[i] == d.imports.value[i];
          }
        }
      }
    case _ =>
  }

  /** Whatever calls the factory receives after a constructor, every
      import it holds stays blank, `writeInt` never succeeds, and its table
      never changes. */
  lemma {:induction false} RunBlank(d: Decl, calls: seq<Call>)
    requires Blank(d)
    ensures Blank(Run(d, calls))
    ensures Run(d, calls).table == d.table
    ensures forall n | IsLong(n) :: WriteInt(Run(d, calls), n).error.Some?
    decreases |calls|
  {
    if |calls| > 0 {
      ApplyBlank(d, calls[0]);
      RunBlank(Apply(d, calls[0]).after, calls[1..]);
    }
  }

  /** Both constructors start blank, so no call sequence after them ever
      changes the table. */
  lemma ReachableBlank(imports: seq<TableRef>, declared: seq<string>, calls: seq<Call>)
    ensures Run(New(), calls).table == Given
    ensures Run(NewFrom(imports, declared), calls).table == FromTables(imports, declared)
  {
    FreshSound(Given);
    FreshSound(FromTables(imports, declared));
    RunBlank(New(), calls);
    RunBlank(NewFrom(imports, declared), calls);
  }
}
