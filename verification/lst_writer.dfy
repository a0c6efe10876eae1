/** `LSTWriter`: the local-symbol-table declaration writer.  The calls a
    writer makes for the fields of an `$ion_symbol_table` struct move it
    through the shared `State` enum; `stepOut` and `writeInt` are the
    shared ones of `LstDeclarations`. */
module LstWriter {
  import opened Wrappers
  import opened JavaInts
  import opened LstDeclarations
  import RawCursor

  /** The constructor from an existing table: anything but a local table
      is refused (the Java code throws an `Error`). */
  function New(isLocal: bool): (r: Result<Decl>)
    ensures r.Ok? <==> isLocal
    ensures r.Ok? ==> r.value == Fresh(Given)
    ensures r.Err? ==> r.error == NotLocalTable
  {
    if isLocal then Ok(Fresh(Given)) else Err(NotLocalTable)
  }

  /** The import list the list constructor builds its table from: a system
      table first, prepended when the list is empty or does not start with
      one. */
  function WithSystem(imports: seq<TableRef>): (r: seq<TableRef>)
    ensures |r| > 0 && r[0] == SystemTable
    ensures r == imports || r == [SystemTable] + imports
    ensures |imports| > 0 && imports[0] == SystemTable ==> r == imports
  {
    if |imports| > 0 && imports[0] == SystemTable then imports else [SystemTable] + imports
  }

  /** Prepending is done at most once: the list it builds already starts
      with the system table. */
  lemma WithSystemIdempotent(imports: seq<TableRef>)
    ensures WithSystem(WithSystem(imports)) == WithSystem(imports)
  {
  }

  /** The constructor from an import list and declared symbols. */
  function NewFrom(imports: seq<TableRef>, declared: seq<string>): (d: Decl)
    ensures d.depth == 0 && d.state.None? && d.imports.None? && d.symbols.None? && !d.seenImports
    ensures d.table.FromTables? && d.table.declared == declared
    ensures |d.table.tables| > 0 && d.table.tables[0] == SystemTable
    ensures d.table.tables == imports || d.table.tables == [SystemTable] + imports
    ensures |imports| > 0 && imports[0] == SystemTable ==> d.table.tables == imports
  {
    Fresh(FromTables(WithSystem(imports), declared))
  }

  /** The container types `stepIn` refuses as open content. */
  predicate IsContainer(t: RawCursor.IonType) {
    t == RawCursor.IonList || t == RawCursor.IonStruct || t == RawCursor.IonSexp
  }

  /** `stepIn`.  The depth grows first.  `preImp` opens the import list
      (empty, and imports are now seen); `imp` opens one more blank import;
      `preSym` starts an empty symbol list; the import field states throw;
      in `sym` a container is refused as open content.  A `switch` on the
      null state throws a null dereference. */
  function StepIn(d: Decl, t: RawCursor.IonType): (r: Outcome)
    ensures r.after.depth == ToInt(d.depth + 1)
    ensures r.error.None? <==>
              d.state == Some(PreImp) || d.state == Some(PreSym) ||
              (d.state == Some(Imp) && d.imports.Some?) ||
              (d.state == Some(Sym) && !IsContainer(t))
    ensures d.state.None? ==> r.error == Some(NullPointer)
    ensures d.state == Some(PreImp) ==>
              r.after.state == Some(Imp) && r.after.imports == Some([]) && r.after.seenImports
    ensures d.state != Some(PreImp) ==>
              r.after.state == d.state && r.after.seenImports == d.seenImports
    ensures d.state == Some(Imp) && d.imports.Some? ==>
              r.after.imports == Some(d.imports.value + [BlankImport])
    ensures d.state != Some(PreImp) && d.state != Some(Imp) ==> r.after.imports == d.imports
    ensures r.after.symbols == if d.state == Some(PreSym) then Some([]) else d.symbols
    ensures r.after.table == d.table
  {
    var e := d.(depth := ToInt(d.depth + 1));
    match d.state
    case None => Throw(e, NullPointer)
    case Some(s) =>
      match s
      case PreImp => Done(e.(state := Some(Imp), imports := Some([]), seenImports := true))
      case Imp =>
        if d.imports.None? then Throw(e, NullPointer)
        else Done(e.(imports := Some(d.imports.value + [BlankImport])))
      case PreSym => Done(e.(symbols := Some([])))
      case ImpMid => Throw(e, Unsupported)
      case ImpVer => Throw(e, Unsupported)
      case ImpName => Throw(e, Unsupported)
      case Sym => if IsContainer(t) then Throw(e, Unsupported) else Done(e)
  }

  /** `setFieldName`.  In the null state only "imports" and "symbols" are
      accepted; in `imp` the three import fields select their state and any
      other name is ignored; every other state throws.  Only the state
      changes. */
  function SetFieldName(d: Decl, name: string): (r: Outcome)
    ensures r.error.None? <==>
              (d.state.None? && (name == "imports" || name == "symbols")) || d.state == Some(Imp)
    ensures r.error.Some? ==> r.error == Some(Unsupported) && r.after == d
    ensures r.error.None? ==> r.after == d.(state := r.after.state)
    ensures r.error.None? && d.state.None? ==>
              r.after.state == if name == "imports" then Some(PreImp) else Some(PreSym)
    ensures d.state == Some(Imp) ==>
              r.after.state ==
                if name == "name" then Some(ImpName)
                else if name == "version" then Some(ImpVer)
                else if name == "max_id" then Some(ImpMid)
                else Some(Imp)
  {
    match d.state
    case None =>
      if name == "imports" then Done(d.(state := Some(PreImp)))
      else if name == "symbols" then Done(d.(state := Some(PreSym)))
      else Throw(d, Unsupported)
    case Some(Imp) =>
      if name == "name" then Done(d.(state := Some(ImpName)))
      else if name == "version" then Done(d.(state := Some(ImpVer)))
      else if name == "max_id" then Done(d.(state := Some(ImpMid)))
      else Done(d)
    case Some(_) => Throw(d, Unsupported)
  }

  /** A field name is taken only where `isInStruct` holds, and in `imp`
      every name is taken. */
  lemma SetFieldNameInStruct(d: Decl, name: string)
    ensures SetFieldName(d, name).error.None? ==> IsInStruct(d)
    ensures d.state == Some(Imp) ==> SetFieldName(d, name).error.None?
  {
  }

  /** `writeString` throws in every state: `sym` interns the text into the
      table and then falls through to the throwing default. */
  function WriteString(d: Decl, value: string): (r: Outcome)
    ensures r.error == Some(Unsupported)
    ensures r.after == if d.state == Some(Sym) then d.(table := Interned(d.table, [value])) else d
  {
    if d.state == Some(Sym) then Throw(d.(table := Interned(d.table, [value])), Unsupported)
    else Throw(d, Unsupported)
  }

  /** `writeSymbol`: the `$ion_symbol_table` symbol in `preImp` (appending
      to the current context) marks imports as seen and returns to the null
      state; anything else throws. */
  function WriteSymbol(d: Decl, content: string): (r: Outcome)
    ensures r.error.None? <==> d.state == Some(PreImp) && content == "$ion_symbol_table"
    ensures r.error.Some? ==> r.error == Some(Unsupported) && r.after == d
    ensures r.error.None? ==> r.after == d.(seenImports := true, state := None)
  {
    if d.state == Some(PreImp) && content == "$ion_symbol_table" then
      Done(d.(seenImports := true, state := None))
    else Throw(d, Unsupported)
  }

  /** The calls the writer receives.  `WriteInt` carries the integer as
      `writeInt(BigInteger)` does, narrowed to a long before use. */
  datatype Call =
    | CallSetFieldName(name: string)
    | CallStepIn(t: RawCursor.IonType)
    | CallStepOut
    | CallWriteInt(n: int)
    | CallWriteString(text: string)
    | CallWriteSymbol(symbol: string)

  function Apply(d: Decl, c: Call): Outcome {
    match c
    case CallSetFieldName(name) => SetFieldName(d, name)
    case CallStepIn(t) => StepIn(d, t)
    case CallStepOut => StepOut(d)
    case CallWriteInt(n) => WriteInt(d, ToLong(n))
    case CallWriteString(text) => WriteString(d, text)
    case CallWriteSymbol(symbol) => WriteSymbol(d, symbol)
  }

  /** A sequence of calls, each made on the record the previous one left
      behind, whether it threw or not (the caller catches). */
  function Run(d: Decl, calls: seq<Call>): Decl
    decreases |calls|
  {
    if |calls| == 0 then d else Run(Apply(d, calls[0]).after, calls[1..])
  }

  /** One call keeps the invariant and the table. */
  lemma ApplySound(d: Decl, c: Call)
    requires Sound(d)
    ensures Sound(Apply(d, c).after)
    ensures Apply(d, c).after.table == d.table
  {
    match c
    case CallStepOut => StepOutSound(d);
    case CallWriteInt(n) => WriteIntSound(d, ToLong(n));
    case CallStepIn(t) =>
      var r := StepIn(d, t);
      if d.state == Some(Imp) && d.imports.Some? {
        var ys := r.after.imports.value;
        forall i | 0 <= i < |ys| ensures ys[i].name.None? {
          if i < |d.imports.value| {
            assert ys[i] == d.imports.value[i];
          }
        }
      }
    case _ =>
  }

  /** Whatever calls a writer receives after either constructor, it never
      reaches `sym`, never holds a named import, and never changes its
      table: no import declaration ever passes `stepOut`'s check, since no
      call can set an import's name. */
  lemma {:induction false} RunSound(d: Decl, calls: seq<Call>)
    requires Sound(d)
    ensures Sound(Run(d, calls))
    ensures Run(d, calls).table == d.table
    decreases |calls|
  {
    if |calls| > 0 {
      ApplySound(d, calls[0]);
      RunSound(Apply(d, calls[0]).after, calls[1..]);
    }
  }

  /** Both constructors start sound, so every record they lead to is. */
  lemma ReachableSound(isLocal: bool, imports: seq<TableRef>, declared: seq<string>, calls: seq<Call>)
    ensures New(isLocal).Ok? ==> Sound(Run(New(isLocal).value, calls))
    ensures New(isLocal).Ok? ==> Run(New(isLocal).value, calls).table == Given
    ensures Run(NewFrom(imports, declared), calls).table == FromTables(WithSystem(imports), declared)
  {
    FreshSound(Given);
    FreshSound(FromTables(WithSystem(imports), declared));
    if New(isLocal).Ok? {
      RunSound(New(isLocal).value, calls);
    }
    RunSound(NewFrom(imports, declared), calls);
  }
}
