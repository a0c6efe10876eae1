/** The symbol-ID allocation of `IonManagedBinaryWriter`: the two ways of
    resolving imported symbols (FLAT copies every imported text into one
    map, DELEGATE asks each imported table in turn), the import context
    that fixes where local symbol IDs start, and `intern`, which hands out
    local IDs after it.  Symbol tables are values; the writer's symbol
    state is an immutable record.  Texts are Dafny strings: the writer
    only compares them for equality. */
module ManagedWriter {
  import opened Wrappers

  type Text = string

  /** `ION_1_0_MAX_ID`: the Ion 1.0 system symbol table declares nine
      symbols, with IDs 1 to 9. */
  const ION_1_0_MAX_ID: int := 9

  /** A symbol table as the writer sees it: whether it is shared and
      whether it is the system table, its max id, and the texts it declares
      in ID order (a declared text may be null). */
  datatype SymbolTable = SymbolTable(isShared: bool, isSystem: bool, maxId: int, declared: seq<Option<Text>>)

  /** The Ion 1.0 system symbol table. */
  const SystemTable: SymbolTable :=
    SymbolTable(true, true, ION_1_0_MAX_ID,
      [Some("$ion"), Some("$ion_1_0"), Some("$ion_symbol_table"), Some("name"), Some("version"),
       Some("imports"), Some("symbols"), Some("max_id"), Some("$ion_shared_symbol_table")])

  /** No text is declared twice. */
  predicate Distinct(names: seq<Option<Text>>) {
    forall i, j | 0 <= i < j < |names| :: names[i] != names[j]
  }

  /** What the writer needs of a system symbol table: a shared system
      table whose nine distinct names take IDs 1 to `ION_1_0_MAX_ID`. */
  predicate SystemShaped(sys: SymbolTable) {
    sys.isShared && sys.isSystem && sys.maxId == ION_1_0_MAX_ID && |sys.declared| == ION_1_0_MAX_ID &&
    Distinct(sys.declared)
  }

  lemma SystemTableShaped()
    ensures SystemShaped(SystemTable)
  {
  }

  /** A symbol token: its text (possibly unknown) and its ID. */
  datatype Token = Token(text: Option<Text>, sid: int)

  /** The position of the first declaration of `text`. */
  function FirstDecl(names: seq<Option<Text>>, text: Text): (r: Option<nat>)
    ensures r.Some? ==> r.value < |names| && names[r.value] == Some(text)
    ensures r.Some? ==> forall j | 0 <= j < r.value :: names[j] != Some(text)
    ensures r.None? <==> forall j | 0 <= j < |names| :: names[j] != Some(text)
    decreases |names|
  {
    if |names| == 0 then None
    else if names[0] == Some(text) then Some(0)
    else match FirstDecl(names[1..], text)
      case None => None
      case Some(i) => Some(i + 1)
  }

  /** The table's `find`: the ID of the first declaration of the text. */
  function Find(t: SymbolTable, text: Text): (r: Option<int>)
    ensures r.Some? ==> 1 <= r.value <= |t.declared| && t.declared[r.value - 1] == Some(text)
    ensures r.None? <==> Some(text) !in t.declared
  {
    match FirstDecl(t.declared, text)
    case None => None
    case Some(i) => Some(i + 1)
  }

  /** `ImportTablePosition`: an imported table and the ID its first symbol
      takes. */
  datatype Position = Position(table: SymbolTable, startId: int)

  datatype Mode = FlatMode | DelegateMode

  /** A `SymbolResolverBuilder` and the `SymbolResolver` it builds (building
      changes nothing): a FLAT map from text to ID, or the DELEGATE list of
      table positions. */
  datatype Resolver = Flat(symbols: map<Text, int>) | Delegate(positions: seq<Position>)

  function ModeOf(r: Resolver): Mode {
    if r.Flat? then FlatMode else DelegateMode
  }

  /** FLAT `addSymbolTable`: every declared text not yet mapped is mapped
      to its ID; a null text is skipped but still takes an ID.  Returns the
      map and the next free ID. */
  function FlatAdd(m: map<Text, int>, names: seq<Option<Text>>, sid: int): (r: (map<Text, int>, int))
    ensures r.1 == sid + |names|
    ensures forall k | k in m :: k in r.0 && r.0[k] == m[k]
    ensures forall k :: k in r.0 <==> k in m || FirstDecl(names, k).Some?
    ensures forall k | k in r.0 && k !in m :: r.0[k] == sid + FirstDecl(names, k).value
    decreases |names|
  {
    if |names| == 0 then (m, sid)
    else
      var m' := if names[0].Some? && names[0].value !in m then m[names[0].value := sid] else m;
      var r := FlatAdd(m', names[1..], sid + 1);
      FlatAddStep(m, names, sid, m', r.0);
      r
  }

  /** One step of `FlatAdd`: what the first name does, and what the rest
      (added from the next ID on) contributes. */
  lemma FlatAddStep(m: map<Text, int>, names: seq<Option<Text>>, sid: int, m': map<Text, int>, r: map<Text, int>)
    requires |names| > 0
    requires m' == if names[0].Some? && names[0].value !in m then m[names[0].value := sid] else m
    requires forall k | k in m' :: k in r && r[k] == m'[k]
    requires forall k :: k in r <==> k in m' || FirstDecl(names[1..], k).Some?
    requires forall k | k in r && k !in m' :: r[k] == sid + 1 + FirstDecl(names[1..], k).value
    ensures forall k | k in m :: k in r && r[k] == m[k]
    ensures forall k :: k in r <==> k in m || FirstDecl(names, k).Some?
    ensures forall k | k in r && k !in m :: r[k] == sid + FirstDecl(names, k).value
  {
    forall k
      ensures k in m ==> k in r && r[k] == m[k]
      ensures k in r <==> k in m || FirstDecl(names, k).Some?
      ensures k in r && k !in m ==> r[k] == sid + FirstDecl(names, k).value
    {
      FlatAddKey(m, names, sid, m', r, k);
    }
  }

  /** `FlatAddStep` for one text. */
  lemma FlatAddKey(m: map<Text, int>, names: seq<Option<Text>>, sid: int, m': map<Text, int>, r: map<Text, int>, k: Text)
    requires |names| > 0
    requires m' == if names[0].Some? && names[0].value !in m then m[names[0].value := sid] else m
    requires k in m' ==> k in r && r[k] == m'[k]
    requires k in r <==> k in m' || FirstDecl(names[1..], k).Some?
    requires k in r && k !in m' ==> r[k] == sid + 1 + FirstDecl(names[1..], k).value
    ensures k in m ==> k in r && r[k] == m[k]
    ensures k in r <==> k in m || FirstDecl(names, k).Some?
    ensures k in r && k !in m ==> r[k] == sid + FirstDecl(names, k).value
  {
  }

  /** The position of the first table that finds `text`. */
  function FirstHit(ps: seq<Position>, text: Text): (r: Option<nat>)
    ensures r.Some? ==> r.value < |ps| && Find(ps[r.value].table, text).Some?
    ensures r.Some? ==> forall j | 0 <= j < r.value :: Find(ps[j].table, text).None?
    ensures r.None? <==> forall j | 0 <= j < |ps| :: Find(ps[j].table, text).None?
    decreases |ps|
  {
    if |ps| == 0 then None
    else if Find(ps[0].table, text).Some? then Some(0)
    else match FirstHit(ps[1..], text)
      case None => None
      case Some(i) => Some(i + 1)
  }

  /** `SymbolResolver.get`, as an ID: FLAT looks the text up in its map;
      DELEGATE asks the tables in order and the first that finds the text
      gives the ID, shifted by where that table starts. */
  function Resolve(r: Resolver, text: Text): (res: Option<int>)
    ensures r.Flat? ==> (res.Some? <==> text in r.symbols)
    ensures r.Delegate? ==>
              (res.None? <==> forall j | 0 <= j < |r.positions| :: Find(r.positions[j].table, text).None?)
  {
    match r
    case Flat(m) => if text in m then Some(m[text]) else None
    case Delegate(ps) =>
      match FirstHit(ps, text)
      case None => None
      case Some(i) => Shifted(ps[i].table, ps[i].startId, text)
  }

  /** The ID a table placed at `start` gives a text: its own ID shifted by
      where the table starts. */
  function Shifted(t: SymbolTable, start: int, text: Text): (r: Option<int>)
    ensures r.Some? <==> Find(t, text).Some?
  {
    match Find(t, text)
    case None => None
    case Some(s) => Some(s + start - 1)
  }

  /** The IDs one imported table takes: FLAT counts its declared names,
      DELEGATE trusts its max id. */
  function Contribution(mode: Mode, t: SymbolTable): int {
    if mode == FlatMode then |t.declared| else t.maxId
  }

  /** `addSymbolTable`: adds the table at `start` and returns the next
      free ID. */
  function AddSymbolTable(b: Resolver, t: SymbolTable, start: int): (r: (Resolver, int))
    ensures ModeOf(r.0) == ModeOf(b)
    ensures r.1 == start + Contribution(ModeOf(b), t)
  {
    match b
    case Flat(m) =>
      var (m', next) := FlatAdd(m, t.declared, start);
      (Flat(m'), next)
    case Delegate(ps) => (Delegate(ps + [Position(t, start)]), start + t.maxId)
  }

  /** After `addSymbolTable` a text resolves as before if it did; otherwise
      the new table resolves it, at its ID shifted by `start`. */
  lemma AddSymbolTableResolves(b: Resolver, t: SymbolTable, start: int, text: Text)
    ensures Resolve(AddSymbolTable(b, t, start).0, text) ==
              if Resolve(b, text).Some? then Resolve(b, text)
              else Shifted(t, start, text)
  {
    match b
    case Flat(m) => FlatAddResolves(m, t, start, text);
    case Delegate(ps) => DelegateAddResolves(ps, t, start, text);
  }

  lemma FlatAddResolves(m: map<Text, int>, t: SymbolTable, start: int, text: Text)
    ensures Resolve(Flat(FlatAdd(m, t.declared, start).0), text) ==
              if text in m then Some(m[text])
              else Shifted(t, start, text)
  {
    if text in m {
      FlatAddKeeps(m, t, start, text);
    } else {
      FlatAddShifts(m, t, start, text);
    }
  }

  /** A text already in the map keeps its ID. */
  lemma FlatAddKeeps(m: map<Text, int>, t: SymbolTable, start: int, text: Text)
    requires text in m
    ensures Resolve(Flat(FlatAdd(m, t.declared, start).0), text) == Some(m[text])
  {
    var r := FlatAdd(m, t.declared, start).0;
    assert text in r && r[text] == m[text];
  }

  /** A new text takes the ID its first declaration has in the table. */
  lemma FlatAddShifts(m: map<Text, int>, t: SymbolTable, start: int, text: Text)
    requires text !in m
    ensures Resolve(Flat(FlatAdd(m, t.declared, start).0), text) == Shifted(t, start, text)
  {
    var r := FlatAdd(m, t.declared, start).0;
    var fd := FirstDecl(t.declared, text);
    assert text in r <==> fd.Some?;
    assert fd.Some? ==> r[text] == start + fd.value;
    assert Shifted(t, start, text) == if fd.Some? then Some(start + fd.value) else None;
  }

  lemma DelegateAddResolves(ps: seq<Position>, t: SymbolTable, start: int, text: Text)
    ensures Resolve(Delegate(ps + [Position(t, start)]), text) ==
              if Resolve(Delegate(ps), text).Some? then Resolve(Delegate(ps), text)
              else Shifted(t, start, text)
  {
    var ps' := ps + [Position(t, start)];
    FirstHitAppend(ps, Position(t, start), text);
    match FirstHit(ps, text)
    case Some(i) =>
      assert ps'[i] == ps[i];
    case None =>
  }

  /** The last declaration of a text: none declared after position `i`. */
  predicate LastAt(names: seq<Option<Text>>, i: int)
    requires 0 <= i < |names|
  {
    forall j | i < j < |names| :: names[j] != names[i]
  }

  /** The FLAT `createBuilder` loop: `symbols.put(text, token)` for each
      system symbol in ID order, so a text declared twice keeps its last
      ID.  A null text maps nothing but still takes an ID. */
  function PutAll(m: map<Text, int>, names: seq<Option<Text>>, sid: int): (r: map<Text, int>)
    ensures forall k :: k in r <==> k in m || Some(k) in names
    ensures forall k | k in m && Some(k) !in names :: r[k] == m[k]
    ensures forall k | k in r && Some(k) in names :: sid <= r[k] < sid + |names|
    ensures forall i | 0 <= i < |names| && names[i].Some? && LastAt(names, i) :: r[names[i].value] == sid + i
    decreases |names|
  {
    if |names| == 0 then m
    else
      var m' := if names[0].Some? then m[names[0].value := sid] else m;
      var r := PutAll(m', names[1..], sid + 1);
      PutAllStep(m, names, sid, m', r);
      r
  }

  /** One step of `PutAll`: what the first name does, and what the rest
      (put from the next ID on) contributes. */
  lemma PutAllStep(m: map<Text, int>, names: seq<Option<Text>>, sid: int, m': map<Text, int>, r: map<Text, int>)
    requires |names| > 0
    requires m' == if names[0].Some? then m[names[0].value := sid] else m
    requires forall k :: k in r <==> k in m' || Some(k) in names[1..]
    requires forall k | k in m' && Some(k) !in names[1..] :: r[k] == m'[k]
    requires forall k | k in r && Some(k) in names[1..] :: sid + 1 <= r[k] < sid + 1 + |names[1..]|
    requires forall i | 0 <= i < |names[1..]| && names[1..][i].Some? && LastAt(names[1..], i) ::
               r[names[1..][i].value] == sid + 1 + i
    ensures forall k :: k in r <==> k in m || Some(k) in names
    ensures forall k | k in m && Some(k) !in names :: r[k] == m[k]
    ensures forall k | k in r && Some(k) in names :: sid <= r[k] < sid + |names|
    ensures forall i | 0 <= i < |names| && names[i].Some? && LastAt(names, i) :: r[names[i].value] == sid + i
  {
    assert names == [names[0]] + names[1..];
    forall i | 0 <= i < |names| && names[i].Some? && LastAt(names, i)
      ensures r[names[i].value] == sid + i
    {
      if i == 0 {
        assert Some(names[0].value) !in names[1..] by {
          forall j | 0 <= j < |names[1..]| ensures names[1..][j] != names[0] {
            assert names[1..][j] == names[j + 1];
          }
        }
      } else {
        assert names[1..][i - 1] == names[i];
        assert LastAt(names[1..], i - 1) by {
          forall j | i - 1 < j < |names[1..]| ensures names[1..][j] != names[1..][i - 1] {
            assert names[1..][j] == names[j + 1];
          }
        }
      }
    }
  }

  /** `createBuilder`, given the system symbol table (`systemSymbols()` and
      `systemSymbolTable()` are outside this model): FLAT puts every system
      symbol into its map by text, DELEGATE starts its list with the system
      table at ID 1.  FLAT maps exactly the declared system texts, each
      to the ID of its last declaration. */
  function CreateBuilder(mode: Mode, sys: SymbolTable): (r: Resolver)
    ensures ModeOf(r) == mode
    ensures r.Flat? ==> forall text :: text in r.symbols <==> Some(text) in sys.declared
    ensures r.Flat? ==> forall i | 0 <= i < |sys.declared| && sys.declared[i].Some? && LastAt(sys.declared, i) ::
              r.symbols[sys.declared[i].value] == i + 1
    ensures r.Delegate? ==> |r.positions| == 1 && r.positions[0].table == sys && r.positions[0].startId == 1
  {
    match mode
    case FlatMode => Flat(PutAll(map[], sys.declared, 1))
    case DelegateMode => Delegate([Position(sys, 1)])
  }

  /** DELEGATE resolves every system symbol to the ID of its first
      declaration; so does FLAT, which keeps the last one, when the system
      names are distinct. */
  lemma CreateBuilderResolves(mode: Mode, sys: SymbolTable, text: Text)
    ensures mode == DelegateMode || Distinct(sys.declared) ==>
              Resolve(CreateBuilder(mode, sys), text) == Find(sys, text)
  {
    if mode == FlatMode && Distinct(sys.declared) {
      match FirstDecl(sys.declared, text)
      case None =>
      case Some(i) =>
        assert LastAt(sys.declared, i);
    }
  }

  /** With a system name declared twice the two builders disagree: FLAT
      keeps the later ID, DELEGATE the earlier. */
  lemma DuplicateSystemNameSplitsBuilders()
    ensures var sys := SymbolTable(true, true, 2, [Some("a"), Some("a")]);
            Resolve(CreateBuilder(FlatMode, sys), "a") == Some(2) &&
            Resolve(CreateBuilder(DelegateMode, sys), "a") == Some(1)
  {
    var sys := SymbolTable(true, true, 2, [Some("a"), Some("a")]);
    assert LastAt(sys.declared, 1);
    assert FirstDecl(sys.declared, "a") == Some(0);
  }

  /** Appending a table leaves earlier hits alone and makes the new table
      the first hit for the texts only it finds. */
  lemma {:induction false} FirstHitAppend(ps: seq<Position>, p: Position, text: Text)
    ensures FirstHit(ps + [p], text) ==
              if FirstHit(ps, text).Some? then FirstHit(ps, text)
              else if Find(p.table, text).Some? then Some(|ps|) else None
    decreases |ps|
  {
    if |ps| > 0 {
      assert (ps + [p])[1..] == ps[1..] + [p];
      FirstHitAppend(ps[1..], p, text);
    }
  }

  /** The imports the context keeps: every one that is not a system table,
      in order. */
  function NonSystem(imports: seq<SymbolTable>): (r: seq<SymbolTable>)
    ensures forall i | 0 <= i < |r| :: !r[i].isSystem
    ensures |r| <= |imports|
    decreases |imports|
  {
    if |imports| == 0 then []
    else if imports[0].isSystem then NonSystem(imports[1..])
    else [imports[0]] + NonSystem(imports[1..])
  }

  /** The IDs a list of imports takes. */
  function Total(mode: Mode, ts: seq<SymbolTable>): int
    decreases |ts|
  {
    if |ts| == 0 then 0 else Contribution(mode, ts[0]) + Total(mode, ts[1..])
  }

  predicate AllShared(imports: seq<SymbolTable>) {
    forall i | 0 <= i < |imports| :: imports[i].isShared
  }

  /** The loop of the `ImportedSymbolContext` constructor: a table that is
      not shared is refused, a system table is skipped, every other one is
      kept as a parent and added to the builder at the next free ID. */
  function AddImports(b: Resolver, imports: seq<SymbolTable>, maxSid: int): (r: Result<(seq<SymbolTable>, Resolver, int)>)
    ensures r.Ok? <==> AllShared(imports)
    ensures r.Err? ==> r.error == ImportNotShared
    ensures r.Ok? ==> r.value.0 == NonSystem(imports)
    ensures r.Ok? ==> ModeOf(r.value.1) == ModeOf(b)
    ensures r.Ok? ==> r.value.2 == maxSid + Total(ModeOf(b), NonSystem(imports))
    decreases |imports|
  {
    if |imports| == 0 then Ok(([], b, maxSid))
    else if !imports[0].isShared then Err(ImportNotShared)
    else if imports[0].isSystem then
      AddImportsShared(imports);
      AddImports(b, imports[1..], maxSid)
    else
      var (b', next) := AddSymbolTable(b, imports[0], maxSid);
      AddImportsShared(imports);
      match AddImports(b', imports[1..], next)
      case Err(e) => Err(e)
      case Ok(rest) => Ok(([imports[0]] + rest.0, rest.1, rest.2))
  }

  lemma AddImportsShared(imports: seq<SymbolTable>)
    requires |imports| > 0
    ensures AllShared(imports) <==> imports[0].isShared && AllShared(imports[1..])
  {
    if imports[0].isShared && AllShared(imports[1..]) {
      forall i | 0 <= i < |imports| ensures imports[i].isShared {
        if i > 0 {
          assert imports[i] == imports[1..][i - 1];
        }
      }
    }
  }

  /** `ImportedSymbolContext`: the kept imports, the resolver over them, and
      `localSidStart`, the first ID after the system symbols and the
      imports. */
  datatype Context = Context(parents: seq<SymbolTable>, resolver: Resolver, localSidStart: int)

  /** The `ImportedSymbolContext` constructor. */
  function NewContext(mode: Mode, sys: SymbolTable, imports: seq<SymbolTable>): (r: Result<Context>)
    ensures r.Ok? <==> AllShared(imports)
    ensures r.Err? ==> r.error == ImportNotShared
    ensures r.Ok? ==> r.value.parents == NonSystem(imports)
    ensures r.Ok? ==> ModeOf(r.value.resolver) == mode
    ensures r.Ok? ==> r.value.localSidStart == ION_1_0_MAX_ID + 1 + Total(mode, NonSystem(imports))
  {
    var (parents, resolver, start) :- AddImports(CreateBuilder(mode, sys), imports, ION_1_0_MAX_ID + 1);
    Ok(Context(parents, resolver, start))
  }

  /** `ONLY_SYSTEM_IMPORTS`: no parents, and locals start right after the
      system symbols. */
  lemma OnlySystemImports(sys: SymbolTable)
    ensures NewContext(FlatMode, sys, []) == Ok(Context([], CreateBuilder(FlatMode, sys), ION_1_0_MAX_ID + 1))
  {
  }

  /** Every ID a resolver gives lies in 1 .. hi - 1. */
  predicate Below(r: Resolver, hi: int) {
    match r
    case Flat(m) => forall k | k in m :: 1 <= m[k] < hi
    case Delegate(ps) =>
      forall i | 0 <= i < |ps| :: 1 <= ps[i].startId && ps[i].startId + |ps[i].table.declared| <= hi
  }

  lemma BelowResolves(r: Resolver, hi: int, text: Text)
    requires Below(r, hi)
    ensures Resolve(r, text).Some? ==> 1 <= Resolve(r, text).value < hi
  {
  }

  /** A table whose declared names fit within its max id, as a shared
      table's do; DELEGATE relies on it. */
  predicate Fits(t: SymbolTable) {
    |t.declared| <= t.maxId
  }

  /** Adding the imports keeps every resolved ID below the next free one. */
  lemma {:induction false} AddImportsBelow(b: Resolver, imports: seq<SymbolTable>, maxSid: int)
    requires 1 <= maxSid && Below(b, maxSid)
    requires forall i | 0 <= i < |imports| :: Fits(imports[i])
    requires AddImports(b, imports, maxSid).Ok?
    ensures Below(AddImports(b, imports, maxSid).value.1, AddImports(b, imports, maxSid).value.2)
    decreases |imports|
  {
    if |imports| > 0 {
      if imports[0].isSystem {
        AddImportsBelow(b, imports[1..], maxSid);
      } else {
        var (b', next) := AddSymbolTable(b, imports[0], maxSid);
        AddSymbolTableBelow(b, imports[0], maxSid);
        AddImportsBelow(b', imports[1..], next);
      }
    }
  }

  lemma AddSymbolTableBelow(b: Resolver, t: SymbolTable, start: int)
    requires 1 <= start && Below(b, start) && Fits(t)
    ensures Below(AddSymbolTable(b, t, start).0, AddSymbolTable(b, t, start).1)
  {
    match b
    case Flat(m) =>
      var m' := AddSymbolTable(b, t, start).0.symbols;
      forall k | k in m' ensures 1 <= m'[k] < start + |t.declared| {
        if k !in m {
          assert FirstDecl(t.declared, k).Some?;
        }
      }
    case Delegate(ps) =>
      var ps' := AddSymbolTable(b, t, start).0.positions;
      forall i | 0 <= i < |ps'| ensures 1 <= ps'[i].startId && ps'[i].startId + |ps'[i].table.declared| <= start + t.maxId {
        if i < |ps| {
          assert ps'[i] == ps[i];
        }
      }
  }

  /** Imported IDs all lie below `localSidStart`, so a local ID never
      collides with an imported one. */
  lemma ImportedBelowLocals(mode: Mode, sys: SymbolTable, imports: seq<SymbolTable>, text: Text)
    requires SystemShaped(sys)
    requires forall i | 0 <= i < |imports| :: Fits(imports[i])
    requires NewContext(mode, sys, imports).Ok?
    ensures var c := NewContext(mode, sys, imports).value;
            Resolve(c.resolver, text).Some? ==> 1 <= Resolve(c.resolver, text).value < c.localSidStart
  {
    CreateBuilderBelow(mode, sys);
    AddImportsBelow(CreateBuilder(mode, sys), imports, ION_1_0_MAX_ID + 1);
    var c := NewContext(mode, sys, imports).value;
    BelowResolves(c.resolver, c.localSidStart, text);
  }

  /** The system symbols take IDs 1 to `ION_1_0_MAX_ID`. */
  lemma CreateBuilderBelow(mode: Mode, sys: SymbolTable)
    requires SystemShaped(sys)
    ensures Below(CreateBuilder(mode, sys), ION_1_0_MAX_ID + 1)
  {
    if mode == FlatMode {
      var m := CreateBuilder(mode, sys).symbols;
      forall k | k in m ensures 1 <= m[k] < ION_1_0_MAX_ID + 1 {
        assert Some(k) in sys.declared;
      }
    }
  }

  /** A FLAT map and a DELEGATE list that resolve every text alike. */
  ghost predicate Agree(m: map<Text, int>, ps: seq<Position>) {
    forall text :: Resolve(Flat(m), text) == Resolve(Delegate(ps), text)
  }

  /** A table whose max id counts exactly its declared names. */
  predicate Exact(t: SymbolTable) {
    |t.declared| == t.maxId
  }

  lemma {:induction false} AddImportsAgree(m: map<Text, int>, ps: seq<Position>, imports: seq<SymbolTable>, maxSid: int)
    requires Agree(m, ps)
    requires forall i | 0 <= i < |imports| :: Exact(imports[i])
    requires AddImports(Flat(m), imports, maxSid).Ok?
    ensures AddImports(Delegate(ps), imports, maxSid).Ok?
    ensures var f := AddImports(Flat(m), imports, maxSid).value;
            var d := AddImports(Delegate(ps), imports, maxSid).value;
            f.1.Flat? && d.1.Delegate? && Agree(f.1.symbols, d.1.positions) && f.2 == d.2
    decreases |imports|
  {
    if |imports| > 0 {
      if imports[0].isSystem {
        AddImportsAgree(m, ps, imports[1..], maxSid);
      } else {
        var t := imports[0];
        var (f, nf) := AddSymbolTable(Flat(m), t, maxSid);
        var (d, nd) := AddSymbolTable(Delegate(ps), t, maxSid);
        assert nf == nd;
        forall text ensures Resolve(f, text) == Resolve(d, text) {
          AddSymbolTableResolves(Flat(m), t, maxSid, text);
          AddSymbolTableResolves(Delegate(ps), t, maxSid, text);
        }
        AddImportsAgree(f.symbols, d.positions, imports[1..], nf);
      }
    }
  }

  /** When the system names are distinct and every import's max id counts
      its declared names, the FLAT and DELEGATE contexts resolve every text
      to the same ID and start locals at the same ID. */
  lemma FlatAgreesWithDelegate(sys: SymbolTable, imports: seq<SymbolTable>, text: Text)
    requires Distinct(sys.declared)
    requires forall i | 0 <= i < |imports| :: Exact(imports[i])
    requires AllShared(imports)
    ensures NewContext(FlatMode, sys, imports).Ok? && NewContext(DelegateMode, sys, imports).Ok?
    ensures Resolve(NewContext(FlatMode, sys, imports).value.resolver, text) ==
            Resolve(NewContext(DelegateMode, sys, imports).value.resolver, text)
    ensures NewContext(FlatMode, sys, imports).value.localSidStart ==
            NewContext(DelegateMode, sys, imports).value.localSidStart
  {
    var f := CreateBuilder(FlatMode, sys);
    var d := CreateBuilder(DelegateMode, sys);
    CreateBuildersAgree(sys);
    AddImportsAgree(f.symbols, d.positions, imports, ION_1_0_MAX_ID + 1);
    var rf := AddImports(f, imports, ION_1_0_MAX_ID + 1).value;
    var rd := AddImports(d, imports, ION_1_0_MAX_ID + 1).value;
    assert NewContext(FlatMode, sys, imports) == Ok(Context(rf.0, rf.1, rf.2));
    assert NewContext(DelegateMode, sys, imports) == Ok(Context(rd.0, rd.1, rd.2));
    assert Resolve(Flat(rf.1.symbols), text) == Resolve(Delegate(rd.1.positions), text);
  }

  lemma CreateBuildersAgree(sys: SymbolTable)
    requires Distinct(sys.declared)
    ensures Agree(CreateBuilder(FlatMode, sys).symbols, CreateBuilder(DelegateMode, sys).positions)
  {
    forall text ensures Resolve(CreateBuilder(FlatMode, sys), text) == Resolve(CreateBuilder(DelegateMode, sys), text) {
      CreateBuilderResolves(FlatMode, sys, text);
      CreateBuilderResolves(DelegateMode, sys, text);
    }
  }

  /** The writer's symbol state: the import context in use and the one it
      was built with, the local symbols by text, whether locals are locked,
      whether a local symbol table must be written, and the depth and
      struct flag of the user writer underneath. */
  datatype Writer = Writer(
    imports: Context,
    bootstrap: Context,
    locals: map<Text, int>,
    localsLocked: bool,
    writeLst: bool,
    depth: int,
    inStruct: bool)

  /** `intern(String)`.  Null gives null.  An imported text gives its
      imported token (and one above the system symbols calls for a local
      symbol table); a local one gives its local token; a new one gets the
      next local ID, unless locals are locked. */
  function InternText(w: Writer, text: Option<Text>): (r: Result<(Option<Token>, Writer)>)
    ensures r.Err? <==>
              text.Some? && Resolve(w.imports.resolver, text.value).None? &&
              text.value !in w.locals && w.localsLocked
    ensures r.Err? ==> r.error == LocalsLocked
    ensures text.None? ==> r == Ok((None, w))
    ensures r.Ok? && text.Some? ==> r.value.0.Some? && r.value.0.value.text == text
    ensures r.Ok? ==> r.value.1.imports == w.imports && r.value.1.bootstrap == w.bootstrap
    ensures r.Ok? ==> r.value.1.localsLocked == w.localsLocked
    ensures r.Ok? ==> r.value.1.depth == w.depth && r.value.1.inStruct == w.inStruct
    ensures r.Ok? && text.Some? && Resolve(w.imports.resolver, text.value).Some? ==>
              r.value.0.value.sid == Resolve(w.imports.resolver, text.value).value &&
              r.value.1 == w.(writeLst := w.writeLst || r.value.0.value.sid > ION_1_0_MAX_ID)
    ensures r.Ok? && text.Some? && Resolve(w.imports.resolver, text.value).None? && text.value in w.locals ==>
              r.value.0.value.sid == w.locals[text.value] && r.value.1 == w
    ensures r.Ok? && text.Some? && Resolve(w.imports.resolver, text.value).None? && text.value !in w.locals ==>
              r.value.0.value.sid == w.imports.localSidStart + |w.locals| &&
              r.value.1.locals == w.locals[text.value := r.value.0.value.sid] &&
              r.value.1.writeLst
  {
    match text
    case None => Ok((None, w))
    case Some(s) =>
      match Resolve(w.imports.resolver, s)
      case Some(sid) =>
        Ok((Some(Token(text, sid)), w.(writeLst := w.writeLst || sid > ION_1_0_MAX_ID)))
      case None =>
        if s in w.locals then Ok((Some(Token(text, w.locals[s])), w))
        else if w.localsLocked then Err(LocalsLocked)
        else
          var sid := w.imports.localSidStart + |w.locals|;
          Ok((Some(Token(text, sid)), w.(locals := w.locals[s := sid], writeLst := true)))
  }

  /** Interning is idempotent: the same text again gives the same token
      and leaves the writer as the first call left it. */
  lemma InternIdempotent(w: Writer, text: Option<Text>)
    requires InternText(w, text).Ok?
    ensures InternText(InternText(w, text).value.1, text) == InternText(w, text)
  {
  }

  /** The local IDs are dense: the locals hold distinct IDs, all from
      `localSidStart` on and below `localSidStart` plus their number. */
  predicate Dense(w: Writer) {
    && (forall t | t in w.locals :: w.imports.localSidStart <= w.locals[t] < w.imports.localSidStart + |w.locals|)
    && (forall a, b | a in w.locals && b in w.locals && a != b :: w.locals[a] != w.locals[b])
  }

  /** Interning keeps the local IDs dense: a new local takes the next ID. */
  lemma InternDense(w: Writer, text: Option<Text>)
    requires Dense(w) && InternText(w, text).Ok?
    ensures Dense(InternText(w, text).value.1)
  {
    var w' := InternText(w, text).value.1;
    if text.Some? && Resolve(w.imports.resolver, text.value).None? && text.value !in w.locals {
      assert w'.locals.Keys == w.locals.Keys + {text.value};
      assert |w'.locals| == |w.locals| + 1;
    }
  }

  /** Two different texts interned one after the other get different IDs,
      unless both are imported: a local ID is never an imported one, and
      two locals never share an ID. */
  lemma InternSeparates(w: Writer, a: Text, b: Text)
    requires Dense(w) && a != b
    requires Below(w.imports.resolver, w.imports.localSidStart)
    requires InternText(w, Some(a)).Ok?
    requires InternText(InternText(w, Some(a)).value.1, Some(b)).Ok?
    requires Resolve(w.imports.resolver, a).None? || Resolve(w.imports.resolver, b).None?
    ensures InternText(w, Some(a)).value.0.value.sid !=
            InternText(InternText(w, Some(a)).value.1, Some(b)).value.0.value.sid
  {
    var w1 := InternText(w, Some(a)).value.1;
    InternDense(w, Some(a));
    BelowResolves(w.imports.resolver, w.imports.localSidStart, a);
    BelowResolves(w.imports.resolver, w.imports.localSidStart, b);
  }

  /** `intern(SymbolToken)`.  Null gives null; a token with text is
      interned by its text; a token without text is returned unchanged
      unless its ID is beyond the max id of the writer's current symbol
      table (`maxId`), which is an unknown symbol. */
  function InternToken(w: Writer, token: Option<Token>, maxId: int): (r: Result<(Option<Token>, Writer)>)
    ensures token.None? ==> r == Ok((None, w))
    ensures token.Some? && token.value.text.Some? ==> r == InternText(w, token.value.text)
    ensures token.Some? && token.value.text.None? ==>
              r == if token.value.sid > maxId then Err(UnknownSymbol(token.value.sid)) else Ok((token, w))
  {
    match token
    case None => Ok((None, w))
    case Some(t) =>
      if t.text.Some? then InternText(w, t.text)
      else if t.sid > maxId then Err(UnknownSymbol(t.sid))
      else Ok((token, w))
  }

  /** A token `intern` has handed out comes back unchanged. */
  lemma InternTokenFixes(w: Writer, text: Text, maxId: int)
    requires InternText(w, Some(text)).Ok?
    ensures var (tok, w') := InternText(w, Some(text)).value;
            InternToken(w', tok, maxId) == Ok((tok, w'))
  {
    InternIdempotent(w, Some(text));
  }

  /** `setFieldName`: outside a struct an illegal state, a null name a null
      pointer (in that order); otherwise the name is interned and its token
      becomes the user writer's field name. */
  function SetFieldName(w: Writer, name: Option<Text>): (r: Result<(Token, Writer)>)
    ensures !w.inStruct ==> r == Err(IllegalState)
    ensures w.inStruct && name.None? ==> r == Err(NullPointer)
    ensures w.inStruct && name.Some? ==>
              (r.Ok? <==> InternText(w, name).Ok?) &&
              (r.Ok? ==> Some(r.value.0) == InternText(w, name).value.0 && r.value.1 == InternText(w, name).value.1) &&
              (r.Err? ==> r.error == LocalsLocked)
    ensures r.Ok? ==> r.value.0.text == name
  {
    if !w.inStruct then Err(IllegalState)
    else if name.None? then Err(NullPointer)
    else
      var (tok, w') :- InternText(w, name);
      Ok((tok.value, w'))
  }

  /** `flush`: only at top level; writing out the symbol table and the
      data is output and leaves the symbol state as it is. */
  function Flush(w: Writer): (r: Result<Writer>)
    ensures r.Ok? <==> w.depth == 0
    ensures r.Err? ==> r.error == IllegalState
    ensures r.Ok? ==> r.value == w
  {
    if w.depth != 0 then Err(IllegalState) else Ok(w)
  }

  /** `finish`: only at top level; after flushing, the locals are dropped
      and unlocked and the import context goes back to the one the writer
      was built with. */
  function Finish(w: Writer): (r: Result<Writer>)
    ensures r.Ok? <==> w.depth == 0
    ensures r.Err? ==> r.error == IllegalState
    ensures r.Ok? ==> r.value.locals == map[] && !r.value.localsLocked && r.value.imports == w.bootstrap
    ensures r.Ok? ==> r.value.bootstrap == w.bootstrap && r.value.depth == w.depth && r.value.inStruct == w.inStruct
    ensures r.Ok? ==> r.value.writeLst == w.writeLst
  {
    var f :- Flush(w);
    Ok(f.(locals := map[], localsLocked := false, imports := f.bootstrap))
  }

  /** After `finish` the local IDs start over: the first text the original
      imports do not know is given `localSidStart` of those imports. */
  lemma FinishRestartsLocals(w: Writer, text: Text)
    requires Finish(w).Ok?
    requires Resolve(w.bootstrap.resolver, text).None?
    ensures Dense(Finish(w).value)
    ensures InternText(Finish(w).value, Some(text)).Ok?
    ensures InternText(Finish(w).value, Some(text)).value.0 == Some(Token(Some(text), w.bootstrap.localSidStart))
  {
  }
}
