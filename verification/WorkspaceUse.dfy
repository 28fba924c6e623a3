/** What the workspace invariant is good for: the services' assumptions hold, and a warmed database answers for every file. */
module WorkspaceUse {
  import opened Ast
  import opened Options
  import opened Sequences
  import opened Serial
  import opened Worlds
  import opened Units
  import opened Workspaces
  import opened CacheWarm
  import opened Callers
  import opened Callees
  import WarmPipeline

  // ---- Services -------------------------------------------------------------

  /** The workspace as the relationship services see it. */
  function ForServices(w: World, m: Memory): LoadedWorkspace {
    LoadedWorkspace(seq(|m.units|, i requires 0 <= i < |m.units| => m.units[i].unit), m.symbols, w.normal)
  }

  lemma {:induction false} KeysDiffer(w: World, units: seq<LoadedUnit>, i: nat, j: nat)
    requires KeysDistinct(w, units) && i < j < |units|
    ensures KeyOf(w, units[i]) != KeyOf(w, units[j])
  {
    IndexFinds(w, units, i);
    IndexFinds(w, units, j);
  }

  lemma SymbolsAreDeclared(w: World, m: Memory, s: WorkspaceSymbol)
    requires m.symbols == AllSymbols(m.units)
    ensures s in m.symbols <==> Declares(ForServices(w, m), s)
  {
    var lists := SymbolLists(m.units);
    var ws := ForServices(w, m);
    ConcatExact(lists, s);
    if s in m.symbols {
      var i :| 0 <= i < |lists| && s in lists[i];
      var k :| 0 <= k < |lists[i]| && lists[i][k] == s;
      assert s == Lift(ws.units[i], k);
    }
    if Declares(ws, s) {
      var i, k :| 0 <= i < |ws.units| && 0 <= k < |ws.units[i].symbols| && s == Lift(ws.units[i], k);
      assert lists[i][k] == s;
    }
  }

  /** A workspace reached by any calls of get_translation_unit is one that the relationship services may be asked about. */
  lemma MemoryServesQueries(w: World, m: Memory)
    requires ValidMemory(w, m)
    ensures Loaded(ForServices(w, m))
  {
    var ws := ForServices(w, m);
    forall i | 0 <= i < |ws.units| ensures UnitOk(ws.units[i]) {
      SoundAt(w, m.units, i);
      AnalysedIsOk(ws.units[i]);
    }
    forall i, j | 0 <= i < j < |ws.units| ensures ws.normal(ws.units[i].path) != ws.normal(ws.units[j].path) {
      KeysDiffer(w, m.units, i, j);
    }
    forall s ensures s in ws.symbols <==> Declares(ws, s) {
      SymbolsAreDeclared(w, m, s);
    }
  }

  /** From opening on, whatever is asked for and however the files change, the services' assumptions hold. */
  lemma {:induction false} EveryRunServesQueries(w: World, db: Option<Database>, calls: seq<Call>)
    requires Lawful(w) && (db.Some? ==> DatabaseOk(w, db.value))
    ensures ValidMemory(w, FetchAll(w, Opened(db), calls)) && Loaded(ForServices(w, FetchAll(w, Opened(db), calls)))
  {
    OpenedIsValid(w, db);
    EveryRunKeepsValid(w, Opened(db), calls);
    MemoryServesQueries(w, FetchAll(w, Opened(db), calls));
  }

  // ---- Loading inside a query -----------------------------------------------

  lemma {:induction false} NoKeyNotFound(ws: LoadedWorkspace, path: Text, k: nat)
    requires forall i :: k <= i < |ws.units| ==> ws.normal(ws.units[i].path) != ws.normal(path)
    ensures FindUnitFrom(ws, path, k) == None
    decreases |ws.units| - k
  {
    if k < |ws.units| {
      NoKeyNotFound(ws, path, k + 1);
    }
  }

  lemma {:induction false} SameKeySameUnit(ws: LoadedWorkspace, p: Text, q: Text, k: nat)
    requires ws.normal(p) == ws.normal(q)
    ensures FindUnitFrom(ws, p, k) == FindUnitFrom(ws, q, k)
    decreases |ws.units| - k
  {
    if k < |ws.units| {
      SameKeySameUnit(ws, p, q, k + 1);
    }
  }

  /** The services find a file's unit exactly when the workspace has it in memory. */
  lemma FoundIsInMemory(w: World, m: Memory, path: Text)
    requires ValidMemory(w, m)
    ensures FindUnit(ForServices(w, m), path) == match UnitAt(w, m, path) case None => None case Some(u) => Some(u.unit)
  {
    var ws := ForServices(w, m);
    MemoryServesQueries(w, m);
    if w.normal(path) in m.index {
      HitInRange(w, m, path);
      IndexHoldsOnly(w, m.units, w.normal(path));
      var i := m.index[w.normal(path)];
      UnitFound(ws, i);
      SameKeySameUnit(ws, path, ws.units[i].path, 0);
    } else {
      forall i | 0 <= i < |ws.units| ensures ws.normal(ws.units[i].path) != ws.normal(path) {
        IndexFinds(w, m.units, i);
      }
      NoKeyNotFound(ws, path, 0);
    }
  }

  /** The file of every listed symbol is in memory, so asking for it in a query loads nothing. */
  lemma ListedFilesAreInMemory(w: World, d: Disk, m: Memory, s: WorkspaceSymbol)
    requires ValidMemory(w, m) && s in m.symbols && TreesGood(w) && SourcesFit(w)
    ensures UnitAt(w, m, s.sourceFile).Some? && Fetch(w, d, m, s.sourceFile) == m.(hits := m.hits + 1)
  {
    var ws := ForServices(w, m);
    SymbolsAreDeclared(w, m, s);
    var i, k :| 0 <= i < |ws.units| && 0 <= k < |ws.units[i].symbols| && s == Lift(ws.units[i], k);
    IndexFinds(w, m.units, i);
  }

  /** A file in memory can be asked for without changing any answer of the services. */
  lemma HitKeepsAnswers(w: World, d: Disk, m: Memory, path: Text)
    requires TreesGood(w) && SourcesFit(w) && UnitAt(w, m, path).Some?
    ensures ForServices(w, Fetch(w, d, m, path)) == ForServices(w, m)
  {
  }

  /** What is in memory, as the services see it. */
  lemma SeenFromMemory(w: World, m: Memory, seen: LoadedWorkspace)
    requires ValidMemory(w, m) && seen.symbols == m.symbols && seen.normal == w.normal
    requires |seen.units| == |m.units| && forall i :: 0 <= i < |m.units| ==> seen.units[i] == m.units[i].unit
    ensures seen == ForServices(w, m) && Loaded(seen)
  {
    assert seen.units == ForServices(w, m).units;
    MemoryServesQueries(w, m);
  }

  method CalleesInMemory(w: World, units: seq<LoadedUnit>, symbols: seq<WorkspaceSymbol>, caller: WorkspaceSymbol, ghost m: Memory)
    returns (results: seq<CallSite>)
    requires ValidMemory(w, m) && units == m.units && symbols == m.symbols
    ensures Loaded(ForServices(w, m)) && results == CalleesOf(ForServices(w, m), caller)
  {
    var seen := LoadedWorkspace(seq(|units|, i requires 0 <= i < |units| => units[i].unit), symbols, w.normal);
    SeenFromMemory(w, m, seen);
    results := Callees.Find(seen, caller);
  }

  /** Callees::find on a workspace that loads lazily: the caller's file is loaded first, if need be, and the answer is that
  of the workspace then in memory, in which that file is found. */
  method FindCallees(workspace: Workspace, d: Disk, caller: WorkspaceSymbol) returns (results: seq<CallSite>)
    requires workspace.Valid()
    modifies workspace
    ensures workspace.Valid() && workspace.View() == Fetch(workspace.w, d, old(workspace.View()), caller.sourceFile)
    ensures AnsweredFrom(workspace.w, workspace.View(), caller, results)
  {
    var _ := workspace.GetTranslationUnit(d, caller.sourceFile);
    results := CalleesInMemory(workspace.w, workspace.translationUnits, workspace.symbols, caller, workspace.View());
    FoundIsInMemory(workspace.w, workspace.View(), caller.sourceFile);
  }

  /** The callees as memory `m` gives them, where the services find the caller's unit exactly when memory has it. */
  ghost predicate AnsweredFrom(w: World, m: Memory, caller: WorkspaceSymbol, results: seq<CallSite>) {
    && Loaded(ForServices(w, m)) && results == CalleesOf(ForServices(w, m), caller)
    && FindUnit(ForServices(w, m), caller.sourceFile)
       == match UnitAt(w, m, caller.sourceFile) case None => None case Some(u) => Some(u.unit)
  }

  // ---- Warming --------------------------------------------------------------

  const FILE_QUEUE_CAPACITY := 256
  const WRITE_QUEUE_CAPACITY := 32
  const BATCH := 64

  /** warm_cache on the files of `d`, scanned in the order of `paths`; `ready` tells which workers opened the database, as the writer did. */
  function WarmConfig(w: World, d: Disk, paths: seq<Text>, ready: seq<bool>, rows: Database): WarmPipeline.Config
    requires TreesGood(w) && SourcesFit(w)
  {
    WarmPipeline.Config(paths, ready, true, FILE_QUEUE_CAPACITY, WRITE_QUEUE_CAPACITY, BATCH,
                        (p, row) => Decide(w, d, p, row), rows)
  }

  lemma WarmConfigIsSound(w: World, d: Disk, paths: seq<Text>, ready: seq<bool>, rows: Database)
    requires TreesGood(w) && SourcesFit(w) && Distinct(paths) && WarmPipeline.SomeReady(ready)
    ensures WarmPipeline.Sound(WarmConfig(w, d, paths, ready, rows))
    ensures forall p, row :: WarmPipeline.Outcomes(WarmConfig(w, d, paths, ready, rows).verdict(p, row).counts) == 1
  {
    var c := WarmConfig(w, d, paths, ready, rows);
    forall p, row
      ensures c.verdict(p, row).request.Some? ==> c.verdict(p, row).request.value.path == p
      ensures WarmPipeline.Outcomes(c.verdict(p, row).counts) == 1
    {
      DecideFacts(w, d, p, row);
    }
  }

  /** The row that warming leaves for one file. */
  function WarmedRow(w: World, d: Disk, rows: Database, path: Text): Option<Row>
    requires TreesGood(w) && SourcesFit(w)
  {
    match Decide(w, d, path, RowAt(rows, path)).request
    case None => RowAt(rows, path)
    case Some(r) => RowAt(Applied(rows, r), path)
  }

  /** A row carries the present stamp of its file. */
  predicate Fresh(d: Disk, path: Text, row: Row) {
    row.formatVersion == FORMAT_VERSION && d.stat(path) == Some(Stat(row.sourceSize, row.sourceMtime))
  }

  /** The four ways a file's row comes out of warming. */
  lemma WarmedRowCases(w: World, d: Disk, rows: Database, path: Text)
    requires TreesGood(w) && SourcesFit(w)
    ensures WarmedRow(w, d, rows, path)
         == var was := RowAt(rows, path);
            if was.Some? && Usable(w, d, path, was.value) then Some(Restamped(d, path, was.value))
            else if Content(w, d, path).None? then was
            else Renewed(w, d, path)
  {
  }

  function Renewed(w: World, d: Disk, path: Text): Option<Row>
    requires TreesGood(w) && SourcesFit(w) && Content(w, d, path).Some?
  {
    ParsedSerializable(w, path, Content(w, d, path).value);
    EntryFor(w, ParseFile(w, d, path), d.stat(path))
  }

  /** Warming keeps rows faithful, and leaves a fresh one for every file that can be stat'ed and opened. */
  lemma WarmedRowIsFresh(w: World, d: Disk, rows: Database, path: Text)
    requires Lawful(w) && DatabaseOk(w, rows)
    ensures WarmedRow(w, d, rows, path).Some? ==> RowOk(w, path, WarmedRow(w, d, rows, path).value)
    ensures Content(w, d, path).Some? ==> WarmedRow(w, d, rows, path).Some? && Fresh(d, path, WarmedRow(w, d, rows, path).value)
  {
    WarmedRowCases(w, d, rows, path);
    var was := RowAt(rows, path);
    if was.Some? && Usable(w, d, path, was.value) {
      UsableIsCurrent(w, d, path, was.value);
    } else if Content(w, d, path).Some? {
      EntryIsOk(w, path, d.stat(path).value);
    }
  }

  /** A database whose rows are those that warming leaves, and no others. */
  ghost predicate IsWarm(w: World, d: Disk, rows: Database, paths: seq<Text>, db: Database)
    requires TreesGood(w) && SourcesFit(w)
  {
    forall p :: RowAt(db, p) == if p in paths then WarmedRow(w, d, rows, p) else None
  }

  lemma VerdictsAgree(w: World, d: Disk, paths: seq<Text>, ready: seq<bool>, rows: Database, p: Text)
    requires TreesGood(w) && SourcesFit(w)
    ensures WarmPipeline.NewRow(WarmConfig(w, d, paths, ready, rows), p) == WarmedRow(w, d, rows, p)
  {
  }

  /** Every finished run of warm_cache leaves the warmed database, with every file counted once. */
  lemma {:induction false} WarmingWarms(w: World, d: Disk, paths: seq<Text>, ready: seq<bool>, rows: Database, run: seq<WarmPipeline.Step>)
    requires Lawful(w) && Distinct(paths) && WarmPipeline.SomeReady(ready)
    requires var c := WarmConfig(w, d, paths, ready, rows);
      WarmPipeline.Possible(c, WarmPipeline.Start(c), run) && WarmPipeline.Final(c, WarmPipeline.Start(c), run).finished
    ensures var c := WarmConfig(w, d, paths, ready, rows);
      && IsWarm(w, d, rows, paths, WarmPipeline.Final(c, WarmPipeline.Start(c), run).db)
      && WarmPipeline.Outcomes(WarmPipeline.Final(c, WarmPipeline.Start(c), run).merged) == |paths|
  {
    var c := WarmConfig(w, d, paths, ready, rows);
    WarmConfigIsSound(w, d, paths, ready, rows);
    WarmPipeline.FinishedIsWarmed(c, run);
    WarmPipeline.EveryFileCountedOnce(c, run);
    forall p
      ensures RowAt(WarmPipeline.Final(c, WarmPipeline.Start(c), run).db, p) == if p in paths then WarmedRow(w, d, rows, p) else None
    {
      VerdictsAgree(w, d, paths, ready, rows, p);
    }
  }

  /** The scanned files, and those of them whose row is kept, that can be read, that exist, that have a current row. */
  datatype FileSets = FileSets(all: set<Text>, kept: set<Text>, readable: set<Text>, existing: set<Text>, current: set<Text>)

  ghost function Scanned(paths: seq<Text>): set<Text> {
    set p | p in paths
  }

  ghost function FileSetsOf(w: World, d: Disk, paths: seq<Text>, rows: Database): FileSets {
    FileSets(Scanned(paths), set p | p in paths && Trusted(w, d, p, RowAt(rows, p)), set p | p in paths && Readable(d, p),
           set p | p in paths && d.stat(p).Some?, set p | p in paths && Current(RowAt(rows, p)))
  }

  /** One file's counters, from the sets that it is in. */
  ghost predicate CountedBy(k: Counts, p: Text, sets: FileSets) {
    && k.valid == One(p in sets.kept)
    && k.updated == k.parsed == One(p in sets.readable - sets.kept)
    && k.failed == One(p in sets.all - sets.readable - sets.kept)
    && k.missing == One(p in sets.existing - sets.current)
    && k.stale == One(p in sets.existing * sets.current - sets.kept)
  }

  lemma CountedBySets(w: World, d: Disk, paths: seq<Text>, rows: Database, p: Text)
    requires TreesGood(w) && SourcesFit(w) && p in paths
    ensures CountedBy(Decide(w, d, p, RowAt(rows, p)).counts, p, FileSetsOf(w, d, paths, rows))
  {
    CountsExact(w, d, p, RowAt(rows, p));
  }

  /** A run of warm_cache that has come to its end. */
  ghost predicate Finishes(c: WarmPipeline.Config, run: seq<WarmPipeline.Step>) {
    WarmPipeline.Possible(c, WarmPipeline.Start(c), run) && WarmPipeline.Final(c, WarmPipeline.Start(c), run).finished
  }

  function Merged(c: WarmPipeline.Config, run: seq<WarmPipeline.Step>): Counts
    requires Finishes(c, run)
  {
    WarmPipeline.Final(c, WarmPipeline.Start(c), run).merged
  }

  lemma TotalIsSize(c: WarmPipeline.Config, run: seq<WarmPipeline.Step>, f: Counts -> nat, hits: set<Text>)
    requires WarmPipeline.Sound(c) && Finishes(c, run) && WarmPipeline.Additive(f)
    requires hits <= Scanned(c.paths) && forall p :: p in c.paths ==> f(WarmPipeline.VerdictOn(c, p).counts) == One(p in hits)
    ensures f(Merged(c, run)) == |hits|
  {
    WarmPipeline.FinishedCounts(c, f, run);
    SumIsSize(WarmPipeline.CountOn(c, f), c.paths, hits);
  }

  lemma TotalsAreSizes(c: WarmPipeline.Config, run: seq<WarmPipeline.Step>, sets: FileSets)
    requires WarmPipeline.Sound(c) && Finishes(c, run) && sets.all == Scanned(c.paths)
    requires sets.kept <= sets.all && sets.readable <= sets.all && sets.existing <= sets.all
    requires forall p :: p in c.paths ==> CountedBy(WarmPipeline.VerdictOn(c, p).counts, p, sets)
    ensures var k := Merged(c, run);
      && k.valid == |sets.kept|
      && k.updated == k.parsed == |sets.readable - sets.kept|
      && k.failed == |sets.all - sets.readable - sets.kept|
      && k.missing == |sets.existing - sets.current|
      && k.stale == |sets.existing * sets.current - sets.kept|
  {
    TotalIsSize(c, run, (k: Counts) => k.valid, sets.kept);
    TotalIsSize(c, run, (k: Counts) => k.updated, sets.readable - sets.kept);
    TotalIsSize(c, run, (k: Counts) => k.parsed, sets.readable - sets.kept);
    TotalIsSize(c, run, (k: Counts) => k.failed, sets.all - sets.readable - sets.kept);
    TotalIsSize(c, run, (k: Counts) => k.missing, sets.existing - sets.current);
    TotalIsSize(c, run, (k: Counts) => k.stale, sets.existing * sets.current - sets.kept);
  }

  /** The totals of a finished run: each counter is the number of scanned files whose row and file are as it says. */
  lemma WarmingCounts(w: World, d: Disk, paths: seq<Text>, ready: seq<bool>, rows: Database, run: seq<WarmPipeline.Step>)
    requires TreesGood(w) && SourcesFit(w) && Distinct(paths) && WarmPipeline.SomeReady(ready)
    requires Finishes(WarmConfig(w, d, paths, ready, rows), run)
    ensures var k, sets := Merged(WarmConfig(w, d, paths, ready, rows), run), FileSetsOf(w, d, paths, rows);
      && k.valid == |sets.kept|
      && k.updated == k.parsed == |sets.readable - sets.kept|
      && k.failed == |sets.all - sets.readable - sets.kept|
      && k.missing == |sets.existing - sets.current|
      && k.stale == |sets.existing * sets.current - sets.kept|
  {
    var c := WarmConfig(w, d, paths, ready, rows);
    WarmConfigIsSound(w, d, paths, ready, rows);
    forall p | p in c.paths
      ensures CountedBy(WarmPipeline.VerdictOn(c, p).counts, p, FileSetsOf(w, d, paths, rows))
    {
      CountedBySets(w, d, paths, rows, p);
    }
    TotalsAreSizes(c, run, FileSetsOf(w, d, paths, rows));
  }

  lemma WarmedIsFaithful(w: World, d: Disk, rows: Database, paths: seq<Text>, db: Database)
    requires Lawful(w) && DatabaseOk(w, rows) && IsWarm(w, d, rows, paths, db)
    ensures DatabaseOk(w, db)
  {
    forall p | p in db ensures RowOk(w, p, db[p]) {
      assert RowAt(db, p) == if p in paths then WarmedRow(w, d, rows, p) else None;
      WarmedRowIsFresh(w, d, rows, p);
    }
  }

  lemma FreshIsUsable(w: World, d: Disk, path: Text, row: Row)
    requires Fresh(d, path, row)
    ensures Usable(w, d, path, row) && Restamped(d, path, row) == row
  {
  }

  /** A warmed database is faithful, and answers for every scanned file that can be read and is non-empty and within the limits. */
  lemma WarmedDatabaseAnswers(w: World, d: Disk, rows: Database, paths: seq<Text>, db: Database, path: Text)
    requires Lawful(w) && DatabaseOk(w, rows) && IsWarm(w, d, rows, paths, db)
    requires path in paths && Content(w, d, path).Some? && WithinLimits(ParseFile(w, d, path))
    ensures DatabaseOk(w, db) && AskDatabase(w, d, db, path) == Answer(Some(ParseFile(w, d, path)), db)
  {
    WarmedIsFaithful(w, d, rows, paths, db);
    assert RowAt(db, path) == WarmedRow(w, d, rows, path);
    WarmedRowIsFresh(w, d, rows, path);
    FreshRowAnswers(w, d, db, path);
  }

  lemma FreshRowAnswers(w: World, d: Disk, db: Database, path: Text)
    requires Lawful(w) && DatabaseOk(w, db) && path in db && Fresh(d, path, db[path])
    requires Content(w, d, path).Some? && WithinLimits(ParseFile(w, d, path))
    ensures AskDatabase(w, d, db, path) == Answer(Some(ParseFile(w, d, path)), db)
  {
    FreshIsUsable(w, d, path, db[path]);
    UnpackedIsParse(w, d, path, db[path]);
  }
}
