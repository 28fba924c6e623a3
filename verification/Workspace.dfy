/** The workspace's lazy loading through memory, database and parser (src/ast-workspace.cpp).

`Fetch` is get_translation_unit on values. `RowAnswers` says what a database row may answer: only what parsing the
file would give. The class `Workspace` does the same on its fields.
*/
module Workspaces {
  import opened Ast
  import opened Options
  import opened Sequences
  import opened Symbols
  import opened Serial
  import opened Worlds
  import opened Units
  import opened ScopeTrees
  import opened ScopeBuilder
  import opened SymbolScope
  import CacheWarm
  import SerialIo

  /** A translation unit together with the AST it owns. */
  datatype LoadedUnit = LoadedUnit(ast: FileAst, unit: TranslationUnit)

  datatype FileDependencies = FileDependencies(file: Text, includes: seq<Text>)

  /** analyze_from_ast on a valid AST. */
  function Analyse(w: World, ast: FileAst, path: Text): LoadedUnit {
    LoadedUnit(ast, UnitOf(ast.nodes, w.extract(ast), path))
  }

  /** analyze_one: the analysis of one file, none when it does not parse. */
  function AnalysisOf(w: World, d: Disk, path: Text): Option<LoadedUnit> {
    match Content(w, d, path)
    case None => None
    case Some(_) => Some(Analyse(w, ParseFile(w, d, path), path))
  }

  function DependenciesOf(w: World, u: LoadedUnit): FileDependencies {
    FileDependencies(u.unit.path, w.includesOf(u.ast))
  }

  /** Scopes and symbol scopes of one file. */
  method BuildUnit(nodes: seq<Node>, syms: seq<Symbol>, path: Text) returns (u: TranslationUnit)
    requires WellFormed(nodes)
    ensures u == UnitOf(nodes, syms, path)
  {
    var tree := BuildScopeTree(nodes);
    BuiltConsistently(nodes);
    AssociateSymbols(tree, syms);
    u := TranslationUnit(nodes, tree.scopes, tree.nodeScope, tree.symbolScope, syms, path);
  }

  /** Each symbol with its file and the kind of the scope that declares it. */
  method LiftSymbols(u: TranslationUnit) returns (symbols: seq<WorkspaceSymbol>)
    requires UnitOk(u)
    ensures symbols == LiftAll(u)
  {
    symbols := [];
    for i := 0 to |u.symbols|
      invariant symbols == LiftAll(u)[..i]
    {
      assert SymbolMapped(u, i);
      var scopeId := EntryOr(u.symbolScope, i);
      var owning := if scopeId != INVALID_ID then u.scopes[scopeId].kind else UnknownScope;
      symbols := symbols + [WorkspaceSymbol(u.symbols[i], u.path, owning)];
    }
  }

  method AnalyzeFromAst(w: World, ast: FileAst, path: Text) returns (u: LoadedUnit, symbols: seq<WorkspaceSymbol>)
    requires WellFormed(ast.nodes)
    ensures u == Analyse(w, ast, path) && symbols == LiftAll(u.unit)
  {
    var unit := BuildUnit(ast.nodes, w.extract(ast), path);
    AnalysedIsOk(unit);
    symbols := LiftSymbols(unit);
    u := LoadedUnit(ast, unit);
  }

  // ---- The database ---------------------------------------------------------

  /** What the persistent cache answers, and the database afterwards. */
  datatype Answer = Answer(ast: Option<FileAst>, db: Database)

  /** Whether a row may be used on disk `d`: its version, and then its stamp or its hash. */
  predicate Usable(w: World, d: Disk, path: Text, row: Row) {
    && row.formatVersion == FORMAT_VERSION
    && match d.stat(path)
       case None => false
       case Some(stat) =>
         || stat == Stat(row.sourceSize, row.sourceMtime)
         || (CacheWarm.HashFile(w, d, path) == row.sourceHash && CacheWarm.HashFile(w, d, path) != 0)
  }

  /** The row with the stamp of the file, which only differs after a hash match. */
  function Restamped(d: Disk, path: Text, row: Row): Row {
    match d.stat(path)
    case None => row
    case Some(stat) => row.(sourceSize := stat.size, sourceMtime := stat.mtime)
  }

  /** The valid AST that a row holds, if it can be unpacked. */
  function Unpacked(w: World, row: Row): Option<FileAst> {
    if row.blob == [] || RawOf(w, row) == [] then None
    else if Deserialized(RawOf(w, row)).text.None? then None
    else Some(Deserialized(RawOf(w, row)))
  }

  function AskDatabase(w: World, d: Disk, db: Database, path: Text): Answer {
    if path !in db then Answer(None, db)
    else if !Usable(w, d, path, db[path]) then Answer(None, db - {path})
    else
      var db' := db[path := Restamped(d, path, db[path])];
      if db[path].blob == [] then Answer(None, db')
      else if Unpacked(w, db[path]).None? then Answer(None, db' - {path})
      else Answer(Unpacked(w, db[path]), db')
  }

  /** A usable faithful row holds the file's present content, and stays faithful when restamped. */
  lemma UsableIsCurrent(w: World, d: Disk, path: Text, row: Row)
    requires Lawful(w) && RowOk(w, path, row) && Usable(w, d, path, row)
    ensures w.contentAt(path, Stat(row.sourceSize, row.sourceMtime)) == w.contentAt(path, d.stat(path).value)
    ensures RowOk(w, path, Restamped(d, path, row))
  {
    var was, now := w.contentAt(path, Stat(row.sourceSize, row.sourceMtime)), w.contentAt(path, d.stat(path).value);
    if d.stat(path).value != Stat(row.sourceSize, row.sourceMtime) {
      assert w.contentHash(now) == StoredHash(w, was);
    }
    assert Stat(d.stat(path).value.size, d.stat(path).value.mtime) == d.stat(path).value;
  }

  lemma RowReplaced(w: World, db: Database, path: Text, row: Row)
    requires DatabaseOk(w, db) && RowOk(w, path, row)
    ensures DatabaseOk(w, db[path := row])
  {
  }

  lemma RowRemoved(w: World, db: Database, path: Text)
    requires DatabaseOk(w, db)
    ensures DatabaseOk(w, db - {path})
  {
  }

  /** A usable row unpacks to the parse of the file's present content, or to nothing. */
  lemma UnpackedIsParse(w: World, d: Disk, path: Text, row: Row)
    requires Lawful(w) && RowOk(w, path, row) && Usable(w, d, path, row)
    ensures row.blob != []
    ensures var ast := ParsedAst(w, path, w.contentAt(path, d.stat(path).value));
      Unpacked(w, row) == if WithinLimits(ast) then Some(ast) else None
  {
    UsableIsCurrent(w, d, path, row);
    FaithfulRow(w, path, row);
  }

  /** Cache transparency: a database answer is the parse of the file's present content, and rows stay faithful whatever happens. */
  lemma AnswerIsParse(w: World, d: Disk, db: Database, path: Text)
    requires Lawful(w) && DatabaseOk(w, db)
    ensures DatabaseOk(w, AskDatabase(w, d, db, path).db)
    ensures AskDatabase(w, d, db, path).ast.Some? ==>
      d.stat(path).Some? && AskDatabase(w, d, db, path).ast.value == ParsedAst(w, path, w.contentAt(path, d.stat(path).value))
  {
    RowRemoved(w, db, path);
    if path in db && Usable(w, d, path, db[path]) {
      var row := db[path];
      UsableIsCurrent(w, d, path, row);
      UnpackedIsParse(w, d, path, row);
      var db' := db[path := Restamped(d, path, row)];
      RowReplaced(w, db, path, Restamped(d, path, row));
      RowRemoved(w, db', path);
    }
  }

  /** Exactly when the database answers: its row is usable and the file's content is within the limits of the format. */
  lemma AnswersExactly(w: World, d: Disk, db: Database, path: Text)
    requires Lawful(w) && DatabaseOk(w, db)
    ensures AskDatabase(w, d, db, path).ast.Some? <==>
      && path in db && Usable(w, d, path, db[path])
      && WithinLimits(ParsedAst(w, path, w.contentAt(path, d.stat(path).value)))
  {
    if path in db && Usable(w, d, path, db[path]) {
      UnpackedIsParse(w, d, path, db[path]);
    }
  }

  /** The database after a fresh parse has been stored. */
  function Stored(w: World, d: Disk, db: Database, path: Text, ast: FileAst): Database
    requires Serializable(ast)
  {
    match EntryFor(w, ast, d.stat(path))
    case None => db
    case Some(row) => db[path := row]
  }

  lemma StoredIsOk(w: World, d: Disk, db: Database, path: Text)
    requires Lawful(w) && DatabaseOk(w, db) && Content(w, d, path).Some?
    ensures Serializable(ParseFile(w, d, path)) && DatabaseOk(w, Stored(w, d, db, path, ParseFile(w, d, path)))
  {
    EntryIsOk(w, path, d.stat(path).value);
  }

  // ---- Memory ---------------------------------------------------------------

  /** The fields of a workspace that loading changes; `db` is absent when no persistent cache is open. */
  datatype Memory = Memory(
    units: seq<LoadedUnit>,
    symbols: seq<WorkspaceSymbol>,
    deps: seq<FileDependencies>,
    index: map<Text, nat>,
    parsed: nat,
    failed: nat,
    hits: nat,
    misses: nat,
    persistentHits: nat,
    persistentMisses: nat,
    db: Option<Database>)

  /** A freshly opened workspace. */
  function Opened(db: Option<Database>): Memory {
    Memory([], [], [], map[], 0, 0, 0, 0, 0, 0, db)
  }

  /** The new unit becomes the last one, under its key, with its symbols and dependencies. */
  function WithUnit(w: World, m: Memory, path: Text, u: LoadedUnit): Memory {
    m.(units := m.units + [u], symbols := m.symbols + LiftAll(u.unit), deps := m.deps + [DependenciesOf(w, u)],
       index := m.index[w.normal(path) := |m.units|], parsed := m.parsed + 1)
  }

  /** merge_result: a result is loaded, or counted as a failure. */
  function MergeResult(w: World, m: Memory, r: Option<LoadedUnit>): Memory {
    match r
    case None => m.(failed := m.failed + 1)
    case Some(u) => WithUnit(w, m, u.unit.path, u)
  }

  /** The last resort: parse the file, store it and load it. */
  function ParseFresh(w: World, d: Disk, m: Memory, path: Text): Memory
    requires TreesGood(w) && SourcesFit(w)
  {
    match Content(w, d, path)
    case None => m.(failed := m.failed + 1)
    case Some(source) =>
      var ast := ParsedAst(w, path, source);
      ParsedSerializable(w, path, source);
      var db := if m.db.Some? then Some(Stored(w, d, m.db.value, path, ast)) else None;
      WithUnit(w, m.(db := db), path, Analyse(w, ast, path))
  }

  /** The database answered: its AST is analysed and loaded. */
  function ByAnswer(w: World, m: Memory, path: Text, answer: Answer): Memory
    requires answer.ast.Some?
  {
    WithUnit(w, Hit(m, answer.db), path, Analyse(w, answer.ast.value, path))
  }

  function Hit(m: Memory, db: Database): Memory {
    m.(misses := m.misses + 1, persistentHits := m.persistentHits + 1, db := Some(db))
  }

  /** The database did not answer, but may have evicted a row. */
  function WithoutAnswer(m: Memory, db: Database): Memory {
    m.(misses := m.misses + 1, persistentMisses := m.persistentMisses + 1, db := Some(db))
  }

  predicate Answered(w: World, d: Disk, m: Memory, path: Text) {
    m.db.Some? && AskDatabase(w, d, m.db.value, path).ast.Some?
  }

  /** The state from which a missed path is parsed when the database does not help. */
  function BeforeParse(w: World, d: Disk, m: Memory, path: Text): Memory {
    if m.db.None? then m.(misses := m.misses + 1) else WithoutAnswer(m, AskDatabase(w, d, m.db.value, path).db)
  }

  /** get_translation_unit: memory, then database, then parser. */
  function Fetch(w: World, d: Disk, m: Memory, path: Text): Memory
    requires TreesGood(w) && SourcesFit(w)
  {
    if w.normal(path) in m.index then m.(hits := m.hits + 1)
    else if Answered(w, d, m, path) then ByAnswer(w, m, path, AskDatabase(w, d, m.db.value, path))
    else ParseFresh(w, d, BeforeParse(w, d, m, path), path)
  }

  function UnitAt(w: World, m: Memory, path: Text): Option<LoadedUnit> {
    if w.normal(path) in m.index && m.index[w.normal(path)] < |m.units| then Some(m.units[m.index[w.normal(path)]]) else None
  }

  /** The symbols of the units, one unit after the other. */
  function AllSymbols(units: seq<LoadedUnit>): seq<WorkspaceSymbol> {
    Concat(SymbolLists(units))
  }

  function SymbolLists(units: seq<LoadedUnit>): (r: seq<seq<WorkspaceSymbol>>)
    ensures |r| == |units|
  {
    seq(|units|, i requires 0 <= i < |units| => LiftAll(units[i].unit))
  }

  lemma SymbolsSnoc(units: seq<LoadedUnit>, u: LoadedUnit)
    ensures AllSymbols(units + [u]) == AllSymbols(units) + LiftAll(u.unit)
  {
    var lists := SymbolLists(units + [u]);
    ConcatStep(lists, |units|);
    assert lists[..|units| + 1] == lists && lists[..|units|] == SymbolLists(units);
  }

  ghost predicate UnitSound(w: World, u: LoadedUnit) {
    WellFormed(u.ast.nodes) && u == Analyse(w, u.ast, u.unit.path)
  }

  ghost predicate UnitsSound(w: World, units: seq<LoadedUnit>) {
    units == [] || (UnitsSound(w, units[..|units| - 1]) && UnitSound(w, units[|units| - 1]))
  }

  function KeyOf(w: World, u: LoadedUnit): Text {
    w.normal(u.unit.path)
  }

  /** The index that loading `units` one after the other builds. */
  function IndexOf(w: World, units: seq<LoadedUnit>): map<Text, nat> {
    if units == [] then map[] else IndexOf(w, units[..|units| - 1])[KeyOf(w, units[|units| - 1]) := |units| - 1]
  }

  /** No two units have the same key. */
  predicate KeysDistinct(w: World, units: seq<LoadedUnit>) {
    units == [] ||
    (KeysDistinct(w, units[..|units| - 1]) && KeyOf(w, units[|units| - 1]) !in IndexOf(w, units[..|units| - 1]))
  }

  /** The dependencies of the units, in the same order. */
  function DepsOf(w: World, units: seq<LoadedUnit>): seq<FileDependencies> {
    if units == [] then [] else DepsOf(w, units[..|units| - 1]) + [DependenciesOf(w, units[|units| - 1])]
  }

  /** Every unit's dependencies stand at its position: its path, and what its AST includes. */
  lemma {:induction false} DepsInStep(w: World, units: seq<LoadedUnit>, i: nat)
    requires i < |units|
    ensures |DepsOf(w, units)| == |units|
    ensures DepsOf(w, units)[i].file == units[i].unit.path && DepsOf(w, units)[i].includes == w.includesOf(units[i].ast)
  {
    var n := |units| - 1;
    if i < n {
      DepsInStep(w, units[..n], i);
    } else if n > 0 {
      DepsInStep(w, units[..n], 0);
    }
  }

  /** The index finds every unit under its path's key. */
  lemma {:induction false} IndexFinds(w: World, units: seq<LoadedUnit>, i: nat)
    requires KeysDistinct(w, units) && i < |units|
    ensures KeyOf(w, units[i]) in IndexOf(w, units) && IndexOf(w, units)[KeyOf(w, units[i])] == i
  {
    var n := |units| - 1;
    if i < n {
      IndexFinds(w, units[..n], i);
    }
  }

  /** Whatever the index holds is the position of the unit with that key. */
  lemma {:induction false} IndexHoldsOnly(w: World, units: seq<LoadedUnit>, key: Text)
    requires key in IndexOf(w, units)
    ensures IndexOf(w, units)[key] < |units| && KeyOf(w, units[IndexOf(w, units)[key]]) == key
  {
    var n := |units| - 1;
    if KeyOf(w, units[n]) != key {
      IndexHoldsOnly(w, units[..n], key);
    }
  }

  lemma {:induction false} SoundAt(w: World, units: seq<LoadedUnit>, i: nat)
    requires UnitsSound(w, units) && i < |units|
    ensures UnitSound(w, units[i])
  {
    if i < |units| - 1 {
      SoundAt(w, units[..|units| - 1], i);
    }
  }

  ghost predicate CountersExact(m: Memory) {
    && m.parsed == |m.units| && m.misses == m.parsed + m.failed
    && (m.db.Some? ==> m.misses == m.persistentHits + m.persistentMisses)
  }

  /** What loading keeps apart from counters and database. */
  ghost predicate TablesOk(w: World, m: Memory) {
    && UnitsSound(w, m.units) && KeysDistinct(w, m.units)
    && m.index == IndexOf(w, m.units) && m.symbols == AllSymbols(m.units) && m.deps == DepsOf(w, m.units)
  }

  /** The workspace invariant. */
  ghost predicate ValidMemory(w: World, m: Memory) {
    TablesOk(w, m) && CountersExact(m) && (m.db.Some? ==> DatabaseOk(w, m.db.value))
  }

  lemma {:induction false} UnitsGrow(w: World, units: seq<LoadedUnit>, u: LoadedUnit)
    requires UnitsSound(w, units) && UnitSound(w, u) && KeysDistinct(w, units) && KeyOf(w, u) !in IndexOf(w, units)
    ensures var all := units + [u];
      && UnitsSound(w, all) && KeysDistinct(w, all)
      && IndexOf(w, all) == IndexOf(w, units)[KeyOf(w, u) := |units|]
      && AllSymbols(all) == AllSymbols(units) + LiftAll(u.unit)
      && DepsOf(w, all) == DepsOf(w, units) + [DependenciesOf(w, u)]
  {
    assert (units + [u])[..|units|] == units;
    SymbolsSnoc(units, u);
  }

  lemma LoadedKeeps(w: World, m: Memory, path: Text, u: LoadedUnit)
    requires TablesOk(w, m) && UnitSound(w, u) && u.unit.path == path && w.normal(path) !in m.index
    ensures TablesOk(w, WithUnit(w, m, path, u)) && UnitAt(w, WithUnit(w, m, path, u), path) == Some(u)
  {
    UnitsGrow(w, m.units, u);
  }

  /** A path that parses is loaded as its parse, a path that does not leaves only the counter of failures. */
  lemma ParseFreshKeeps(w: World, d: Disk, m: Memory, path: Text)
    requires Lawful(w) && TablesOk(w, m) && w.normal(path) !in m.index && (m.db.Some? ==> DatabaseOk(w, m.db.value))
    ensures var n := ParseFresh(w, d, m, path);
      && TablesOk(w, n) && (n.db.Some? ==> DatabaseOk(w, n.db.value))
      && UnitAt(w, n, path) == (if Content(w, d, path).Some? then Some(Analyse(w, ParseFile(w, d, path), path)) else None)
  {
    if Content(w, d, path).Some? {
      var source := Content(w, d, path).value;
      ParsedNodesStorable(w, path, source);
      ParsedSerializable(w, path, source);
      if m.db.Some? {
        StoredIsOk(w, d, m.db.value, path);
      }
      ParsedLoads(w, d, m, path, source);
    }
  }

  lemma ParsedLoads(w: World, d: Disk, m: Memory, path: Text, source: Text)
    requires TreesGood(w) && SourcesFit(w) && TablesOk(w, m) && w.normal(path) !in m.index
    requires Content(w, d, path) == Some(source) && Serializable(ParsedAst(w, path, source)) && WellFormed(ParsedAst(w, path, source).nodes)
    ensures var n := ParseFresh(w, d, m, path);
      && TablesOk(w, n) && UnitAt(w, n, path) == Some(Analyse(w, ParsedAst(w, path, source), path))
      && n.db == if m.db.Some? then Some(Stored(w, d, m.db.value, path, ParsedAst(w, path, source))) else None
  {
    var ast := ParsedAst(w, path, source);
    var db := if m.db.Some? then Some(Stored(w, d, m.db.value, path, ast)) else None;
    LoadedKeeps(w, m.(db := db), path, Analyse(w, ast, path));
  }

  lemma AnswerKeeps(w: World, d: Disk, m: Memory, path: Text)
    requires Lawful(w) && TablesOk(w, m) && w.normal(path) !in m.index
    requires Answered(w, d, m, path) && DatabaseOk(w, m.db.value)
    ensures var n := ByAnswer(w, m, path, AskDatabase(w, d, m.db.value, path));
      && TablesOk(w, n) && n.db.Some? && DatabaseOk(w, n.db.value) && d.stat(path).Some?
      && UnitAt(w, n, path) == Some(Analyse(w, ParsedAst(w, path, w.contentAt(path, d.stat(path).value)), path))
  {
    var answer := AskDatabase(w, d, m.db.value, path);
    AnswerIsParse(w, d, m.db.value, path);
    ParsedNodesStorable(w, path, w.contentAt(path, d.stat(path).value));
    LoadedKeeps(w, Hit(m, answer.db), path, Analyse(w, answer.ast.value, path));
  }

  lemma BeforeParseKeeps(w: World, d: Disk, m: Memory, path: Text)
    requires Lawful(w) && TablesOk(w, m) && (m.db.Some? ==> DatabaseOk(w, m.db.value))
    ensures var n := BeforeParse(w, d, m, path);
      TablesOk(w, n) && (n.db.Some? ==> DatabaseOk(w, n.db.value)) && n.index == m.index && n.units == m.units
  {
    if m.db.Some? {
      AnswerIsParse(w, d, m.db.value, path);
    }
  }

  /** What a miss must leave: sound tables, faithful rows, and `u` under the path asked for. */
  ghost predicate MissLeaves(w: World, n: Memory, path: Text, u: Option<LoadedUnit>) {
    TablesOk(w, n) && (n.db.Some? ==> DatabaseOk(w, n.db.value)) && UnitAt(w, n, path) == u
  }

  lemma MissAnswered(w: World, d: Disk, m: Memory, path: Text)
    requires Lawful(w) && TablesOk(w, m) && w.normal(path) !in m.index
    requires Answered(w, d, m, path) && DatabaseOk(w, m.db.value)
    ensures d.stat(path).Some?
    ensures MissLeaves(w, Fetch(w, d, m, path), path, Some(Analyse(w, ParsedAst(w, path, w.contentAt(path, d.stat(path).value)), path)))
  {
    AnswerKeeps(w, d, m, path);
  }

  lemma MissParsed(w: World, d: Disk, m: Memory, path: Text)
    requires Lawful(w) && TablesOk(w, m) && w.normal(path) !in m.index
    requires !Answered(w, d, m, path) && (m.db.Some? ==> DatabaseOk(w, m.db.value))
    ensures MissLeaves(w, Fetch(w, d, m, path), path,
                       if Content(w, d, path).Some? then Some(Analyse(w, ParseFile(w, d, path), path)) else None)
  {
    BeforeParseKeeps(w, d, m, path);
    ParseFreshKeeps(w, d, BeforeParse(w, d, m, path), path);
  }

  /** What analysing the present content of `path` gives. */
  function FreshUnit(w: World, d: Disk, path: Text): Option<LoadedUnit> {
    match d.stat(path)
    case None => None
    case Some(stat) => Some(Analyse(w, ParsedAst(w, path, w.contentAt(path, stat)), path))
  }

  /** On a memory miss the unit is the one that analysing the file afresh gives, whichever way it was obtained;
  there is one exactly when the file can be opened or the database answers. */
  lemma MissGivesParse(w: World, d: Disk, m: Memory, path: Text)
    requires Lawful(w) && ValidMemory(w, m) && w.normal(path) !in m.index
    ensures MissLeaves(w, Fetch(w, d, m, path), path,
                       if Content(w, d, path).Some? || Answered(w, d, m, path) then FreshUnit(w, d, path) else None)
    ensures Content(w, d, path).Some? || Answered(w, d, m, path) ==> d.stat(path).Some?
  {
    if Answered(w, d, m, path) {
      MissAnswered(w, d, m, path);
    } else {
      MissParsed(w, d, m, path);
    }
  }

  /** Exactly when a memory miss gives what analyze_one gives: always, unless the database answers for a file that does not open. */
  lemma MissIsAnalyzeOne(w: World, d: Disk, m: Memory, path: Text)
    requires Lawful(w) && ValidMemory(w, m) && w.normal(path) !in m.index
    ensures UnitAt(w, Fetch(w, d, m, path), path) == AnalysisOf(w, d, path) <==> Content(w, d, path).Some? || !Answered(w, d, m, path)
  {
    MissGivesParse(w, d, m, path);
  }

  /** When the database answers for a file that does not open: with a present row of the current version, whose stamp is
  the file's, and whose content the format can hold. */
  lemma AnsweredUnopened(w: World, d: Disk, m: Memory, path: Text)
    requires Lawful(w) && (m.db.Some? ==> DatabaseOk(w, m.db.value)) && Content(w, d, path).None?
    ensures Answered(w, d, m, path) <==>
      && m.db.Some? && path in m.db.value
      && var row := m.db.value[path];
         && row.formatVersion == FORMAT_VERSION && d.stat(path) == Some(Stat(row.sourceSize, row.sourceMtime))
         && WithinLimits(ParsedAst(w, path, w.contentAt(path, Stat(row.sourceSize, row.sourceMtime))))
  {
    if m.db.Some? {
      AnswersExactly(w, d, m.db.value, path);
    }
  }

  /** A disk on which every file has the same stamp and none opens. */
  function Unreadable(stamp: Stat): Disk {
    Disk(path => Some(stamp), path => false)
  }

  /** A cached file that has become unreadable: the workspace loads it, analysing it would not. */
  lemma UnreadableIsAnswered(w: World, path: Text, stamp: Stat)
    requires Lawful(w) && WithinLimits(ParsedAst(w, path, w.contentAt(path, stamp)))
    ensures var ast, d := ParsedAst(w, path, w.contentAt(path, stamp)), Unreadable(stamp);
      && Serializable(ast) && EntryFor(w, ast, Some(stamp)).Some?
      && var m := Opened(Some(map[path := EntryFor(w, ast, Some(stamp)).value]));
         && ValidMemory(w, m) && AnalysisOf(w, d, path) == None
         && UnitAt(w, Fetch(w, d, m, path), path) == Some(Analyse(w, ast, path))
  {
    EntryIsOk(w, path, stamp);
    var ast, d := ParsedAst(w, path, w.contentAt(path, stamp)), Unreadable(stamp);
    var row := EntryFor(w, ast, Some(stamp)).value;
    var m := Opened(Some(map[path := row]));
    assert Stat(row.sourceSize, row.sourceMtime) == stamp;
    AnsweredUnopened(w, d, m, path);
    MissGivesParse(w, d, m, path);
  }

  /** There is such a file: one letter that parses to a single node. */
  lemma SomeFileDiffers()
    ensures exists w, d, m, path ::
      Lawful(w) && ValidMemory(w, m) && w.normal(path) !in m.index && UnitAt(w, Fetch(w, d, m, path), path) != AnalysisOf(w, d, path)
  {
    var w, path, stamp := UniformWorld([65], LetterTree()), [97], Stat(1, 1);
    LetterIsGood();
    UniformIsLawful([65], LetterTree());
    LetterIsWithinLimits(path);
    UnreadableIsAnswered(w, path, stamp);
    var m := Opened(Some(map[path := EntryFor(w, ParsedAst(w, path, [65]), Some(stamp)).value]));
    assert Lawful(w) && ValidMemory(w, m) && w.normal(path) !in m.index;
  }

  lemma LetterIsWithinLimits(path: Text)
    ensures WithinLimits(ParsedAst(UniformWorld([65], LetterTree()), path, [65]))
  {
    Traversal.FlatSize(LetterTree(), [65], 0, INVALID_ID);
  }

  lemma FetchCounts(w: World, d: Disk, m: Memory, path: Text)
    requires TreesGood(w) && SourcesFit(w) && CountersExact(m)
    ensures CountersExact(Fetch(w, d, m, path)) && (Fetch(w, d, m, path).db.Some? <==> m.db.Some?)
    ensures m.units <= Fetch(w, d, m, path).units
  {
  }

  /** The database holds for `path` the content that it has now, in a row that may be trusted and can be unpacked. */
  ghost predicate Holds(w: World, d: Disk, db: Option<Database>, path: Text) {
    && db.Some? && CacheWarm.Trusted(w, d, path, CacheWarm.RowAt(db.value, path))
    && WithinLimits(ParsedAst(w, path, w.contentAt(path, d.stat(path).value)))
  }

  /** Loading trusts the rows that warming trusts. */
  lemma UsableIsTrusted(w: World, d: Disk, path: Text, row: Row)
    ensures Usable(w, d, path, row) <==> CacheWarm.Trusted(w, d, path, Some(row))
  {
  }

  lemma AnsweredIsHeld(w: World, d: Disk, m: Memory, path: Text)
    requires Lawful(w) && (m.db.Some? ==> DatabaseOk(w, m.db.value))
    ensures Answered(w, d, m, path) <==> Holds(w, d, m.db, path)
  {
    if m.db.Some? && path in m.db.value {
      UsableIsTrusted(w, d, path, m.db.value[path]);
    }
    if m.db.Some? {
      AnswersExactly(w, d, m.db.value, path);
    }
  }

  /** Which counters a call moves, from memory, database and file alone. */
  lemma CountersMove(w: World, d: Disk, m: Memory, path: Text)
    requires Lawful(w) && (m.db.Some? ==> DatabaseOk(w, m.db.value))
    ensures var n, miss, held := Fetch(w, d, m, path), w.normal(path) !in m.index, Holds(w, d, m.db, path);
      && n.hits == m.hits + One(!miss) && n.misses == m.misses + One(miss)
      && n.persistentHits == m.persistentHits + One(miss && held)
      && n.persistentMisses == m.persistentMisses + One(miss && m.db.Some? && !held)
      && n.parsed == m.parsed + One(miss && (held || CacheWarm.Readable(d, path)))
      && n.failed == m.failed + One(miss && !held && !CacheWarm.Readable(d, path))
  {
    AnsweredIsHeld(w, d, m, path);
  }

  lemma OtherRowsStay(w: World, d: Disk, db: Database, path: Text)
    ensures forall p :: p != path ==> CacheWarm.RowAt(AskDatabase(w, d, db, path).db, p) == CacheWarm.RowAt(db, p)
  {
  }

  /** The database after it was asked about `path`: no other row changes, and the row of `path` is restamped when the
  database answers, and gone when it does not. */
  lemma AskedDatabase(w: World, d: Disk, db: Database, path: Text)
    requires Lawful(w) && DatabaseOk(w, db)
    ensures var n := AskDatabase(w, d, db, path).db;
      && (forall p :: p != path ==> CacheWarm.RowAt(n, p) == CacheWarm.RowAt(db, p))
      && CacheWarm.RowAt(n, path)
         == if Holds(w, d, Some(db), path)
            then Some(db[path].(sourceSize := d.stat(path).value.size, sourceMtime := d.stat(path).value.mtime))
            else None
  {
    OtherRowsStay(w, d, db, path);
    if path in db {
      var row := db[path];
      UsableIsTrusted(w, d, path, row);
      if Usable(w, d, path, row) {
        UnpackedIsParse(w, d, path, row);
        if WithinLimits(ParsedAst(w, path, w.contentAt(path, d.stat(path).value))) {
          assert AskDatabase(w, d, db, path).db == db[path := Restamped(d, path, row)];
        }
      }
    }
  }

  lemma StoredRow(w: World, d: Disk, db: Database, path: Text)
    requires TreesGood(w) && SourcesFit(w) && CacheWarm.Readable(d, path)
    ensures Serializable(ParseFile(w, d, path))
    ensures var n := Stored(w, d, db, path, ParseFile(w, d, path));
      && (forall p :: p != path ==> CacheWarm.RowAt(n, p) == CacheWarm.RowAt(db, p))
      && path in n && RowFor(w, path, d.stat(path).value, n[path])
  {
    EntryExact(w, path, d.stat(path).value);
  }

  /** The database after a miss: the row of `path` is restamped, or made afresh for the file as it is, or gone when the
  file cannot be read, and no other row changes. */
  lemma DatabaseAfterMiss(w: World, d: Disk, m: Memory, path: Text)
    requires Lawful(w) && m.db.Some? && DatabaseOk(w, m.db.value) && w.normal(path) !in m.index
    ensures Fetch(w, d, m, path).db.Some?
    ensures var db, n := m.db.value, Fetch(w, d, m, path).db.value;
      && (forall p :: p != path ==> CacheWarm.RowAt(n, p) == CacheWarm.RowAt(db, p))
      && var row := CacheWarm.RowAt(n, path);
         if Holds(w, d, m.db, path)
         then row == Some(db[path].(sourceSize := d.stat(path).value.size, sourceMtime := d.stat(path).value.mtime))
         else if CacheWarm.Readable(d, path) then row.Some? && RowFor(w, path, d.stat(path).value, row.value)
         else row == None
  {
    AskedDatabase(w, d, m.db.value, path);
    AnsweredIsHeld(w, d, m, path);
    if !Holds(w, d, m.db, path) && CacheWarm.Readable(d, path) {
      StoredRow(w, d, AskDatabase(w, d, m.db.value, path).db, path);
    }
  }

  /** Every call of get_translation_unit keeps the workspace invariant. */
  lemma FetchKeepsValid(w: World, d: Disk, m: Memory, path: Text)
    requires Lawful(w) && ValidMemory(w, m)
    ensures ValidMemory(w, Fetch(w, d, m, path))
  {
    FetchCounts(w, d, m, path);
    if w.normal(path) !in m.index {
      MissGivesParse(w, d, m, path);
    }
  }

  lemma ParseFreshShape(w: World, d: Disk, m: Memory, path: Text)
    requires TreesGood(w) && SourcesFit(w)
    ensures var n := ParseFresh(w, d, m, path);
      || (n.units == m.units && n.index == m.index)
      || (exists u :: n.units == m.units + [u] && n.index == m.index[w.normal(path) := |m.units|])
  {
  }

  /** A call leaves units and index as they are, or adds one unit under a new key. */
  lemma FetchShape(w: World, d: Disk, m: Memory, path: Text)
    requires TreesGood(w) && SourcesFit(w)
    ensures var n := Fetch(w, d, m, path);
      || (n.units == m.units && n.index == m.index)
      || (w.normal(path) !in m.index && |n.units| == |m.units| + 1 && n.units[..|m.units|] == m.units
          && n.index == m.index[w.normal(path) := |m.units|])
  {
    if w.normal(path) !in m.index && !Answered(w, d, m, path) {
      ParseFreshShape(w, d, BeforeParse(w, d, m, path), path);
    }
  }

  /** Once loaded, a unit is never reloaded or moved. */
  lemma FetchKeepsUnits(w: World, d: Disk, m: Memory, path: Text, other: Text)
    requires TreesGood(w) && SourcesFit(w) && UnitAt(w, m, other).Some?
    ensures UnitAt(w, Fetch(w, d, m, path), other) == UnitAt(w, m, other)
  {
    FetchShape(w, d, m, path);
    var n := Fetch(w, d, m, path);
    if n.units != m.units {
      assert n.units[m.index[w.normal(other)]] == n.units[..|m.units|][m.index[w.normal(other)]];
    }
  }

  lemma {:induction false} HitInRange(w: World, m: Memory, path: Text)
    requires m.index == IndexOf(w, m.units) && w.normal(path) in m.index
    ensures m.index[w.normal(path)] < |m.units|
  {
    IndexHoldsOnly(w, m.units, w.normal(path));
  }

  /** One call: the path asked for and the state of the files at that moment. */
  datatype Call = Call(disk: Disk, path: Text)

  function FetchAll(w: World, m: Memory, calls: seq<Call>): Memory
    requires TreesGood(w) && SourcesFit(w)
    decreases |calls|
  {
    if calls == [] then m else FetchAll(w, Fetch(w, calls[0].disk, m, calls[0].path), calls[1..])
  }

  /** The invariant holds after any sequence of calls, while files come, go and change. */
  lemma {:induction false} EveryRunKeepsValid(w: World, m: Memory, calls: seq<Call>)
    requires Lawful(w) && ValidMemory(w, m)
    ensures ValidMemory(w, FetchAll(w, m, calls))
    decreases |calls|
  {
    if calls != [] {
      FetchKeepsValid(w, calls[0].disk, m, calls[0].path);
      EveryRunKeepsValid(w, Fetch(w, calls[0].disk, m, calls[0].path), calls[1..]);
    }
  }

  lemma OpenedIsValid(w: World, db: Option<Database>)
    requires db.Some? ==> DatabaseOk(w, db.value)
    ensures ValidMemory(w, Opened(db))
  {
  }

  function CallsFor(d: Disk, files: seq<Text>): (r: seq<Call>)
    ensures |r| == |files|
  {
    seq(|files|, i requires 0 <= i < |files| => Call(d, files[i]))
  }

  lemma {:induction false} FetchNext(w: World, d: Disk, m: Memory, files: seq<Text>, k: nat)
    requires TreesGood(w) && SourcesFit(w) && k < |files|
    ensures FetchAll(w, m, CallsFor(d, files[k..])) == FetchAll(w, Fetch(w, d, m, files[k]), CallsFor(d, files[k + 1..]))
  {
    assert CallsFor(d, files[k..])[1..] == CallsFor(d, files[k + 1..]);
  }

  // ---- The class ------------------------------------------------------------

  class Workspace {
    const w: World
    const files: seq<Text>
    var translationUnits: seq<LoadedUnit>
    var symbols: seq<WorkspaceSymbol>
    var deps: seq<FileDependencies>
    var tuIndex: map<Text, nat>
    var parsedCount: nat
    var failedCount: nat
    var cacheHits: nat
    var cacheMisses: nat
    var persistentCacheHits: nat
    var persistentCacheMisses: nat
    var persistentCache: Option<Database>

    ghost function View(): Memory
      reads this
    {
      Memory(translationUnits, symbols, deps, tuIndex, parsedCount, failedCount, cacheHits, cacheMisses,
             persistentCacheHits, persistentCacheMisses, persistentCache)
    }

    ghost predicate Valid()
      reads this
    {
      Lawful(w) && ValidMemory(w, View())
    }

    /** open_workspace: `OpenedIsValid` says that this state meets the invariant. */
    constructor (w: World, files: seq<Text>, db: Option<Database>)
      ensures View() == Opened(db) && this.w == w && this.files == files
    {
      this.w, this.files := w, files;
      translationUnits, symbols, deps, tuIndex := [], [], [], map[];
      parsedCount, failedCount, cacheHits, cacheMisses := 0, 0, 0, 0;
      persistentCacheHits, persistentCacheMisses, persistentCache := 0, 0, db;
    }

    /** Appends an analysed unit to memory. */
    method Remember(path: Text, u: LoadedUnit, lifted: seq<WorkspaceSymbol>)
      requires lifted == LiftAll(u.unit) && u.unit.path == path
      modifies this
      ensures View() == WithUnit(w, old(View()), path, u)
    {
      var idx := |translationUnits|;
      tuIndex := tuIndex[w.normal(path) := idx];
      parsedCount := parsedCount + 1;
      deps := deps + [FileDependencies(path, w.includesOf(u.ast))];
      symbols := symbols + lifted;
      translationUnits := translationUnits + [u];
    }

    /** Merges one result of analyze_one, whose symbols come with it. */
    method MergeResultInto(r: Option<LoadedUnit>, lifted: seq<WorkspaceSymbol>)
      requires r.Some? ==> lifted == LiftAll(r.value.unit)
      modifies this
      ensures View() == MergeResult(w, old(View()), r)
    {
      if r.None? {
        failedCount := failedCount + 1;
      } else {
        Remember(r.value.unit.path, r.value, lifted);
      }
    }

    /** Evicts, restamps or unpacks the row of `path`. */
    method AskPersistentCache(d: Disk, path: Text) returns (ast: Option<FileAst>)
      requires persistentCache.Some?
      modifies this`persistentCache
      ensures persistentCache == Some(AskDatabase(w, d, old(persistentCache.value), path).db)
      ensures ast == AskDatabase(w, d, old(persistentCache.value), path).ast
    {
      ast := None;
      var db := persistentCache.value;
      if path !in db {
        return;
      }
      var row := db[path];
      var valid := row.formatVersion == FORMAT_VERSION;
      if valid {
        var stat := d.stat(path);
        if stat.Some? && stat.value.size == row.sourceSize && stat.value.mtime == row.sourceMtime {
          assert stat.value == Stat(row.sourceSize, row.sourceMtime);
          assert db[path := Restamped(d, path, row)] == db;
        } else if stat.Some? {
          var curHash := CacheWarm.HashFile(w, d, path);
          valid := curHash == row.sourceHash && curHash != 0;
          if valid {
            db := db[path := row.(sourceSize := stat.value.size, sourceMtime := stat.value.mtime)];
          }
        } else {
          valid := false;
        }
      }
      assert valid == Usable(w, d, path, row);
      if valid && row.blob != [] {
        var raw := if row.isLz4 then w.decompress(row.blob, row.uncompressedSize) else row.blob;
        if raw != [] {
          var deserialized := SerialIo.Deserialize(raw);
          if deserialized.text.Some? {
            persistentCache := Some(db);
            return Some(deserialized);
          }
        }
        db := db - {path};
      } else if !valid {
        db := db - {path};
      }
      persistentCache := Some(db);
    }

    /** Stores a fresh parse in the database, when one is open, and in memory. */
    method CommitResult(d: Disk, path: Text, u: LoadedUnit, lifted: seq<WorkspaceSymbol>)
      requires Serializable(u.ast) && u.ast.text.Some? && lifted == LiftAll(u.unit) && u.unit.path == path
      modifies this
      ensures var db := if old(persistentCache).Some? then Some(Stored(w, d, old(persistentCache.value), path, u.ast)) else None;
        View() == WithUnit(w, old(View()).(db := db), path, u)
    {
      if persistentCache.Some? {
        var rawBytes := SerialIo.Serialize(u.ast);
        if rawBytes != [] {
          var compressed := w.compress(rawBytes);
          var hash: U64 := 0;
          if |u.ast.text.value| > 0 {
            hash := w.contentHash(u.ast.text.value);
          }
          var size, mtime := 0, 0;
          var stat := d.stat(path);
          if stat.Some? {
            size, mtime := stat.value.size, stat.value.mtime;
          }
          var isLz4, blob := false, rawBytes;
          if compressed != [] && |compressed| < |rawBytes| {
            isLz4, blob := true, compressed;
          }
          var entry := Row(hash, size, mtime, u.ast.language, FORMAT_VERSION, isLz4, blob, |rawBytes|);
          assert EntryFor(w, u.ast, d.stat(path)) == Some(entry);
          persistentCache := Some(persistentCache.value[path := entry]);
        }
      }
      Remember(path, u, lifted);
    }

    /** The unit of `path`, from memory, from the database, or by parsing; none when it cannot be parsed. */
    method GetTranslationUnit(d: Disk, path: Text) returns (r: Option<LoadedUnit>)
      requires Valid()
      modifies this
      ensures Valid() && View() == Fetch(w, d, old(View()), path)
      ensures r == UnitAt(w, View(), path)
    {
      FetchKeepsValid(w, d, View(), path);
      if w.normal(path) in tuIndex {
        HitInRange(w, View(), path);
        r := Recall(path);
      } else {
        r := LoadMissing(d, path);
      }
    }

    /** A path that memory holds. */
    method Recall(path: Text) returns (r: Option<LoadedUnit>)
      requires w.normal(path) in tuIndex && tuIndex[w.normal(path)] < |translationUnits|
      modifies this`cacheHits
      ensures View() == old(View()).(hits := old(cacheHits) + 1)
      ensures r == UnitAt(w, View(), path)
    {
      cacheHits := cacheHits + 1;
      r := Some(translationUnits[tuIndex[w.normal(path)]]);
    }

    /** Counts a memory miss and asks the database, when one is open. */
    method MissMemory(d: Disk, path: Text) returns (ast: Option<FileAst>)
      modifies this
      ensures ast.Some? == Answered(w, d, old(View()), path)
      ensures ast.Some? ==>
        var answer := AskDatabase(w, d, old(persistentCache.value), path); ast == answer.ast && View() == Hit(old(View()), answer.db)
      ensures ast.None? ==> View() == BeforeParse(w, d, old(View()), path)
    {
      cacheMisses := cacheMisses + 1;
      ast := None;
      if persistentCache.Some? {
        ghost var answer := AskDatabase(w, d, persistentCache.value, path);
        ast := AskPersistentCache(d, path);
        if ast.Some? {
          persistentCacheHits := persistentCacheHits + 1;
          assert View() == Hit(old(View()), answer.db);
        } else {
          persistentCacheMisses := persistentCacheMisses + 1;
          assert View() == WithoutAnswer(old(View()), answer.db);
        }
      }
    }

    /** A path that memory does not hold: the database, or else the parser. */
    method LoadMissing(d: Disk, path: Text) returns (r: Option<LoadedUnit>)
      requires Lawful(w) && w.normal(path) !in tuIndex
      requires persistentCache.Some? ==> DatabaseOk(w, persistentCache.value)
      modifies this
      ensures View() == Fetch(w, d, old(View()), path)
      ensures r == UnitAt(w, View(), path)
    {
      if persistentCache.Some? {
        AnswerIsParse(w, d, persistentCache.value, path);
      }
      var deserialized := MissMemory(d, path);
      if deserialized.Some? {
        r := AnalyzeCached(d, path, deserialized.value);
      } else {
        r := AnalyzeOne(d, path);
      }
    }

    method AnalyzeCached(d: Disk, path: Text, ast: FileAst) returns (r: Option<LoadedUnit>)
      requires Lawful(w) && d.stat(path).Some? && ast == ParsedAst(w, path, w.contentAt(path, d.stat(path).value))
      modifies this
      ensures View() == WithUnit(w, old(View()), path, Analyse(w, ast, path))
      ensures r == UnitAt(w, View(), path)
    {
      ParsedNodesStorable(w, path, w.contentAt(path, d.stat(path).value));
      var u, lifted := AnalyzeFromAst(w, ast, path);
      var idx := |translationUnits|;
      Remember(path, u, lifted);
      r := Some(translationUnits[idx]);
    }

    method AnalyzeOne(d: Disk, path: Text) returns (r: Option<LoadedUnit>)
      requires Lawful(w) && w.normal(path) !in tuIndex
      modifies this
      ensures View() == ParseFresh(w, d, old(View()), path)
      ensures r == UnitAt(w, View(), path)
    {
      var content := Content(w, d, path);
      if content.None? {
        failedCount := failedCount + 1;
        return None;
      }
      var ast := ParsedAst(w, path, content.value);
      ParsedNodesStorable(w, path, content.value);
      ParsedSerializable(w, path, content.value);
      var u, lifted := AnalyzeFromAst(w, ast, path);
      CommitResult(d, path, u, lifted);
      r := Some(translationUnits[tuIndex[w.normal(path)]]);
    }

    /** Asks for every file once. */
    method EnsureAllLoaded(d: Disk)
      requires Valid()
      modifies this
      ensures Valid()
      ensures View() == FetchAll(w, old(View()), CallsFor(d, files))
    {
      assert files[0..] == files;
      for k := 0 to |files|
        invariant Valid()
        invariant FetchAll(w, old(View()), CallsFor(d, files)) == FetchAll(w, View(), CallsFor(d, files[k..]))
      {
        FetchNext(w, d, View(), files, k);
        var _ := GetTranslationUnit(d, files[k]);
      }
    }
  }
}
