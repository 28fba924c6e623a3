/** Analysed files and the loaded workspace that the relationship services read (include/ast-workspace.h). */
module Units {
  import opened Ast
  import opened Options
  import opened Symbols
  import opened ScopeTrees
  import opened ScopeBuilder
  import opened SymbolScope

  datatype TranslationUnit = TranslationUnit(
    nodes: seq<Node>,
    scopes: seq<Scope>,
    nodeScope: seq<nat>,
    symbolScope: seq<nat>,
    symbols: seq<Symbol>,
    path: Text)

  datatype WorkspaceSymbol = WorkspaceSymbol(symbol: Symbol, sourceFile: Text, owningScope: ScopeKind)

  /** The unit of a file, given its tree and the symbols extracted from it. */
  function UnitOf(nodes: seq<Node>, symbols: seq<Symbol>, path: Text): TranslationUnit {
    var scopes, nodeScope := ScopesUpTo(nodes, |nodes|), NodeScopesUpTo(nodes, |nodes|);
    TranslationUnit(
      nodes,
      WithSymbols(scopes, nodeScope, symbols, |symbols|),
      nodeScope,
      Owners(scopes, nodeScope, symbols, |symbols|),
      symbols,
      path)
  }

  ghost predicate Analysed(u: TranslationUnit) {
    WellFormed(u.nodes) && u == UnitOf(u.nodes, u.symbols, u.path)
  }

  /** Scope `s` is opened by one of the unit's nodes, under that scope's own id. */
  ghost predicate ScopeOpened(u: TranslationUnit, s: nat)
    requires s < |u.scopes|
  {
    var n := u.scopes[s].nodeIndex;
    && n < |u.nodes| && Introduces(u.nodes, n) && ScopeOf(u.nodes, n) == s
    && u.scopes[s].kind == ClassifyNode(u.nodes[n].nodeType)
    && u.scopes[s].parent == Enclosing(u.nodes, n)
  }

  ghost predicate SymbolMapped(u: TranslationUnit, i: nat) {
    EntryOr(u.symbolScope, i) == FindSymbolFrom(u.scopes, i, 0) && IsScope(u.scopes, EntryOr(u.symbolScope, i))
  }

  /** What the services rely on in a unit. */
  ghost predicate UnitOk(u: TranslationUnit) {
    && WellFormed(u.nodes) && Ordered(u.scopes)
    && |u.nodeScope| == |u.nodes|
    && (forall i :: 0 <= i < |u.nodes| ==> u.nodeScope[i] == ScopeOf(u.nodes, i) && IsScope(u.scopes, u.nodeScope[i]))
    && (forall s :: 0 <= s < |u.scopes| ==> ScopeOpened(u, s))
    && (forall i :: 0 <= i < |u.symbols| ==> SymbolMapped(u, i))
  }

  lemma SymbolMapHolds(u: TranslationUnit, i: nat)
    requires Analysed(u) && i < |u.symbols|
    ensures SymbolMapped(u, i)
  {
    var scopes, nodeScope := ScopesUpTo(u.nodes, |u.nodes|), NodeScopesUpTo(u.nodes, |u.nodes|);
    ReverseMapAgrees(u.nodes, u.symbols, i);
    BuiltConsistently(u.nodes);
    AssociateStep(scopes, nodeScope, u.symbols, i);
  }

  lemma ScopeRecordHolds(u: TranslationUnit, s: nat)
    requires Analysed(u) && s < |u.scopes|
    ensures ScopeOpened(u, s)
    ensures u.scopes[s].parent == INVALID_ID || u.scopes[s].parent < s
  {
    var scopes, nodeScope := ScopesUpTo(u.nodes, |u.nodes|), NodeScopesUpTo(u.nodes, |u.nodes|);
    BuiltConsistently(u.nodes);
    assert Records(scopes, u.nodes, s);
    OnlySymbolsChange(scopes, nodeScope, u.symbols, |u.symbols|, s);
    ScopeOfBound(u.nodes, scopes[s].nodeIndex);
  }

  /** Every analysed unit meets what the services rely on. */
  lemma AnalysedIsOk(u: TranslationUnit)
    requires Analysed(u)
    ensures UnitOk(u)
  {
    BuiltConsistently(u.nodes);
    forall s | 0 <= s < |u.scopes|
      ensures ScopeOpened(u, s) && (u.scopes[s].parent == INVALID_ID || u.scopes[s].parent < s)
    {
      ScopeRecordHolds(u, s);
    }
    forall i | 0 <= i < |u.symbols| ensures SymbolMapped(u, i) {
      SymbolMapHolds(u, i);
    }
  }

  /** Symbol `i` of a unit as the workspace table lists it. */
  function Lift(u: TranslationUnit, i: nat): WorkspaceSymbol
    requires i < |u.symbols|
  {
    var s := EntryOr(u.symbolScope, i);
    WorkspaceSymbol(u.symbols[i], u.path, if s < |u.scopes| then u.scopes[s].kind else UnknownScope)
  }

  /** The scope kind listed with a symbol is that of the one scope whose list has it, and unknown when no list does. */
  lemma LiftKnowsItsScope(u: TranslationUnit, i: nat)
    requires Analysed(u) && i < |u.symbols|
    ensures forall s :: 0 <= s < |u.scopes| && i in u.scopes[s].symbols ==> Lift(u, i).owningScope == u.scopes[s].kind
    ensures (forall s :: 0 <= s < |u.scopes| ==> i !in u.scopes[s].symbols) ==> Lift(u, i).owningScope == UnknownScope
    ensures Lift(u, i).symbol == u.symbols[i] && Lift(u, i).sourceFile == u.path
  {
    var scopes, nodeScope := ScopesUpTo(u.nodes, |u.nodes|), NodeScopesUpTo(u.nodes, |u.nodes|);
    BuiltConsistently(u.nodes);
    SymbolListsExact(scopes, nodeScope, u.symbols, |u.symbols|);
    AssociateStep(scopes, nodeScope, u.symbols, i);
    forall s | 0 <= s < |u.scopes| ensures i in u.scopes[s].symbols <==> s == EntryOr(u.symbolScope, i) {
      assert SymbolListExact(scopes, nodeScope, u.symbols, |u.symbols|, u.scopes[s].symbols, s);
    }
  }

  function LiftAll(u: TranslationUnit): (r: seq<WorkspaceSymbol>)
    ensures |r| == |u.symbols|
  {
    seq(|u.symbols|, i requires 0 <= i < |u.symbols| => Lift(u, i))
  }

  // ---- The loaded workspace -------------------------------------------------

  /** `normal` is std::filesystem::path::lexically_normal, the key of the in-memory index. */
  datatype LoadedWorkspace = LoadedWorkspace(units: seq<TranslationUnit>, symbols: seq<WorkspaceSymbol>, normal: Text -> Text)

  ghost predicate Declares(ws: LoadedWorkspace, s: WorkspaceSymbol) {
    exists i, k :: 0 <= i < |ws.units| && 0 <= k < |ws.units[i].symbols| && s == Lift(ws.units[i], k)
  }

  /** Every file has one unit, and the symbol table lists exactly the symbols of the units. */
  ghost predicate Loaded(ws: LoadedWorkspace) {
    && (forall i :: 0 <= i < |ws.units| ==> UnitOk(ws.units[i]))
    && (forall i, j :: 0 <= i < j < |ws.units| ==> ws.normal(ws.units[i].path) != ws.normal(ws.units[j].path))
    && (forall s :: s in ws.symbols <==> Declares(ws, s))
  }

  function FindUnitFrom(ws: LoadedWorkspace, path: Text, i: nat): (r: Option<TranslationUnit>)
    ensures r.Some? ==> r.value in ws.units
    decreases |ws.units| - i
  {
    if i >= |ws.units| then None
    else if ws.normal(ws.units[i].path) == ws.normal(path) then Some(ws.units[i])
    else FindUnitFrom(ws, path, i + 1)
  }

  /** get_translation_unit once everything is loaded: the unit whose path has the same normal form. */
  function FindUnit(ws: LoadedWorkspace, path: Text): (r: Option<TranslationUnit>)
    ensures r.Some? ==> r.value in ws.units
  {
    FindUnitFrom(ws, path, 0)
  }

  lemma {:induction false} FindUnitScan(ws: LoadedWorkspace, i: nat, k: nat)
    requires Loaded(ws) && k <= i < |ws.units|
    ensures FindUnitFrom(ws, ws.units[i].path, k) == Some(ws.units[i])
    decreases i - k
  {
    if k < i {
      FindUnitScan(ws, i, k + 1);
    }
  }

  /** A unit is found under its own path. */
  lemma UnitFound(ws: LoadedWorkspace, i: nat)
    requires Loaded(ws) && i < |ws.units|
    ensures FindUnit(ws, ws.units[i].path) == Some(ws.units[i])
  {
    FindUnitScan(ws, i, 0);
  }
}
