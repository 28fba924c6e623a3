/** Workspace-wide reference discovery (src/ast-references.cpp). */
module References {
  import opened Ast
  import opened Options
  import opened Sequences
  import opened Symbols
  import opened ScopeTrees
  import opened ScopeBuilder
  import opened Units
  import opened Resolver
  import opened CallUtils
  import opened MemberResolution

  datatype ReferenceResult = ReferenceResult(
    referencedSymbol: WorkspaceSymbol,
    sourceFile: Text,
    line: U32,
    column: U32,
    owningScope: ScopeKind,
    nodeIndex: nat)

  function KindAt(u: TranslationUnit, scope: nat): ScopeKind {
    if scope < |u.scopes| then u.scopes[scope].kind else UnknownScope
  }

  function RefAt(u: TranslationUnit, i: nat, target: WorkspaceSymbol): ReferenceResult
    requires UnitOk(u) && i < |u.nodes|
  {
    var p := u.nodes[i].start;
    ReferenceResult(target, u.path, p.row, p.column, KindAt(u, ScopeOf(u.nodes, i)), i)
  }

  /** The line a use lies on is the target's declaration line, in the target's file; rows count from 0 and lines from 1, in 32 bits. */
  predicate AtDeclaration(r: ReferenceResult, target: WorkspaceSymbol) {
    r.sourceFile == target.sourceFile && (r.line + 1) % 0x1_0000_0000 == target.symbol.line
  }

  /** Node `i` is an identifier that resolves to `target`. */
  ghost predicate RefersTo(ws: LoadedWorkspace, u: TranslationUnit, i: nat, target: WorkspaceSymbol)
    requires Loaded(ws) && UnitOk(u) && i < |u.nodes|
  {
    && IsIdentifierType(u.nodes[i].nodeType) && u.nodes[i].text != []
    && (assert u.nodeScope[i] == ScopeOf(u.nodes, i);
        var r := ResolveUse(ws, u, i, ScopeOf(u.nodes, i));
        r.Resolved? && SameDeclaration(r.symbol, target))
  }

  /** The reference to report for node `i`. */
  ghost function RefSite(ws: LoadedWorkspace, u: TranslationUnit, i: nat, target: WorkspaceSymbol, includeDeclaration: bool): Option<ReferenceResult>
    requires Loaded(ws) && UnitOk(u) && i < |u.nodes|
  {
    if RefersTo(ws, u, i, target) && (includeDeclaration || !AtDeclaration(RefAt(u, i, target), target))
    then Some(RefAt(u, i, target))
    else None
  }

  ghost function UnitRefs(ws: LoadedWorkspace, u: TranslationUnit, target: WorkspaceSymbol, includeDeclaration: bool): (r: seq<Option<ReferenceResult>>)
    requires Loaded(ws) && UnitOk(u)
    ensures |r| == |u.nodes|
  {
    seq(|u.nodes|, i requires 0 <= i < |u.nodes| => RefSite(ws, u, i, target, includeDeclaration))
  }

  ghost function RefsByUnit(ws: LoadedWorkspace, target: WorkspaceSymbol, includeDeclaration: bool): (r: seq<seq<ReferenceResult>>)
    requires Loaded(ws)
    ensures |r| == |ws.units|
  {
    seq(|ws.units|, n requires 0 <= n < |ws.units| => Present(UnitRefs(ws, ws.units[n], target, includeDeclaration)))
  }

  /** All references to `target`, in file and node order. */
  ghost function ReferencesTo(ws: LoadedWorkspace, target: WorkspaceSymbol, includeDeclaration: bool): seq<ReferenceResult>
    requires Loaded(ws)
  {
    Concat(RefsByUnit(ws, target, includeDeclaration))
  }

  method VisitNode(ws: LoadedWorkspace, u: TranslationUnit, i: nat, target: WorkspaceSymbol, includeDeclaration: bool) returns (found: Option<ReferenceResult>)
    requires Loaded(ws) && UnitOk(u) && i < |u.nodes|
    ensures found == RefSite(ws, u, i, target, includeDeclaration)
  {
    var node := u.nodes[i];
    if !IsIdentifierType(node.nodeType) {
      return None;
    }
    if node.text == [] {
      return None;
    }
    assert u.nodeScope[i] == ScopeOf(u.nodes, i);
    var scopeId := EntryOr(u.nodeScope, i);
    var resolution := ResolveRelationshipIdentifier(ws, u, i, scopeId);
    if !resolution.Resolved? {
      return None;
    }
    if !SameDeclaration(resolution.symbol, target) {
      return None;
    }
    var owning := if scopeId != INVALID_ID then u.scopes[scopeId].kind else UnknownScope;
    var ref := ReferenceResult(target, u.path, node.start.row, node.start.column, owning, i);
    assert ref == RefAt(u, i, target);
    if !includeDeclaration && AtDeclaration(ref, target) {
      return None;
    }
    found := Some(ref);
  }

  method AppendRef(ws: LoadedWorkspace, u: TranslationUnit, i: nat, target: WorkspaceSymbol, includeDeclaration: bool, refs: seq<ReferenceResult>)
    returns (results: seq<ReferenceResult>)
    requires Loaded(ws) && UnitOk(u) && i < |u.nodes|
    requires refs == Present(UnitRefs(ws, u, target, includeDeclaration)[0..i])
    ensures results == Present(UnitRefs(ws, u, target, includeDeclaration)[0..i + 1])
  {
    var found := VisitNode(ws, u, i, target, includeDeclaration);
    PresentStep(UnitRefs(ws, u, target, includeDeclaration), 0, i);
    results := if found.Some? then refs + [found.value] else refs;
  }

  method FindInUnit(ws: LoadedWorkspace, u: TranslationUnit, target: WorkspaceSymbol, includeDeclaration: bool) returns (results: seq<ReferenceResult>)
    requires Loaded(ws) && UnitOk(u)
    ensures results == Present(UnitRefs(ws, u, target, includeDeclaration))
  {
    results := [];
    for i := 0 to |u.nodes|
      invariant results == Present(UnitRefs(ws, u, target, includeDeclaration)[0..i])
    {
      results := AppendRef(ws, u, i, target, includeDeclaration, results);
    }
    assert UnitRefs(ws, u, target, includeDeclaration)[0..|u.nodes|] == UnitRefs(ws, u, target, includeDeclaration);
  }

  method Find(ws: LoadedWorkspace, target: WorkspaceSymbol, includeDeclaration: bool) returns (results: seq<ReferenceResult>)
    requires Loaded(ws)
    ensures results == ReferencesTo(ws, target, includeDeclaration)
  {
    results := [];
    ghost var all := RefsByUnit(ws, target, includeDeclaration);
    for n := 0 to |ws.units|
      invariant results == Concat(all[..n])
    {
      ConcatStep(all, n);
      var found := FindInUnit(ws, ws.units[n], target, includeDeclaration);
      results := results + found;
    }
    assert all[..|ws.units|] == all;
  }

  ghost predicate IsRefIn(ws: LoadedWorkspace, target: WorkspaceSymbol, includeDeclaration: bool, r: ReferenceResult, n: nat)
    requires Loaded(ws) && n < |ws.units|
  {
    r.nodeIndex < |ws.units[n].nodes| && RefSite(ws, ws.units[n], r.nodeIndex, target, includeDeclaration) == Some(r)
  }

  lemma UnitRefExists(ws: LoadedWorkspace, target: WorkspaceSymbol, includeDeclaration: bool, r: ReferenceResult, n: nat)
    requires Loaded(ws) && n < |ws.units|
    ensures r in RefsByUnit(ws, target, includeDeclaration)[n] <==> IsRefIn(ws, target, includeDeclaration, r, n)
  {
    var u := ws.units[n];
    var all := UnitRefs(ws, u, target, includeDeclaration);
    PresentExact(all, r);
    if Some(r) in all {
      var i :| 0 <= i < |all| && all[i] == Some(r);
      assert RefSite(ws, u, i, target, includeDeclaration) == Some(r);
    } else if r.nodeIndex < |u.nodes| {
      assert all[r.nodeIndex] in all;
    }
  }

  /** The result is exactly the identifiers that resolve to the target, less its declaration line when asked. */
  lemma ReferencesExact(ws: LoadedWorkspace, target: WorkspaceSymbol, includeDeclaration: bool, r: ReferenceResult)
    requires Loaded(ws)
    ensures r in ReferencesTo(ws, target, includeDeclaration) <==>
      exists n :: 0 <= n < |ws.units| && IsRefIn(ws, target, includeDeclaration, r, n)
  {
    var lists := RefsByUnit(ws, target, includeDeclaration);
    ConcatExact(lists, r);
    forall n | 0 <= n < |ws.units| ensures r in lists[n] <==> IsRefIn(ws, target, includeDeclaration, r, n) {
      UnitRefExists(ws, target, includeDeclaration, r, n);
    }
  }

  /** Identifier `i`, which has a text, resolves to `s`, which is declared as `target` is. */
  ghost predicate Uses(ws: LoadedWorkspace, u: TranslationUnit, i: nat, target: WorkspaceSymbol, s: WorkspaceSymbol)
    requires Loaded(ws) && UnitOk(u) && i < |u.nodes|
  {
    && IsIdentifierAt(u.nodes, i) && u.nodes[i].text != []
    && (assert u.nodeScope[i] == ScopeOf(u.nodes, i); ResolveUse(ws, u, i, ScopeOf(u.nodes, i)) == Resolved(s))
    && s.symbol.fqn == target.symbol.fqn && s.symbol.kind == target.symbol.kind
    && s.sourceFile == target.sourceFile && s.symbol.line == target.symbol.line
  }

  /** `r` reports where node `i` stands and what kind of scope it is in. */
  ghost predicate ReportsUse(u: TranslationUnit, i: nat, target: WorkspaceSymbol, r: ReferenceResult)
    requires UnitOk(u) && i < |u.nodes|
  {
    && r.referencedSymbol == target && r.sourceFile == u.path && r.nodeIndex == i
    && r.line == u.nodes[i].start.row && r.column == u.nodes[i].start.column
    && if u.nodeScope[i] == INVALID_ID then r.owningScope == UnknownScope
       else u.nodeScope[i] < |u.scopes| && r.owningScope == u.scopes[u.nodeScope[i]].kind
  }

  /** Node `i` is on the line that declares `target`, counted from 1, where the last of 2^32 rows wraps to line 0. */
  ghost predicate OnDeclarationLine(u: TranslationUnit, i: nat, target: WorkspaceSymbol)
    requires i < |u.nodes|
  {
    u.path == target.sourceFile && target.symbol.line == if u.nodes[i].start.row < 0xFFFF_FFFF then u.nodes[i].start.row + 1 else 0
  }

  lemma ReportIsRef(u: TranslationUnit, i: nat, target: WorkspaceSymbol, r: ReferenceResult)
    requires UnitOk(u) && i < |u.nodes|
    ensures ReportsUse(u, i, target, r) <==> r == RefAt(u, i, target)
    ensures OnDeclarationLine(u, i, target) <==> AtDeclaration(RefAt(u, i, target), target)
  {
    assert u.nodeScope[i] == ScopeOf(u.nodes, i);
  }

  lemma RefersIsUse(ws: LoadedWorkspace, u: TranslationUnit, i: nat, target: WorkspaceSymbol)
    requires Loaded(ws) && UnitOk(u) && i < |u.nodes|
    ensures RefersTo(ws, u, i, target) <==> exists s :: Uses(ws, u, i, target, s)
  {
    if RefersTo(ws, u, i, target) {
      assert u.nodeScope[i] == ScopeOf(u.nodes, i);
      assert Uses(ws, u, i, target, ResolveUse(ws, u, i, ScopeOf(u.nodes, i)).symbol);
    }
  }

  /** `r` reports an identifier of unit `n` that resolves to the target's declaration, unless it is left out. */
  ghost predicate IsUseIn(ws: LoadedWorkspace, target: WorkspaceSymbol, includeDeclaration: bool, r: ReferenceResult, n: nat)
    requires Loaded(ws) && n < |ws.units|
  {
    var u, i := ws.units[n], r.nodeIndex;
    && i < |u.nodes| && ReportsUse(u, i, target, r) && (includeDeclaration || !OnDeclarationLine(u, i, target))
    && exists s :: Uses(ws, u, i, target, s)
  }

  /** A result is reported exactly when it is that of an identifier, in some unit, that resolves to the target's declaration. */
  lemma ReferencesAreUses(ws: LoadedWorkspace, target: WorkspaceSymbol, includeDeclaration: bool, r: ReferenceResult)
    requires Loaded(ws)
    ensures r in ReferencesTo(ws, target, includeDeclaration) <==>
      exists n :: 0 <= n < |ws.units| && IsUseIn(ws, target, includeDeclaration, r, n)
  {
    ReferencesExact(ws, target, includeDeclaration, r);
    forall n | 0 <= n < |ws.units|
      ensures IsRefIn(ws, target, includeDeclaration, r, n) <==> IsUseIn(ws, target, includeDeclaration, r, n)
    {
      UseIsReported(ws, target, includeDeclaration, r, n);
    }
  }

  lemma UseIsReported(ws: LoadedWorkspace, target: WorkspaceSymbol, includeDeclaration: bool, r: ReferenceResult, n: nat)
    requires Loaded(ws) && n < |ws.units|
    ensures IsRefIn(ws, target, includeDeclaration, r, n) <==> IsUseIn(ws, target, includeDeclaration, r, n)
  {
    if r.nodeIndex < |ws.units[n].nodes| {
      ReportIsRef(ws.units[n], r.nodeIndex, target, r);
      RefersIsUse(ws, ws.units[n], r.nodeIndex, target);
    }
  }

  // ---- Order ----------------------------------------------------------------

  /** `a` stands in an earlier unit than `b`, or in the same unit at an earlier node. */
  ghost predicate Precedes(ws: LoadedWorkspace, a: ReferenceResult, b: ReferenceResult) {
    exists m, n :: 0 <= m <= n < |ws.units| && a.sourceFile == ws.units[m].path && b.sourceFile == ws.units[n].path
      && (m == n ==> a.nodeIndex < b.nodeIndex)
  }

  ghost function Before(ws: LoadedWorkspace): (ReferenceResult, ReferenceResult) -> bool {
    (a: ReferenceResult, b: ReferenceResult) => Precedes(ws, a, b)
  }

  lemma UnitInOrder(ws: LoadedWorkspace, target: WorkspaceSymbol, includeDeclaration: bool, n: nat)
    requires Loaded(ws) && n < |ws.units|
    ensures InOrder(RefsByUnit(ws, target, includeDeclaration)[n], Before(ws))
  {
    var u := ws.units[n];
    var all := UnitRefs(ws, u, target, includeDeclaration);
    forall j, k | 0 <= j < k < |all| && all[j].Some? && all[k].Some? ensures Before(ws)(all[j].value, all[k].value) {
      assert all[j].value.nodeIndex == j && all[k].value.nodeIndex == k;
      assert all[j].value.sourceFile == u.path && all[k].value.sourceFile == ws.units[n].path;
      assert Precedes(ws, all[j].value, all[k].value);
    }
    PresentInOrder(all, Before(ws));
  }

  /** The results come unit by unit, and node by node within a unit; so none comes twice. */
  lemma ReferencesInOrder(ws: LoadedWorkspace, target: WorkspaceSymbol, includeDeclaration: bool)
    requires Loaded(ws)
    ensures InOrder(ReferencesTo(ws, target, includeDeclaration), Before(ws))
  {
    var lists := RefsByUnit(ws, target, includeDeclaration);
    forall n | 0 <= n < |lists| ensures InOrder(lists[n], Before(ws)) {
      UnitInOrder(ws, target, includeDeclaration, n);
    }
    forall m, n, x, y | 0 <= m < n < |lists| && x in lists[m] && y in lists[n] ensures Before(ws)(x, y) {
      UnitRefExists(ws, target, includeDeclaration, x, m);
      UnitRefExists(ws, target, includeDeclaration, y, n);
      assert Precedes(ws, x, y);
    }
    ConcatInOrder(lists, Before(ws));
  }
}
