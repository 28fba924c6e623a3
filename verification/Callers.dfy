/** Workspace-wide caller discovery (src/ast-callers.cpp). */
module Callers {
  import opened Ast
  import opened Options
  import opened NodeTypes
  import opened Sequences
  import opened ScopeTrees
  import opened ScopeBuilder
  import opened Units
  import opened Resolver
  import opened CallUtils
  import opened MemberResolution

  datatype CallSite = CallSite(
    caller: Option<WorkspaceSymbol>,
    callee: WorkspaceSymbol,
    sourceFile: Text,
    line: U32,
    column: U32,
    nodeIndex: nat)

  /** The declaration that node `i` calls, when it is a call whose callee resolves. */
  ghost function CallTarget(ws: LoadedWorkspace, u: TranslationUnit, i: nat): Option<WorkspaceSymbol>
    requires Loaded(ws) && UnitOk(u) && i < |u.nodes|
  {
    if !IsCallExpression(u.nodes[i].nodeType) then None
    else
      var ident := CalleeIdentifier(u.nodes, i);
      if ident == INVALID_ID then None
      else
        CalleeInCallScope(u.nodes, i);
        assert u.nodeScope[i] == ScopeOf(u.nodes, i);
        if u.nodes[ident].text == [] then None
        else
          var r := ResolveUse(ws, u, ident, ScopeOf(u.nodes, i));
          if r.Resolved? then Some(r.symbol) else None
  }

  /** The site of call `i`, placed at its callee identifier. */
  ghost function SiteAt(u: TranslationUnit, i: nat, caller: Option<WorkspaceSymbol>, callee: WorkspaceSymbol): CallSite
    requires UnitOk(u) && i < |u.nodes| && CalleeIdentifier(u.nodes, i) != INVALID_ID
  {
    CalleeInCallScope(u.nodes, i);
    var p := u.nodes[CalleeIdentifier(u.nodes, i)].start;
    CallSite(caller, callee, u.path, p.row, p.column, i)
  }

  /** Resolves one call, for both call services. */
  method ResolveCall(ws: LoadedWorkspace, u: TranslationUnit, i: nat) returns (target: Option<WorkspaceSymbol>, ident: nat)
    requires Loaded(ws) && UnitOk(u) && i < |u.nodes| && IsCallExpression(u.nodes[i].nodeType)
    ensures target == CallTarget(ws, u, i)
    ensures target.Some? ==> ident == CalleeIdentifier(u.nodes, i) && ident < |u.nodes|
  {
    target := None;
    ident := FindCalleeIdentifier(u.nodes, i);
    if ident == INVALID_ID {
      return;
    }
    CalleeInCallScope(u.nodes, i);
    if u.nodes[ident].text == [] {
      return;
    }
    assert u.nodeScope[i] == ScopeOf(u.nodes, i);
    var scopeId := EntryOr(u.nodeScope, i);
    var resolution := ResolveRelationshipIdentifier(ws, u, ident, scopeId);
    if resolution.Resolved? {
      target := Some(resolution.symbol);
    }
  }

  /** The site to report for node `i`: present when it is a call of `target`. */
  ghost function CallerSite(ws: LoadedWorkspace, u: TranslationUnit, i: nat, target: WorkspaceSymbol): Option<CallSite>
    requires Loaded(ws) && UnitOk(u) && i < |u.nodes|
  {
    var callee := CallTarget(ws, u, i);
    if callee.None? || !SameDeclaration(callee.value, target) then None
    else
      assert u.nodeScope[i] == ScopeOf(u.nodes, i);
      Some(SiteAt(u, i, EnclosingCaller(ws, u, ScopeOf(u.nodes, i)), target))
  }

  ghost function UnitSites(ws: LoadedWorkspace, u: TranslationUnit, target: WorkspaceSymbol): (r: seq<Option<CallSite>>)
    requires Loaded(ws) && UnitOk(u)
    ensures |r| == |u.nodes|
  {
    seq(|u.nodes|, i requires 0 <= i < |u.nodes| => CallerSite(ws, u, i, target))
  }

  ghost function SitesByUnit(ws: LoadedWorkspace, target: WorkspaceSymbol): (r: seq<seq<CallSite>>)
    requires Loaded(ws)
    ensures |r| == |ws.units|
  {
    seq(|ws.units|, n requires 0 <= n < |ws.units| => Present(UnitSites(ws, ws.units[n], target)))
  }

  /** All call sites of `target`, in file and node order. */
  ghost function CallersOf(ws: LoadedWorkspace, target: WorkspaceSymbol): seq<CallSite>
    requires Loaded(ws)
  {
    Concat(SitesByUnit(ws, target))
  }

  method VisitNode(ws: LoadedWorkspace, u: TranslationUnit, i: nat, target: WorkspaceSymbol) returns (site: Option<CallSite>)
    requires Loaded(ws) && UnitOk(u) && i < |u.nodes|
    ensures site == CallerSite(ws, u, i, target)
  {
    if !IsCallExpression(u.nodes[i].nodeType) {
      return None;
    }
    var resolved, ident := ResolveCall(ws, u, i);
    if resolved.None? {
      return None;
    }
    if !SameDeclaration(resolved.value, target) {
      return None;
    }
    assert u.nodeScope[i] == ScopeOf(u.nodes, i);
    var caller := FindEnclosingCaller(ws, u, EntryOr(u.nodeScope, i));
    var p := u.nodes[ident].start;
    site := Some(CallSite(caller, target, u.path, p.row, p.column, i));
  }

  /** Extends the sites of the nodes before `i` by that of node `i`. */
  method AppendSite(ws: LoadedWorkspace, u: TranslationUnit, i: nat, target: WorkspaceSymbol, sites: seq<CallSite>) returns (results: seq<CallSite>)
    requires Loaded(ws) && UnitOk(u) && i < |u.nodes|
    requires sites == Present(UnitSites(ws, u, target)[0..i])
    ensures results == Present(UnitSites(ws, u, target)[0..i + 1])
  {
    var site := VisitNode(ws, u, i, target);
    PresentStep(UnitSites(ws, u, target), 0, i);
    results := if site.Some? then sites + [site.value] else sites;
  }

  method FindInUnit(ws: LoadedWorkspace, u: TranslationUnit, target: WorkspaceSymbol) returns (results: seq<CallSite>)
    requires Loaded(ws) && UnitOk(u)
    ensures results == Present(UnitSites(ws, u, target))
  {
    results := [];
    for i := 0 to |u.nodes|
      invariant results == Present(UnitSites(ws, u, target)[0..i])
    {
      results := AppendSite(ws, u, i, target, results);
    }
    assert UnitSites(ws, u, target)[0..|u.nodes|] == UnitSites(ws, u, target);
  }

  method Find(ws: LoadedWorkspace, target: WorkspaceSymbol) returns (results: seq<CallSite>)
    requires Loaded(ws)
    ensures results == CallersOf(ws, target)
  {
    results := [];
    ghost var all := SitesByUnit(ws, target);
    for n := 0 to |ws.units|
      invariant results == Concat(all[..n])
    {
      ConcatStep(all, n);
      var found := FindInUnit(ws, ws.units[n], target);
      results := results + found;
    }
    assert all[..|ws.units|] == all;
  }

  /** `s` is the site of a call of `target` in unit `n`. */
  ghost predicate IsSiteIn(ws: LoadedWorkspace, target: WorkspaceSymbol, s: CallSite, n: nat)
    requires Loaded(ws) && n < |ws.units|
  {
    s.nodeIndex < |ws.units[n].nodes| && CallerSite(ws, ws.units[n], s.nodeIndex, target) == Some(s)
  }

  lemma UnitSiteExists(ws: LoadedWorkspace, target: WorkspaceSymbol, s: CallSite, n: nat)
    requires Loaded(ws) && n < |ws.units|
    ensures s in SitesByUnit(ws, target)[n] <==> IsSiteIn(ws, target, s, n)
  {
    var u := ws.units[n];
    var all := UnitSites(ws, u, target);
    PresentExact(all, s);
    if Some(s) in all {
      var i :| 0 <= i < |all| && all[i] == Some(s);
      assert CallerSite(ws, u, i, target) == Some(s);
    } else if s.nodeIndex < |u.nodes| {
      assert all[s.nodeIndex] in all;
    }
  }

  /** The result is exactly the calls of the target, wherever they stand. */
  lemma CallersExact(ws: LoadedWorkspace, target: WorkspaceSymbol, s: CallSite)
    requires Loaded(ws)
    ensures s in CallersOf(ws, target) <==> exists n :: 0 <= n < |ws.units| && IsSiteIn(ws, target, s, n)
  {
    var lists := SitesByUnit(ws, target);
    ConcatExact(lists, s);
    forall n | 0 <= n < |ws.units| ensures s in lists[n] <==> IsSiteIn(ws, target, s, n) {
      UnitSiteExists(ws, target, s, n);
    }
  }

  /** Node `i` calls `callee`, which its callee's identifier `ident` resolves to. */
  ghost predicate Calls(ws: LoadedWorkspace, u: TranslationUnit, i: nat, ident: nat, callee: WorkspaceSymbol)
    requires Loaded(ws) && UnitOk(u)
  {
    && i < |u.nodes| && ident < |u.nodes| && u.nodes[i].nodeType in {CALL_EXPRESSION, METHOD_INVOCATION, CALL}
    && NamesCallee(u.nodes, i, ident) && u.nodes[ident].text != []
    && (assert u.nodeScope[i] == ScopeOf(u.nodes, i); ResolveUse(ws, u, ident, ScopeOf(u.nodes, i)) == Resolved(callee))
  }

  lemma TargetIsCalled(ws: LoadedWorkspace, u: TranslationUnit, i: nat)
    requires Loaded(ws) && UnitOk(u) && i < |u.nodes|
    ensures forall callee :: CallTarget(ws, u, i) == Some(callee) <==> exists ident: nat :: Calls(ws, u, i, ident, callee)
    ensures forall ident: nat, callee :: Calls(ws, u, i, ident, callee) ==> ident == CalleeIdentifier(u.nodes, i)
  {
    CalleeIsNamed(u.nodes, i);
    if CallTarget(ws, u, i).Some? {
      CalleeInCallScope(u.nodes, i);
      assert Calls(ws, u, i, CalleeIdentifier(u.nodes, i), CallTarget(ws, u, i).value);
    }
  }

  /** `s` reports call `i` of `u`: where its callee's identifier `ident` stands, and under which caller. */
  ghost predicate Reports(ws: LoadedWorkspace, u: TranslationUnit, i: nat, ident: nat, caller: Option<WorkspaceSymbol>,
                          callee: WorkspaceSymbol, s: CallSite) {
    && ident < |u.nodes| && s.caller == caller && s.callee == callee && s.sourceFile == u.path && s.nodeIndex == i
    && s.line == u.nodes[ident].start.row && s.column == u.nodes[ident].start.column
  }

  /** `s` is the site of call `i` in unit `n`, whose callee is declared as `target` is, under the caller around the call. */
  ghost predicate IsCallOf(ws: LoadedWorkspace, target: WorkspaceSymbol, s: CallSite, n: nat, i: nat, ident: nat, callee: WorkspaceSymbol)
    requires Loaded(ws) && n < |ws.units|
  {
    var u := ws.units[n];
    && Calls(ws, u, i, ident, callee)
    && callee.symbol.fqn == target.symbol.fqn && callee.symbol.kind == target.symbol.kind
    && callee.sourceFile == target.sourceFile && callee.symbol.line == target.symbol.line
    && (assert u.nodeScope[i] == ScopeOf(u.nodes, i);
        Reports(ws, u, i, ident, EnclosingCaller(ws, u, ScopeOf(u.nodes, i)), target, s))
  }

  /** `s` is such a site in unit `n`. */
  ghost predicate IsCallIn(ws: LoadedWorkspace, target: WorkspaceSymbol, s: CallSite, n: nat)
    requires Loaded(ws) && n < |ws.units|
  {
    exists i: nat, ident: nat, callee :: IsCallOf(ws, target, s, n, i, ident, callee)
  }

  lemma SiteIsCall(ws: LoadedWorkspace, target: WorkspaceSymbol, s: CallSite, n: nat)
    requires Loaded(ws) && n < |ws.units|
    ensures IsSiteIn(ws, target, s, n) <==> IsCallIn(ws, target, s, n)
  {
    var u, i := ws.units[n], s.nodeIndex;
    if i < |u.nodes| {
      TargetIsCalled(ws, u, i);
    }
    if IsSiteIn(ws, target, s, n) {
      CalleeInCallScope(u.nodes, i);
      assert u.nodeScope[i] == ScopeOf(u.nodes, i);
      assert IsCallOf(ws, target, s, n, i, CalleeIdentifier(u.nodes, i), CallTarget(ws, u, i).value);
    }
    if j: nat, ident: nat, callee :| IsCallOf(ws, target, s, n, j, ident, callee) {
      assert Calls(ws, u, i, ident, callee);
      assert CallTarget(ws, u, i) == Some(callee);
    }
  }

  /** A site is reported exactly when it is that of a call, in some unit, whose identifier resolves to the target's declaration. */
  lemma CallersAreCalls(ws: LoadedWorkspace, target: WorkspaceSymbol, s: CallSite)
    requires Loaded(ws)
    ensures s in CallersOf(ws, target) <==> exists n :: 0 <= n < |ws.units| && IsCallIn(ws, target, s, n)
  {
    CallersExact(ws, target, s);
    forall n | 0 <= n < |ws.units| ensures IsSiteIn(ws, target, s, n) <==> IsCallIn(ws, target, s, n) {
      SiteIsCall(ws, target, s, n);
    }
  }

  // ---- Order ----------------------------------------------------------------

  /** `a` stands in an earlier unit than `b`, or in the same unit at an earlier node. */
  ghost predicate Precedes(ws: LoadedWorkspace, a: CallSite, b: CallSite) {
    exists m, n :: 0 <= m <= n < |ws.units| && a.sourceFile == ws.units[m].path && b.sourceFile == ws.units[n].path
      && (m == n ==> a.nodeIndex < b.nodeIndex)
  }

  ghost function Before(ws: LoadedWorkspace): (CallSite, CallSite) -> bool {
    (a: CallSite, b: CallSite) => Precedes(ws, a, b)
  }

  lemma UnitInOrder(ws: LoadedWorkspace, target: WorkspaceSymbol, n: nat)
    requires Loaded(ws) && n < |ws.units|
    ensures InOrder(SitesByUnit(ws, target)[n], Before(ws))
  {
    var u := ws.units[n];
    var all := UnitSites(ws, u, target);
    forall j, k | 0 <= j < k < |all| && all[j].Some? && all[k].Some? ensures Before(ws)(all[j].value, all[k].value) {
      assert all[j].value.nodeIndex == j && all[k].value.nodeIndex == k;
      assert all[j].value.sourceFile == u.path && all[k].value.sourceFile == ws.units[n].path;
      assert Precedes(ws, all[j].value, all[k].value);
    }
    PresentInOrder(all, Before(ws));
  }

  /** The results come unit by unit, and node by node within a unit; so none comes twice. */
  lemma CallersInOrder(ws: LoadedWorkspace, target: WorkspaceSymbol)
    requires Loaded(ws)
    ensures InOrder(CallersOf(ws, target), Before(ws))
  {
    var lists := SitesByUnit(ws, target);
    forall n | 0 <= n < |lists| ensures InOrder(lists[n], Before(ws)) {
      UnitInOrder(ws, target, n);
    }
    forall m, n, x, y | 0 <= m < n < |lists| && x in lists[m] && y in lists[n] ensures Before(ws)(x, y) {
      UnitSiteExists(ws, target, x, m);
      UnitSiteExists(ws, target, y, n);
      assert Precedes(ws, x, y);
    }
    ConcatInOrder(lists, Before(ws));
  }
}
