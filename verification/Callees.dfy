/** Callees of one function (src/ast-callees.cpp). */
module Callees {
  import opened Ast
  import opened Options
  import opened Sequences
  import opened NodeTypes
  import opened TreeWalk
  import opened Units
  import opened CallUtils
  import opened Callers

  datatype Body = Body(u: TranslationUnit, root: nat)

  /** The function definition that symbol `s` stands for, when it has one. */
  function DefinitionOf(ws: LoadedWorkspace, s: WorkspaceSymbol): Option<Body> {
    match FindUnit(ws, s.sourceFile)
    case None => None
    case Some(u) =>
      if s.symbol.nodeIndex < |u.nodes| && u.nodes[s.symbol.nodeIndex].nodeType == FUNCTION_DEFINITION
      then Some(Body(u, s.symbol.nodeIndex)) else None
  }

  /** The first function definition under `fqn` in the table from `k` on. */
  function DefinitionFrom(ws: LoadedWorkspace, fqn: Text, k: nat): (r: Option<Body>)
    ensures r.Some? ==> r.value.u in ws.units && r.value.root < |r.value.u.nodes|
    decreases |ws.symbols| - k
  {
    if k >= |ws.symbols| then None
    else
      var s := ws.symbols[k];
      if s.symbol.fqn == fqn && s.symbol.kind.Function? && DefinitionOf(ws, s).Some? then DefinitionOf(ws, s)
      else DefinitionFrom(ws, fqn, k + 1)
  }

  /** The subtree searched for a caller: its own node, or an out-of-line definition when that node is not one. */
  function BodyOf(ws: LoadedWorkspace, caller: WorkspaceSymbol): (r: Option<Body>)
    ensures r.Some? ==> r.value.u in ws.units && r.value.root < |r.value.u.nodes|
  {
    match FindUnit(ws, caller.sourceFile)
    case None => None
    case Some(u) =>
      var root := caller.symbol.nodeIndex;
      if root >= |u.nodes| then None
      else if u.nodes[root].nodeType == FUNCTION_DEFINITION then Some(Body(u, root))
      else
        match DefinitionFrom(ws, caller.symbol.fqn, 0)
        case Some(b) => Some(b)
        case None => Some(Body(u, root))
  }

  /** The site to report for node `i`: present when it is a call whose target the table lists. */
  ghost function CalleeSite(ws: LoadedWorkspace, u: TranslationUnit, i: nat, caller: Option<WorkspaceSymbol>): Option<CallSite>
    requires Loaded(ws) && UnitOk(u) && i < |u.nodes|
  {
    match CallTarget(ws, u, i)
    case None => None
    case Some(target) =>
      match FirstSameFrom(ws.symbols, target, 0)
      case None => None
      case Some(callee) => Some(SiteAt(u, i, caller, callee))
  }

  ghost function AllSites(ws: LoadedWorkspace, u: TranslationUnit, caller: Option<WorkspaceSymbol>): (r: seq<Option<CallSite>>)
    requires Loaded(ws) && UnitOk(u)
    ensures |r| == |u.nodes|
  {
    seq(|u.nodes|, i requires 0 <= i < |u.nodes| => CalleeSite(ws, u, i, caller))
  }

  /** The sites below the caller's body, in increasing node order. */
  ghost function CalleesOf(ws: LoadedWorkspace, caller: WorkspaceSymbol): seq<CallSite>
    requires Loaded(ws)
  {
    match BodyOf(ws, caller)
    case None => []
    case Some(b) =>
      EndBounds(b.u.nodes, b.root);
      Present(AllSites(ws, b.u, FirstSameFrom(ws.symbols, caller, 0))[b.root..End(b.u.nodes, b.root)])
  }

  method LocateBody(ws: LoadedWorkspace, caller: WorkspaceSymbol) returns (body: Option<Body>)
    ensures body == BodyOf(ws, caller)
  {
    var unit := FindUnit(ws, caller.sourceFile);
    if unit.None? {
      return None;
    }
    var u, root := unit.value, caller.symbol.nodeIndex;
    if root >= |u.nodes| {
      return None;
    }
    if u.nodes[root].nodeType != FUNCTION_DEFINITION {
      for k := 0 to |ws.symbols|
        invariant DefinitionFrom(ws, caller.symbol.fqn, 0) == DefinitionFrom(ws, caller.symbol.fqn, k)
      {
        var sym := ws.symbols[k];
        if sym.symbol.fqn != caller.symbol.fqn {
          continue;
        }
        if !sym.symbol.kind.Function? {
          continue;
        }
        var defUnit := FindUnit(ws, sym.sourceFile);
        if defUnit.None? || sym.symbol.nodeIndex >= |defUnit.value.nodes| {
          continue;
        }
        if defUnit.value.nodes[sym.symbol.nodeIndex].nodeType == FUNCTION_DEFINITION {
          return Some(Body(defUnit.value, sym.symbol.nodeIndex));
        }
      }
    }
    body := Some(Body(u, root));
  }

  method VisitCall(ws: LoadedWorkspace, u: TranslationUnit, i: nat, caller: Option<WorkspaceSymbol>) returns (site: Option<CallSite>)
    requires Loaded(ws) && UnitOk(u) && i < |u.nodes| && IsCallExpression(u.nodes[i].nodeType)
    ensures site == CalleeSite(ws, u, i, caller)
  {
    var resolved, ident := ResolveCall(ws, u, i);
    if resolved.None? {
      return None;
    }
    var callee := FindInWorkspace(ws, resolved.value);
    if callee.None? {
      return None;
    }
    var p := u.nodes[ident].start;
    site := Some(CallSite(caller, callee.value, u.path, p.row, p.column, i));
  }

  /** Extends the sites of the nodes from `root` up to `i` by that of node `i`. */
  method AppendSite(ws: LoadedWorkspace, u: TranslationUnit, root: nat, i: nat, caller: Option<WorkspaceSymbol>, sites: seq<CallSite>)
    returns (results: seq<CallSite>)
    requires Loaded(ws) && UnitOk(u) && root <= i < |u.nodes|
    requires sites == Present(AllSites(ws, u, caller)[root..i])
    ensures results == Present(AllSites(ws, u, caller)[root..i + 1])
  {
    results := sites;
    PresentStep(AllSites(ws, u, caller), root, i);
    SiteSitsAt(ws, u, caller, i);
    if IsCallExpression(u.nodes[i].nodeType) {
      var site := VisitCall(ws, u, i, caller);
      if site.Some? {
        results := results + [site.value];
      }
    }
  }

  /** The explicit-stack walk visits exactly the subtree of `root`, in increasing node order. */
  method VisitCallExpressions(ws: LoadedWorkspace, u: TranslationUnit, root: nat, caller: Option<WorkspaceSymbol>) returns (results: seq<CallSite>)
    requires Loaded(ws) && UnitOk(u) && root < |u.nodes|
    ensures root < End(u.nodes, root) <= |u.nodes|
    ensures results == Present(AllSites(ws, u, caller)[root..End(u.nodes, root)])
  {
    var nodes := u.nodes;
    EndBounds(nodes, root);
    ghost var to := End(nodes, root);
    results := [];
    var stack: seq<nat> := [root];
    ghost var next: nat := root;
    assert stack[..0] == [];
    while stack != []
      invariant root <= next <= to <= |nodes| && Tiles(nodes, stack, next, to)
      invariant results == Present(AllSites(ws, u, caller)[root..next])
      decreases |nodes| - next
    {
      TilesEnd(nodes, stack, next, to);
      var curr, rest := stack[|stack| - 1], stack[..|stack| - 1];
      results := AppendSite(ws, u, root, curr, caller, results);
      TilesStep(nodes, rest, curr, to);
      stack := PushChildren(nodes, rest, curr);
      next := next + 1;
      TilesEnd(nodes, stack, next, to);
    }
  }

  /** Pushes the children so that the leftmost is on top. */
  method PushChildren(nodes: seq<Node>, rest: seq<nat>, i: nat) returns (stack: seq<nat>)
    requires WellFormed(nodes) && i < |nodes|
    ensures stack == rest + Reversed(nodes[i].children)
  {
    var children := nodes[i].children;
    assert Linked(nodes, i);
    stack := rest;
    for k := |children| downto 0
      invariant stack == rest + Reversed(children[k..])
    {
      assert children[k..][1..] == children[k + 1..];
      if children[k] != INVALID_ID {
        stack := stack + [children[k]];
      }
    }
    assert children[0..] == children;
  }

  method Find(ws: LoadedWorkspace, caller: WorkspaceSymbol) returns (results: seq<CallSite>)
    requires Loaded(ws)
    ensures results == CalleesOf(ws, caller)
  {
    var body := LocateBody(ws, caller);
    if body.None? {
      return [];
    }
    var callerPtr := FindInWorkspace(ws, caller);
    results := VisitCallExpressions(ws, body.value.u, body.value.root, callerPtr);
  }

  lemma SiteSitsAt(ws: LoadedWorkspace, u: TranslationUnit, caller: Option<WorkspaceSymbol>, i: nat)
    requires Loaded(ws) && UnitOk(u) && i < |u.nodes|
    ensures AllSites(ws, u, caller)[i] == CalleeSite(ws, u, i, caller)
    ensures CalleeSite(ws, u, i, caller).Some? ==> CalleeSite(ws, u, i, caller).value.nodeIndex == i
  {
  }

  /** The result is exactly the resolvable calls below the body's root. */
  lemma {:induction false} CalleesExact(ws: LoadedWorkspace, caller: WorkspaceSymbol, s: CallSite)
    requires Loaded(ws) && BodyOf(ws, caller).Some?
    ensures var b := BodyOf(ws, caller).value;
      s in CalleesOf(ws, caller) <==>
        && s.nodeIndex < |b.u.nodes| && IsAncestor(b.u.nodes, b.root, s.nodeIndex)
        && CalleeSite(ws, b.u, s.nodeIndex, FirstSameFrom(ws.symbols, caller, 0)) == Some(s)
  {
    var b := BodyOf(ws, caller).value;
    var symbol := FirstSameFrom(ws.symbols, caller, 0);
    SubtreeSitesExact(ws, b.u, symbol, b.root, s);
  }

  lemma {:induction false} SubtreeSitesExact(ws: LoadedWorkspace, u: TranslationUnit, caller: Option<WorkspaceSymbol>, root: nat, s: CallSite)
    requires Loaded(ws) && UnitOk(u) && root < |u.nodes|
    ensures root < End(u.nodes, root) <= |u.nodes|
    ensures s in Present(AllSites(ws, u, caller)[root..End(u.nodes, root)]) <==>
        && s.nodeIndex < |u.nodes| && IsAncestor(u.nodes, root, s.nodeIndex)
        && CalleeSite(ws, u, s.nodeIndex, caller) == Some(s)
  {
    var all, to := AllSites(ws, u, caller), End(u.nodes, root);
    EndBounds(u.nodes, root);
    PresentInSlice(all, root, to, s);
    if k :| root <= k < to && all[k] == Some(s) {
      SiteSitsAt(ws, u, caller, k);
      SubtreeIsInterval(u.nodes, root, k);
    } else if s.nodeIndex < |u.nodes| {
      SiteSitsAt(ws, u, caller, s.nodeIndex);
      SubtreeIsInterval(u.nodes, root, s.nodeIndex);
    }
  }

  /** `s` is the site of call `i` of `u`, whose callee is declared as the first such entry of the table is. */
  ghost predicate IsCallBelow(ws: LoadedWorkspace, u: TranslationUnit, caller: WorkspaceSymbol, s: CallSite, i: nat, ident: nat,
                              target: WorkspaceSymbol, callee: WorkspaceSymbol)
    requires Loaded(ws) && UnitOk(u)
  {
    && Calls(ws, u, i, ident, target) && IsFirst(ws.symbols, IsSame(target), Some(callee))
    && IsFirst(ws.symbols, IsSame(caller), s.caller) && Reports(ws, u, i, ident, s.caller, callee, s)
  }

  /** `s` is such a site below `root`. */
  ghost predicate IsCallUnder(ws: LoadedWorkspace, u: TranslationUnit, root: nat, caller: WorkspaceSymbol, s: CallSite)
    requires Loaded(ws) && UnitOk(u)
  {
    && IsAncestor(u.nodes, root, s.nodeIndex)
    && exists i: nat, ident: nat, target, callee :: IsCallBelow(ws, u, caller, s, i, ident, target, callee)
  }

  lemma {:induction false} OnlyOneFirstSame(symbols: seq<WorkspaceSymbol>, sym: WorkspaceSymbol)
    ensures forall r :: IsFirst(symbols, IsSame(sym), r) <==> r == FirstSameFrom(symbols, sym, 0)
  {
    FirstSameIsFirst(symbols, sym, 0);
    var p, f := IsSame(sym), FirstSameFrom(symbols, sym, 0);
    forall r | IsFirst(symbols, p, r) ensures r == f {
      if r.Some? && f.Some? {
        var a :| 0 <= a < |symbols| && symbols[a] == r.value && p(symbols[a]) && forall j :: 0 <= j < a ==> !p(symbols[j]);
        var b :| 0 <= b < |symbols| && symbols[b] == f.value && p(symbols[b]) && forall j :: 0 <= j < b ==> !p(symbols[j]);
        assert !(a < b) && !(b < a);
      }
    }
  }

  lemma {:induction false} SiteIsCallBelow(ws: LoadedWorkspace, u: TranslationUnit, root: nat, caller: WorkspaceSymbol, s: CallSite)
    requires Loaded(ws) && UnitOk(u) && s.nodeIndex < |u.nodes|
    ensures CalleeSite(ws, u, s.nodeIndex, FirstSameFrom(ws.symbols, caller, 0)) == Some(s) <==>
      exists i: nat, ident: nat, target, callee :: IsCallBelow(ws, u, caller, s, i, ident, target, callee)
  {
    var i := s.nodeIndex;
    var r := CalleeSite(ws, u, i, FirstSameFrom(ws.symbols, caller, 0));
    TargetIsCalled(ws, u, i);
    OnlyOneFirstSame(ws.symbols, caller);
    if CallTarget(ws, u, i).Some? {
      OnlyOneFirstSame(ws.symbols, CallTarget(ws, u, i).value);
    }
    if r == Some(s) {
      CalleeInCallScope(u.nodes, i);
      assert IsCallBelow(ws, u, caller, s, i, CalleeIdentifier(u.nodes, i), CallTarget(ws, u, i).value, s.callee);
    }
    if j: nat, ident: nat, target, callee :| IsCallBelow(ws, u, caller, s, j, ident, target, callee) {
      assert CallTarget(ws, u, i) == Some(target);
    }
  }

  /** A site is reported exactly when it is that of a call below the body's root whose identifier resolves to a listed
  declaration; it names the first entry for the callee and the first one for the caller. */
  lemma CalleesAreCalls(ws: LoadedWorkspace, caller: WorkspaceSymbol, s: CallSite)
    requires Loaded(ws) && BodyOf(ws, caller).Some?
    ensures var b := BodyOf(ws, caller).value; s in CalleesOf(ws, caller) <==> IsCallUnder(ws, b.u, b.root, caller, s)
  {
    var b := BodyOf(ws, caller).value;
    CalleesExact(ws, caller, s);
    if s.nodeIndex < |b.u.nodes| {
      SiteIsCallBelow(ws, b.u, b.root, caller, s);
    }
  }

  // ---- Where the body is ----------------------------------------------------

  /** `s` is a function of that name and stands for a function definition. */
  function Defines(ws: LoadedWorkspace, fqn: Text): WorkspaceSymbol -> bool {
    (s: WorkspaceSymbol) => s.symbol.fqn == fqn && s.symbol.kind.Function? && DefinitionOf(ws, s).Some?
  }

  lemma {:induction false} DefinitionIsFirst(ws: LoadedWorkspace, fqn: Text, k: nat)
    requires k <= |ws.symbols| && forall j :: 0 <= j < k ==> !Defines(ws, fqn)(ws.symbols[j])
    ensures match DefinitionFrom(ws, fqn, k)
      case None => IsFirst(ws.symbols, Defines(ws, fqn), None)
      case Some(b) => exists s :: IsFirst(ws.symbols, Defines(ws, fqn), Some(s)) && DefinitionOf(ws, s) == Some(b)
    decreases |ws.symbols| - k
  {
    if k < |ws.symbols| {
      var s := ws.symbols[k];
      if Defines(ws, fqn)(s) {
        assert IsFirst(ws.symbols, Defines(ws, fqn), Some(s));
      } else {
        DefinitionIsFirst(ws, fqn, k + 1);
      }
    }
  }

  /** The definition that a symbol of unit `n` stands for. */
  lemma DefinitionIsNode(ws: LoadedWorkspace, s: WorkspaceSymbol, n: nat)
    requires Loaded(ws) && n < |ws.units| && s.sourceFile == ws.units[n].path
    ensures var u, i := ws.units[n], s.symbol.nodeIndex;
      if i < |u.nodes| && u.nodes[i].nodeType == FUNCTION_DEFINITION then DefinitionOf(ws, s) == Some(Body(u, i))
      else DefinitionOf(ws, s) == None
  {
    UnitFound(ws, n);
  }

  /** Where a caller of unit `n` is searched: at its own node when that is a function definition, else at the definition of
  the first function of its name that has one, else at its own node after all. */
  lemma BodyIsOwn(ws: LoadedWorkspace, caller: WorkspaceSymbol, n: nat)
    requires Loaded(ws) && n < |ws.units| && caller.sourceFile == ws.units[n].path && caller.symbol.nodeIndex < |ws.units[n].nodes|
    ensures var u, root := ws.units[n], caller.symbol.nodeIndex;
      if u.nodes[root].nodeType == FUNCTION_DEFINITION then BodyOf(ws, caller) == Some(Body(u, root))
      else
        && (IsFirst(ws.symbols, Defines(ws, caller.symbol.fqn), None) ==> BodyOf(ws, caller) == Some(Body(u, root)))
        && forall s :: IsFirst(ws.symbols, Defines(ws, caller.symbol.fqn), Some(s)) ==> BodyOf(ws, caller) == DefinitionOf(ws, s)
  {
    UnitFound(ws, n);
    DefinitionIsFirst(ws, caller.symbol.fqn, 0);
  }

  /** The results come node by node, so that none comes twice. */
  lemma CalleesInOrder(ws: LoadedWorkspace, caller: WorkspaceSymbol)
    requires Loaded(ws)
    ensures InOrder(CalleesOf(ws, caller), (a: CallSite, b: CallSite) => a.nodeIndex < b.nodeIndex)
  {
    if BodyOf(ws, caller).Some? {
      var b := BodyOf(ws, caller).value;
      var symbol := FirstSameFrom(ws.symbols, caller, 0);
      EndBounds(b.u.nodes, b.root);
      var part := AllSites(ws, b.u, symbol)[b.root..End(b.u.nodes, b.root)];
      forall k | 0 <= k < |part| && part[k].Some? ensures part[k].value.nodeIndex == b.root + k {
        SiteSitsAt(ws, b.u, symbol, b.root + k);
      }
      PresentInOrder(part, (a: CallSite, b: CallSite) => a.nodeIndex < b.nodeIndex);
    }
  }
}
