/** How the answers of Callers, Callees and References agree with each other. */
module CallGraph {
  import opened Ast
  import opened Options
  import opened NodeTypes
  import opened ScopeBuilder
  import opened Units
  import opened CallUtils
  import opened MemberResolution
  import opened Callers
  import opened Callees
  import opened References

  /** Two reports of one call: same place, same declaration called. */
  predicate SameCall(s: CallSite, t: CallSite) {
    && s.sourceFile == t.sourceFile && s.nodeIndex == t.nodeIndex && s.line == t.line && s.column == t.column
    && SameDeclaration(s.callee, t.callee)
  }

  /** Searching the callees of `c` starts at its own node: it is a function definition, or nothing better is known. */
  predicate SearchedInPlace(ws: LoadedWorkspace, u: TranslationUnit, c: WorkspaceSymbol)
  {
    && c.symbol.nodeIndex < |u.nodes|
    && (u.nodes[c.symbol.nodeIndex].nodeType == FUNCTION_DEFINITION || DefinitionFrom(ws, c.symbol.fqn, 0).None?)
  }

  /** A call's target is in the table under the same identity. */
  lemma TargetIsListed(ws: LoadedWorkspace, n: nat, i: nat)
    requires Loaded(ws) && n < |ws.units| && i < |ws.units[n].nodes|
    ensures CallTarget(ws, ws.units[n], i).Some? ==>
      var found := FirstSameFrom(ws.symbols, CallTarget(ws, ws.units[n], i).value, 0);
      found.Some? && found.value in ws.symbols && SameDeclaration(found.value, CallTarget(ws, ws.units[n], i).value)
  {
    var u := ws.units[n];
    if CallTarget(ws, u, i).Some? {
      var ident := CalleeIdentifier(u.nodes, i);
      CalleeInCallScope(u.nodes, i);
      assert u.nodeScope[i] == ScopeOf(u.nodes, i);
      assert u in ws.units;
      ResolvedUseIsDeclared(ws, u, ident, ScopeOf(u.nodes, i));
      var target := CallTarget(ws, u, i).value;
      SameFound(ws.symbols, target, 0);
      var k :| 0 <= k < |ws.symbols| && ws.symbols[k] == target;
      assert SameDeclaration(ws.symbols[k], target);
    }
  }

  /** The subtree searched for the callees of `c` contains node `i` of `u`. */
  predicate SearchCovers(ws: LoadedWorkspace, u: TranslationUnit, c: WorkspaceSymbol, i: nat) {
    BodyOf(ws, c).Some? && BodyOf(ws, c).value.u == u && IsAncestor(u.nodes, BodyOf(ws, c).value.root, i)
  }

  /** A caller that is searched in place is searched around every call reported under it. */
  lemma {:induction false} InPlaceCovers(ws: LoadedWorkspace, n: nat, i: nat, c: WorkspaceSymbol)
    requires Loaded(ws) && n < |ws.units| && i < |ws.units[n].nodes|
    requires EnclosingCaller(ws, ws.units[n], ScopeOf(ws.units[n].nodes, i)) == Some(c) && SearchedInPlace(ws, ws.units[n], c)
    ensures SearchCovers(ws, ws.units[n], c, i)
  {
    CallerContainsCall(ws, ws.units[n], i);
    UnitFound(ws, n);
  }

  /** Units are known by their paths. */
  lemma SamePathSameUnit(ws: LoadedWorkspace, u: TranslationUnit, n: nat)
    requires Loaded(ws) && n < |ws.units| && u in ws.units && u.path == ws.units[n].path
    ensures u == ws.units[n]
  {
    var k :| 0 <= k < |ws.units| && ws.units[k] == u;
    UnitFound(ws, k);
    UnitFound(ws, n);
  }

  /** A table entry is found in the table again, as an entry for the same declaration. */
  lemma {:induction false} ListedAgain(ws: LoadedWorkspace, c: WorkspaceSymbol)
    requires c in ws.symbols
    ensures FirstSameFrom(ws.symbols, c, 0).Some? && SameDeclaration(FirstSameFrom(ws.symbols, c, 0).value, c)
  {
    SameFound(ws.symbols, c, 0);
    var k :| 0 <= k < |ws.symbols| && ws.symbols[k] == c;
    assert SameDeclaration(ws.symbols[k], c);
  }

  lemma CoveredIsCallee(ws: LoadedWorkspace, target: WorkspaceSymbol, s: CallSite, n: nat) returns (t: CallSite)
    requires Loaded(ws) && n < |ws.units| && IsSiteIn(ws, target, s, n)
    requires s.caller.Some? && SearchCovers(ws, ws.units[n], s.caller.value, s.nodeIndex)
    ensures t in CalleesOf(ws, s.caller.value) && SameCall(s, t)
    ensures t.caller.Some? && SameDeclaration(t.caller.value, s.caller.value)
  {
    var u, i, c := ws.units[n], s.nodeIndex, s.caller.value;
    assert u.nodeScope[i] == ScopeOf(u.nodes, i);
    CallerContainsCall(ws, u, i);
    TargetIsListed(ws, n, i);
    ListedAgain(ws, c);
    t := CalleeSite(ws, u, i, FirstSameFrom(ws.symbols, c, 0)).value;
    CalleesExact(ws, c, t);
  }

  ghost predicate HasCallee(ws: LoadedWorkspace, caller: WorkspaceSymbol, s: CallSite)
    requires Loaded(ws)
  {
    exists t :: t in CalleesOf(ws, caller) && SameCall(s, t)
  }

  /** A site that Callers reports under a caller is among that caller's callees exactly when the search covers it. */
  lemma CallersAreCallees(ws: LoadedWorkspace, target: WorkspaceSymbol, s: CallSite, n: nat)
    requires Loaded(ws) && n < |ws.units| && IsSiteIn(ws, target, s, n) && s.caller.Some?
    ensures HasCallee(ws, s.caller.value, s) <==> SearchCovers(ws, ws.units[n], s.caller.value, s.nodeIndex)
    ensures SearchedInPlace(ws, ws.units[n], s.caller.value) ==> HasCallee(ws, s.caller.value, s)
  {
    var u, c := ws.units[n], s.caller.value;
    assert u.nodeScope[s.nodeIndex] == ScopeOf(u.nodes, s.nodeIndex);
    if SearchedInPlace(ws, u, c) {
      InPlaceCovers(ws, n, s.nodeIndex, c);
    }
    if SearchCovers(ws, u, c, s.nodeIndex) {
      var t := CoveredIsCallee(ws, target, s, n);
    }
    if HasCallee(ws, c, s) {
      var t :| t in CalleesOf(ws, c) && SameCall(s, t);
      CalleesExact(ws, c, t);
      SamePathSameUnit(ws, BodyOf(ws, c).value.u, n);
    }
  }

  /** The same from the table alone: a site is missed exactly when the caller is no function definition, and the first
  definition of its name that the table has does not contain the call. */
  lemma {:induction false} MissedByName(ws: LoadedWorkspace, target: WorkspaceSymbol, s: CallSite, n: nat)
    requires Loaded(ws) && n < |ws.units| && IsSiteIn(ws, target, s, n) && s.caller.Some?
    ensures var u, c := ws.units[n], s.caller.value;
      !HasCallee(ws, c, s) <==>
        && !SearchedInPlace(ws, u, c)
        && (DefinitionFrom(ws, c.symbol.fqn, 0).Some? ==>
              var b := DefinitionFrom(ws, c.symbol.fqn, 0).value; !(b.u == u && IsAncestor(u.nodes, b.root, s.nodeIndex)))
  {
    var u, c := ws.units[n], s.caller.value;
    assert u.nodeScope[s.nodeIndex] == ScopeOf(u.nodes, s.nodeIndex);
    CallersAreCallees(ws, target, s, n);
    CallerContainsCall(ws, u, s.nodeIndex);
    UnitFound(ws, n);
  }

  /** Every site that Callees reports is among the callers of the function it calls. */
  lemma CalleesAreCallers(ws: LoadedWorkspace, caller: WorkspaceSymbol, t: CallSite) returns (s: CallSite)
    requires Loaded(ws) && BodyOf(ws, caller).Some? && t in CalleesOf(ws, caller)
    ensures s in CallersOf(ws, t.callee) && SameCall(s, t) && s.callee == t.callee
  {
    CalleesExact(ws, caller, t);
    var u, i := BodyOf(ws, caller).value.u, t.nodeIndex;
    var n :| 0 <= n < |ws.units| && ws.units[n] == u;
    TargetIsListed(ws, n, i);
    var callee := FirstSameFrom(ws.symbols, CallTarget(ws, u, i).value, 0).value;
    assert SameDeclaration(CallTarget(ws, u, i).value, callee);
    s := CallerSite(ws, u, i, callee).value;
    assert IsSiteIn(ws, callee, s, n);
    CallersExact(ws, callee, s);
  }

  /** Every call of a target is a reference to it at the callee identifier, in the same place. */
  lemma CallersAreReferences(ws: LoadedWorkspace, target: WorkspaceSymbol, s: CallSite, n: nat, includeDeclaration: bool) returns (r: ReferenceResult)
    requires Loaded(ws) && n < |ws.units| && IsSiteIn(ws, target, s, n)
    ensures r.nodeIndex == CalleeIdentifier(ws.units[n].nodes, s.nodeIndex)
    ensures r.sourceFile == s.sourceFile && r.line == s.line && r.column == s.column
    ensures r in ReferencesTo(ws, target, true)
    ensures includeDeclaration || !AtDeclaration(r, target) ==> r in ReferencesTo(ws, target, includeDeclaration)
  {
    var u := ws.units[n];
    var ident := CalleeIdentifier(u.nodes, s.nodeIndex);
    CalleeInCallScope(u.nodes, s.nodeIndex);
    r := RefAt(u, ident, target);
    assert RefersTo(ws, u, ident, target);
    assert IsRefIn(ws, target, true, r, n);
    ReferencesExact(ws, target, true, r);
    if includeDeclaration || !AtDeclaration(r, target) {
      assert IsRefIn(ws, target, includeDeclaration, r, n);
      ReferencesExact(ws, target, includeDeclaration, r);
    }
  }

  /** Without the declaration, exactly the references on the declaration's line are missing. */
  lemma DeclarationLineIsMissing(ws: LoadedWorkspace, target: WorkspaceSymbol, r: ReferenceResult)
    requires Loaded(ws)
    ensures r in ReferencesTo(ws, target, false) <==> r in ReferencesTo(ws, target, true) && !AtDeclaration(r, target)
  {
    ReferencesExact(ws, target, false, r);
    ReferencesExact(ws, target, true, r);
    assert forall n :: 0 <= n < |ws.units| ==>
      (IsRefIn(ws, target, false, r, n) <==> IsRefIn(ws, target, true, r, n) && !AtDeclaration(r, target));
  }
}
