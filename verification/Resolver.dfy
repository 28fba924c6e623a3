/** Identifier resolution over a file's scopes with workspace fallback (src/ast-resolver.cpp). */
module Resolver {
  import opened Ast
  import opened Sequences
  import opened Symbols
  import opened ScopeTrees
  import opened Lookups
  import opened Units

  datatype ResolutionResult =
    | Unresolved
    | Resolved(symbol: WorkspaceSymbol)
    | Ambiguous(candidates: seq<WorkspaceSymbol>)

  function FromCandidates(c: seq<WorkspaceSymbol>): ResolutionResult {
    if |c| == 0 then Unresolved else if |c| == 1 then Resolved(c[0]) else Ambiguous(c)
  }

  /** The workspace symbols that satisfy `p`, in table order. */
  function Where(symbols: seq<WorkspaceSymbol>, p: WorkspaceSymbol -> bool): (r: seq<WorkspaceSymbol>)
    ensures forall s :: s in r <==> s in symbols && p(s)
  {
    Filter(symbols, p)
  }

  /** Those among the first `k`. */
  function WhereUpTo(symbols: seq<WorkspaceSymbol>, p: WorkspaceSymbol -> bool, k: nat): (r: seq<WorkspaceSymbol>)
    requires k <= |symbols|
    ensures k == |symbols| ==> r == Where(symbols, p)
  {
    assert symbols[..|symbols|] == symbols;
    Filter(symbols[..k], p)
  }

  lemma WhereStep(symbols: seq<WorkspaceSymbol>, p: WorkspaceSymbol -> bool, k: nat)
    requires k < |symbols|
    ensures WhereUpTo(symbols, p, k + 1)
         == if p(symbols[k]) then WhereUpTo(symbols, p, k) + [symbols[k]] else WhereUpTo(symbols, p, k)
  {
    assert symbols[..k + 1][..k] == symbols[..k];
  }

  function NameIs(name: Text): WorkspaceSymbol -> bool {
    (s: WorkspaceSymbol) => s.symbol.name == name
  }

  function Named(symbols: seq<WorkspaceSymbol>, name: Text): seq<WorkspaceSymbol> {
    Where(symbols, NameIs(name))
  }

  function Lifted(u: TranslationUnit, indices: seq<nat>): (r: seq<WorkspaceSymbol>)
    requires forall i :: i in indices ==> i < |u.symbols|
    ensures |r| == |indices|
  {
    seq(|indices|, k requires 0 <= k < |indices| => assert indices[k] in indices; Lift(u, indices[k]))
  }

  /** What `name` refers to when used in `scope` of `u`: the innermost lexical matches, else the workspace's. */
  function Resolve(ws: LoadedWorkspace, u: TranslationUnit, name: Text, scope: nat): ResolutionResult
    requires UnitOk(u) && IsScope(u.scopes, scope)
  {
    var indices := Lookup(name, scope, u.scopes, u.symbols);
    FromCandidates(if indices != [] then Lifted(u, indices) else Named(ws.symbols, name))
  }

  method ToWorkspaceSymbol(u: TranslationUnit, symIdx: nat) returns (r: WorkspaceSymbol)
    requires UnitOk(u) && symIdx < |u.symbols|
    ensures r == Lift(u, symIdx)
  {
    assert SymbolMapped(u, symIdx);
    var scopeId := EntryOr(u.symbolScope, symIdx);
    if scopeId == INVALID_ID {
      scopeId := FindSymbolFrom(u.scopes, symIdx, 0);
    }
    r := WorkspaceSymbol(u.symbols[symIdx], u.path, if scopeId != INVALID_ID then u.scopes[scopeId].kind else UnknownScope);
  }

  method ResolveGlobal(ws: LoadedWorkspace, name: Text) returns (r: ResolutionResult)
    ensures r == FromCandidates(Named(ws.symbols, name))
  {
    var candidates := [];
    for k := 0 to |ws.symbols|
      invariant candidates == WhereUpTo(ws.symbols, NameIs(name), k)
    {
      WhereStep(ws.symbols, NameIs(name), k);
      if ws.symbols[k].symbol.name == name {
        candidates := candidates + [ws.symbols[k]];
      }
    }
    r := FromCandidates(candidates);
  }

  method ResolveName(ws: LoadedWorkspace, u: TranslationUnit, name: Text, fromScope: nat) returns (r: ResolutionResult)
    requires UnitOk(u) && IsScope(u.scopes, fromScope)
    ensures r == Resolve(ws, u, name, fromScope)
  {
    var indices := LookupWalk(name, fromScope, u.scopes, u.symbols);
    if indices != [] {
      var candidates := [];
      for k := 0 to |indices|
        invariant candidates == Lifted(u, indices)[..k]
      {
        assert indices[k] in indices;
        var symbol := ToWorkspaceSymbol(u, indices[k]);
        candidates := candidates + [symbol];
      }
      return FromCandidates(candidates);
    }
    r := ResolveGlobal(ws, name);
  }

  function Candidates(r: ResolutionResult): seq<WorkspaceSymbol> {
    match r
    case Unresolved => []
    case Resolved(symbol) => [symbol]
    case Ambiguous(candidates) => candidates
  }

  /** A symbol found in the file itself is in the table of the workspace. */
  lemma {:induction false} LexicalIsDeclared(ws: LoadedWorkspace, u: TranslationUnit, name: Text, scope: nat, s: WorkspaceSymbol)
    requires Loaded(ws) && u in ws.units && UnitOk(u) && IsScope(u.scopes, scope)
    requires s in Lifted(u, Lookup(name, scope, u.scopes, u.symbols))
    ensures s in ws.symbols && s.symbol.name == name
  {
    var i :| 0 <= i < |ws.units| && ws.units[i] == u;
    var indices := Lookup(name, scope, u.scopes, u.symbols);
    var k :| 0 <= k < |indices| && s == Lifted(u, indices)[k];
    assert indices[k] in indices && s == Lift(u, indices[k]);
    assert Declares(ws, Lift(ws.units[i], indices[k]));
  }

  /** Every candidate for an identifier is declared in the workspace under that name. */
  lemma ResolvedIsDeclared(ws: LoadedWorkspace, u: TranslationUnit, name: Text, scope: nat)
    requires Loaded(ws) && u in ws.units && IsScope(u.scopes, scope)
    ensures UnitOk(u)
    ensures forall s :: s in Candidates(Resolve(ws, u, name, scope)) ==> s in ws.symbols && s.symbol.name == name
  {
    var indices := Lookup(name, scope, u.scopes, u.symbols);
    forall s | s in Candidates(Resolve(ws, u, name, scope)) ensures s in ws.symbols && s.symbol.name == name {
      if indices != [] {
        assert s in Lifted(u, indices);
        LexicalIsDeclared(ws, u, name, scope, s);
      } else {
        assert s in Named(ws.symbols, name);
      }
    }
  }

  /** An identifier stays unresolved exactly when no file of the workspace declares its name. */
  lemma UnresolvedIsUndeclared(ws: LoadedWorkspace, u: TranslationUnit, name: Text, scope: nat)
    requires Loaded(ws) && u in ws.units && IsScope(u.scopes, scope)
    ensures UnitOk(u)
    ensures Resolve(ws, u, name, scope).Unresolved? <==> forall s :: s in ws.symbols ==> s.symbol.name != name
  {
    ResolvedIsDeclared(ws, u, name, scope);
    var r := Resolve(ws, u, name, scope);
    if !r.Unresolved? {
      assert Candidates(r)[0] in Candidates(r);
    }
  }

  // ---- What a name resolves to ----------------------------------------------

  /** `s` is the innermost scope around `scope` whose list has an entry called `name`. */
  ghost predicate NamedInnermost(u: TranslationUnit, scope: nat, s: nat, name: Text) {
    && s < |u.scopes| && Encloses(u.scopes, s, scope) && !Nowhere(u.scopes[s].symbols, Calls(name, u.symbols))
    && forall t :: s < t < |u.scopes| && Encloses(u.scopes, t, scope) ==> Nowhere(u.scopes[t].symbols, Calls(name, u.symbols))
  }

  /** No scope around `scope` has an entry called `name`. */
  ghost predicate NamedNowhere(u: TranslationUnit, scope: nat, name: Text) {
    forall s :: 0 <= s < |u.scopes| && Encloses(u.scopes, s, scope) ==> Nowhere(u.scopes[s].symbols, Calls(name, u.symbols))
  }

  lemma {:induction false} InnermostIsLookup(u: TranslationUnit, scope: nat, s: nat, name: Text)
    requires UnitOk(u) && scope < |u.scopes| && NamedInnermost(u, scope, s, name)
    ensures Lookup(name, scope, u.scopes, u.symbols) == Filter(u.scopes[s].symbols, Calls(name, u.symbols))
    ensures Lookup(name, scope, u.scopes, u.symbols) != []
  {
    LookupIsInnermost(name, scope, u.scopes, u.symbols);
    FilterNone(u.scopes[s].symbols, Calls(name, u.symbols));
    assert MatchesIn(u.scopes[s].symbols, name, u.symbols) != [];
    var t :| 0 <= t < |u.scopes| && Encloses(u.scopes, t, scope)
      && Lookup(name, scope, u.scopes, u.symbols) == MatchesIn(u.scopes[t].symbols, name, u.symbols)
      && forall r :: 0 <= r < |u.scopes| && Encloses(u.scopes, r, scope) && t < r ==> MatchesIn(u.scopes[r].symbols, name, u.symbols) == [];
    FilterNone(u.scopes[t].symbols, Calls(name, u.symbols));
    assert !(t < s) && !(s < t);
  }

  lemma {:induction false} NowhereIsNoLookup(u: TranslationUnit, scope: nat, name: Text)
    requires UnitOk(u) && IsScope(u.scopes, scope) && NamedNowhere(u, scope, name)
    ensures Lookup(name, scope, u.scopes, u.symbols) == []
  {
    if scope < |u.scopes| {
      forall s | 0 <= s < |u.scopes| && Encloses(u.scopes, s, scope) ensures MatchesIn(u.scopes[s].symbols, name, u.symbols) == [] {
        FilterNone(u.scopes[s].symbols, Calls(name, u.symbols));
      }
      LookupIsInnermost(name, scope, u.scopes, u.symbols);
    }
  }

  /** A name that scopes around declare: resolved exactly when one entry of the innermost such scope has it, and then to
  that entry; ambiguous exactly when several do. */
  lemma ResolvesInScope(ws: LoadedWorkspace, u: TranslationUnit, name: Text, scope: nat, s: nat)
    requires UnitOk(u) && scope < |u.scopes| && NamedInnermost(u, scope, s, name)
    ensures var r, list, p := Resolve(ws, u, name, scope), u.scopes[s].symbols, Calls(name, u.symbols);
      var picked: seq<nat> := Filter<nat>(list, p);
      && (r.Resolved? <==> exists k :: SoleAt(list, p, k))
      && (forall k: nat :: SoleAt(list, p, k) ==> r == Resolved(Lift(u, list[k])))
      && (r.Ambiguous? <==> Several(list, p))
      && |Candidates(r)| == |picked|
      && forall k :: 0 <= k < |picked| ==> picked[k] < |u.symbols| && Candidates(r)[k] == Lift(u, picked[k])
  {
    var list, p := u.scopes[s].symbols, Calls(name, u.symbols);
    InnermostIsLookup(u, scope, s, name);
    FilterCounts(list, p);
    var picked: seq<nat> := Filter<nat>(list, p);
    forall k | 0 <= k < |picked| ensures picked[k] < |u.symbols| {
      assert picked[k] in picked;
    }
    forall k: nat | SoleAt(list, p, k) ensures Resolve(ws, u, name, scope) == Resolved(Lift(u, list[k])) {
      assert Lifted(u, [list[k]]) == [Lift(u, list[k])];
    }
  }

  /** A name that no scope around declares: resolved exactly when one position of the workspace's table has it, and then
  to that symbol; ambiguous exactly when several do. */
  lemma ResolvesInTable(ws: LoadedWorkspace, u: TranslationUnit, name: Text, scope: nat)
    requires UnitOk(u) && IsScope(u.scopes, scope) && NamedNowhere(u, scope, name)
    ensures var r := Resolve(ws, u, name, scope);
      && (r.Resolved? <==> exists k :: SoleAt(ws.symbols, NameIs(name), k))
      && (forall k: nat :: SoleAt(ws.symbols, NameIs(name), k) ==> r == Resolved(ws.symbols[k]))
      && (r.Ambiguous? <==> Several(ws.symbols, NameIs(name)))
      && (r.Unresolved? <==> Nowhere(ws.symbols, NameIs(name)))
      && Candidates(r) == Filter(ws.symbols, NameIs(name))
  {
    NowhereIsNoLookup(u, scope, name);
    FilterCounts(ws.symbols, NameIs(name));
    FilterNone(ws.symbols, NameIs(name));
  }

  /** One of the two cases always holds. */
  lemma InnermostOrNowhere(u: TranslationUnit, scope: nat, name: Text)
    requires UnitOk(u) && scope < |u.scopes|
    ensures NamedNowhere(u, scope, name) || exists s :: NamedInnermost(u, scope, s, name)
  {
    LookupIsInnermost(name, scope, u.scopes, u.symbols);
    forall s | 0 <= s < |u.scopes| ensures MatchesIn(u.scopes[s].symbols, name, u.symbols) == [] <==> Nowhere(u.scopes[s].symbols, Calls(name, u.symbols)) {
      FilterNone(u.scopes[s].symbols, Calls(name, u.symbols));
    }
    if Lookup(name, scope, u.scopes, u.symbols) != [] {
      var s :| 0 <= s < |u.scopes| && Encloses(u.scopes, s, scope)
        && Lookup(name, scope, u.scopes, u.symbols) == MatchesIn(u.scopes[s].symbols, name, u.symbols)
        && forall t :: 0 <= t < |u.scopes| && Encloses(u.scopes, t, scope) && s < t ==> MatchesIn(u.scopes[t].symbols, name, u.symbols) == [];
      assert NamedInnermost(u, scope, s, name);
    }
  }
}
