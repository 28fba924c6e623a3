/** Lexical name lookup by walking the scope ancestors (src/ast-lookup.cpp). */
module Lookups {
  import opened Ast
  import opened Sequences
  import opened Symbols
  import opened ScopeTrees

  /** Which indices name an existing symbol called `name`. */
  function Calls(name: Text, symbols: seq<Symbol>): nat -> bool {
    (i: nat) => i < |symbols| && symbols[i].name == name
  }

  /** The entries of `list` that name an existing symbol called `name`, in list order. */
  function MatchesIn(list: seq<nat>, name: Text, symbols: seq<Symbol>): (r: seq<nat>)
    ensures forall i :: i in r <==> i in list && i < |symbols| && symbols[i].name == name
  {
    Filter(list, Calls(name, symbols))
  }

  /** All matches at the first scope, going outward from `scopeId`, that has any. */
  function Lookup(name: Text, scopeId: nat, scopes: seq<Scope>, symbols: seq<Symbol>): (r: seq<nat>)
    requires Ordered(scopes) && IsScope(scopes, scopeId)
    ensures forall i :: i in r ==> i < |symbols| && symbols[i].name == name
    decreases if scopeId < |scopes| then scopeId + 1 else 0
  {
    if scopeId >= |scopes| then []
    else
      var here := MatchesIn(scopes[scopeId].symbols, name, symbols);
      if here != [] then here else Lookup(name, scopes[scopeId].parent, scopes, symbols)
  }

  /** The matches of one scope's list. */
  method CollectMatches(list: seq<nat>, name: Text, symbols: seq<Symbol>) returns (matches: seq<nat>)
    ensures matches == MatchesIn(list, name, symbols)
  {
    matches := [];
    for k := 0 to |list|
      invariant matches == MatchesIn(list[..k], name, symbols)
    {
      assert list[..k + 1][..k] == list[..k];
      if list[k] < |symbols| && symbols[list[k]].name == name {
        matches := matches + [list[k]];
      }
    }
    assert list[..|list|] == list;
  }

  method LookupWalk(name: Text, scopeId: nat, scopes: seq<Scope>, symbols: seq<Symbol>) returns (result: seq<nat>)
    requires Ordered(scopes) && IsScope(scopes, scopeId)
    ensures result == Lookup(name, scopeId, scopes, symbols)
  {
    result := [];
    var current: nat := scopeId;
    while current != INVALID_ID
      invariant IsScope(scopes, current)
      invariant result == [] && Lookup(name, scopeId, scopes, symbols) == Lookup(name, current, scopes, symbols)
      decreases if current < |scopes| then current + 1 else 0
    {
      result := CollectMatches(scopes[current].symbols, name, symbols);
      if result != [] {
        return;
      }
      current := scopes[current].parent;
    }
  }

  /** Where a lookup answers: the innermost enclosing scope with a match, all of its matches and nothing else. */
  lemma {:induction false} LookupIsInnermost(name: Text, scopeId: nat, scopes: seq<Scope>, symbols: seq<Symbol>)
    requires Ordered(scopes) && scopeId < |scopes|
    ensures Lookup(name, scopeId, scopes, symbols) == [] <==>
      forall s :: 0 <= s < |scopes| && Encloses(scopes, s, scopeId) ==> MatchesIn(scopes[s].symbols, name, symbols) == []
    ensures Lookup(name, scopeId, scopes, symbols) != [] ==>
      exists s :: 0 <= s < |scopes| && Encloses(scopes, s, scopeId)
        && Lookup(name, scopeId, scopes, symbols) == MatchesIn(scopes[s].symbols, name, symbols)
        && forall t :: 0 <= t < |scopes| && Encloses(scopes, t, scopeId) && s < t ==> MatchesIn(scopes[t].symbols, name, symbols) == []
    decreases scopeId
  {
    var parent, here := scopes[scopeId].parent, MatchesIn(scopes[scopeId].symbols, name, symbols);
    assert Encloses(scopes, scopeId, scopeId);
    forall s | 0 <= s < |scopes| && Encloses(scopes, s, scopeId)
      ensures s == scopeId || (s < scopeId && parent < scopeId && Encloses(scopes, s, parent))
    {
    }
    if parent < scopeId {
      LookupIsInnermost(name, parent, scopes, symbols);
      forall s | 0 <= s < |scopes| && Encloses(scopes, s, parent) ensures s < scopeId && Encloses(scopes, s, scopeId) {
        EnclosesIsEarlier(scopes, s, parent);
      }
    }
    if here != [] {
      assert Lookup(name, scopeId, scopes, symbols) == MatchesIn(scopes[scopeId].symbols, name, symbols);
    }
  }

  /** `s` is `scopeId` or one of its ancestors. */
  predicate Encloses(scopes: seq<Scope>, s: nat, scopeId: nat)
    decreases scopeId
  {
    s == scopeId || (s < scopeId < |scopes| && scopes[scopeId].parent < scopeId && Encloses(scopes, s, scopes[scopeId].parent))
  }

  lemma {:induction false} EnclosesIsEarlier(scopes: seq<Scope>, s: nat, scopeId: nat)
    requires Encloses(scopes, s, scopeId)
    ensures s <= scopeId
  {
  }
}
