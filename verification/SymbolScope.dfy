/** Attaching symbols to scopes (src/ast-symbol-scope.cpp). */
module SymbolScope {
  import opened Ast
  import opened Symbols
  import opened ScopeTrees
  import opened ScopeBuilder

  /** The scope that declares `sym`, or INVALID_ID: the scope around its node when that node opens a scope of its own. */
  function Owner(scopes: seq<Scope>, nodeScope: seq<nat>, sym: Symbol): nat {
    if sym.nodeIndex == INVALID_ID then INVALID_ID
    else
      var s := EntryOr(nodeScope, sym.nodeIndex);
      if s < |scopes| && scopes[s].nodeIndex == sym.nodeIndex && scopes[s].parent != INVALID_ID
      then scopes[s].parent
      else s
  }

  /** The scope vector after the first `k` symbols have been attached. */
  function WithSymbols(scopes: seq<Scope>, nodeScope: seq<nat>, symbols: seq<Symbol>, k: nat): (r: seq<Scope>)
    requires k <= |symbols|
    ensures |r| == |scopes|
  {
    if k == 0 then scopes
    else
      var r := WithSymbols(scopes, nodeScope, symbols, k - 1);
      var s := Owner(scopes, nodeScope, symbols[k - 1]);
      if s < |r| then AddSymbolTo(r, s, k - 1) else r
  }

  /** Attaching symbols changes nothing else about a scope. */
  lemma {:induction false} OnlySymbolsChange(scopes: seq<Scope>, nodeScope: seq<nat>, symbols: seq<Symbol>, k: nat, s: nat)
    requires k <= |symbols| && s < |scopes|
    ensures WithSymbols(scopes, nodeScope, symbols, k)[s] == scopes[s].(symbols := WithSymbols(scopes, nodeScope, symbols, k)[s].symbols)
  {
    if k > 0 {
      OnlySymbolsChange(scopes, nodeScope, symbols, k - 1, s);
    }
  }

  function Owners(scopes: seq<Scope>, nodeScope: seq<nat>, symbols: seq<Symbol>, k: nat): (r: seq<nat>)
    requires k <= |symbols|
    ensures |r| == |symbols|
    ensures forall i :: 0 <= i < |r| ==> r[i] == if i < k then Owner(scopes, nodeScope, symbols[i]) else INVALID_ID
  {
    seq(|symbols|, i requires 0 <= i < |symbols| => if i < k then Owner(scopes, nodeScope, symbols[i]) else INVALID_ID)
  }

  /** Node map entries and parents name existing scopes, or none. */
  ghost predicate Consistent(scopes: seq<Scope>, nodeScope: seq<nat>) {
    && |scopes| < INVALID_ID
    && (forall i :: 0 <= i < |nodeScope| ==> IsScope(scopes, nodeScope[i]))
    && (forall s :: 0 <= s < |scopes| ==> IsScope(scopes, scopes[s].parent))
  }

  lemma AssociateStep(scopes: seq<Scope>, nodeScope: seq<nat>, symbols: seq<Symbol>, i: nat)
    requires Consistent(scopes, nodeScope) && i < |symbols|
    ensures WithSymbols(scopes, nodeScope, symbols, i + 1)
         == var owner, r := Owner(scopes, nodeScope, symbols[i]), WithSymbols(scopes, nodeScope, symbols, i);
            if owner < |r| then AddSymbolTo(r, owner, i) else r
    ensures IsScope(scopes, Owner(scopes, nodeScope, symbols[i]))
    ensures Owners(scopes, nodeScope, symbols, i + 1)
         == Owners(scopes, nodeScope, symbols, i)[i := Owner(scopes, nodeScope, symbols[i])]
  {
  }

  method AssociateSymbols(tree: ScopeTree, symbols: seq<Symbol>)
    requires Consistent(tree.scopes, tree.nodeScope)
    modifies tree
    ensures tree.scopes == WithSymbols(old(tree.scopes), old(tree.nodeScope), symbols, |symbols|)
    ensures tree.symbolScope == Owners(old(tree.scopes), old(tree.nodeScope), symbols, |symbols|)
    ensures tree.nodeScope == old(tree.nodeScope)
  {
    tree.ReserveSymbolMap(|symbols|);
    ghost var scopes, nodeScope := tree.scopes, tree.nodeScope;
    assert tree.symbolScope == Owners(scopes, nodeScope, symbols, 0);
    for i := 0 to |symbols|
      invariant tree.nodeScope == nodeScope
      invariant tree.scopes == WithSymbols(scopes, nodeScope, symbols, i)
      invariant tree.symbolScope == Owners(scopes, nodeScope, symbols, i)
    {
      ghost var owner := Owner(scopes, nodeScope, symbols[i]);
      AssociateStep(scopes, nodeScope, symbols, i);
      var sym := symbols[i];
      if sym.nodeIndex == INVALID_ID {
        continue;
      }
      var scopeId := tree.GetNodeScope(sym.nodeIndex);
      if scopeId == INVALID_ID {
        continue;
      }
      OnlySymbolsChange(scopes, nodeScope, symbols, i, scopeId);
      if tree.scopes[scopeId].nodeIndex == sym.nodeIndex {
        var parent := tree.scopes[scopeId].parent;
        if parent != INVALID_ID {
          scopeId := parent;
        }
      }
      assert scopeId == owner;
      tree.AddSymbol(scopeId, i);
      tree.SetScopeOfSymbol(i, scopeId);
    }
  }

  /** List of scope `s`: exactly the symbols it owns among the first `k`, in increasing order. */
  ghost predicate SymbolListExact(scopes: seq<Scope>, nodeScope: seq<nat>, symbols: seq<Symbol>, k: nat, list: seq<nat>, s: nat)
    requires k <= |symbols|
  {
    && (forall j, m :: 0 <= j < m < |list| ==> list[j] < list[m])
    && (forall i: nat :: i in list <==> i < k && Owner(scopes, nodeScope, symbols[i]) == s)
  }

  ghost predicate NoSymbols(scopes: seq<Scope>) {
    forall s :: 0 <= s < |scopes| ==> scopes[s].symbols == []
  }

  /** Each symbol sits in the list of its owner and nowhere else, and lists follow symbol order. */
  lemma {:induction false} SymbolListsExact(scopes: seq<Scope>, nodeScope: seq<nat>, symbols: seq<Symbol>, k: nat)
    requires NoSymbols(scopes) && k <= |symbols|
    ensures forall s :: 0 <= s < |scopes| ==>
      SymbolListExact(scopes, nodeScope, symbols, k, WithSymbols(scopes, nodeScope, symbols, k)[s].symbols, s)
  {
    if k > 0 {
      SymbolListsExact(scopes, nodeScope, symbols, k - 1);
      var was, now := WithSymbols(scopes, nodeScope, symbols, k - 1), WithSymbols(scopes, nodeScope, symbols, k);
      var owner := Owner(scopes, nodeScope, symbols[k - 1]);
      forall s | 0 <= s < |scopes| ensures SymbolListExact(scopes, nodeScope, symbols, k, now[s].symbols, s) {
        var before, after := was[s].symbols, now[s].symbols;
        assert SymbolListExact(scopes, nodeScope, symbols, k - 1, before, s);
        assert after == if s == owner then before + [k - 1] else before;
        forall j, m | 0 <= j < m < |after| ensures after[j] < after[m] {
          assert j < |before| && before[j] in before;
        }
      }
    }
  }

  lemma {:induction false} FindSymbolScan(scopes: seq<Scope>, i: nat, owner: nat, s: nat)
    requires |scopes| < INVALID_ID && s <= |scopes|
    requires forall t :: 0 <= t < |scopes| ==> scopes[t].id == t && (i in scopes[t].symbols <==> t == owner)
    requires owner < |scopes| ==> s <= owner
    requires owner == INVALID_ID || owner < |scopes|
    ensures FindSymbolFrom(scopes, i, s) == owner
    decreases |scopes| - s
  {
    if s < |scopes| {
      assert i in scopes[s].symbols <==> s == owner;
      if s != owner {
        FindSymbolScan(scopes, i, owner, s + 1);
      }
    }
  }

  /** The constant-time reverse map and the linear scan give the same scope for every index, in range or not. */
  lemma {:induction false} ReverseMapAgrees(nodes: seq<Node>, symbols: seq<Symbol>, i: nat)
    requires WellFormed(nodes)
    ensures EntryOr(Owners(ScopesUpTo(nodes, |nodes|), NodeScopesUpTo(nodes, |nodes|), symbols, |symbols|), i)
         == FindSymbolFrom(WithSymbols(ScopesUpTo(nodes, |nodes|), NodeScopesUpTo(nodes, |nodes|), symbols, |symbols|), i, 0)
  {
    var scopes, nodeScope := ScopesUpTo(nodes, |nodes|), NodeScopesUpTo(nodes, |nodes|);
    BuiltConsistently(nodes);
    SymbolListsExact(scopes, nodeScope, symbols, |symbols|);
    var after := WithSymbols(scopes, nodeScope, symbols, |symbols|);
    var owner := if i < |symbols| then Owner(scopes, nodeScope, symbols[i]) else INVALID_ID;
    forall t | 0 <= t < |after| ensures after[t].id == t && (i in after[t].symbols <==> t == owner) {
      assert Records(scopes, nodes, t);
      OnlySymbolsChange(scopes, nodeScope, symbols, |symbols|, t);
      assert SymbolListExact(scopes, nodeScope, symbols, |symbols|, after[t].symbols, t);
    }
    FindSymbolScan(after, i, owner, 0);
  }

  lemma {:induction false} BuiltConsistently(nodes: seq<Node>)
    requires WellFormed(nodes)
    ensures Consistent(ScopesUpTo(nodes, |nodes|), NodeScopesUpTo(nodes, |nodes|))
    ensures NoSymbols(ScopesUpTo(nodes, |nodes|))
    ensures forall s :: 0 <= s < ScopeCount(nodes, |nodes|) ==> Records(ScopesUpTo(nodes, |nodes|), nodes, s)
  {
    var scopes, nodeScope := ScopesUpTo(nodes, |nodes|), NodeScopesUpTo(nodes, |nodes|);
    ScopesRecord(nodes, |nodes|);
    ScopesFollowPreorder(nodes);
    forall i | 0 <= i < |nodeScope| ensures IsScope(scopes, nodeScope[i]) {
      ScopeOfBound(nodes, i);
      ScopeCountMonotone(nodes, i + 1, |nodes|);
    }
    forall s | 0 <= s < |scopes| ensures scopes[s].symbols == [] && IsScope(scopes, scopes[s].parent) {
      assert Records(scopes, nodes, s);
    }
  }

  /** In tree terms: a symbol belongs to the nearest scope around its node, skipping the scope its own node opens unless that is a root. */
  lemma {:induction false} OwnerInTree(nodes: seq<Node>, sym: Symbol)
    requires WellFormed(nodes) && sym.nodeIndex < |nodes|
    ensures Owner(ScopesUpTo(nodes, |nodes|), NodeScopesUpTo(nodes, |nodes|), sym)
         == if Introduces(nodes, sym.nodeIndex) && Enclosing(nodes, sym.nodeIndex) != INVALID_ID
            then Enclosing(nodes, sym.nodeIndex)
            else ScopeOf(nodes, sym.nodeIndex)
  {
    var n := sym.nodeIndex;
    BuiltConsistently(nodes);
    var scopes := ScopesUpTo(nodes, |nodes|);
    var s := ScopeOf(nodes, n);
    if Introduces(nodes, n) {
      ScopeAtNode(nodes, n);
      assert Records(scopes, nodes, s);
    } else if s < |scopes| {
      assert Records(scopes, nodes, s);
    }
  }
}
