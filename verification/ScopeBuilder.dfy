/** Building the scope tree from the AST (src/ast-scope-builder.cpp).

`Dfs` is proved to leave a state that depends only on how far the pre-order walk has come:
`ScopesUpTo` and `NodeScopesUpTo`. The lemmas then say what that state is in terms of the tree.
*/
module ScopeBuilder {
  import opened Ast
  import opened NodeTypes
  import opened Symbols
  import opened ScopeTrees

  /** UnknownScope when the node type introduces no scope. */
  function ClassifyNode(t: U16): ScopeKind {
    if t == TRANSLATION_UNIT || t == SOURCE_FILE || t == PROGRAM || t == COMPILATION_UNIT || t == MODULE then
      GlobalScope
    else if t == NAMESPACE_DEFINITION || t == NAMESPACE_DECLARATION || t == PACKAGE_DECLARATION || t == PACKAGE_CLAUSE then
      NamespaceScope
    else if t == MOD_ITEM || t == MODULE_DECLARATION then
      ModuleScope
    else if t == CLASS_SPECIFIER || t == CLASS_DECLARATION || t == CLASS_DEFINITION || t == TRAIT_ITEM || t == IMPL_ITEM then
      ClassScope
    else if t == STRUCT_SPECIFIER || t == UNION_SPECIFIER || t == STRUCT_ITEM || t == STRUCT_DECLARATION || t == STRUCT_TYPE then
      StructScope
    else if t == ENUM_SPECIFIER || t == ENUM_DECLARATION || t == ENUM_ITEM then
      EnumScope
    else if t == METHOD_DECLARATION || t == METHOD_DEFINITION || t == CONSTRUCTOR_DECLARATION || t == DESTRUCTOR_DECLARATION then
      MethodScope
    else if t == FUNCTION_DEFINITION || t == FUNCTION_DECLARATION || t == FUNCTION_ITEM
         || t == FUNCTION_DECLARATION_STATEMENT || t == FUNCTION_EXPRESSION || t == FUNC_DECLARATION then
      FunctionScope
    else if t == LAMBDA_EXPRESSION || t == CLOSURE_EXPRESSION || t == ARROW_FUNCTION || t == FUNC_LITERAL then
      LambdaScope
    else if t == COMPOUND_STATEMENT || t == BLOCK || t == STATEMENT_BLOCK then
      BlockScope
    else
      UnknownScope
  }

  predicate Introduces(nodes: seq<Node>, i: nat)
    requires i < |nodes|
  {
    ClassifyNode(nodes[i].nodeType) != UnknownScope
  }

  /** How many of the first `k` nodes introduce a scope. */
  function ScopeCount(nodes: seq<Node>, k: nat): (n: nat)
    requires k <= |nodes|
    ensures n <= k
  {
    if k == 0 then 0 else ScopeCount(nodes, k - 1) + if Introduces(nodes, k - 1) then 1 else 0
  }

  /** The scope around node `i`, its own scope not counted. */
  function Enclosing(nodes: seq<Node>, i: nat): (s: nat)
    requires i < |nodes|
    decreases i, 0
  {
    if nodes[i].parent < i then ScopeOf(nodes, nodes[i].parent) else INVALID_ID
  }

  /** The innermost scope containing node `i`. */
  function ScopeOf(nodes: seq<Node>, i: nat): (s: nat)
    requires i < |nodes|
    decreases i, 1
  {
    if Introduces(nodes, i) then ScopeCount(nodes, i) else Enclosing(nodes, i)
  }

  function ScopesUpTo(nodes: seq<Node>, k: nat): (r: seq<Scope>)
    requires k <= |nodes|
    ensures |r| == ScopeCount(nodes, k)
  {
    if k == 0 then []
    else
      var n := nodes[k - 1];
      var r := ScopesUpTo(nodes, k - 1);
      if Introduces(nodes, k - 1)
      then AddScope(r, ClassifyNode(n.nodeType), k - 1, n.startByte, n.endByte, Enclosing(nodes, k - 1))
      else r
  }

  function NodeScopesUpTo(nodes: seq<Node>, k: nat): (r: seq<nat>)
    requires k <= |nodes|
    ensures |r| == |nodes|
    ensures forall j :: 0 <= j < |nodes| ==> r[j] == if j < k then ScopeOf(nodes, j) else INVALID_ID
  {
    seq(|nodes|, j requires 0 <= j < |nodes| => if j < k then ScopeOf(nodes, j) else INVALID_ID)
  }

  lemma {:induction false} ScopeCountMonotone(nodes: seq<Node>, j: nat, k: nat)
    requires j <= k <= |nodes|
    ensures ScopeCount(nodes, j) <= ScopeCount(nodes, k)
  {
    if j < k {
      ScopeCountMonotone(nodes, j, k - 1);
    }
  }

  lemma {:induction false} ScopeOfBound(nodes: seq<Node>, i: nat)
    requires i < |nodes|
    ensures ScopeOf(nodes, i) == INVALID_ID || ScopeOf(nodes, i) < ScopeCount(nodes, i + 1)
    ensures Enclosing(nodes, i) == INVALID_ID || Enclosing(nodes, i) < ScopeCount(nodes, i)
    decreases i
  {
    if nodes[i].parent < i {
      ScopeOfBound(nodes, nodes[i].parent);
      ScopeCountMonotone(nodes, nodes[i].parent + 1, i);
    }
  }

  // ---- Construction ---------------------------------------------------------

  /** The state of `tree` when the walk has handled the first `k` nodes. */
  ghost predicate BuiltUpTo(tree: ScopeTree, nodes: seq<Node>, k: nat)
    reads tree
    requires k <= |nodes|
  {
    && tree.scopes == ScopesUpTo(nodes, k)
    && tree.nodeScope == NodeScopesUpTo(nodes, k)
    && tree.symbolScope == []
  }

  /** Where the walk of node `i` stands before its child `k`. */
  function Boundary(nodes: seq<Node>, i: nat, k: nat): nat
    requires i < |nodes| && k <= |nodes[i].children|
  {
    if k < |nodes[i].children| then nodes[i].children[k] else End(nodes, i)
  }

  lemma ChildBoundary(nodes: seq<Node>, i: nat, k: nat)
    requires WellFormed(nodes) && i < |nodes| && k <= |nodes[i].children|
    ensures i < Boundary(nodes, i, k) <= |nodes|
    ensures k == 0 ==> Boundary(nodes, i, k) == i + 1
    ensures k > 0 ==> End(nodes, nodes[i].children[k - 1]) == Boundary(nodes, i, k)
    ensures k < |nodes[i].children| ==>
      nodes[i].children[k] != INVALID_ID && nodes[i].children[k] < |nodes| && Enclosing(nodes, nodes[i].children[k]) == ScopeOf(nodes, i)
  {
    assert Linked(nodes, i);
    EndBounds(nodes, i);
  }

  /** The walk of child `k` begins where the walk of its parent stands, and ends where that one goes on. */
  lemma {:induction false} NextChild(nodes: seq<Node>, i: nat, k: nat)
    requires WellFormed(nodes) && i < |nodes| && k < |nodes[i].children|
    ensures var c := nodes[i].children[k];
      && i < c < |nodes| && c != INVALID_ID && c == Boundary(nodes, i, k) && Enclosing(nodes, c) == ScopeOf(nodes, i)
      && End(nodes, c) == Boundary(nodes, i, k + 1)
  {
    ChildBoundary(nodes, i, k);
    ChildBoundary(nodes, i, k + 1);
  }

  /** Opens the node's own scope, if its type introduces one, and maps the node to the innermost scope. */
  method EnterNode(nodes: seq<Node>, nodeIndex: nat, currentScope: nat, tree: ScopeTree) returns (myScope: nat)
    requires |nodes| <= MAX_NODES && nodeIndex < |nodes|
    requires BuiltUpTo(tree, nodes, nodeIndex) && currentScope == Enclosing(nodes, nodeIndex)
    modifies tree
    ensures BuiltUpTo(tree, nodes, nodeIndex + 1) && myScope == ScopeOf(nodes, nodeIndex)
  {
    var node := nodes[nodeIndex];
    myScope := currentScope;
    ScopeOfBound(nodes, nodeIndex);
    var kind := ClassifyNode(node.nodeType);
    if kind != UnknownScope {
      myScope := tree.Add(kind, nodeIndex, node.startByte, node.endByte, currentScope);
    }
    tree.SetNodeScope(nodeIndex, myScope);
    assert tree.nodeScope == NodeScopesUpTo(nodes, nodeIndex + 1);
  }

  method Dfs(nodes: seq<Node>, nodeIndex: nat, currentScope: nat, tree: ScopeTree)
    requires WellFormed(nodes) && nodeIndex < |nodes|
    requires BuiltUpTo(tree, nodes, nodeIndex) && currentScope == Enclosing(nodes, nodeIndex)
    modifies tree
    ensures nodeIndex < End(nodes, nodeIndex) <= |nodes|
    ensures BuiltUpTo(tree, nodes, End(nodes, nodeIndex))
    decreases |nodes| - nodeIndex
  {
    var myScope := EnterNode(nodes, nodeIndex, currentScope, tree);
    var c := nodes[nodeIndex].children;
    ChildBoundary(nodes, nodeIndex, 0);
    for k := 0 to |c|
      invariant nodeIndex < Boundary(nodes, nodeIndex, k) <= |nodes|
      invariant BuiltUpTo(tree, nodes, Boundary(nodes, nodeIndex, k))
    {
      var childIdx := c[k];
      NextChild(nodes, nodeIndex, k);
      if childIdx != INVALID_ID {
        Dfs(nodes, childIdx, myScope, tree);
      }
    }
  }

  method BuildScopeTree(nodes: seq<Node>) returns (tree: ScopeTree)
    requires WellFormed(nodes)
    ensures fresh(tree)
    ensures tree.scopes == ScopesUpTo(nodes, |nodes|) && tree.nodeScope == NodeScopesUpTo(nodes, |nodes|)
    ensures tree.symbolScope == []
  {
    tree := new ScopeTree();
    if |nodes| == 0 {
      return;
    }
    tree.ReserveNodeMap(|nodes|);
    assert BuiltUpTo(tree, nodes, 0);
    Dfs(nodes, 0, INVALID_ID, tree);
  }

  // ---- What was built -------------------------------------------------------

  /** The record of scope `s` apart from its lists. */
  ghost predicate Records(scopes: seq<Scope>, nodes: seq<Node>, s: nat)
    requires s < |scopes|
  {
    var n := scopes[s].nodeIndex;
    && scopes[s].id == s
    && n < |nodes| && Introduces(nodes, n) && ScopeCount(nodes, n) == s
    && scopes[s].kind == ClassifyNode(nodes[n].nodeType)
    && scopes[s].startByte == nodes[n].startByte && scopes[s].endByte == nodes[n].endByte
    && scopes[s].parent == Enclosing(nodes, n)
    && scopes[s].symbols == []
  }

  lemma {:induction false} ScopesRecord(nodes: seq<Node>, k: nat)
    requires k <= |nodes| <= MAX_NODES
    ensures forall s :: 0 <= s < ScopeCount(nodes, k) ==>
      Records(ScopesUpTo(nodes, k), nodes, s) && ScopesUpTo(nodes, k)[s].nodeIndex < k
  {
    if k > 0 {
      ScopesRecord(nodes, k - 1);
      ScopeOfBound(nodes, k - 1);
      var was := ScopesUpTo(nodes, k - 1);
      forall s | 0 <= s < ScopeCount(nodes, k)
        ensures Records(ScopesUpTo(nodes, k), nodes, s) && ScopesUpTo(nodes, k)[s].nodeIndex < k
      {
        if s < |was| {
          assert Records(was, nodes, s);
        }
      }
    }
  }

  /** Child lists: exactly the scopes whose parent this is, in increasing order. */
  ghost predicate ChildListExact(scopes: seq<Scope>, p: nat)
    requires p < |scopes|
  {
    && (forall j, k :: 0 <= j < k < |scopes[p].children| ==> scopes[p].children[j] < scopes[p].children[k])
    && (forall c: nat :: c in scopes[p].children <==> c < |scopes| && scopes[c].parent == p)
  }

  /** Adding a scope appends it to its parent's list and keeps every other list. */
  lemma ChildListGrows(was: seq<Scope>, now: seq<Scope>, parent: nat, p: nat)
    requires |now| == |was| + 1 && p < |was| && ChildListExact(was, p)
    requires now[p].children == if p == parent then was[p].children + [|was|] else was[p].children
    requires forall s :: 0 <= s < |was| ==> now[s].parent == was[s].parent
    requires now[|was|].parent == parent
    ensures ChildListExact(now, p)
  {
    var before, after := was[p].children, now[p].children;
    forall j, k | 0 <= j < k < |after| ensures after[j] < after[k] {
      assert before[j] in before;
    }
    forall c: nat ensures c in after <==> c < |now| && now[c].parent == p {
      assert c in after <==> c in before || (p == parent && c == |was|);
    }
  }

  lemma {:induction false} NoChildrenYet(nodes: seq<Node>, k: nat)
    requires k <= |nodes| <= MAX_NODES
    ensures forall s :: 0 <= s < ScopeCount(nodes, k) ==>
      ScopesUpTo(nodes, k)[s].parent == INVALID_ID || ScopesUpTo(nodes, k)[s].parent < ScopeCount(nodes, k)
  {
    ScopesRecord(nodes, k);
    var scopes := ScopesUpTo(nodes, k);
    forall s | 0 <= s < |scopes| ensures scopes[s].parent == INVALID_ID || scopes[s].parent < |scopes| {
      assert Records(scopes, nodes, s);
      var n := scopes[s].nodeIndex;
      ScopeOfBound(nodes, n);
      ScopeCountMonotone(nodes, n, k);
    }
  }

  lemma {:induction false} ChildListsInvertParents(nodes: seq<Node>, k: nat)
    requires k <= |nodes| <= MAX_NODES
    ensures forall p :: 0 <= p < ScopeCount(nodes, k) ==> ChildListExact(ScopesUpTo(nodes, k), p)
  {
    if k > 0 {
      ChildListsInvertParents(nodes, k - 1);
      if Introduces(nodes, k - 1) {
        ScopeOfBound(nodes, k - 1);
        NoChildrenYet(nodes, k - 1);
        var was, now := ScopesUpTo(nodes, k - 1), ScopesUpTo(nodes, k);
        forall p | 0 <= p < |now| ensures ChildListExact(now, p) {
          if p < |was| {
            ChildListGrows(was, now, Enclosing(nodes, k - 1), p);
          } else {
            assert now[p].children == [];
          }
        }
      }
    }
  }

  /** Scope ids follow pre-order: parents come first and node indices strictly increase. */
  lemma {:induction false} ScopesFollowPreorder(nodes: seq<Node>)
    requires WellFormed(nodes)
    ensures Ordered(ScopesUpTo(nodes, |nodes|))
    ensures forall s, t :: 0 <= s < t < |ScopesUpTo(nodes, |nodes|)| ==>
      ScopesUpTo(nodes, |nodes|)[s].nodeIndex < ScopesUpTo(nodes, |nodes|)[t].nodeIndex
  {
    var scopes := ScopesUpTo(nodes, |nodes|);
    ScopesRecord(nodes, |nodes|);
    forall s | 0 <= s < |scopes| ensures scopes[s].parent == INVALID_ID || scopes[s].parent < s {
      assert Records(scopes, nodes, s);
      ScopeOfBound(nodes, scopes[s].nodeIndex);
    }
    forall s, t | 0 <= s < t < |scopes| ensures scopes[s].nodeIndex < scopes[t].nodeIndex {
      assert Records(scopes, nodes, s) && Records(scopes, nodes, t);
      if scopes[t].nodeIndex <= scopes[s].nodeIndex {
        ScopeCountMonotone(nodes, scopes[t].nodeIndex, scopes[s].nodeIndex);
      }
    }
  }

  /** `a` is the nearest ancestor-or-self of `i` that introduces a scope. */
  ghost predicate NearestIntroducer(nodes: seq<Node>, i: nat, a: nat)
    requires i < |nodes|
  {
    && a < |nodes| && IsAncestor(nodes, a, i) && Introduces(nodes, a)
    && forall b :: 0 <= b < |nodes| && IsAncestor(nodes, b, i) && Introduces(nodes, b) ==> b <= a
  }

  /** getNodeScope is the scope of the nearest introducing ancestor-or-self, and invalid exactly when there is none. */
  lemma {:induction false} NodeScopeIsNearest(nodes: seq<Node>, i: nat)
    requires WellFormed(nodes) && i < |nodes|
    ensures ScopeOf(nodes, i) == INVALID_ID <==>
      forall a :: 0 <= a < |nodes| && IsAncestor(nodes, a, i) ==> !Introduces(nodes, a)
    ensures ScopeOf(nodes, i) != INVALID_ID ==>
      && ScopeOf(nodes, i) < ScopeCount(nodes, |nodes|)
      && NearestIntroducer(nodes, i, ScopesUpTo(nodes, |nodes|)[ScopeOf(nodes, i)].nodeIndex)
    decreases i
  {
    ScopeOfBound(nodes, i);
    ScopeCountMonotone(nodes, i + 1, |nodes|);
    if Introduces(nodes, i) {
      ScopeAtNode(nodes, i);
      assert IsAncestor(nodes, i, i);
    } else if i > 0 {
      assert Parented(nodes, i);
      NodeScopeIsNearest(nodes, nodes[i].parent);
      assert forall a: nat :: a != i && IsAncestor(nodes, a, i) ==> IsAncestor(nodes, a, nodes[i].parent);
      assert forall a :: 0 <= a < |nodes| && IsAncestor(nodes, a, nodes[i].parent) ==> IsAncestor(nodes, a, i) by {
        forall a | 0 <= a < |nodes| && IsAncestor(nodes, a, nodes[i].parent) ensures IsAncestor(nodes, a, i) {
          AncestorBelow(nodes, a, nodes[i].parent);
        }
      }
    }
  }

  lemma {:induction false} AncestorBelow(nodes: seq<Node>, a: nat, j: nat)
    requires IsAncestor(nodes, a, j)
    ensures a <= j
  {
  }

  /** The scope that node `i` introduces is recorded under that node. */
  lemma {:induction false} ScopeAtNode(nodes: seq<Node>, i: nat)
    requires WellFormed(nodes) && i < |nodes| && Introduces(nodes, i)
    ensures ScopeCount(nodes, i) < ScopeCount(nodes, |nodes|)
    ensures ScopesUpTo(nodes, |nodes|)[ScopeCount(nodes, i)].nodeIndex == i
  {
    var s := ScopeCount(nodes, i);
    ScopeCountMonotone(nodes, i + 1, |nodes|);
    ScopesRecord(nodes, |nodes|);
    var scopes := ScopesUpTo(nodes, |nodes|);
    assert Records(scopes, nodes, s);
    var n := scopes[s].nodeIndex;
    if n < i {
      ScopeCountMonotone(nodes, n + 1, i);
    } else if i < n {
      ScopeCountMonotone(nodes, i + 1, n);
    }
  }

  /** The linear finder agrees with the node map on introducing nodes, and finds nothing elsewhere. */
  lemma {:induction false} FindByNodeIndexAgrees(nodes: seq<Node>, i: nat)
    requires WellFormed(nodes) && i < |nodes|
    ensures FindNodeFrom(ScopesUpTo(nodes, |nodes|), i, 0) == if Introduces(nodes, i) then ScopeOf(nodes, i) else INVALID_ID
  {
    ScopesRecord(nodes, |nodes|);
    if Introduces(nodes, i) {
      ScopeAtNode(nodes, i);
    }
    FindNodeScan(nodes, i, 0);
  }

  lemma {:induction false} FindNodeScan(nodes: seq<Node>, i: nat, s: nat)
    requires WellFormed(nodes) && i < |nodes|
    requires s <= ScopeCount(nodes, |nodes|)
    requires forall t :: 0 <= t < ScopeCount(nodes, |nodes|) ==> Records(ScopesUpTo(nodes, |nodes|), nodes, t)
    requires Introduces(nodes, i) ==>
      s <= ScopeCount(nodes, i) < ScopeCount(nodes, |nodes|) && ScopesUpTo(nodes, |nodes|)[ScopeCount(nodes, i)].nodeIndex == i
    ensures FindNodeFrom(ScopesUpTo(nodes, |nodes|), i, s) == if Introduces(nodes, i) then ScopeOf(nodes, i) else INVALID_ID
    decreases ScopeCount(nodes, |nodes|) - s
  {
    if s < ScopeCount(nodes, |nodes|) {
      assert Records(ScopesUpTo(nodes, |nodes|), nodes, s);
      if ScopesUpTo(nodes, |nodes|)[s].nodeIndex != i {
        FindNodeScan(nodes, i, s + 1);
      }
    }
  }
}
