/** The flattened AST shared by every layer above the parser (include/ast-ir.h).

A node's position in the vector is its identity once the ids have been remapped.
`WellFormed` says that the vector is the pre-order listing of one tree; `Traversal`
proves that parsing establishes it, and every other module starts from it.
*/
module Ast {
  type Byte = b: nat | b < 0x100
  type U16 = n: nat | n < 0x1_0000
  type U32 = n: nat | n < 0x1_0000_0000
  type U64 = n: nat | n < 0x1_0000_0000_0000_0000

  /** UTF-8 text, code unit by code unit. */
  type Text = seq<Byte>

  /** uintptr_t(-1), the sentinel for "no node", "no scope" and "no symbol". */
  const INVALID_ID: nat := 0xFFFF_FFFF_FFFF_FFFF

  /** AST::size() is a uint32_t. */
  const MAX_NODES: nat := 0xFFFF_FFFF

  /** The bytes from `start` up to `end`, or nothing when the range does not lie in `source`. */
  function Slice(source: Text, start: nat, end: nat): (r: Text) {
    if start <= end <= |source| then source[start..end] else []
  }

  datatype Point = Point(row: U32, column: U32)

  datatype Node = Node(
    id: nat,
    parent: nat,
    hash: U32,
    flags: U32,
    nodeType: U16,
    grammarType: U16,
    text: Text,
    startByte: U32,
    endByte: U32,
    start: Point,
    end: Point,
    children: seq<nat>)

  /** One past the last index of the subtree rooted at `i`, following last children. */
  function End(nodes: seq<Node>, i: nat): nat
    decreases |nodes| - i
  {
    if i < |nodes| && nodes[i].children != [] then
      var last := nodes[i].children[|nodes[i].children| - 1];
      if i < last < |nodes| then End(nodes, last) else i + 1
    else
      i + 1
  }

  /** Downward links of node `i`: children follow it in pre-order, each starting where the previous subtree ends. */
  ghost predicate Linked(nodes: seq<Node>, i: nat)
    requires i < |nodes|
  {
    var c := nodes[i].children;
    && nodes[i].id == i
    && (forall k :: 0 <= k < |c| ==> i < c[k] < |nodes| && nodes[c[k]].parent == i)
    && (c != [] ==> c[0] == i + 1)
    && (forall j, k :: 0 <= j < k < |c| && k == j + 1 ==> c[k] == End(nodes, c[j]))
  }

  /** Upward link of a non-root node: its parent precedes it and lists it. */
  ghost predicate Parented(nodes: seq<Node>, i: nat)
    requires i < |nodes|
  {
    nodes[i].parent < i && i in nodes[nodes[i].parent].children
  }

  /** The vector is the pre-order listing of a single tree. */
  ghost predicate WellFormed(nodes: seq<Node>) {
    && |nodes| <= MAX_NODES
    && (forall i :: 0 <= i < |nodes| ==> Linked(nodes, i))
    && (forall i :: 0 < i < |nodes| ==> Parented(nodes, i))
    && (nodes != [] ==> nodes[0].parent == INVALID_ID && End(nodes, 0) == |nodes|)
  }

  /** `a` is `j` or is met when following parent links from `j`. */
  predicate IsAncestor(nodes: seq<Node>, a: nat, j: nat)
    decreases j
  {
    a == j || (a < j < |nodes| && nodes[j].parent < j && IsAncestor(nodes, a, nodes[j].parent))
  }

  lemma {:induction false} EndBounds(nodes: seq<Node>, i: nat)
    requires WellFormed(nodes) && i < |nodes|
    ensures i < End(nodes, i) <= |nodes|
    decreases |nodes| - i
  {
    var c := nodes[i].children;
    assert Linked(nodes, i);
    if c != [] {
      EndBounds(nodes, c[|c| - 1]);
    }
  }

  /** The subtrees of successive children of `i` stay inside the subtree of `i`. */
  lemma {:induction false} ChildEnds(nodes: seq<Node>, i: nat, k: nat)
    requires WellFormed(nodes) && i < |nodes| && k < |nodes[i].children|
    ensures i < nodes[i].children[k] < End(nodes, nodes[i].children[k]) <= End(nodes, i)
    decreases |nodes[i].children| - k
  {
    var c := nodes[i].children;
    assert Linked(nodes, i);
    EndBounds(nodes, c[k]);
    if k + 1 < |c| {
      ChildEnds(nodes, i, k + 1);
      assert c[k + 1] == End(nodes, c[k]);
    }
  }

  lemma {:induction false} ChildrenRise(nodes: seq<Node>, i: nat, j: nat, k: nat)
    requires WellFormed(nodes) && i < |nodes| && j < k < |nodes[i].children|
    ensures nodes[i].children[j] < nodes[i].children[k]
    decreases k
  {
    assert Linked(nodes, i);
    ChildEnds(nodes, i, k - 1);
    if j + 1 < k {
      ChildrenRise(nodes, i, j, k - 1);
    }
  }

  /** Every proper descendant index of `i` falls into exactly one child's interval. */
  lemma {:induction false} ChildContaining(nodes: seq<Node>, i: nat, j: nat, k: nat) returns (m: nat)
    requires WellFormed(nodes) && i < |nodes| && k < |nodes[i].children|
    requires nodes[i].children[k] <= j < End(nodes, i)
    ensures k <= m < |nodes[i].children|
    ensures nodes[i].children[m] <= j < End(nodes, nodes[i].children[m])
    decreases |nodes[i].children| - k
  {
    var c := nodes[i].children;
    assert Linked(nodes, i);
    if j < End(nodes, c[k]) {
      m := k;
    } else {
      if k + 1 == |c| {
        assert false;
      }
      assert c[k + 1] == End(nodes, c[k]);
      m := ChildContaining(nodes, i, j, k + 1);
    }
  }

  /** Intervals of subtrees are nested. */
  lemma {:induction false} SubtreesNest(nodes: seq<Node>, i: nat, j: nat)
    requires WellFormed(nodes) && i < |nodes|
    requires i <= j < End(nodes, i)
    ensures j < |nodes| && End(nodes, j) <= End(nodes, i)
    decreases |nodes| - i
  {
    EndBounds(nodes, i);
    if i < j {
      assert Linked(nodes, i);
      var m := ChildContaining(nodes, i, j, 0);
      ChildEnds(nodes, i, m);
      SubtreesNest(nodes, nodes[i].children[m], j);
    }
  }

  /** A parent link never leaves the subtree it starts in, except from the root of that subtree. */
  lemma {:induction false} ParentInSubtree(nodes: seq<Node>, i: nat, j: nat)
    requires WellFormed(nodes) && i < |nodes|
    requires i < j < End(nodes, i)
    ensures j < |nodes| && i <= nodes[j].parent < j
    decreases |nodes| - i
  {
    EndBounds(nodes, i);
    assert Linked(nodes, i) && Parented(nodes, j);
    var m := ChildContaining(nodes, i, j, 0);
    var c := nodes[i].children[m];
    ChildEnds(nodes, i, m);
    if c < j {
      ParentInSubtree(nodes, c, j);
    }
  }

  /** Descendants, reached by parent links, are exactly the contiguous index interval of the subtree. */
  lemma {:induction false} SubtreeIsInterval(nodes: seq<Node>, a: nat, j: nat)
    requires WellFormed(nodes) && a < |nodes| && j < |nodes|
    ensures IsAncestor(nodes, a, j) <==> a <= j < End(nodes, a)
    decreases j
  {
    EndBounds(nodes, a);
    if a < j {
      assert Parented(nodes, j);
      var p := nodes[j].parent;
      SubtreeIsInterval(nodes, a, p);
      if j < End(nodes, a) {
        ParentInSubtree(nodes, a, j);
      } else if a <= p < End(nodes, a) {
        SubtreesNest(nodes, a, p);
        assert Linked(nodes, p);
        var k :| 0 <= k < |nodes[p].children| && nodes[p].children[k] == j;
        ChildEnds(nodes, p, k);
        assert false;
      }
    }
  }

  // ---- Byte ranges ----------------------------------------------------------

  /** What tree-sitter guarantees of byte offsets: a node covers its children, and siblings do not overlap. */
  ghost predicate RangesNested(nodes: seq<Node>, i: nat)
    requires i < |nodes|
  {
    var c := nodes[i].children;
    && nodes[i].startByte <= nodes[i].endByte
    && (forall k :: 0 <= k < |c| && c[k] < |nodes| ==>
          nodes[i].startByte <= nodes[c[k]].startByte && nodes[c[k]].endByte <= nodes[i].endByte)
    && (forall j, k :: 0 <= j < k < |c| && k == j + 1 && c[j] < |nodes| && c[k] < |nodes| ==>
          nodes[c[j]].endByte <= nodes[c[k]].startByte)
  }

  ghost predicate Nested(nodes: seq<Node>) {
    forall i :: 0 <= i < |nodes| ==> RangesNested(nodes, i)
  }

  lemma {:induction false} DescendantRange(nodes: seq<Node>, a: nat, j: nat)
    requires WellFormed(nodes) && Nested(nodes) && a < |nodes|
    requires a <= j < End(nodes, a)
    ensures j < |nodes|
    ensures nodes[a].startByte <= nodes[j].startByte && nodes[j].endByte <= nodes[a].endByte
    decreases j
  {
    EndBounds(nodes, a);
    if a < j {
      ParentInSubtree(nodes, a, j);
      var p := nodes[j].parent;
      assert Parented(nodes, j) && RangesNested(nodes, p);
      DescendantRange(nodes, a, p);
    }
  }

  lemma {:induction false} LaterSiblings(nodes: seq<Node>, i: nat, j: nat, k: nat)
    requires WellFormed(nodes) && Nested(nodes) && i < |nodes|
    requires j < k < |nodes[i].children|
    ensures nodes[i].children[j] < |nodes| && nodes[i].children[k] < |nodes|
    ensures nodes[nodes[i].children[j]].endByte <= nodes[nodes[i].children[k]].startByte
    decreases k
  {
    var c := nodes[i].children;
    assert Linked(nodes, i) && RangesNested(nodes, i);
    if j + 1 < k {
      LaterSiblings(nodes, i, j, k - 1);
      assert RangesNested(nodes, c[k - 1]);
    }
  }

  /** A node outside and after the subtree of `a` starts at or after the end of `a`. */
  lemma {:induction false} AfterSubtree(nodes: seq<Node>, r: nat, a: nat, j: nat)
    requires WellFormed(nodes) && Nested(nodes)
    requires r < |nodes| && r <= a < End(nodes, r) && a < |nodes|
    requires End(nodes, a) <= j < End(nodes, r) && j < |nodes|
    ensures nodes[a].endByte <= nodes[j].startByte
    decreases |nodes| - r
  {
    assert Linked(nodes, r);
    var c := nodes[r].children;
    var k := ChildContaining(nodes, r, a, 0);
    EndBounds(nodes, a);
    var m := ChildContaining(nodes, r, j, k);
    ChildEnds(nodes, r, k);
    ChildEnds(nodes, r, m);
    if k == m {
      AfterSubtree(nodes, c[k], a, j);
    } else {
      LaterSiblings(nodes, r, k, m);
      DescendantRange(nodes, c[k], a);
      DescendantRange(nodes, c[m], j);
    }
  }

  /** Start offsets never decrease along the vector. */
  lemma {:induction false} StartsMonotone(nodes: seq<Node>, i: nat, j: nat)
    requires WellFormed(nodes) && Nested(nodes) && i <= j < |nodes|
    ensures nodes[i].startByte <= nodes[j].startByte
  {
    EndBounds(nodes, i);
    if j < End(nodes, i) {
      DescendantRange(nodes, i, j);
    } else {
      AfterSubtree(nodes, 0, i, j);
      assert RangesNested(nodes, i);
    }
  }
}
