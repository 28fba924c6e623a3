/** Explicit-stack walks over a flattened tree, shared by the call and member services. */
module TreeWalk {
  import opened Ast

  /** Every stack entry is a node of the subtree of `root`. */
  ghost predicate Within(nodes: seq<Node>, root: nat, stack: seq<nat>) {
    forall k :: 0 <= k < |stack| ==> root <= stack[k] < |nodes| && End(nodes, stack[k]) <= End(nodes, root)
  }

  /** How many nodes the walk has still to visit. */
  ghost function Weight(nodes: seq<Node>, stack: seq<nat>): (w: nat)
    requires WellFormed(nodes) && forall k :: 0 <= k < |stack| ==> stack[k] < |nodes|
  {
    if stack == [] then 0
    else
      var top := stack[|stack| - 1];
      EndBounds(nodes, top);
      Weight(nodes, stack[..|stack| - 1]) + (End(nodes, top) - top)
  }

  lemma {:induction false} WeightSnoc(nodes: seq<Node>, stack: seq<nat>, i: nat)
    requires WellFormed(nodes) && i < |nodes| && forall k :: 0 <= k < |stack| ==> stack[k] < |nodes|
    ensures i < End(nodes, i)
    ensures Weight(nodes, stack + [i]) == Weight(nodes, stack) + (End(nodes, i) - i)
  {
    EndBounds(nodes, i);
    assert (stack + [i])[..|stack|] == stack;
  }

  /** Replacing a node by its children takes exactly that node off the work left. */
  lemma {:induction false} WeightChildren(nodes: seq<Node>, stack: seq<nat>, i: nat, n: nat)
    requires WellFormed(nodes) && i < |nodes| && n <= |nodes[i].children|
    requires forall k :: 0 <= k < |stack| ==> stack[k] < |nodes|
    ensures forall k :: 0 <= k < n ==> nodes[i].children[k] < |nodes|
    ensures Weight(nodes, stack + nodes[i].children[..n])
         == Weight(nodes, stack) + if n == 0 then 0 else End(nodes, nodes[i].children[n - 1]) - (i + 1)
  {
    var c := nodes[i].children;
    assert Linked(nodes, i);
    if n == 0 {
      assert stack + c[..0] == stack;
    } else {
      WeightChildren(nodes, stack, i, n - 1);
      assert stack + c[..n] == (stack + c[..n - 1]) + [c[n - 1]];
      WeightSnoc(nodes, stack + c[..n - 1], c[n - 1]);
      if n > 1 {
        assert c[n - 1] == End(nodes, c[n - 2]);
      }
    }
  }

  lemma {:induction false} WeightStep(nodes: seq<Node>, rest: seq<nat>, i: nat)
    requires WellFormed(nodes) && i < |nodes|
    requires forall k :: 0 <= k < |rest| ==> rest[k] < |nodes|
    ensures forall k :: 0 <= k < |nodes[i].children| ==> nodes[i].children[k] < |nodes|
    ensures Weight(nodes, rest + nodes[i].children) < Weight(nodes, rest + [i])
  {
    var c := nodes[i].children;
    assert Linked(nodes, i);
    EndBounds(nodes, i);
    WeightSnoc(nodes, rest, i);
    WeightChildren(nodes, rest, i, |c|);
    assert c[..|c|] == c;
    if c != [] {
      ChildEnds(nodes, i, |c| - 1);
    }
  }

  /** Node `j` lies in the subtree of some stack entry. */
  ghost predicate Covered(nodes: seq<Node>, stack: seq<nat>, j: nat) {
    exists k :: 0 <= k < |stack| && stack[k] <= j < End(nodes, stack[k])
  }

  lemma CoveredStep(nodes: seq<Node>, rest: seq<nat>, i: nat, j: nat)
    requires WellFormed(nodes) && i < |nodes|
    requires Covered(nodes, rest + [i], j) && j != i
    ensures Covered(nodes, rest + nodes[i].children, j)
  {
    var stack, c := rest + [i], nodes[i].children;
    var k :| 0 <= k < |stack| && stack[k] <= j < End(nodes, stack[k]);
    var next := rest + c;
    if k < |rest| {
      assert next[k] == stack[k];
    } else {
      assert Linked(nodes, i);
      var m := ChildContaining(nodes, i, j, 0);
      assert next[|rest| + m] == c[m];
    }
  }

  lemma WithinStep(nodes: seq<Node>, root: nat, rest: seq<nat>, i: nat)
    requires WellFormed(nodes) && Within(nodes, root, rest + [i])
    ensures i < |nodes| && Within(nodes, root, rest) && Within(nodes, root, rest + nodes[i].children)
  {
    var stack := rest + [i];
    assert stack[|rest|] == i;
    assert forall k :: 0 <= k < |rest| ==> stack[k] == rest[k];
    var next := rest + nodes[i].children;
    forall k | 0 <= k < |next|
      ensures root <= next[k] < |nodes| && End(nodes, next[k]) <= End(nodes, root)
    {
      if k >= |rest| {
        ChildEnds(nodes, i, k - |rest|);
        EndBounds(nodes, i);
      }
    }
  }

  /** Some node of the subtree of `root` satisfies `p`. */
  ghost predicate SubtreeHas(nodes: seq<Node>, root: nat, p: Node -> bool) {
    exists j :: root <= j < End(nodes, root) && j < |nodes| && p(nodes[j])
  }

  /** Depth-first search for a node satisfying `p`. */
  method SearchSubtree(nodes: seq<Node>, root: nat, p: Node -> bool) returns (found: bool)
    requires WellFormed(nodes) && root < |nodes|
    ensures found == SubtreeHas(nodes, root, p)
  {
    var stack := [root];
    EndBounds(nodes, root);
    while stack != []
      invariant Within(nodes, root, stack)
      invariant forall j :: root <= j < End(nodes, root) && j < |nodes| && p(nodes[j]) ==> Covered(nodes, stack, j)
      decreases Weight(nodes, stack)
    {
      var current, rest := stack[|stack| - 1], stack[..|stack| - 1];
      assert stack == rest + [current];
      EndBounds(nodes, current);
      if p(nodes[current]) {
        return true;
      }
      WithinStep(nodes, root, rest, current);
      WeightStep(nodes, rest, current);
      stack := rest + nodes[current].children;
      forall j | root <= j < End(nodes, root) && j < |nodes| && p(nodes[j]) ensures Covered(nodes, stack, j) {
        CoveredStep(nodes, rest, current, j);
      }
    }
    found := false;
  }

  // ---- Left-to-right walk ---------------------------------------------------

  /** From top to bottom the stack entries are adjacent subtrees that fill [from, to). */
  ghost predicate Tiles(nodes: seq<Node>, stack: seq<nat>, from: nat, to: nat)
    decreases |stack|
  {
    if stack == [] then from == to
    else
      var top := stack[|stack| - 1];
      top == from && top < |nodes| && Tiles(nodes, stack[..|stack| - 1], End(nodes, top), to)
  }

  function Reversed(s: seq<nat>): (r: seq<nat>)
    ensures |r| == |s|
  {
    if s == [] then [] else Reversed(s[1..]) + [s[0]]
  }

  lemma {:induction false} TilesEnd(nodes: seq<Node>, stack: seq<nat>, from: nat, to: nat)
    requires WellFormed(nodes) && Tiles(nodes, stack, from, to)
    ensures from <= to && (stack != [] ==> from < to)
    decreases |stack|
  {
    if stack != [] {
      EndBounds(nodes, from);
      TilesEnd(nodes, stack[..|stack| - 1], End(nodes, from), to);
    }
  }

  /** Pushing the children from `n` on in reverse order tiles what was left of their parent. */
  lemma {:induction false} TilesChildren(nodes: seq<Node>, rest: seq<nat>, i: nat, n: nat, to: nat)
    requires WellFormed(nodes) && i < |nodes| && n <= |nodes[i].children|
    requires Tiles(nodes, rest, End(nodes, i), to)
    ensures n < |nodes[i].children| ==> Tiles(nodes, rest + Reversed(nodes[i].children[n..]), nodes[i].children[n], to)
    ensures n == |nodes[i].children| ==> rest + Reversed(nodes[i].children[n..]) == rest
    decreases |nodes[i].children| - n
  {
    var c := nodes[i].children;
    assert Linked(nodes, i);
    if n < |c| {
      TilesChildren(nodes, rest, i, n + 1, to);
      assert c[n..][1..] == c[n + 1..];
      var below := rest + Reversed(c[n + 1..]);
      var stack := below + [c[n]];
      assert rest + Reversed(c[n..]) == stack;
      assert stack[..|below|] == below;
      if n + 1 < |c| {
        assert c[n + 1] == End(nodes, c[n]);
      }
    }
  }

  lemma {:induction false} TilesStep(nodes: seq<Node>, rest: seq<nat>, i: nat, to: nat)
    requires WellFormed(nodes) && i < |nodes| && Tiles(nodes, rest, End(nodes, i), to)
    ensures Tiles(nodes, rest + Reversed(nodes[i].children), i + 1, to)
  {
    var c := nodes[i].children;
    assert Linked(nodes, i);
    TilesChildren(nodes, rest, i, 0, to);
    assert c[0..] == c;
  }
}
