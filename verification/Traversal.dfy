/** Flattening a parse tree: the tree cursor walk, AST::add and AST::remap_ids (src/ast-tool.cpp).

The foreign parse tree is a rose tree whose cursor is a path of child numbers. The main results:
the cursor loop with backtracking adds the nodes in recursive pre-order (`AST.TraverseAllNodes`),
and after remapping the vector is `Flat` (`AST.RemapIds`, `RemapGivesFlat`), which is well formed
in the sense of module `Ast` (`FlatIsWellFormed`).
*/
module Traversal {
  import opened Ast
  import opened Sequences

  /** What tree-sitter reports about one node; `hash` is the value that AST::setHash settles on. */
  datatype Info = Info(
    id: nat,
    nodeType: U16,
    grammarType: U16,
    startByte: U32,
    endByte: U32,
    start: Point,
    end: Point,
    named: bool,
    missing: bool,
    extra: bool,
    error: bool,
    hash: U32)

  datatype Tree = Tree(info: Info, kids: seq<Tree>)

  /** The id of the null node, reported as the parent of the root. */
  const NULL_ID: nat := 0

  function Size(t: Tree): (n: nat)
    ensures n > 0
  {
    1 + SizeAll(t.kids)
  }

  function SizeAll(ts: seq<Tree>): nat {
    if ts == [] then 0 else Size(ts[0]) + SizeAll(ts[1..])
  }

  function Flags(n: Info): U32 {
    (if n.named then 1 else 0) + (if n.missing then 2 else 0) + (if n.extra then 4 else 0) + (if n.error then 8 else 0)
  }

  /** The range that AST::get_string asserts for every node of the tree. */
  predicate InSource(t: Tree, size: nat) {
    t.info.startByte <= t.info.endByte <= size && AllInSource(t.kids, size)
  }

  predicate AllInSource(ts: seq<Tree>, size: nat) {
    ts == [] || (InSource(ts[0], size) && AllInSource(ts[1..], size))
  }

  function MakeNode(n: Info, source: Text, id: nat, parent: nat, children: seq<nat>): Node {
    Node(id, parent, n.hash, Flags(n), n.nodeType, n.grammarType,
         Slice(source, n.startByte, n.endByte), n.startByte, n.endByte, n.start, n.end, children)
  }

  // ---- Reference forms ------------------------------------------------------

  function KidIds(ts: seq<Tree>): seq<nat> {
    if ts == [] then [] else [ts[0].info.id] + KidIds(ts[1..])
  }

  lemma {:induction false} KidIdsPointwise(ts: seq<Tree>, ids: seq<nat>)
    requires |ids| == |ts| && forall k :: 0 <= k < |ts| ==> ids[k] == ts[k].info.id
    ensures ids == KidIds(ts)
  {
    if ts != [] {
      KidIdsPointwise(ts[1..], ids[1..]);
    }
  }

  /** The node AST::add appends for `t`: every link is still a tree-sitter id. */
  function RawNode(t: Tree, source: Text, parent: nat): Node
  {
    MakeNode(t.info, source, t.info.id, parent, KidIds(t.kids))
  }

  /** The nodes in recursive pre-order, as AST::add leaves them. */
  function Raw(t: Tree, source: Text, parent: nat): seq<Node>
  {
    [RawNode(t, source, parent)] + RawAll(t.kids, source, t.info.id)
  }

  function RawAll(ts: seq<Tree>, source: Text, parent: nat): seq<Node>
  {
    if ts == [] then [] else Raw(ts[0], source, parent) + RawAll(ts[1..], source, parent)
  }

  function ChildIndices(ts: seq<Tree>, base: nat): (r: seq<nat>)
    ensures |r| == |ts|
  {
    if ts == [] then [] else [base] + ChildIndices(ts[1..], base + Size(ts[0]))
  }

  /** The nodes in pre-order with positions for links, the root of `t` at position `base`. */
  function Flat(t: Tree, source: Text, base: nat, parent: nat): seq<Node>
  {
    [MakeNode(t.info, source, base, parent, ChildIndices(t.kids, base + 1))] + FlatAll(t.kids, source, base + 1, base)
  }

  function FlatAll(ts: seq<Tree>, source: Text, base: nat, parent: nat): seq<Node>
  {
    if ts == [] then [] else Flat(ts[0], source, base, parent) + FlatAll(ts[1..], source, base + Size(ts[0]), parent)
  }

  lemma {:induction false} RawSize(t: Tree, source: Text, parent: nat)
    ensures |Raw(t, source, parent)| == Size(t)
    decreases t, 0
  {
    RawAllSize(t.kids, source, t.info.id);
  }

  lemma {:induction false} RawAllSize(ts: seq<Tree>, source: Text, parent: nat)
    ensures |RawAll(ts, source, parent)| == SizeAll(ts)
    decreases ts
  {
    if ts != [] {
      RawSize(ts[0], source, parent);
      RawAllSize(ts[1..], source, parent);
    }
  }

  lemma {:induction false} FlatSize(t: Tree, source: Text, base: nat, parent: nat)
    ensures |Flat(t, source, base, parent)| == Size(t)
    decreases t, 0
  {
    FlatAllSize(t.kids, source, base + 1, base);
  }

  lemma {:induction false} FlatAllSize(ts: seq<Tree>, source: Text, base: nat, parent: nat)
    ensures |FlatAll(ts, source, base, parent)| == SizeAll(ts)
    decreases ts
  {
    if ts != [] {
      FlatSize(ts[0], source, base, parent);
      FlatAllSize(ts[1..], source, base + Size(ts[0]), parent);
    }
  }

  function Ids(nodes: seq<Node>): (r: seq<nat>)
    ensures |r| == |nodes|
    ensures forall k :: 0 <= k < |r| ==> r[k] == nodes[k].id
  {
    seq(|nodes|, i requires 0 <= i < |nodes| => nodes[i].id)
  }

  /** Position of the first occurrence, or INVALID_ID. */
  function FindId(ids: seq<nat>, id: nat): nat {
    FindFrom(ids, id, 0)
  }

  function FindFrom(ids: seq<nat>, id: nat, k: nat): nat
    decreases |ids| - k
  {
    if k >= |ids| then INVALID_ID else if ids[k] == id then k else FindFrom(ids, id, k + 1)
  }

  function FindAll(ids: seq<nat>, wanted: seq<nat>): seq<nat> {
    if wanted == [] then [] else [FindId(ids, wanted[0])] + FindAll(ids, wanted[1..])
  }

  lemma {:induction false} FindAllPointwise(ids: seq<nat>, wanted: seq<nat>, found: seq<nat>)
    requires |found| == |wanted| && forall k :: 0 <= k < |wanted| ==> found[k] == FindId(ids, wanted[k])
    ensures found == FindAll(ids, wanted)
  {
    if wanted != [] {
      FindAllPointwise(ids, wanted[1..], found[1..]);
    }
  }

  function RemapNode(ids: seq<nat>, n: Node): Node {
    n.(id := FindId(ids, n.id), parent := FindId(ids, n.parent), children := FindAll(ids, n.children))
  }

  function Remap(ids: seq<nat>, nodes: seq<Node>): (r: seq<Node>)
    ensures |r| == |nodes|
    ensures forall k :: 0 <= k < |r| ==> r[k] == RemapNode(ids, nodes[k])
  {
    seq(|nodes|, k requires 0 <= k < |nodes| => RemapNode(ids, nodes[k]))
  }

  // ---- Paths of the cursor --------------------------------------------------

  ghost predicate ValidPath(t: Tree, path: seq<nat>) {
    path == [] || (path[0] < |t.kids| && ValidPath(t.kids[path[0]], path[1..]))
  }

  function At(t: Tree, path: seq<nat>): Tree
    requires ValidPath(t, path)
  {
    if path == [] then t else At(t.kids[path[0]], path[1..])
  }

  function ParentIdAt(t: Tree, path: seq<nat>): nat
    requires ValidPath(t, path)
  {
    if path == [] then NULL_ID else ParentIdFrom(t, path)
  }

  function ParentIdFrom(t: Tree, path: seq<nat>): nat
    requires ValidPath(t, path) && path != []
  {
    if |path| == 1 then t.info.id else ParentIdFrom(t.kids[path[0]], path[1..])
  }

  /** The nodes strictly before the one at `path` in pre-order. */
  ghost function Before(t: Tree, source: Text, parent: nat, path: seq<nat>): seq<Node>
    requires ValidPath(t, path)
  {
    if path == [] then []
    else
      [RawNode(t, source, parent)]
      + RawAll(t.kids[..path[0]], source, t.info.id)
      + Before(t.kids[path[0]], source, t.info.id, path[1..])
  }

  lemma {:induction false} RawAllSnoc(ts: seq<Tree>, k: nat, source: Text, parent: nat)
    requires k < |ts|
    ensures RawAll(ts[..k + 1], source, parent) == RawAll(ts[..k], source, parent) + Raw(ts[k], source, parent)
  {
    if k == 0 {
      assert ts[..1][1..] == [];
    } else {
      RawAllSnoc(ts[1..], k - 1, source, parent);
      assert ts[..k][1..] == ts[1..][..k - 1];
      assert ts[..k + 1][1..] == ts[1..][..k];
    }
  }

  /** Facts about one path, used at each cursor move. */
  lemma {:induction false} PathFacts(t: Tree, path: seq<nat>)
    requires ValidPath(t, path)
    ensures path != [] ==> ValidPath(t, path[..|path| - 1]) && path[|path| - 1] < |At(t, path[..|path| - 1]).kids|
    ensures path != [] ==> At(t, path) == At(t, path[..|path| - 1]).kids[path[|path| - 1]]
    decreases |path|
  {
    if path != [] {
      PathFacts(t.kids[path[0]], path[1..]);
      if |path| > 1 {
        assert path[..|path| - 1][1..] == path[1..][..|path| - 2];
      }
    }
  }

  lemma {:induction false} ExtendPath(t: Tree, path: seq<nat>, k: nat)
    requires ValidPath(t, path) && k < |At(t, path).kids|
    ensures ValidPath(t, path + [k])
    ensures At(t, path + [k]) == At(t, path).kids[k]
    ensures ParentIdAt(t, path + [k]) == At(t, path).info.id
    decreases |path|
  {
    if path == [] {
      assert ValidPath(t.kids[k], ([] + [k])[1..]);
    } else {
      ExtendPath(t.kids[path[0]], path[1..], k);
      assert (path + [k])[1..] == path[1..] + [k];
    }
  }

  /** Moving to child `k` after the first `k` children have been listed. */
  lemma {:induction false} BeforeChild(t: Tree, source: Text, parent: nat, path: seq<nat>, k: nat)
    requires ValidPath(t, path) && k < |At(t, path).kids|
    ensures ValidPath(t, path + [k])
    ensures Before(t, source, parent, path + [k])
         == Before(t, source, parent, path)
          + [RawNode(At(t, path), source, if path == [] then parent else ParentIdAt(t, path))]
          + RawAll(At(t, path).kids[..k], source, At(t, path).info.id)
    decreases |path|
  {
    ExtendPath(t, path, k);
    if path == [] {
      assert ([] + [k])[1..] == [];
      assert ([] + [k])[0] == k;
    } else {
      BeforeChild(t.kids[path[0]], source, t.info.id, path[1..], k);
      assert (path + [k])[1..] == path[1..] + [k];
    }
  }

  /** Everything up to and including the subtree at `path`. */
  ghost function Through(t: Tree, source: Text, path: seq<nat>): seq<Node>
    requires ValidPath(t, path)
  {
    Before(t, source, NULL_ID, path) + Raw(At(t, path), source, ParentIdAt(t, path))
  }

  /** What has been listed when the cursor loop starts a round. */
  ghost function Listed(t: Tree, source: Text, path: seq<nat>, finished: bool): seq<Node>
    requires ValidPath(t, path)
  {
    if finished then Raw(t, source, NULL_ID) else Before(t, source, NULL_ID, path)
  }

  /** Stepping to the next sibling once a subtree is listed. */
  lemma {:induction false} SiblingStep(t: Tree, source: Text, up: seq<nat>, last: nat)
    requires ValidPath(t, up) && last + 1 < |At(t, up).kids|
    ensures ValidPath(t, up + [last]) && ValidPath(t, up + [last + 1])
    ensures Before(t, source, NULL_ID, up + [last + 1]) == Through(t, source, up + [last])
  {
    var kids, id := At(t, up).kids, At(t, up).info.id;
    ExtendPath(t, up, last);
    BeforeChild(t, source, NULL_ID, up, last);
    BeforeChild(t, source, NULL_ID, up, last + 1);
    RawAllSnoc(kids, last, source, id);
  }

  /** Stepping up once the subtree of a last child is listed: the parent's subtree is listed too. */
  lemma {:induction false} ParentStep(t: Tree, source: Text, up: seq<nat>, last: nat)
    requires ValidPath(t, up) && last + 1 == |At(t, up).kids|
    ensures ValidPath(t, up + [last])
    ensures Through(t, source, up) == Through(t, source, up + [last])
  {
    var kids, id := At(t, up).kids, At(t, up).info.id;
    ExtendPath(t, up, last);
    BeforeChild(t, source, NULL_ID, up, last);
    RawAllSnoc(kids, last, source, id);
    assert kids[..last + 1] == kids;
    var before, node := Before(t, source, NULL_ID, up), RawNode(At(t, up), source, ParentIdAt(t, up));
    var first, rest := RawAll(kids[..last], source, id), Raw(kids[last], source, id);
    assert Raw(At(t, up), source, ParentIdAt(t, up)) == [node] + (first + rest);
    Regroup([node], first, rest);
    Regroup(before, [node], first + rest);
    Regroup(before + [node], first, rest);
  }

  /** Stepping down to the first child. */
  lemma {:induction false} ChildStep(t: Tree, source: Text, path: seq<nat>)
    requires ValidPath(t, path) && |At(t, path).kids| > 0
    ensures ValidPath(t, path + [0])
    ensures Before(t, source, NULL_ID, path + [0])
         == Before(t, source, NULL_ID, path) + [RawNode(At(t, path), source, ParentIdAt(t, path))]
  {
    BeforeChild(t, source, NULL_ID, path, 0);
  }

  /** The node at `path` has no next sibling. */
  ghost predicate AtLastChild(t: Tree, path: seq<nat>) {
    path != [] ==>
      ValidPath(t, path[..|path| - 1]) && path[|path| - 1] + 1 == |At(t, path[..|path| - 1]).kids|
  }

  lemma {:induction false} LeafStep(t: Tree, source: Text, path: seq<nat>)
    requires ValidPath(t, path) && At(t, path).kids == []
    ensures Before(t, source, NULL_ID, path) + [RawNode(At(t, path), source, ParentIdAt(t, path))] == Through(t, source, path)
  {
    var root := [RawNode(At(t, path), source, ParentIdAt(t, path))];
    assert Raw(At(t, path), source, ParentIdAt(t, path)) == root + [] == root;
  }

  lemma {:induction false} NextSiblingStep(t: Tree, source: Text, path: seq<nat>)
    requires ValidPath(t, path) && path != []
    requires ValidPath(t, path[..|path| - 1]) && path[|path| - 1] + 1 < |At(t, path[..|path| - 1]).kids|
    ensures ValidPath(t, path[..|path| - 1] + [path[|path| - 1] + 1])
    ensures Before(t, source, NULL_ID, path[..|path| - 1] + [path[|path| - 1] + 1]) == Through(t, source, path)
  {
    SiblingStep(t, source, path[..|path| - 1], path[|path| - 1]);
    assert path == path[..|path| - 1] + [path[|path| - 1]];
  }

  lemma {:induction false} LastChildStep(t: Tree, source: Text, path: seq<nat>)
    requires ValidPath(t, path) && path != [] && AtLastChild(t, path)
    ensures Through(t, source, path[..|path| - 1]) == Through(t, source, path)
  {
    ParentStep(t, source, path[..|path| - 1], path[|path| - 1]);
    assert path == path[..|path| - 1] + [path[|path| - 1]];
  }

  lemma {:induction false} SizeAllNth(ts: seq<Tree>, k: nat)
    requires k < |ts|
    ensures SizeAll(ts[..k]) + Size(ts[k]) <= SizeAll(ts)
  {
    if k > 0 {
      SizeAllNth(ts[1..], k - 1);
      assert ts[..k][1..] == ts[1..][..k - 1];
    }
  }

  lemma {:induction false} BeforeFits(t: Tree, source: Text, parent: nat, path: seq<nat>)
    requires ValidPath(t, path)
    ensures |Before(t, source, parent, path)| + Size(At(t, path)) <= Size(t)
    decreases |path|
  {
    if path != [] {
      SizeAllNth(t.kids, path[0]);
      RawAllSize(t.kids[..path[0]], source, t.info.id);
      BeforeFits(t.kids[path[0]], source, t.info.id, path[1..]);
    }
  }

  lemma {:induction false} AtInSource(t: Tree, path: seq<nat>, size: nat)
    requires ValidPath(t, path) && InSource(t, size)
    ensures InSource(At(t, path), size)
    decreases |path|
  {
    if path != [] {
      NthInSource(t.kids, path[0], size);
      AtInSource(t.kids[path[0]], path[1..], size);
    }
  }

  lemma {:induction false} NthInSource(ts: seq<Tree>, k: nat, size: nat)
    requires AllInSource(ts, size) && k < |ts|
    ensures InSource(ts[k], size)
  {
    if k > 0 {
      NthInSource(ts[1..], k - 1, size);
    }
  }

  lemma {:induction false} FindFirst(ids: seq<nat>, id: nat, k: nat, i: nat)
    requires k <= i < |ids| && ids[i] == id && forall j :: k <= j < i ==> ids[j] != id
    ensures FindFrom(ids, id, k) == i
    decreases i - k
  {
    if k < i {
      FindFirst(ids, id, k + 1, i);
    }
  }

  lemma {:induction false} FindNone(ids: seq<nat>, id: nat, k: nat)
    requires forall j :: k <= j < |ids| ==> ids[j] != id
    ensures FindFrom(ids, id, k) == INVALID_ID
    decreases |ids| - k
  {
    if k < |ids| {
      FindNone(ids, id, k + 1);
    }
  }

  // ---- The cursor and the AST under construction ----------------------------

  /** TSTreeCursor over a fixed tree. The getters and moves are those of the tree-sitter API. */
  class TreeCursor {
    const root: Tree
    var path: seq<nat>

    ghost predicate Valid()
      reads this
    {
      ValidPath(root, path)
    }

    constructor (root: Tree)
      ensures Valid() && this.root == root && path == []
    {
      this.root := root;
      path := [];
    }

    method GotoFirstChild() returns (moved: bool)
      requires Valid()
      modifies this
      ensures Valid()
      ensures moved == (|At(root, old(path)).kids| > 0)
      ensures path == if moved then old(path) + [0] else old(path)
    {
      moved := |At(root, path).kids| > 0;
      if moved {
        ExtendPath(root, path, 0);
        path := path + [0];
      }
    }

    method GotoNextSibling() returns (moved: bool)
      requires Valid()
      modifies this
      ensures Valid()
      ensures old(path) != [] ==> ValidPath(root, old(path)[..|old(path)| - 1])
      ensures moved ==
        (old(path) != [] && old(path)[|old(path)| - 1] + 1 < |At(root, old(path)[..|old(path)| - 1]).kids|)
      ensures !moved ==> AtLastChild(root, path)
      ensures path == if moved then old(path)[..|old(path)| - 1] + [old(path)[|old(path)| - 1] + 1] else old(path)
    {
      if path == [] {
        return false;
      }
      PathFacts(root, path);
      var up, last := path[..|path| - 1], path[|path| - 1];
      moved := last + 1 < |At(root, up).kids|;
      if moved {
        ExtendPath(root, up, last + 1);
        path := up + [last + 1];
      }
    }

    method GotoParent() returns (moved: bool)
      requires Valid()
      modifies this
      ensures Valid()
      ensures moved == (old(path) != [])
      ensures path == if moved then old(path)[..|old(path)| - 1] else old(path)
    {
      moved := path != [];
      if moved {
        PathFacts(root, path);
        path := path[..|path| - 1];
      }
    }
  }

  lemma {:induction false} RootStep(t: Tree, source: Text)
    ensures Through(t, source, []) == Raw(t, source, NULL_ID)
  {
    assert [] + Raw(t, source, NULL_ID) == Raw(t, source, NULL_ID);
  }

  /** Goes from a last child to its parent, whose subtree is then listed too. */
  method StepUp(cursor: TreeCursor, ghost source: Text) returns (moved: bool)
    requires cursor.Valid() && AtLastChild(cursor.root, cursor.path)
    modifies cursor
    ensures cursor.Valid() && moved == (old(cursor.path) != [])
    ensures moved ==> |cursor.path| < |old(cursor.path)|
    ensures !moved ==> cursor.path == old(cursor.path)
    ensures Through(cursor.root, source, cursor.path) == old(Through(cursor.root, source, cursor.path))
  {
    ghost var at := cursor.path;
    moved := cursor.GotoParent();
    if moved {
      LastChildStep(cursor.root, source, at);
    }
  }

  /** Goes to the next sibling, if any, once a subtree is listed. */
  method StepAside(cursor: TreeCursor, ghost source: Text) returns (moved: bool)
    requires cursor.Valid()
    modifies cursor
    ensures cursor.Valid()
    ensures moved ==> Before(cursor.root, source, NULL_ID, cursor.path) == old(Through(cursor.root, source, cursor.path))
    ensures !moved ==> cursor.path == old(cursor.path) && AtLastChild(cursor.root, cursor.path)
  {
    ghost var at := cursor.path;
    moved := cursor.GotoNextSibling();
    if moved {
      NextSiblingStep(cursor.root, source, at);
    }
  }

  /** The inner loop of traverse_all_nodes: climb until some ancestor has a next sibling, or the root is left. */
  method Backtrack(cursor: TreeCursor, ghost source: Text) returns (reachedRoot: bool)
    requires cursor.Valid() && AtLastChild(cursor.root, cursor.path)
    modifies cursor
    ensures cursor.Valid()
    ensures old(Through(cursor.root, source, cursor.path)) == Listed(cursor.root, source, cursor.path, reachedRoot)
  {
    reachedRoot := false;
    ghost var target := Through(cursor.root, source, cursor.path);
    var backtracking := true;
    while backtracking
      invariant cursor.Valid()
      invariant backtracking ==>
        !reachedRoot && AtLastChild(cursor.root, cursor.path) && target == Through(cursor.root, source, cursor.path)
      invariant !backtracking ==> target == Listed(cursor.root, source, cursor.path, reachedRoot)
      decreases backtracking, |cursor.path|
    {
      var moved := StepUp(cursor, source);
      if !moved {
        RootStep(cursor.root, source);
        reachedRoot := true;
        backtracking := false;
      } else {
        moved := StepAside(cursor, source);
        if moved {
          backtracking := false;
        }
      }
    }
  }

  // ---- Remapping ------------------------------------------------------------

  /** `ids` holds the ids of `nodes` from position `base` on. */
  ghost predicate HoldsIds(ids: seq<nat>, base: nat, nodes: seq<Node>) {
    base + |nodes| <= |ids| && forall k {:trigger nodes[k]} :: 0 <= k < |nodes| ==> ids[base + k] == nodes[k].id
  }

  lemma FindDistinct(ids: seq<nat>, i: nat)
    requires Distinct(ids) && i < |ids|
    ensures FindId(ids, ids[i]) == i
  {
    FindFirst(ids, ids[i], 0, i);
  }

  lemma HoldsIdsSplit(ids: seq<nat>, base: nat, a: seq<Node>, b: seq<Node>)
    requires HoldsIds(ids, base, a + b)
    ensures HoldsIds(ids, base, a) && HoldsIds(ids, base + |a|, b)
  {
    var all := a + b;
    forall k | 0 <= k < |a| ensures ids[base + k] == a[k].id {
      assert all[k] == a[k];
    }
    forall k | 0 <= k < |b| ensures ids[base + |a| + k] == b[k].id {
      assert all[|a| + k] == b[k];
    }
  }

  /** Splitting off the first tree of a forest whose ids are in place. */
  lemma {:induction false} FirstTreeIds(ts: seq<Tree>, source: Text, ids: seq<nat>, base: nat, parent: nat)
    requires ts != [] && HoldsIds(ids, base, RawAll(ts, source, parent))
    ensures HoldsIds(ids, base, Raw(ts[0], source, parent))
    ensures HoldsIds(ids, base + Size(ts[0]), RawAll(ts[1..], source, parent))
  {
    RawSize(ts[0], source, parent);
    HoldsIdsSplit(ids, base, Raw(ts[0], source, parent), RawAll(ts[1..], source, parent));
  }

  /** The root of a tree whose ids are in place is found at its position. */
  lemma {:induction false} RootFound(t: Tree, source: Text, ids: seq<nat>, base: nat, parent: nat)
    requires Distinct(ids) && HoldsIds(ids, base, Raw(t, source, parent))
    ensures FindId(ids, t.info.id) == base
    ensures HoldsIds(ids, base + 1, RawAll(t.kids, source, t.info.id))
  {
    var root := [RawNode(t, source, parent)];
    HoldsIdsSplit(ids, base, root, RawAll(t.kids, source, t.info.id));
    assert ids[base] == root[0].id;
    FindDistinct(ids, base);
  }

  lemma {:induction false} FindAllCons(ids: seq<nat>, x: nat, rest: seq<nat>)
    ensures FindAll(ids, [x] + rest) == [FindId(ids, x)] + FindAll(ids, rest)
  {
    assert ([x] + rest)[1..] == rest;
  }

  lemma {:induction false} FindKids(ts: seq<Tree>, source: Text, ids: seq<nat>, base: nat, parent: nat)
    requires Distinct(ids) && HoldsIds(ids, base, RawAll(ts, source, parent))
    ensures FindAll(ids, KidIds(ts)) == ChildIndices(ts, base)
  {
    if ts != [] {
      FirstTreeIds(ts, source, ids, base, parent);
      RootFound(ts[0], source, ids, base, parent);
      FindKids(ts[1..], source, ids, base + Size(ts[0]), parent);
      FindAllCons(ids, ts[0].info.id, KidIds(ts[1..]));
    }
  }

  lemma RemapAppend(ids: seq<nat>, a: seq<Node>, b: seq<Node>)
    ensures Remap(ids, a + b) == Remap(ids, a) + Remap(ids, b)
  {
  }

  lemma {:induction false} RemapTree(t: Tree, source: Text, ids: seq<nat>, base: nat, parentId: nat, parent: nat)
    requires Distinct(ids) && HoldsIds(ids, base, Raw(t, source, parentId)) && FindId(ids, parentId) == parent
    ensures Remap(ids, Raw(t, source, parentId)) == Flat(t, source, base, parent)
    decreases t, 0
  {
    var root, rest := RawNode(t, source, parentId), RawAll(t.kids, source, t.info.id);
    RootFound(t, source, ids, base, parentId);
    FindKids(t.kids, source, ids, base + 1, t.info.id);
    RemapForest(t.kids, source, ids, base + 1, t.info.id, base);
    RemapAppend(ids, [root], rest);
    assert Remap(ids, [root]) == [RemapNode(ids, root)];
  }

  lemma {:induction false} RemapForest(ts: seq<Tree>, source: Text, ids: seq<nat>, base: nat, parentId: nat, parent: nat)
    requires Distinct(ids) && HoldsIds(ids, base, RawAll(ts, source, parentId)) && FindId(ids, parentId) == parent
    ensures Remap(ids, RawAll(ts, source, parentId)) == FlatAll(ts, source, base, parent)
    decreases ts
  {
    if ts != [] {
      FirstTreeIds(ts, source, ids, base, parentId);
      RemapTree(ts[0], source, ids, base, parentId, parent);
      RemapForest(ts[1..], source, ids, base + Size(ts[0]), parentId, parent);
      RemapAppend(ids, Raw(ts[0], source, parentId), RawAll(ts[1..], source, parentId));
    }
  }

  /** With distinct non-null ids, remapping the traversal gives positions throughout. */
  lemma {:induction false} RemapGivesFlat(t: Tree, source: Text)
    requires Distinct(Ids(Raw(t, source, NULL_ID))) && NULL_ID !in Ids(Raw(t, source, NULL_ID))
    ensures Remap(Ids(Raw(t, source, NULL_ID)), Raw(t, source, NULL_ID)) == Flat(t, source, 0, INVALID_ID)
  {
    var ids := Ids(Raw(t, source, NULL_ID));
    FindNone(ids, NULL_ID, 0);
    RemapTree(t, source, ids, 0, NULL_ID, INVALID_ID);
  }

  // ---- Shape of the flat form -----------------------------------------------

  /** `part` occupies `nodes` from `base` on. */
  ghost predicate Holds(nodes: seq<Node>, base: nat, part: seq<Node>) {
    base + |part| <= |nodes| && nodes[base..base + |part|] == part
  }

  lemma HoldsSplit(nodes: seq<Node>, base: nat, a: seq<Node>, b: seq<Node>)
    requires Holds(nodes, base, a + b)
    ensures Holds(nodes, base, a) && Holds(nodes, base + |a|, b)
  {
    var s := nodes[base..base + |a + b|];
    assert s[..|a|] == a && s[|a|..] == b;
    assert nodes[base..base + |a|] == s[..|a|];
    assert nodes[base + |a|..base + |a| + |b|] == s[|a|..];
  }

  /** The positions `c` of the roots of a forest laid out over `base..end`. */
  ghost predicate ForestLayout(nodes: seq<Node>, c: seq<nat>, base: nat, end: nat, parent: nat) {
    && base <= end <= |nodes|
    && (c == [] <==> base == end)
    && (forall k :: 0 <= k < |c| ==> base <= c[k] < end && nodes[c[k]].parent == parent)
    && (c != [] ==> c[0] == base && End(nodes, c[|c| - 1]) == end)
    && (forall j, k :: 0 <= j < k < |c| && k == j + 1 ==> c[k] == End(nodes, c[j]))
    && (forall i :: base <= i < end ==> Linked(nodes, i) && (i in c || Parented(nodes, i)))
  }

  lemma {:induction false} FlatLayout(nodes: seq<Node>, t: Tree, source: Text, base: nat, parent: nat)
    requires base + Size(t) <= |nodes| && Holds(nodes, base, Flat(t, source, base, parent))
    ensures End(nodes, base) == base + Size(t) && nodes[base].parent == parent
    ensures forall i :: base <= i < base + Size(t) ==> Linked(nodes, i)
    ensures forall i :: base < i < base + Size(t) ==> Parented(nodes, i)
    decreases t, 0
  {
    var root := MakeNode(t.info, source, base, parent, ChildIndices(t.kids, base + 1));
    HoldsSplit(nodes, base, [root], FlatAll(t.kids, source, base + 1, base));
    assert nodes[base] == nodes[base..base + 1][0] == root;
    ForestIsLaidOut(nodes, t.kids, source, base + 1, base);
    var c := root.children;
    if c != [] {
      assert c[|c| - 1] < |nodes|;
    }
    assert Linked(nodes, base);
  }

  lemma {:induction false} ForestIsLaidOut(nodes: seq<Node>, ts: seq<Tree>, source: Text, base: nat, parent: nat)
    requires base + SizeAll(ts) <= |nodes| && Holds(nodes, base, FlatAll(ts, source, base, parent))
    ensures ForestLayout(nodes, ChildIndices(ts, base), base, base + SizeAll(ts), parent)
    decreases ts
  {
    if ts != [] {
      var mid := base + Size(ts[0]);
      FlatSize(ts[0], source, base, parent);
      HoldsSplit(nodes, base, Flat(ts[0], source, base, parent), FlatAll(ts[1..], source, mid, parent));
      FlatLayout(nodes, ts[0], source, base, parent);
      ForestIsLaidOut(nodes, ts[1..], source, mid, parent);
      ForestCons(nodes, ChildIndices(ts[1..], mid), base, mid, base + SizeAll(ts), parent);
    }
  }

  lemma {:induction false} ForestCons(nodes: seq<Node>, c: seq<nat>, base: nat, mid: nat, end: nat, parent: nat)
    requires base < mid && ForestLayout(nodes, c, mid, end, parent)
    requires End(nodes, base) == mid && nodes[base].parent == parent
    requires forall i :: base <= i < mid ==> Linked(nodes, i)
    requires forall i :: base < i < mid ==> Parented(nodes, i)
    ensures ForestLayout(nodes, [base] + c, base, end, parent)
  {
    var d := [base] + c;
    forall j, k | 0 <= j < k < |d| && k == j + 1 ensures d[k] == End(nodes, d[j]) {
      if j > 0 {
        assert d[k] == c[k - 1] && d[j] == c[j - 1];
      }
    }
    assert d[|d| - 1] == if c == [] then base else c[|c| - 1];
    forall i | base <= i < end ensures Linked(nodes, i) && (i in d || Parented(nodes, i)) {
      if i == base {
        assert d[0] == base;
      } else if i >= mid && i in c {
        var k :| 0 <= k < |c| && c[k] == i;
        assert d[k + 1] == i;
      }
    }
  }

  /** The flat form of any tree is a well-formed AST. */
  lemma {:induction false} FlatIsWellFormed(t: Tree, source: Text)
    requires Size(t) <= MAX_NODES
    ensures WellFormed(Flat(t, source, 0, INVALID_ID))
  {
    var nodes := Flat(t, source, 0, INVALID_ID);
    FlatSize(t, source, 0, INVALID_ID);
    assert nodes[0..0 + |nodes|] == nodes;
    FlatLayout(nodes, t, source, 0, INVALID_ID);
  }

  /** Byte ranges as tree-sitter reports them: a parent covers its children, siblings come in order. */
  ghost predicate TreeNested(t: Tree) {
    && t.info.startByte <= t.info.endByte
    && (forall k :: 0 <= k < |t.kids| ==>
          t.info.startByte <= t.kids[k].info.startByte && t.kids[k].info.endByte <= t.info.endByte)
    && (forall j, k :: 0 <= j < k < |t.kids| && k == j + 1 ==> t.kids[j].info.endByte <= t.kids[k].info.startByte)
    && AllNested(t.kids)
  }

  ghost predicate AllNested(ts: seq<Tree>) {
    ts == [] || (TreeNested(ts[0]) && AllNested(ts[1..]))
  }

  /** The nodes at positions `c` carry the byte ranges of the trees `ts`. */
  ghost predicate CarryRanges(nodes: seq<Node>, c: seq<nat>, ts: seq<Tree>) {
    |c| == |ts| && forall k :: 0 <= k < |c| ==>
      c[k] < |nodes| && nodes[c[k]].startByte == ts[k].info.startByte && nodes[c[k]].endByte == ts[k].info.endByte
  }

  lemma {:induction false} FlatNested(nodes: seq<Node>, t: Tree, source: Text, base: nat, parent: nat)
    requires base + Size(t) <= |nodes| && Holds(nodes, base, Flat(t, source, base, parent)) && TreeNested(t)
    ensures nodes[base].startByte == t.info.startByte && nodes[base].endByte == t.info.endByte
    ensures forall i :: base <= i < base + Size(t) ==> RangesNested(nodes, i)
    decreases t, 0
  {
    var root := MakeNode(t.info, source, base, parent, ChildIndices(t.kids, base + 1));
    HoldsSplit(nodes, base, [root], FlatAll(t.kids, source, base + 1, base));
    assert nodes[base] == nodes[base..base + 1][0] == root;
    ForestNested(nodes, t.kids, source, base + 1, base);
    assert CarryRanges(nodes, root.children, t.kids);
    assert RangesNested(nodes, base);
  }

  lemma {:induction false} ForestNested(nodes: seq<Node>, ts: seq<Tree>, source: Text, base: nat, parent: nat)
    requires base + SizeAll(ts) <= |nodes| && Holds(nodes, base, FlatAll(ts, source, base, parent)) && AllNested(ts)
    ensures CarryRanges(nodes, ChildIndices(ts, base), ts)
    ensures forall i :: base <= i < base + SizeAll(ts) ==> RangesNested(nodes, i)
    decreases ts
  {
    if ts != [] {
      var mid := base + Size(ts[0]);
      FlatSize(ts[0], source, base, parent);
      HoldsSplit(nodes, base, Flat(ts[0], source, base, parent), FlatAll(ts[1..], source, mid, parent));
      FlatNested(nodes, ts[0], source, base, parent);
      ForestNested(nodes, ts[1..], source, mid, parent);
      var c, d := ChildIndices(ts, base), ChildIndices(ts[1..], mid);
      forall k | 0 <= k < |c|
        ensures c[k] < |nodes| && nodes[c[k]].startByte == ts[k].info.startByte && nodes[c[k]].endByte == ts[k].info.endByte
      {
        if k > 0 {
          assert c[k] == d[k - 1] && ts[k] == ts[1..][k - 1];
        }
      }
    }
  }

  /** Nesting of byte ranges survives flattening. */
  lemma {:induction false} FlatIsNested(t: Tree, source: Text)
    requires TreeNested(t)
    ensures Nested(Flat(t, source, 0, INVALID_ID))
  {
    var nodes := Flat(t, source, 0, INVALID_ID);
    FlatSize(t, source, 0, INVALID_ID);
    assert nodes[0..0 + |nodes|] == nodes;
    FlatNested(nodes, t, source, 0, INVALID_ID);
  }

  /** Every text is the slice of the source that the node's byte range names. */
  lemma {:induction false} FlatTexts(t: Tree, source: Text, base: nat, parent: nat, i: nat)
    requires i < |Flat(t, source, base, parent)|
    ensures Flat(t, source, base, parent)[i].text
         == Slice(source, Flat(t, source, base, parent)[i].startByte, Flat(t, source, base, parent)[i].endByte)
    decreases t, 0
  {
    if i > 0 {
      FlatAllTexts(t.kids, source, base + 1, base, i - 1);
    }
  }

  lemma {:induction false} FlatAllTexts(ts: seq<Tree>, source: Text, base: nat, parent: nat, i: nat)
    requires i < |FlatAll(ts, source, base, parent)|
    ensures FlatAll(ts, source, base, parent)[i].text
         == Slice(source, FlatAll(ts, source, base, parent)[i].startByte, FlatAll(ts, source, base, parent)[i].endByte)
    decreases ts
  {
    var n := Size(ts[0]);
    FlatSize(ts[0], source, base, parent);
    if i < n {
      FlatTexts(ts[0], source, base, parent, i);
    } else {
      FlatAllTexts(ts[1..], source, base + n, parent, i - n);
    }
  }

  /** The subtrees in pre-order. */
  function PreOrder(t: Tree): seq<Tree> {
    [t] + PreOrderAll(t.kids)
  }

  function PreOrderAll(ts: seq<Tree>): seq<Tree> {
    if ts == [] then [] else PreOrder(ts[0]) + PreOrderAll(ts[1..])
  }

  lemma {:induction false} PreOrderSize(t: Tree)
    ensures |PreOrder(t)| == Size(t)
    decreases t, 0
  {
    PreOrderAllSize(t.kids);
  }

  lemma {:induction false} PreOrderAllSize(ts: seq<Tree>)
    ensures |PreOrderAll(ts)| == SizeAll(ts)
    decreases ts
  {
    if ts != [] {
      PreOrderSize(ts[0]);
      PreOrderAllSize(ts[1..]);
    }
  }

  /** The flat node says of its tree node what the parser said: one bit of the flags for each of its properties. */
  ghost predicate Carries(n: Node, t: Info) {
    && n.nodeType == t.nodeType && n.grammarType == t.grammarType && n.hash == t.hash
    && n.startByte == t.startByte && n.endByte == t.endByte
    && n.start.row == t.start.row && n.start.column == t.start.column
    && n.end.row == t.end.row && n.end.column == t.end.column
    && n.flags < 16 && (n.flags % 2 == 1 <==> t.named) && (n.flags / 2 % 2 == 1 <==> t.missing)
    && (n.flags / 4 % 2 == 1 <==> t.extra) && (n.flags / 8 == 1 <==> t.error)
  }

  /** The children of `n`, counted from `base`, are the positions in `all` of the children of `t`, in order. */
  ghost predicate LinksKids(n: Node, base: nat, t: Tree, all: seq<Tree>) {
    && |n.children| == |t.kids|
    && forall k :: 0 <= k < |t.kids| ==> base <= n.children[k] < base + |all| && all[n.children[k] - base] == t.kids[k]
  }

  /** Position `i` of `nodes`, which stand at `base` and after, is what the flat form of `trees` has there. */
  ghost predicate From(nodes: seq<Node>, base: nat, trees: seq<Tree>, i: nat) {
    && i < |nodes| == |trees| && Carries(nodes[i], trees[i].info) && LinksKids(nodes[i], base, trees[i], trees)
  }

  lemma FromLeft(a: seq<Node>, b: seq<Node>, base: nat, x: seq<Tree>, y: seq<Tree>, i: nat)
    requires From(a, base, x, i) && |b| == |y|
    ensures From(a + b, base, x + y, i)
  {
  }

  lemma FromRight(a: seq<Node>, b: seq<Node>, base: nat, x: seq<Tree>, y: seq<Tree>, i: nat)
    requires From(b, base + |a|, y, i) && |a| == |x|
    ensures From(a + b, base, x + y, |a| + i)
  {
    var n := b[i];
    assert (a + b)[|a| + i] == n && (x + y)[|a| + i] == y[i];
    forall k | 0 <= k < |y[i].kids|
      ensures base <= n.children[k] < base + |x + y| && (x + y)[n.children[k] - base] == y[i].kids[k]
    {
      assert y[n.children[k] - (base + |a|)] == y[i].kids[k];
    }
  }

  lemma {:induction false} KidAt(ts: seq<Tree>, base: nat, k: nat)
    requires k < |ts|
    ensures base <= ChildIndices(ts, base)[k] < base + |PreOrderAll(ts)|
    ensures PreOrderAll(ts)[ChildIndices(ts, base)[k] - base] == ts[k]
  {
    PreOrderSize(ts[0]);
    if k > 0 {
      KidAt(ts[1..], base + Size(ts[0]), k - 1);
    }
  }

  lemma {:induction false} RootLinks(t: Tree, source: Text, base: nat, parent: nat)
    ensures LinksKids(Flat(t, source, base, parent)[0], base, t, PreOrder(t))
  {
    var c, rest := ChildIndices(t.kids, base + 1), PreOrderAll(t.kids);
    forall k | 0 <= k < |t.kids| ensures base <= c[k] < base + |[t] + rest| && ([t] + rest)[c[k] - base] == t.kids[k] {
      KidAt(t.kids, base + 1, k);
      assert ([t] + rest)[c[k] - base] == rest[c[k] - (base + 1)];
    }
  }

  lemma {:induction false} RootFrom(t: Tree, source: Text, base: nat, parent: nat)
    ensures From(Flat(t, source, base, parent), base, PreOrder(t), 0)
  {
    FlatSize(t, source, base, parent);
    PreOrderSize(t);
    assert PreOrder(t)[0] == t;
    RootLinks(t, source, base, parent);
  }

  lemma {:induction false} FlatFrom(t: Tree, source: Text, base: nat, parent: nat, i: nat)
    requires i < Size(t)
    ensures From(Flat(t, source, base, parent), base, PreOrder(t), i)
    decreases t, 0
  {
    if i > 0 {
      FlatAllFrom(t.kids, source, base + 1, base, i - 1);
      var root := MakeNode(t.info, source, base, parent, ChildIndices(t.kids, base + 1));
      FromRight([root], FlatAll(t.kids, source, base + 1, base), base, [t], PreOrderAll(t.kids), i - 1);
    } else {
      RootFrom(t, source, base, parent);
    }
  }

  lemma {:induction false} FlatAllFrom(ts: seq<Tree>, source: Text, base: nat, parent: nat, i: nat)
    requires i < SizeAll(ts)
    ensures From(FlatAll(ts, source, base, parent), base, PreOrderAll(ts), i)
    decreases ts
  {
    var n := Size(ts[0]);
    var a, b := Flat(ts[0], source, base, parent), FlatAll(ts[1..], source, base + n, parent);
    FlatSize(ts[0], source, base, parent);
    PreOrderSize(ts[0]);
    FlatAllSize(ts[1..], source, base + n, parent);
    PreOrderAllSize(ts[1..]);
    if i < n {
      FlatFrom(ts[0], source, base, parent, i);
      FromLeft(a, b, base, PreOrder(ts[0]), PreOrderAll(ts[1..]), i);
    } else {
      FlatAllFrom(ts[1..], source, base + n, parent, i - n);
      FromRight(a, b, base, PreOrder(ts[0]), PreOrderAll(ts[1..]), i - n);
    }
  }

  /** The vector is the tree: position i carries what the parser said of the i-th node in pre-order, and its children
  are the positions of that node's children. */
  lemma {:induction false} FlatIsTree(t: Tree, source: Text, i: nat)
    requires i < |Flat(t, source, 0, INVALID_ID)|
    ensures |PreOrder(t)| == |Flat(t, source, 0, INVALID_ID)|
    ensures var n, s := Flat(t, source, 0, INVALID_ID)[i], PreOrder(t)[i];
      && Carries(n, s.info) && n.text == Slice(source, s.info.startByte, s.info.endByte)
      && |n.children| == |s.kids|
      && forall k :: 0 <= k < |s.kids| ==> n.children[k] < |PreOrder(t)| && PreOrder(t)[n.children[k]] == s.kids[k]
  {
    FlatSize(t, source, 0, INVALID_ID);
    FlatFrom(t, source, 0, INVALID_ID, i);
    FlatTexts(t, source, 0, INVALID_ID, i);
  }

  lemma AppendNode(nodes: seq<Node>, ids: seq<nat>, added: seq<Node>, n: Node)
    ensures (nodes + added) + [n] == nodes + (added + [n])
    ensures (ids + Ids(added)) + [n.id] == ids + Ids(added + [n])
  {
  }

  class AST {
    const source: Text
    var ids: seq<nat>
    var nodes: seq<Node>

    constructor (source: Text)
      ensures this.source == source && ids == [] && nodes == []
    {
      this.source := source;
      ids, nodes := [], [];
    }

    method GetString(start: nat, end: nat) returns (r: Text)
      requires start < |source| ==> start <= end <= |source|
      ensures r == Slice(source, start, end)
    {
      if |source| <= start {
        return [];
      }
      r := source[start..end];
    }

    /** Appends the record of one parse-tree node, links still being tree-sitter ids. */
    method Add(node: Tree, parentId: nat)
      requires InSource(node, |source|)
      modifies this
      ensures ids == old(ids) + [node.info.id]
      ensures nodes == old(nodes) + [RawNode(node, source, parentId)]
    {
      var n := node.info;
      var text := GetString(n.startByte, n.endByte);
      var children: seq<nat> := [];
      for i := 0 to |node.kids|
        invariant |children| == i && forall k :: 0 <= k < i ==> children[k] == node.kids[k].info.id
        invariant ids == old(ids) && nodes == old(nodes)
      {
        children := children + [node.kids[i].info.id];
      }
      KidIdsPointwise(node.kids, children);
      var flags: U32 := 0;
      if n.named { flags := flags + 1; }
      if n.missing { flags := flags + 2; }
      if n.extra { flags := flags + 4; }
      if n.error { flags := flags + 8; }
      ids := ids + [n.id];
      nodes := nodes + [Node(n.id, parentId, n.hash, flags, n.nodeType, n.grammarType,
                             text, n.startByte, n.endByte, n.start, n.end, children)];
    }

    method Find(id: nat) returns (r: nat)
      requires |ids| == |nodes|
      ensures r == FindId(ids, id)
    {
      for i := 0 to |nodes|
        invariant forall j :: 0 <= j < i ==> ids[j] != id
      {
        if ids[i] == id {
          FindFirst(ids, id, 0, i);
          return i;
        }
      }
      FindNone(ids, id, 0);
      r := INVALID_ID;
    }

    /** Rewrites every link from tree-sitter ids to positions, node by node, in place. */
    method RemapIds()
      requires |ids| == |nodes|
      modifies this`nodes
      ensures nodes == Remap(ids, old(nodes))
    {
      ghost var was := nodes;
      for i := 0 to |nodes|
        invariant |nodes| == |was|
        invariant forall j :: 0 <= j < i ==> nodes[j] == RemapNode(ids, was[j])
        invariant forall j :: i <= j < |was| ==> nodes[j] == was[j]
      {
        var id := Find(nodes[i].id);
        var parent := Find(nodes[i].parent);
        var children: seq<nat> := [];
        ghost var here := nodes;
        for k := 0 to |nodes[i].children|
          invariant nodes == here && |children| == k
          invariant forall j :: 0 <= j < k ==> children[j] == FindId(ids, was[i].children[j])
        {
          var child := Find(nodes[i].children[k]);
          children := children + [child];
        }
        FindAllPointwise(ids, was[i].children, children);
        nodes := nodes[i := nodes[i].(id := id, parent := parent, children := children)];
      }
    }

    /** The cursor walk terminates and appends exactly the recursive pre-order. */
    method TraverseAllNodes(root: Tree)
      requires InSource(root, |source|) && |ids| == |nodes|
      modifies this
      ensures nodes == old(nodes) + Raw(root, source, NULL_ID)
      ensures ids == old(ids) + Ids(Raw(root, source, NULL_ID))
    {
      var cursor := new TreeCursor(root);
      var reachedRoot := false;
      ghost var added: seq<Node> := [];
      while !reachedRoot
        invariant fresh(cursor) && cursor.root == root && cursor.Valid()
        invariant |ids| == |nodes|
        invariant nodes == old(nodes) + added && ids == old(ids) + Ids(added)
        invariant added == Listed(root, source, cursor.path, reachedRoot)
        decreases !reachedRoot, Size(root) - |added|
      {
        ghost var here := cursor.path;
        var current := At(root, cursor.path);
        AtInSource(root, here, |source|);
        BeforeFits(root, source, NULL_ID, here);
        Add(current, ParentIdAt(root, cursor.path));
        ghost var node := RawNode(current, source, ParentIdAt(root, here));
        AppendNode(old(nodes), old(ids), added, node);
        added := added + [node];

        var moved := cursor.GotoFirstChild();
        if moved {
          ChildStep(root, source, here);
          continue;
        }
        LeafStep(root, source, here);

        moved := cursor.GotoNextSibling();
        if moved {
          NextSiblingStep(root, source, here);
          continue;
        }

        reachedRoot := Backtrack(cursor, source);
      }
    }
  }

  /** parse() after loading: flatten the parse tree, then resolve the links. */
  method Parse(source: Text, root: Tree) returns (ast: AST)
    requires InSource(root, |source|) && Size(root) <= MAX_NODES
    requires Distinct(Ids(Raw(root, source, NULL_ID))) && NULL_ID !in Ids(Raw(root, source, NULL_ID))
    ensures ast.nodes == Flat(root, source, 0, INVALID_ID)
    ensures WellFormed(ast.nodes)
    ensures TreeNested(root) ==> Nested(ast.nodes)
  {
    ast := new AST(source);
    ast.TraverseAllNodes(root);
    ghost var raw := Raw(root, source, NULL_ID);
    assert ast.nodes == raw && ast.ids == Ids(raw);
    ast.RemapIds();
    assert ast.nodes == Remap(Ids(raw), raw);
    RemapGivesFlat(root, source);
    FlatIsWellFormed(root, source);
    if TreeNested(root) {
      FlatIsNested(root, source);
    }
  }
}
