/** The Python symbol extractor (src/ast-extractor-python.cpp).

The code keeps a stack of open class and function ranges and pops by byte offset. The reference form
`FramesAt` follows parent links instead; the method is proved to emit exactly what the reference form
says, on every AST whose byte ranges nest.
*/
module ExtractorPython {
  import opened Ast
  import opened NodeTypes
  import opened Symbols
  import opened ExtractorCommon
  import opened Options

  const DOT: Text := [46]
  const INIT: Text := [95, 95, 105, 110, 105, 116, 95, 95]

  /** The first identifier child before the body, from child `k` on. */
  function DefNameFrom(nodes: seq<Node>, i: nat, k: nat): Text
    requires i < |nodes|
    decreases |nodes[i].children| - k
  {
    if k >= |nodes[i].children| then []
    else
      var id := nodes[i].children[k];
      if id >= |nodes| then DefNameFrom(nodes, i, k + 1)
      else if nodes[id].nodeType == BLOCK then []
      else if nodes[id].grammarType == IDENTIFIER then nodes[id].text
      else DefNameFrom(nodes, i, k + 1)
  }

  method GetDefName(nodes: seq<Node>, i: nat) returns (name: Text)
    requires WellFormed(nodes) && i < |nodes|
    ensures name == DefNameFrom(nodes, i, 0)
  {
    var c := nodes[i].children;
    assert Linked(nodes, i);
    for k := 0 to |c|
      invariant DefNameFrom(nodes, i, 0) == DefNameFrom(nodes, i, k)
    {
      if c[k] == INVALID_ID {
        continue;
      }
      if nodes[c[k]].nodeType == BLOCK {
        break;
      }
      if nodes[c[k]].grammarType == IDENTIFIER {
        return nodes[c[k]].text;
      }
    }
    name := [];
  }

  /** The text of the first child when it is a plain identifier. */
  function AssignmentName(nodes: seq<Node>, i: nat): Text
    requires i < |nodes|
  {
    var c := nodes[i].children;
    if c != [] && c[0] < |nodes| && nodes[c[0]].nodeType == IDENTIFIER then nodes[c[0]].text else []
  }

  method GetAssignmentName(nodes: seq<Node>, i: nat) returns (name: Text)
    requires WellFormed(nodes) && i < |nodes|
    ensures name == AssignmentName(nodes, i)
  {
    var c := nodes[i].children;
    assert Linked(nodes, i);
    for k := 0 to |c|
      invariant k == 0
    {
      if c[k] == INVALID_ID {
        continue;
      }
      if nodes[c[k]].nodeType == IDENTIFIER {
        return nodes[c[k]].text;
      }
      return [];
    }
    name := [];
  }

  // ---- Reference form: parent links -----------------------------------------

  /** A class or function definition that has a name. */
  predicate IsNamedDef(nodes: seq<Node>, a: nat)
    requires a < |nodes|
  {
    (nodes[a].nodeType == CLASS_DEFINITION || nodes[a].nodeType == FUNCTION_DEFINITION) && DefNameFrom(nodes, a, 0) != []
  }

  /** Frames of the named definitions strictly above node `i`, outermost first. */
  function FramesAt(nodes: seq<Node>, i: nat): seq<ScopeFrame>
    requires i < |nodes|
    decreases i, 0
  {
    var p := nodes[i].parent;
    if p >= i then [] else if IsNamedDef(nodes, p) then FramesAt(nodes, p) + [FrameOf(nodes, p)] else FramesAt(nodes, p)
  }

  /** Kind of the definition at `a`: inside a class, functions are methods and `__init__` a constructor. */
  function DefKind(nodes: seq<Node>, a: nat): SymbolKind
    requires a < |nodes|
    decreases a, 1
  {
    if nodes[a].nodeType == CLASS_DEFINITION then Class
    else if HasClassFrame(FramesAt(nodes, a)) then
      if DefNameFrom(nodes, a, 0) == INIT then Constructor else Method
    else Function
  }

  function FrameOf(nodes: seq<Node>, a: nat): ScopeFrame
    requires a < |nodes|
    decreases a, 2
  {
    ScopeFrame(DefNameFrom(nodes, a, 0), DefKind(nodes, a), nodes[a].endByte, UnknownAccess, false)
  }

  /** The symbol that node `i` declares, named by its ancestors. */
  function SymbolAt(nodes: seq<Node>, i: nat): Option<Symbol>
    requires i < |nodes|
  {
    var n, frames := nodes[i], FramesAt(nodes, i);
    if IsNamedDef(nodes, i) then
      var name := DefNameFrom(nodes, i, 0);
      Some(MakeSymbol(name, Fqn(frames, DOT, name), DefKind(nodes, i), UnknownAccess, i, n.start.row, n.start.column))
    else if n.nodeType == ASSIGNMENT && AssignmentName(nodes, i) != [] && !HasFunctionFrame(frames) then
      var name := AssignmentName(nodes, i);
      var kind := if HasClassFrame(frames) then Field else Variable;
      Some(MakeSymbol(name, Fqn(frames, DOT, name), kind, UnknownAccess, i, n.start.row, n.start.column))
    else None
  }

  // ---- What a node declares, from its ancestors alone -----------------------

  /** Child number `j` is the first that is an identifier or the body. */
  ghost predicate FirstNameOrBody(nodes: seq<Node>, kids: seq<nat>, j: nat) {
    j < |kids| && NameOrBody(nodes, kids[j]) && forall l :: 0 <= l < j ==> !NameOrBody(nodes, kids[l])
  }

  /** The name of the definition at `i`: the text of its first identifier child, if no body comes before it. */
  lemma {:induction false} DefNameIsFirst(nodes: seq<Node>, i: nat, k: nat)
    requires WellFormed(nodes) && i < |nodes| && k <= |nodes[i].children|
    requires forall j :: 0 <= j < k ==> !NameOrBody(nodes, nodes[i].children[j])
    ensures forall j: nat :: FirstNameOrBody(nodes, nodes[i].children, j) ==>
      DefNameFrom(nodes, i, k) == if nodes[nodes[i].children[j]].nodeType == BLOCK then [] else nodes[nodes[i].children[j]].text
    ensures (forall j :: 0 <= j < |nodes[i].children| ==> !NameOrBody(nodes, nodes[i].children[j])) ==> DefNameFrom(nodes, i, k) == []
    decreases |nodes[i].children| - k
  {
    if k < |nodes[i].children| && !NameOrBody(nodes, nodes[i].children[k]) {
      DefNameIsFirst(nodes, i, k + 1);
    }
  }

  /** The name of the assignment at `i`: the text of the node after it, where that is its child and a plain identifier. */
  lemma AssignmentNameIsLeft(nodes: seq<Node>, i: nat)
    requires WellFormed(nodes) && i < |nodes|
    ensures AssignmentName(nodes, i)
         == if i + 1 < |nodes| && nodes[i + 1].parent == i && nodes[i + 1].nodeType == IDENTIFIER then nodes[i + 1].text else []
  {
    assert Linked(nodes, i);
    if i + 1 < |nodes| {
      assert Parented(nodes, i + 1);
    }
  }

  predicate NameOrBody(nodes: seq<Node>, x: nat) {
    x < |nodes| && (nodes[x].nodeType == BLOCK || nodes[x].grammarType == IDENTIFIER)
  }

  /** `p` is a named definition strictly above `i`. */
  predicate DefinesAround(nodes: seq<Node>, p: nat, i: nat) {
    p < i < |nodes| && IsAncestor(nodes, p, i) && IsNamedDef(nodes, p)
  }

  /** `p` is the innermost named definition strictly above `i`. */
  ghost predicate NearestDef(nodes: seq<Node>, p: nat, i: nat) {
    DefinesAround(nodes, p, i) && forall q :: p < q < i ==> !DefinesAround(nodes, q, i)
  }

  /** Some named class is strictly above `i`. */
  ghost predicate InClass(nodes: seq<Node>, i: nat) {
    exists a: nat :: DefinesAround(nodes, a, i) && nodes[a].nodeType == CLASS_DEFINITION
  }

  /** Some named function is strictly above `i`. */
  ghost predicate InFunction(nodes: seq<Node>, i: nat) {
    exists a: nat :: DefinesAround(nodes, a, i) && nodes[a].nodeType == FUNCTION_DEFINITION
  }

  /** What is around `i` is what is around its parent, and the parent itself. */
  lemma AroundParent(nodes: seq<Node>, i: nat, a: nat)
    requires i < |nodes|
    ensures nodes[i].parent >= i ==> !DefinesAround(nodes, a, i)
    ensures nodes[i].parent < i ==>
      (DefinesAround(nodes, a, i) <==> DefinesAround(nodes, a, nodes[i].parent) || (a == nodes[i].parent && IsNamedDef(nodes, a)))
  {
    if nodes[i].parent < i {
      var p := nodes[i].parent;
      assert IsAncestor(nodes, p, p);
      if DefinesAround(nodes, a, i) && a != p {
        AncestorIsEarlier(nodes, a, p);
      }
    }
  }

  lemma {:induction false} AncestorIsEarlier(nodes: seq<Node>, a: nat, j: nat)
    requires IsAncestor(nodes, a, j)
    ensures a <= j
  {
  }

  /** The frames around `i` are those around its nearest named definition, and that one's own. */
  lemma {:induction false} FramesNearest(nodes: seq<Node>, i: nat)
    requires i < |nodes|
    ensures forall p: nat :: NearestDef(nodes, p, i) ==> FramesAt(nodes, i) == FramesAt(nodes, p) + [FrameOf(nodes, p)]
    ensures (forall p :: !DefinesAround(nodes, p, i)) ==> FramesAt(nodes, i) == []
    decreases i
  {
    var q := nodes[i].parent;
    forall a ensures q >= i ==> !DefinesAround(nodes, a, i)
      ensures q < i ==> (DefinesAround(nodes, a, i) <==> DefinesAround(nodes, a, q) || (a == q && IsNamedDef(nodes, a)))
    {
      AroundParent(nodes, i, a);
    }
    if q < i {
      FramesNearest(nodes, q);
      forall p: nat | NearestDef(nodes, p, i) ensures FramesAt(nodes, i) == FramesAt(nodes, p) + [FrameOf(nodes, p)] {
        if IsNamedDef(nodes, q) {
          assert p == q;
        } else {
          assert NearestDef(nodes, p, q);
        }
      }
    }
  }

  /** The frames around `i` are those of the named definitions above it. */
  lemma {:induction false} FramesAround(nodes: seq<Node>, i: nat, f: ScopeFrame)
    requires i < |nodes|
    ensures f in FramesAt(nodes, i) <==> exists a :: DefinesAround(nodes, a, i) && f == FrameOf(nodes, a)
    decreases i
  {
    var q := nodes[i].parent;
    forall a ensures q >= i ==> !DefinesAround(nodes, a, i)
      ensures q < i ==> (DefinesAround(nodes, a, i) <==> DefinesAround(nodes, a, q) || (a == q && IsNamedDef(nodes, a)))
    {
      AroundParent(nodes, i, a);
    }
    if q < i {
      FramesAround(nodes, q, f);
      if f in FramesAt(nodes, i) && IsNamedDef(nodes, q) && f == FrameOf(nodes, q) {
        assert DefinesAround(nodes, q, i);
      }
    }
  }

  lemma {:induction false} FrameKinds(nodes: seq<Node>, a: nat)
    requires a < |nodes| && IsNamedDef(nodes, a)
    ensures IsClassFrame(FrameOf(nodes, a)) <==> nodes[a].nodeType == CLASS_DEFINITION
    ensures IsFunctionFrame(FrameOf(nodes, a)) <==> nodes[a].nodeType == FUNCTION_DEFINITION
  {
  }

  lemma {:induction false} FramesTell(nodes: seq<Node>, i: nat)
    requires i < |nodes|
    ensures HasClassFrame(FramesAt(nodes, i)) <==> InClass(nodes, i)
    ensures HasFunctionFrame(FramesAt(nodes, i)) <==> InFunction(nodes, i)
  {
    forall f ensures f in FramesAt(nodes, i) <==> exists a :: DefinesAround(nodes, a, i) && f == FrameOf(nodes, a) {
      FramesAround(nodes, i, f);
    }
    forall a: nat | DefinesAround(nodes, a, i)
      ensures FrameOf(nodes, a) in FramesAt(nodes, i)
      ensures IsClassFrame(FrameOf(nodes, a)) <==> nodes[a].nodeType == CLASS_DEFINITION
      ensures IsFunctionFrame(FrameOf(nodes, a)) <==> nodes[a].nodeType == FUNCTION_DEFINITION
    {
      FrameKinds(nodes, a);
    }
  }

  /** Each qualified name is the nearest enclosing definition's, a dot, and the symbol's own name. */
  lemma FqnIsPath(nodes: seq<Node>, i: nat)
    requires i < |nodes| && SymbolAt(nodes, i).Some?
    ensures SymbolAt(nodes, i).value.name != []
    ensures forall p: nat :: NearestDef(nodes, p, i) ==>
      SymbolAt(nodes, p).Some? && SymbolAt(nodes, i).value.fqn == SymbolAt(nodes, p).value.fqn + DOT + SymbolAt(nodes, i).value.name
    ensures (forall p :: !DefinesAround(nodes, p, i)) ==> SymbolAt(nodes, i).value.fqn == SymbolAt(nodes, i).value.name
  {
    FramesNearest(nodes, i);
    forall p: nat | NearestDef(nodes, p, i)
      ensures SymbolAt(nodes, p).Some? && SymbolAt(nodes, i).value.fqn == SymbolAt(nodes, p).value.fqn + DOT + SymbolAt(nodes, i).value.name
    {
      InnerName(FramesAt(nodes, p), FrameOf(nodes, p), SymbolAt(nodes, i).value.name);
    }
  }

  lemma InnerName(frames: seq<ScopeFrame>, f: ScopeFrame, name: Text)
    requires f.name != [] && name != []
    ensures Fqn(frames + [f], DOT, name) == Fqn(frames, DOT, f.name) + DOT + name
  {
    assert (frames + [f])[..|frames|] == frames;
  }

  /** What node `i` declares, by its type and what is around it: a class; a function, method or constructor; a variable or
  field, but nothing inside a function; and otherwise nothing. */
  lemma {:induction false} KindByAncestors(nodes: seq<Node>, i: nat)
    requires i < |nodes|
    ensures var s, n := SymbolAt(nodes, i), nodes[i];
      if n.nodeType == CLASS_DEFINITION then
        if DefNameFrom(nodes, i, 0) == [] then s.None? else DeclaresAs(s, nodes, i, DefNameFrom(nodes, i, 0), Class)
      else if n.nodeType == FUNCTION_DEFINITION then
        if DefNameFrom(nodes, i, 0) == [] then s.None?
        else DeclaresAs(s, nodes, i, DefNameFrom(nodes, i, 0),
                        if !InClass(nodes, i) then Function else if DefNameFrom(nodes, i, 0) == INIT then Constructor else Method)
      else if n.nodeType == ASSIGNMENT && AssignmentName(nodes, i) != [] && !InFunction(nodes, i) then
        DeclaresAs(s, nodes, i, AssignmentName(nodes, i), if InClass(nodes, i) then Field else Variable)
      else s.None?
  {
    FramesTell(nodes, i);
  }

  /** `s` is a symbol of this name and kind, placed at node `i`; rows count from 0 and lines from 1, in 32 bits. */
  predicate DeclaresAs(s: Option<Symbol>, nodes: seq<Node>, i: nat, name: Text, kind: SymbolKind)
    requires i < |nodes|
  {
    && s.Some? && s.value.name == name && s.value.kind == kind && s.value.nodeIndex == i
    && s.value.line == (nodes[i].start.row + 1) % 0x1_0000_0000 && s.value.column == nodes[i].start.column
    && s.value.access == UnknownAccess && !s.value.isStatic && !s.value.isConstexpr && !s.value.isInline
  }

  predicate SameKey(a: Symbol, b: Symbol) {
    a.fqn == b.fqn && a.kind == b.kind
  }

  predicate IsNewKey(result: seq<Symbol>, s: Symbol) {
    forall t :: t in result ==> !SameKey(t, s)
  }

  /** What the first `k` nodes declare, keeping the first symbol of each (fqn, kind). */
  function Declared(nodes: seq<Node>, k: nat): seq<Symbol>
    requires k <= |nodes|
  {
    if k == 0 then []
    else
      var r, s := Declared(nodes, k - 1), SymbolAt(nodes, k - 1);
      if s.Some? && IsNewKey(r, s.value) then r + [s.value] else r
  }

  // ---- The stack of open ranges ---------------------------------------------

  /** Frames of the named definitions among the first `k` nodes. */
  function DefFrames(nodes: seq<Node>, k: nat): seq<ScopeFrame>
    requires k <= |nodes|
  {
    if k == 0 then []
    else if IsNamedDef(nodes, k - 1) then DefFrames(nodes, k - 1) + [FrameOf(nodes, k - 1)]
    else DefFrames(nodes, k - 1)
  }

  /** The frames that end after byte `s`. */
  function Open(frames: seq<ScopeFrame>, s: nat): (r: seq<ScopeFrame>)
    ensures forall f :: f in r ==> f.endByte > s && f in frames
  {
    if frames == [] then []
    else
      var rest, last := frames[..|frames| - 1], frames[|frames| - 1];
      if last.endByte > s then Open(rest, s) + [last] else Open(rest, s)
  }

  lemma {:induction false} OpenSnoc(frames: seq<ScopeFrame>, f: ScopeFrame, s: nat)
    ensures Open(frames + [f], s) == if f.endByte > s then Open(frames, s) + [f] else Open(frames, s)
  {
    assert (frames + [f])[..|frames|] == frames;
  }

  /** Frames of the named definitions among the first `k` nodes that end after byte `s`. */
  function OpenFrames(nodes: seq<Node>, k: nat, s: nat): seq<ScopeFrame>
    requires k <= |nodes|
  {
    Open(DefFrames(nodes, k), s)
  }

  lemma OpenStep(nodes: seq<Node>, k: nat, s: nat)
    requires k < |nodes|
    ensures OpenFrames(nodes, k + 1, s)
         == if IsNamedDef(nodes, k) && nodes[k].endByte > s
            then OpenFrames(nodes, k, s) + [FrameOf(nodes, k)] else OpenFrames(nodes, k, s)
  {
    if IsNamedDef(nodes, k) {
      OpenSnoc(DefFrames(nodes, k), FrameOf(nodes, k), s);
    }
  }

  /** Frames of the named definitions among the first `k` nodes that are ancestors of `i`. */
  function AncestorFrames(nodes: seq<Node>, k: nat, i: nat): seq<ScopeFrame>
    requires k <= |nodes|
  {
    if k == 0 then []
    else if IsNamedDef(nodes, k - 1) && IsAncestor(nodes, k - 1, i) then AncestorFrames(nodes, k - 1, i) + [FrameOf(nodes, k - 1)]
    else AncestorFrames(nodes, k - 1, i)
  }

  lemma AncestorStep(nodes: seq<Node>, k: nat, i: nat)
    requires k < |nodes|
    ensures AncestorFrames(nodes, k + 1, i)
         == if IsNamedDef(nodes, k) && IsAncestor(nodes, k, i)
            then AncestorFrames(nodes, k, i) + [FrameOf(nodes, k)] else AncestorFrames(nodes, k, i)
  {
  }

  /** Ranges nest and every text is the source slice its range names. */
  ghost predicate Faithful(nodes: seq<Node>, source: Text) {
    && WellFormed(nodes) && Nested(nodes)
    && forall i :: 0 <= i < |nodes| ==> TextIsSlice(nodes, source, i)
  }

  predicate TextIsSlice(nodes: seq<Node>, source: Text, i: nat)
    requires i < |nodes|
  {
    nodes[i].text == Slice(source, nodes[i].startByte, nodes[i].endByte)
  }

  predicate NonEmpty(nodes: seq<Node>, i: nat)
    requires i < |nodes|
  {
    nodes[i].startByte < nodes[i].endByte
  }

  lemma {:induction false} DefNameNonEmpty(nodes: seq<Node>, source: Text, i: nat, k: nat)
    requires Faithful(nodes, source) && i < |nodes| && DefNameFrom(nodes, i, k) != []
    ensures NonEmpty(nodes, i)
    decreases |nodes[i].children| - k
  {
    var id := nodes[i].children[k];
    assert Linked(nodes, i) && RangesNested(nodes, i) && RangesNested(nodes, id) && TextIsSlice(nodes, source, id);
    if nodes[id].grammarType != IDENTIFIER {
      DefNameNonEmpty(nodes, source, i, k + 1);
    }
  }

  lemma AssignmentNonEmpty(nodes: seq<Node>, source: Text, i: nat)
    requires Faithful(nodes, source) && i < |nodes| && AssignmentName(nodes, i) != []
    ensures NonEmpty(nodes, i)
  {
    var id := nodes[i].children[0];
    assert Linked(nodes, i) && RangesNested(nodes, i) && RangesNested(nodes, id) && TextIsSlice(nodes, source, id);
  }

  /** Before a non-empty node, "still open at its first byte" and "ancestor" are the same thing. */
  lemma {:induction false} OpenIsAncestor(nodes: seq<Node>, a: nat, i: nat)
    requires WellFormed(nodes) && Nested(nodes) && a < i < |nodes| && NonEmpty(nodes, i)
    ensures nodes[a].endByte > nodes[i].startByte <==> IsAncestor(nodes, a, i)
  {
    SubtreeIsInterval(nodes, a, i);
    EndBounds(nodes, a);
    if i < End(nodes, a) {
      DescendantRange(nodes, a, i);
    } else {
      AfterSubtree(nodes, 0, a, i);
    }
  }

  ghost predicate OpenMeansAncestor(nodes: seq<Node>, a: nat, i: nat, s: nat)
    requires a < |nodes|
  {
    nodes[a].endByte > s <==> IsAncestor(nodes, a, i)
  }

  lemma {:induction false} FramesAgree(nodes: seq<Node>, k: nat, i: nat, s: nat)
    requires k <= |nodes| && forall a: nat :: a < k ==> OpenMeansAncestor(nodes, a, i, s)
    ensures OpenFrames(nodes, k, s) == AncestorFrames(nodes, k, i)
  {
    if k > 0 {
      FramesAgree(nodes, k - 1, i, s);
      OpenStep(nodes, k - 1, s);
      AncestorStep(nodes, k - 1, i);
      assert OpenMeansAncestor(nodes, k - 1, i, s);
    }
  }

  lemma {:induction false} OpenFramesAreAncestors(nodes: seq<Node>, k: nat, i: nat)
    requires WellFormed(nodes) && Nested(nodes) && k <= i < |nodes| && NonEmpty(nodes, i)
    ensures OpenFrames(nodes, k, nodes[i].startByte) == AncestorFrames(nodes, k, i)
  {
    forall a: nat | a < k ensures OpenMeansAncestor(nodes, a, i, nodes[i].startByte) {
      OpenIsAncestor(nodes, a, i);
    }
    FramesAgree(nodes, k, i, nodes[i].startByte);
  }

  lemma {:induction false} NoAncestorsBetween(nodes: seq<Node>, k: nat, i: nat)
    requires WellFormed(nodes) && 0 < i < |nodes| && nodes[i].parent < k <= i
    ensures AncestorFrames(nodes, k, i) == AncestorFrames(nodes, nodes[i].parent + 1, i)
  {
    var p := nodes[i].parent;
    if p + 1 < k {
      NoAncestorsBetween(nodes, k - 1, i);
      LaterIsNoAncestor(nodes, k - 1, p);
    }
  }

  lemma {:induction false} LaterIsNoAncestor(nodes: seq<Node>, a: nat, j: nat)
    requires j < a
    ensures !IsAncestor(nodes, a, j)
  {
  }

  lemma {:induction false} SameAncestors(nodes: seq<Node>, k: nat, i: nat)
    requires WellFormed(nodes) && 0 < i < |nodes| && k <= nodes[i].parent < i
    ensures AncestorFrames(nodes, k, i) == AncestorFrames(nodes, k, nodes[i].parent)
  {
    if k > 0 {
      SameAncestors(nodes, k - 1, i);
    }
  }

  lemma {:induction false} AncestorFramesFollowParents(nodes: seq<Node>, i: nat)
    requires WellFormed(nodes) && i < |nodes|
    ensures AncestorFrames(nodes, i, i) == FramesAt(nodes, i)
    decreases i
  {
    if i > 0 {
      assert Parented(nodes, i);
      var p := nodes[i].parent;
      NoAncestorsBetween(nodes, i, i);
      SameAncestors(nodes, p, i);
      AncestorFramesFollowParents(nodes, p);
      assert IsAncestor(nodes, p, p);
    }
  }

  /** After popping at a non-empty node, the stack holds exactly its named proper ancestors, outermost first. */
  lemma {:induction false} StackIsAncestors(nodes: seq<Node>, i: nat)
    requires WellFormed(nodes) && Nested(nodes) && i < |nodes| && NonEmpty(nodes, i)
    ensures OpenFrames(nodes, i, nodes[i].startByte) == FramesAt(nodes, i)
  {
    OpenFramesAreAncestors(nodes, i, i);
    AncestorFramesFollowParents(nodes, i);
  }

  /** Two open definitions are nested, so the later one does not end later. */
  lemma OpenRangesNest(nodes: seq<Node>, a: nat, b: nat, s: nat)
    requires WellFormed(nodes) && Nested(nodes) && a <= b < |nodes|
    requires nodes[b].startByte <= s < nodes[a].endByte
    ensures nodes[b].endByte <= nodes[a].endByte
  {
    EndBounds(nodes, a);
    if b < End(nodes, a) {
      DescendantRange(nodes, a, b);
    } else {
      AfterSubtree(nodes, 0, a, b);
    }
  }

  predicate EndsFall(stack: seq<ScopeFrame>) {
    forall j, k :: 0 <= j < k < |stack| ==> stack[k].endByte <= stack[j].endByte
  }

  /** Every range open at `s` covers the end of a later node that starts by `s`. */
  lemma {:induction false} OpenFramesCover(nodes: seq<Node>, k: nat, s: nat, b: nat)
    requires WellFormed(nodes) && Nested(nodes) && k <= b < |nodes| && nodes[b].startByte <= s
    ensures forall f :: f in OpenFrames(nodes, k, s) ==> nodes[b].endByte <= f.endByte
  {
    if k > 0 {
      OpenFramesCover(nodes, k - 1, s, b);
      OpenStep(nodes, k - 1, s);
      if nodes[k - 1].endByte > s {
        OpenRangesNest(nodes, k - 1, b, s);
      }
    }
  }

  lemma FallSnoc(rest: seq<ScopeFrame>, top: ScopeFrame)
    requires EndsFall(rest) && forall f :: f in rest ==> top.endByte <= f.endByte
    ensures EndsFall(rest + [top])
  {
    var all := rest + [top];
    forall j, k | 0 <= j < k < |all| ensures all[k].endByte <= all[j].endByte {
      assert all[j] == rest[j] && rest[j] in rest;
    }
  }

  /** The frames open at the latest start come with non-increasing ends. */
  lemma {:induction false} OpenFramesFall(nodes: seq<Node>, k: nat, s: nat)
    requires WellFormed(nodes) && Nested(nodes) && k <= |nodes|
    requires k > 0 ==> nodes[k - 1].startByte <= s
    ensures EndsFall(OpenFrames(nodes, k, s))
  {
    if k > 0 {
      if k > 1 {
        StartsMonotone(nodes, k - 2, k - 1);
      }
      OpenFramesFall(nodes, k - 1, s);
      OpenFramesCover(nodes, k - 1, s, k - 1);
      OpenStep(nodes, k - 1, s);
      FallSnoc(OpenFrames(nodes, k - 1, s), FrameOf(nodes, k - 1));
    }
  }

  /** The stack after popping every top frame that ends by byte `t`. */
  function Popped(stack: seq<ScopeFrame>, t: nat): seq<ScopeFrame> {
    if stack != [] && stack[|stack| - 1].endByte <= t then Popped(stack[..|stack| - 1], t) else stack
  }

  lemma {:induction false} AllStillOpen(frames: seq<ScopeFrame>, s: nat, t: nat)
    requires s <= t && forall f :: f in Open(frames, s) ==> f.endByte > t
    ensures Open(frames, t) == Open(frames, s)
  {
    if frames != [] {
      var rest, last := frames[..|frames| - 1], frames[|frames| - 1];
      OpenSnoc(rest, last, s);
      assert frames == rest + [last];
      assert last.endByte > s ==> last in Open(frames, s);
      AllStillOpen(rest, s, t);
    }
  }

  /** On a falling stack, popping closed ranges from the top finds all of them. */
  lemma {:induction false} PoppedIsOpen(frames: seq<ScopeFrame>, s: nat, t: nat)
    requires s <= t && EndsFall(Open(frames, s))
    ensures Popped(Open(frames, s), t) == Open(frames, t)
  {
    if frames != [] {
      var rest, top := frames[..|frames| - 1], frames[|frames| - 1];
      assert frames == rest + [top];
      OpenSnoc(rest, top, s);
      OpenSnoc(rest, top, t);
      if top.endByte > s {
        FallPrefix(Open(rest, s), top);
        PoppedSnoc(Open(rest, s), top, t);
        if top.endByte > t {
          AllStillOpen(rest, s, t);
        } else {
          PoppedIsOpen(rest, s, t);
        }
      } else {
        PoppedIsOpen(rest, s, t);
      }
    }
  }

  lemma {:induction false} PoppedSnoc(rest: seq<ScopeFrame>, top: ScopeFrame, t: nat)
    ensures Popped(rest + [top], t) == if top.endByte <= t then Popped(rest, t) else rest + [top]
  {
    assert (rest + [top])[..|rest|] == rest;
  }

  lemma FallPrefix(rest: seq<ScopeFrame>, top: ScopeFrame)
    requires EndsFall(rest + [top])
    ensures EndsFall(rest)
    ensures forall f :: f in rest ==> top.endByte <= f.endByte
  {
    var all := rest + [top];
    assert forall j :: 0 <= j < |rest| ==> all[j] == rest[j];
    forall f | f in rest ensures top.endByte <= f.endByte {
      var j :| 0 <= j < |rest| && rest[j] == f;
      assert all[|rest|].endByte <= all[j].endByte;
    }
  }

  /** The pops at node `i` turn the ranges open at the previous start into those open at this one. */
  lemma PoppedAtNode(nodes: seq<Node>, i: nat, s: nat)
    requires WellFormed(nodes) && Nested(nodes) && i < |nodes|
    requires s == if i > 0 then nodes[i - 1].startByte else 0
    ensures Popped(OpenFrames(nodes, i, s), nodes[i].startByte) == OpenFrames(nodes, i, nodes[i].startByte)
  {
    if i > 0 {
      StartsMonotone(nodes, i - 1, i);
    }
    OpenFramesFall(nodes, i, s);
    PoppedIsOpen(DefFrames(nodes, i), s, nodes[i].startByte);
  }

  method PopClosed(stack: seq<ScopeFrame>, startByte: U32) returns (rest: seq<ScopeFrame>)
    ensures rest == Popped(stack, startByte)
  {
    rest := stack;
    while rest != [] && rest[|rest| - 1].endByte <= startByte
      invariant Popped(rest, startByte) == Popped(stack, startByte)
    {
      rest := rest[..|rest| - 1];
    }
  }

  /** Appends `sym` unless it has no name or a symbol with its key was emitted before. */
  method Emit(result: seq<Symbol>, seen: set<(Text, SymbolKind)>, sym: Symbol) returns (result': seq<Symbol>, seen': set<(Text, SymbolKind)>)
    requires TracksKeys(seen, result)
    ensures result' == if sym.fqn != [] && IsNewKey(result, sym) then result + [sym] else result
    ensures TracksKeys(seen', result')
  {
    result', seen' := result, seen;
    var key := (sym.fqn, sym.kind);
    if sym.fqn != [] && key !in seen {
      seen' := seen + {key};
      result' := result + [sym];
      assert result'[|result|] == sym;
    }
  }

  ghost predicate TracksKeys(seen: set<(Text, SymbolKind)>, result: seq<Symbol>) {
    forall key :: key in seen <==> exists t :: t in result && (t.fqn, t.kind) == key
  }

  lemma DeclaredStep(nodes: seq<Node>, i: nat)
    requires i < |nodes|
    ensures SymbolAt(nodes, i).None? ==> Declared(nodes, i + 1) == Declared(nodes, i)
    ensures SymbolAt(nodes, i).Some? ==>
      Declared(nodes, i + 1)
      == if IsNewKey(Declared(nodes, i), SymbolAt(nodes, i).value)
         then Declared(nodes, i) + [SymbolAt(nodes, i).value] else Declared(nodes, i)
  {
  }

  /** A named class or function definition: emit it and open its range. */
  method VisitDefinition(nodes: seq<Node>, i: nat, name: Text, stack: seq<ScopeFrame>, result: seq<Symbol>,
                         seen: set<(Text, SymbolKind)>, ghost source: Text)
    returns (stack': seq<ScopeFrame>, result': seq<Symbol>, seen': set<(Text, SymbolKind)>)
    requires Faithful(nodes, source) && i < |nodes|
    requires nodes[i].nodeType == CLASS_DEFINITION || nodes[i].nodeType == FUNCTION_DEFINITION
    requires name == DefNameFrom(nodes, i, 0) && name != []
    requires stack == OpenFrames(nodes, i, nodes[i].startByte)
    requires result == Declared(nodes, i) && TracksKeys(seen, result)
    ensures stack' == OpenFrames(nodes, i + 1, nodes[i].startByte)
    ensures result' == Declared(nodes, i + 1) && TracksKeys(seen', result')
  {
    var node := nodes[i];
    DefNameNonEmpty(nodes, source, i, 0);
    StackIsAncestors(nodes, i);
    var kind := Class;
    if node.nodeType == FUNCTION_DEFINITION {
      kind := Function;
      var inClass := InNamedClassScope(stack);
      if inClass {
        kind := if name == INIT then Constructor else Method;
      }
    }
    var fqn := BuildFqn(stack, name, DOT);
    assert kind == DefKind(nodes, i);
    var sym := MakeSymbol(name, fqn, kind, UnknownAccess, i, node.start.row, node.start.column);
    assert SymbolAt(nodes, i) == Some(sym);
    DeclaredStep(nodes, i);
    OpenStep(nodes, i, node.startByte);
    result', seen' := Emit(result, seen, sym);
    stack' := stack + [ScopeFrame(name, kind, node.endByte, UnknownAccess, false)];
  }

  /** An assignment: a module or class variable, unless some enclosing range is a function. */
  method VisitAssignment(nodes: seq<Node>, i: nat, stack: seq<ScopeFrame>, result: seq<Symbol>,
                         seen: set<(Text, SymbolKind)>, ghost source: Text)
    returns (result': seq<Symbol>, seen': set<(Text, SymbolKind)>)
    requires Faithful(nodes, source) && i < |nodes| && nodes[i].nodeType == ASSIGNMENT
    requires stack == OpenFrames(nodes, i, nodes[i].startByte)
    requires result == Declared(nodes, i) && TracksKeys(seen, result)
    ensures result' == Declared(nodes, i + 1) && TracksKeys(seen', result')
  {
    result', seen' := result, seen;
    var node := nodes[i];
    DeclaredStep(nodes, i);
    if AssignmentName(nodes, i) != [] {
      AssignmentNonEmpty(nodes, source, i);
      StackIsAncestors(nodes, i);
    }
    var inFunction := InsideFunctionScope(stack);
    if !inFunction {
      var name := GetAssignmentName(nodes, i);
      if name != [] {
        var inClass := InNamedClassScope(stack);
        var kind := if inClass then Field else Variable;
        var fqn := BuildFqn(stack, name, DOT);
        var sym := MakeSymbol(name, fqn, kind, UnknownAccess, i, node.start.row, node.start.column);
        assert SymbolAt(nodes, i) == Some(sym);
        result', seen' := Emit(result, seen, sym);
      }
    }
  }

  /** The extractor emits, in node order, exactly what the ancestor-based reference form declares. */
  method ExtractSymbolsPython(nodes: seq<Node>, ghost source: Text) returns (result: seq<Symbol>)
    requires Faithful(nodes, source)
    ensures result == Declared(nodes, |nodes|)
  {
    result := [];
    var seen: set<(Text, SymbolKind)> := {};
    var scopeStack: seq<ScopeFrame> := [];
    ghost var at: nat := 0;
    for i := 0 to |nodes|
      invariant result == Declared(nodes, i) && TracksKeys(seen, result)
      invariant i > 0 ==> at == nodes[i - 1].startByte
      invariant i == 0 ==> at == 0
      invariant scopeStack == OpenFrames(nodes, i, at)
    {
      var node := nodes[i];
      scopeStack := PopClosed(scopeStack, node.startByte);
      PoppedAtNode(nodes, i, at);
      at := node.startByte;
      DeclaredStep(nodes, i);
      OpenStep(nodes, i, at);

      if node.nodeType == CLASS_DEFINITION || node.nodeType == FUNCTION_DEFINITION {
        var name := GetDefName(nodes, i);
        if name != [] {
          scopeStack, result, seen := VisitDefinition(nodes, i, name, scopeStack, result, seen, source);
        }
      } else if node.nodeType == ASSIGNMENT {
        result, seen := VisitAssignment(nodes, i, scopeStack, result, seen, source);
      }
    }
  }

  /** Every emitted symbol is the one its node declares. */
  lemma {:induction false} DeclaredBySymbols(nodes: seq<Node>, k: nat)
    requires k <= |nodes|
    ensures forall s :: s in Declared(nodes, k) ==> s.nodeIndex < k && SymbolAt(nodes, s.nodeIndex) == Some(s)
  {
    if k > 0 {
      DeclaredBySymbols(nodes, k - 1);
    }
  }

  /** Emitted symbols have distinct (fqn, kind) and strictly increasing node indices. */
  lemma {:induction false} DeclaredInOrder(nodes: seq<Node>, k: nat)
    requires k <= |nodes|
    ensures forall i, j :: 0 <= i < j < |Declared(nodes, k)| ==>
      Declared(nodes, k)[i].nodeIndex < Declared(nodes, k)[j].nodeIndex && !SameKey(Declared(nodes, k)[i], Declared(nodes, k)[j])
  {
    if k > 0 {
      DeclaredInOrder(nodes, k - 1);
      DeclaredBySymbols(nodes, k - 1);
      var r, now := Declared(nodes, k - 1), Declared(nodes, k);
      forall i, j | 0 <= i < j < |now| ensures now[i].nodeIndex < now[j].nodeIndex && !SameKey(now[i], now[j]) {
        assert now[i] == r[i] && r[i] in r;
      }
    }
  }

  /** Right after node `i` its symbol is represented, by itself or by an earlier one of its key. */
  lemma RepresentedAtOnce(result: seq<Symbol>, sym: Symbol) returns (s: Symbol)
    ensures SameKey(s, sym) && if IsNewKey(result, sym) then s == sym else s in result
  {
    if IsNewKey(result, sym) {
      s := sym;
    } else {
      s :| s in result && SameKey(s, sym);
    }
  }

  /** Nothing is lost: whatever a node declares is represented by a symbol of the same key, from that node or an earlier one. */
  lemma {:induction false} DeclaredCovers(nodes: seq<Node>, k: nat, i: nat) returns (s: Symbol)
    requires i < k <= |nodes| && SymbolAt(nodes, i).Some?
    ensures s in Declared(nodes, k) && SameKey(s, SymbolAt(nodes, i).value) && s.nodeIndex <= i
  {
    DeclaredStep(nodes, k - 1);
    if i < k - 1 {
      s := DeclaredCovers(nodes, k - 1, i);
    } else {
      s := RepresentedAtOnce(Declared(nodes, i), SymbolAt(nodes, i).value);
      DeclaredBySymbols(nodes, k);
    }
  }
}
