/** The declared type of a local receiver (src/ast-member-resolution.cpp, declared_local_type).

The walk runs right to left, keeps a best match and can stop early. `LocalTypeIsNearest` gives the order-free
meaning: what the nearest earlier declarations of the name agree on, and nothing when they disagree.
*/
module LocalTypes {
  import opened Ast
  import opened Options
  import opened NodeTypes
  import opened Symbols
  import opened ScopeTrees
  import opened ScopeBuilder
  import opened Units
  import opened CallUtils
  import opened TreeWalk

  datatype DeclaredReceiver = DeclaredReceiver(found: bool, typeName: Text)

  const NOT_DECLARED := DeclaredReceiver(false, [])

  /** What one declaration says of the receiver: how many scopes out it lies, and its type text. */
  datatype Claim = Claim(distance: nat, typeName: Text)

  predicate IsLocalDeclaration(nodes: seq<Node>, i: nat)
    requires i < |nodes|
  {
    nodes[i].nodeType == DECLARATION || nodes[i].nodeType == PARAMETER_DECLARATION
  }

  /** The nearest function definition at or above `i`, or INVALID_ID. */
  function EnclosingFunction(nodes: seq<Node>, i: nat): (f: nat)
    requires i < |nodes|
    ensures f == INVALID_ID || (f <= i && nodes[f].nodeType == FUNCTION_DEFINITION && IsAncestor(nodes, f, i))
    decreases i
  {
    if nodes[i].nodeType == FUNCTION_DEFINITION then i
    else if nodes[i].parent < i then
      var f := EnclosingFunction(nodes, nodes[i].parent);
      assert f != INVALID_ID ==> IsAncestor(nodes, f, i);
      f
    else INVALID_ID
  }

  /** No other function definition lies between, and there is none above exactly when none is found. */
  lemma {:induction false} EnclosingFunctionIsNearest(nodes: seq<Node>, i: nat)
    requires i < |nodes| <= MAX_NODES
    ensures forall g: nat :: g < |nodes| && IsAncestor(nodes, g, i) && nodes[g].nodeType == FUNCTION_DEFINITION ==>
      EnclosingFunction(nodes, i) != INVALID_ID && g <= EnclosingFunction(nodes, i)
    decreases i
  {
    if nodes[i].nodeType != FUNCTION_DEFINITION && nodes[i].parent < i {
      EnclosingFunctionIsNearest(nodes, nodes[i].parent);
    }
  }

  // ---- The declarations visited ---------------------------------------------

  /** The declarations met below `i`, right to left, pruned at `m` and not entered. */
  function Sites(nodes: seq<Node>, i: nat, m: nat): seq<nat>
    requires WellFormed(nodes) && i < |nodes|
    decreases |nodes| - i, |nodes[i].children| + 1
  {
    if i >= m then []
    else if IsLocalDeclaration(nodes, i) then [i]
    else ChildSites(nodes, i, |nodes[i].children|, m)
  }

  function ChildSites(nodes: seq<Node>, i: nat, k: nat, m: nat): seq<nat>
    requires WellFormed(nodes) && i < |nodes| && k <= |nodes[i].children|
    decreases |nodes| - i, k
  {
    if k == 0 then []
    else
      assert Linked(nodes, i);
      Sites(nodes, nodes[i].children[k - 1], m) + ChildSites(nodes, i, k - 1, m)
  }

  /** No declaration stands between `f` and `d`. */
  predicate Reached(nodes: seq<Node>, f: nat, d: nat)
    decreases d
  {
    d == f ||
    (f < d < |nodes| && f <= nodes[d].parent < d && !IsLocalDeclaration(nodes, nodes[d].parent) && Reached(nodes, f, nodes[d].parent))
  }

  lemma {:induction false} ReachedThroughChild(nodes: seq<Node>, i: nat, c: nat, d: nat)
    requires WellFormed(nodes) && i < c < |nodes| && nodes[c].parent == i && c <= d < End(nodes, c) && d < |nodes|
    requires !IsLocalDeclaration(nodes, i)
    ensures Reached(nodes, i, d) <==> Reached(nodes, c, d)
    decreases d
  {
    if c < d {
      ParentInSubtree(nodes, c, d);
      ReachedThroughChild(nodes, i, c, nodes[d].parent);
    } else {
      assert Reached(nodes, i, i);
    }
  }

  /** An earlier declaration under `i` that the walk can reach. */
  ghost predicate EarlierDeclaration(nodes: seq<Node>, i: nat, m: nat, d: nat) {
    && d < |nodes| && i <= d < m && d < End(nodes, i)
    && nodes[d].nodeType in {DECLARATION, PARAMETER_DECLARATION} && Reached(nodes, i, d)
  }

  /** Where the first `k` children of `i` end. */
  ghost function ChildrenEnd(nodes: seq<Node>, i: nat, k: nat): nat
    requires i < |nodes| && k <= |nodes[i].children|
  {
    if k == 0 then i + 1 else End(nodes, nodes[i].children[k - 1])
  }

  lemma ChildrenEndStep(nodes: seq<Node>, i: nat, k: nat)
    requires WellFormed(nodes) && i < |nodes| && k < |nodes[i].children|
    ensures i < nodes[i].children[k] < |nodes| && nodes[nodes[i].children[k]].parent == i
    ensures nodes[i].children[k] == ChildrenEnd(nodes, i, k)
    ensures nodes[i].children[k] < ChildrenEnd(nodes, i, k + 1)
  {
    assert Linked(nodes, i);
    EndBounds(nodes, nodes[i].children[k]);
    if k > 0 {
      assert nodes[i].children[k] == End(nodes, nodes[i].children[k - 1]);
    }
  }

  /** The walk meets every earlier declaration, so pruning at the member identifier loses nothing. */
  lemma {:induction false} SitesExact(nodes: seq<Node>, i: nat, m: nat, d: nat)
    requires WellFormed(nodes) && i < |nodes|
    ensures d in Sites(nodes, i, m) <==> EarlierDeclaration(nodes, i, m, d)
    decreases |nodes| - i, |nodes[i].children| + 1
  {
    EndBounds(nodes, i);
    if i < m {
      if IsLocalDeclaration(nodes, i) {
        if i < d < End(nodes, i) && Reached(nodes, i, d) {
          DeclarationBlocks(nodes, i, d);
        }
      } else {
        ChildSitesExact(nodes, i, |nodes[i].children|, m, d);
        assert Linked(nodes, i);
      }
    }
  }

  lemma {:induction false} DeclarationBlocks(nodes: seq<Node>, i: nat, d: nat)
    requires i < d < |nodes| && IsLocalDeclaration(nodes, i)
    ensures !Reached(nodes, i, d)
    decreases d
  {
    if i < nodes[d].parent < d {
      DeclarationBlocks(nodes, i, nodes[d].parent);
    }
  }

  lemma {:induction false} ChildSitesExact(nodes: seq<Node>, i: nat, k: nat, m: nat, d: nat)
    requires WellFormed(nodes) && i < |nodes| && k <= |nodes[i].children| && !IsLocalDeclaration(nodes, i)
    ensures d in ChildSites(nodes, i, k, m) <==>
      d < |nodes| && i < d < m && d < ChildrenEnd(nodes, i, k) && IsLocalDeclaration(nodes, d) && Reached(nodes, i, d)
    decreases |nodes| - i, k
  {
    if k > 0 {
      ChildrenEndStep(nodes, i, k - 1);
      var c := nodes[i].children[k - 1];
      SitesExact(nodes, c, m, d);
      ChildSitesExact(nodes, i, k - 1, m, d);
      if c <= d < End(nodes, c) && d < |nodes| {
        ReachedThroughChild(nodes, i, c, d);
      }
    }
  }

  ghost predicate Descending(s: seq<nat>) {
    forall j, k :: 0 <= j < k < |s| ==> s[k] < s[j]
  }

  lemma {:induction false} SitesDescend(nodes: seq<Node>, i: nat, m: nat)
    requires WellFormed(nodes) && i < |nodes|
    ensures Descending(Sites(nodes, i, m))
    decreases |nodes| - i, |nodes[i].children| + 1
  {
    if i < m && !IsLocalDeclaration(nodes, i) {
      ChildSitesDescend(nodes, i, |nodes[i].children|, m);
    }
  }

  lemma {:induction false} ChildSitesDescend(nodes: seq<Node>, i: nat, k: nat, m: nat)
    requires WellFormed(nodes) && i < |nodes| && k <= |nodes[i].children| && !IsLocalDeclaration(nodes, i)
    ensures Descending(ChildSites(nodes, i, k, m))
    decreases |nodes| - i, k
  {
    if k > 0 {
      ChildrenEndStep(nodes, i, k - 1);
      var c := nodes[i].children[k - 1];
      var right, left := Sites(nodes, c, m), ChildSites(nodes, i, k - 1, m);
      SitesDescend(nodes, c, m);
      ChildSitesDescend(nodes, i, k - 1, m);
      forall d | d in right ensures c <= d {
        SitesExact(nodes, c, m, d);
      }
      forall d | d in left ensures d < c {
        ChildSitesExact(nodes, i, k - 1, m, d);
      }
      DescendingJoin(right, left, c);
    }
  }

  lemma DescendingJoin(high: seq<nat>, low: seq<nat>, c: nat)
    requires Descending(high) && Descending(low)
    requires (forall d :: d in high ==> c <= d) && (forall d :: d in low ==> d < c)
    ensures Descending(high + low)
  {
    var s := high + low;
    forall j, k | 0 <= j < k < |s| ensures s[k] < s[j] {
      if j < |high| <= k {
        assert s[j] in high && s[k] in low;
      }
    }
  }

  // ---- What a declaration claims --------------------------------------------

  function IsName(name: Text): Node -> bool {
    (n: Node) => n.nodeType == IDENTIFIER && n.text != [] && n.text == name
  }

  /** The text of the last type child among the first `k` children of `d`, or nothing. */
  function TypeNameUpTo(nodes: seq<Node>, d: nat, k: nat): Text
    requires WellFormed(nodes) && d < |nodes| && k <= |nodes[d].children|
  {
    if k == 0 then []
    else
      assert Linked(nodes, d);
      var c := nodes[nodes[d].children[k - 1]];
      if c.nodeType == TYPE_IDENTIFIER || c.nodeType == QUALIFIED_IDENTIFIER then c.text else TypeNameUpTo(nodes, d, k - 1)
  }

  function DeclaredTypeName(nodes: seq<Node>, d: nat): Text
    requires WellFormed(nodes) && d < |nodes|
  {
    TypeNameUpTo(nodes, d, |nodes[d].children|)
  }

  predicate IsTypeAt(nodes: seq<Node>, x: nat) {
    x < |nodes| && (nodes[x].nodeType == TYPE_IDENTIFIER || nodes[x].nodeType == QUALIFIED_IDENTIFIER)
  }

  /** The declared type is the text of the last type child, and nothing when there is none. */
  lemma {:induction false} DeclaredTypeIsLast(nodes: seq<Node>, d: nat, k: nat)
    requires WellFormed(nodes) && d < |nodes| && k <= |nodes[d].children|
    requires forall j :: k <= j < |nodes[d].children| ==> !IsTypeAt(nodes, nodes[d].children[j])
    ensures var kids := nodes[d].children;
      && (forall j :: 0 <= j < |kids| && IsTypeAt(nodes, kids[j]) && (forall l :: j < l < |kids| ==> !IsTypeAt(nodes, kids[l])) ==>
            TypeNameUpTo(nodes, d, k) == nodes[kids[j]].text)
      && ((forall j :: 0 <= j < |kids| ==> !IsTypeAt(nodes, kids[j])) ==> TypeNameUpTo(nodes, d, k) == [])
  {
    if k > 0 {
      assert Linked(nodes, d);
      if !IsTypeAt(nodes, nodes[d].children[k - 1]) {
        DeclaredTypeIsLast(nodes, d, k - 1);
      }
    }
  }

  /** How many steps outward lead from `from` to `to`. */
  function ScopeDistance(scopes: seq<Scope>, from: nat, to: nat): Option<nat>
    requires Ordered(scopes) && IsScope(scopes, from)
    decreases if from < |scopes| then from + 1 else 0
  {
    if from == to then Some(0)
    else if from >= |scopes| then None
    else
      match ScopeDistance(scopes, scopes[from].parent, to)
      case None => None
      case Some(n) => Some(n + 1)
  }

  /** The scope `n` steps outward from `from`. */
  function Outward(scopes: seq<Scope>, from: nat, n: nat): nat
    requires Ordered(scopes) && IsScope(scopes, from)
    decreases n
  {
    if n == 0 || from >= |scopes| then from else Outward(scopes, scopes[from].parent, n - 1)
  }

  /** The distance is the least number of steps that lead to `to`, and there is none when no number does. */
  lemma {:induction false} DistanceIsLeast(scopes: seq<Scope>, from: nat, to: nat)
    requires Ordered(scopes) && IsScope(scopes, from)
    ensures match ScopeDistance(scopes, from, to)
      case None => forall n: nat :: Outward(scopes, from, n) != to
      case Some(d) => Outward(scopes, from, d) == to && forall n: nat :: n < d ==> Outward(scopes, from, n) != to
    decreases if from < |scopes| then from + 1 else 0
  {
    if from != to && from < |scopes| {
      DistanceIsLeast(scopes, scopes[from].parent, to);
      forall n: nat | n > 0 ensures Outward(scopes, from, n) == Outward(scopes, scopes[from].parent, n - 1) {
      }
    }
  }

  ghost function ClaimAt(u: TranslationUnit, m: nat, name: Text, d: nat): Option<Claim>
    requires UnitOk(u) && m < |u.nodes| && d < |u.nodes|
  {
    if !SubtreeHas(u.nodes, d, IsName(name)) then None
    else
      assert u.nodeScope[m] == ScopeOf(u.nodes, m);
      match ScopeDistance(u.scopes, ScopeOf(u.nodes, m), ScopeOf(u.nodes, d))
      case None => None
      case Some(n) => Some(Claim(n, DeclaredTypeName(u.nodes, d)))
  }

  /** A declaration makes a claim exactly when it mentions the name and its scope lies outward of the use, however far. */
  lemma {:induction false} ClaimIsMade(u: TranslationUnit, m: nat, name: Text, d: nat)
    requires UnitOk(u) && m < |u.nodes| && d < |u.nodes|
    ensures IsScope(u.scopes, ScopeOf(u.nodes, m))
    ensures ClaimAt(u, m, name, d).Some? <==>
      && (exists x :: d <= x < End(u.nodes, d) && x < |u.nodes| && IsName(name)(u.nodes[x]))
      && (exists n: nat :: Outward(u.scopes, ScopeOf(u.nodes, m), n) == ScopeOf(u.nodes, d))
    ensures ClaimAt(u, m, name, d).Some? ==>
      var c := ClaimAt(u, m, name, d).value;
      && c.typeName == DeclaredTypeName(u.nodes, d) && Outward(u.scopes, ScopeOf(u.nodes, m), c.distance) == ScopeOf(u.nodes, d)
      && forall n: nat :: n < c.distance ==> Outward(u.scopes, ScopeOf(u.nodes, m), n) != ScopeOf(u.nodes, d)
  {
    assert u.nodeScope[m] == ScopeOf(u.nodes, m);
    DistanceIsLeast(u.scopes, ScopeOf(u.nodes, m), ScopeOf(u.nodes, d));
  }

  ghost function ClaimsOf(u: TranslationUnit, m: nat, name: Text, sites: seq<nat>): seq<Claim>
    requires UnitOk(u) && m < |u.nodes| && forall k :: 0 <= k < |sites| ==> sites[k] < |u.nodes|
  {
    if sites == [] then []
    else
      var rest := ClaimsOf(u, m, name, sites[1..]);
      match ClaimAt(u, m, name, sites[0])
      case None => rest
      case Some(c) => [c] + rest
  }

  /** Taking claims in order: a nearer one replaces the result, an equally near one of another type ends with no type. */
  ghost function Settle(claims: seq<Claim>, result: DeclaredReceiver, best: nat): DeclaredReceiver {
    if claims == [] then result
    else if claims[0].distance < best then Settle(claims[1..], DeclaredReceiver(true, claims[0].typeName), claims[0].distance)
    else if claims[0].distance == best && result.typeName != claims[0].typeName then DeclaredReceiver(true, [])
    else Settle(claims[1..], result, best)
  }

  ghost function LocalType(u: TranslationUnit, m: nat, name: Text): DeclaredReceiver
    requires UnitOk(u) && m < |u.nodes|
  {
    var f := EnclosingFunction(u.nodes, m);
    if f == INVALID_ID then NOT_DECLARED
    else
      SitesAreNodes(u.nodes, f, m);
      Settle(ClaimsOf(u, m, name, Sites(u.nodes, f, m)), NOT_DECLARED, INVALID_ID)
  }

  lemma {:induction false} SitesAreNodes(nodes: seq<Node>, i: nat, m: nat)
    requires WellFormed(nodes) && i < |nodes|
    ensures forall k :: 0 <= k < |Sites(nodes, i, m)| ==> Sites(nodes, i, m)[k] < |nodes|
  {
    forall k | 0 <= k < |Sites(nodes, i, m)| ensures Sites(nodes, i, m)[k] < |nodes| {
      SitesExact(nodes, i, m, Sites(nodes, i, m)[k]);
    }
  }

  // ---- The order-free meaning -----------------------------------------------

  ghost predicate AgreeAt(claims: seq<Claim>, distance: nat, typeName: Text) {
    forall c :: c in claims && c.distance == distance ==> c.typeName == typeName
  }

  /** With a first claim held and no nearer one to come, the outcome is whether all equally near ones agree with it. */
  lemma {:induction false} SettleHeld(claims: seq<Claim>, t: Text, best: nat)
    requires forall c :: c in claims ==> best <= c.distance
    ensures Settle(claims, DeclaredReceiver(true, t), best) == DeclaredReceiver(true, if AgreeAt(claims, best, t) then t else [])
  {
    if claims != [] {
      var c, rest := claims[0], claims[1..];
      assert c in claims && claims == [c] + rest;
      if c.distance != best || c.typeName == t {
        SettleHeld(rest, t, best);
        assert AgreeAt(claims, best, t) <==> AgreeAt(rest, best, t);
      }
    }
  }

  /** On claims listed from near to far the early exit is exact. */
  lemma {:induction false} SettleNearest(claims: seq<Claim>)
    requires claims != [] && claims[0].distance < INVALID_ID
    requires forall c :: c in claims ==> claims[0].distance <= c.distance
    ensures Settle(claims, NOT_DECLARED, INVALID_ID)
         == DeclaredReceiver(true, if AgreeAt(claims, claims[0].distance, claims[0].typeName) then claims[0].typeName else [])
  {
    var c, rest := claims[0], claims[1..];
    assert claims == [c] + rest;
    SettleHeld(rest, c.typeName, c.distance);
    assert AgreeAt(claims, c.distance, c.typeName) <==> AgreeAt(rest, c.distance, c.typeName);
  }

  /** On claims in any other order the early exit is not: the nearest claim can come too late. */
  lemma SettleDependsOnOrder()
    ensures Settle([Claim(1, [65]), Claim(1, [66]), Claim(0, [67])], NOT_DECLARED, INVALID_ID) == DeclaredReceiver(true, [])
    ensures Settle([Claim(0, [67]), Claim(1, [65]), Claim(1, [66])], NOT_DECLARED, INVALID_ID) == DeclaredReceiver(true, [67])
  {
    var a, b, c := Claim(1, [65]), Claim(1, [66]), Claim(0, [67]);
    assert [a, b, c][1..] == [b, c] && [c, a, b][1..] == [a, b] && [a, b][1..] == [b];
    assert a.typeName[0] != b.typeName[0];
  }

  lemma {:induction false} DistanceBound(scopes: seq<Scope>, from: nat, to: nat)
    requires Ordered(scopes) && IsScope(scopes, from)
    ensures ScopeDistance(scopes, from, to).Some? ==> ScopeDistance(scopes, from, to).value <= |scopes|
    ensures ScopeDistance(scopes, from, to).Some? && from < |scopes| ==> ScopeDistance(scopes, from, to).value <= from + 1
    decreases if from < |scopes| then from + 1 else 0
  {
    if from != to && from < |scopes| {
      DistanceBound(scopes, scopes[from].parent, to);
    }
  }

  lemma {:induction false} OutwardIsSmaller(scopes: seq<Scope>, from: nat, to: nat)
    requires Ordered(scopes) && IsScope(scopes, from) && to < |scopes|
    requires ScopeDistance(scopes, from, to).Some?
    ensures to <= from < |scopes|
    decreases if from < |scopes| then from + 1 else 0
  {
    if from != to {
      OutwardIsSmaller(scopes, scopes[from].parent, to);
    }
  }

  /** Of two scopes around a use, the one with the larger id is at least as near. */
  lemma {:induction false} LargerIsNearer(scopes: seq<Scope>, from: nat, a: nat, b: nat)
    requires Ordered(scopes) && from < |scopes| && b <= a < |scopes|
    requires ScopeDistance(scopes, from, a).Some? && ScopeDistance(scopes, from, b).Some?
    ensures ScopeDistance(scopes, from, a).value <= ScopeDistance(scopes, from, b).value
    decreases from
  {
    if from != a {
      OutwardIsSmaller(scopes, scopes[from].parent, a);
      if from != b {
        LargerIsNearer(scopes, scopes[from].parent, a, b);
      }
    }
  }

  /** Walking outward keeps the opening nodes around the use. */
  lemma {:induction false} OuterNodeIsAround(u: TranslationUnit, i: nat, s: nat, t: nat)
    requires UnitOk(u) && i < |u.nodes| && s < |u.scopes| && t < |u.scopes|
    requires IsAncestor(u.nodes, u.scopes[s].nodeIndex, i) && ScopeDistance(u.scopes, s, t).Some?
    ensures IsAncestor(u.nodes, u.scopes[t].nodeIndex, i)
    decreases s
  {
    if s != t {
      assert ScopeOpened(u, s);
      OutwardIsSmaller(u.scopes, u.scopes[s].parent, t);
      EnclosingNodeIsAround(u, u.scopes[s].nodeIndex, i);
      OuterNodeIsAround(u, i, u.scopes[s].parent, t);
    }
  }

  /** Nothing inside the subtree of a scope's node belongs to an earlier scope. */
  lemma {:induction false} ScopesInside(nodes: seq<Node>, n: nat, d: nat)
    requires WellFormed(nodes) && n < |nodes| && Introduces(nodes, n) && n <= d < End(nodes, n)
    ensures d < |nodes| && ScopeOf(nodes, n) <= ScopeOf(nodes, d) < INVALID_ID
    decreases d
  {
    EndBounds(nodes, n);
    if Introduces(nodes, d) {
      ScopeCountMonotone(nodes, n, d);
    } else {
      ParentInSubtree(nodes, n, d);
      ScopesInside(nodes, n, nodes[d].parent);
    }
  }

  /** Of two visible declarations before the use, the later one is at least as near. */
  lemma {:induction false} LaterIsNearer(u: TranslationUnit, m: nat, name: Text, earlier: nat, later: nat)
    requires UnitOk(u) && earlier < later < m < |u.nodes|
    requires ClaimAt(u, m, name, earlier).Some? && ClaimAt(u, m, name, later).Some?
    requires ScopeOf(u.nodes, earlier) != INVALID_ID
    ensures ClaimAt(u, m, name, later).value.distance <= ClaimAt(u, m, name, earlier).value.distance
  {
    var use, s, t := ScopeOf(u.nodes, m), ScopeOf(u.nodes, earlier), ScopeOf(u.nodes, later);
    assert u.nodeScope[m] == use && u.nodeScope[earlier] == s && u.nodeScope[later] == t;
    OutwardIsSmaller(u.scopes, use, s);
    var n := u.scopes[s].nodeIndex;
    assert ScopeOpened(u, s);
    ScopeNodeIsAround(u, earlier);
    AncestorBelow(u.nodes, n, earlier);
    ScopeNodeIsAround(u, m);
    OuterNodeIsAround(u, m, use, s);
    SubtreeIsInterval(u.nodes, n, m);
    ScopesInside(u.nodes, n, later);
    LargerIsNearer(u.scopes, use, t, s);
  }

  /** A declaration of `name` before `m` in the function `f` whose scope is visible at `m`. */
  ghost predicate Candidate(u: TranslationUnit, f: nat, m: nat, name: Text, d: nat)
    requires UnitOk(u) && m < |u.nodes|
  {
    EarlierDeclaration(u.nodes, f, m, d) && ClaimAt(u, m, name, d).Some?
  }

  /** ... and no other such declaration lies fewer scopes out. */
  ghost predicate Nearest(u: TranslationUnit, f: nat, m: nat, name: Text, d: nat)
    requires UnitOk(u) && m < |u.nodes|
  {
    && Candidate(u, f, m, name, d)
    && forall e :: Candidate(u, f, m, name, e) ==> ClaimAt(u, m, name, d).value.distance <= ClaimAt(u, m, name, e).value.distance
  }

  lemma {:induction false} ClaimsAreOfSites(u: TranslationUnit, m: nat, name: Text, sites: seq<nat>)
    requires UnitOk(u) && m < |u.nodes| && forall k :: 0 <= k < |sites| ==> sites[k] < |u.nodes|
    ensures forall c :: c in ClaimsOf(u, m, name, sites) ==>
      exists d :: d in sites && d < |u.nodes| && ClaimAt(u, m, name, d) == Some(c)
    ensures forall d :: d in sites && d < |u.nodes| && ClaimAt(u, m, name, d).Some? ==>
      ClaimAt(u, m, name, d).value in ClaimsOf(u, m, name, sites)
  {
    if sites != [] {
      ClaimsAreOfSites(u, m, name, sites[1..]);
      assert sites == [sites[0]] + sites[1..];
    }
  }

  ghost predicate FirstNearest(claims: seq<Claim>) {
    claims != [] ==> claims[0].distance < INVALID_ID && forall c :: c in claims ==> claims[0].distance <= c.distance
  }

  /** Sites listed in descending order put the nearest claim first. */
  lemma {:induction false} FirstClaimNearest(u: TranslationUnit, m: nat, name: Text, sites: seq<nat>)
    requires UnitOk(u) && m < |u.nodes| && Descending(sites)
    requires forall k :: 0 <= k < |sites| ==> sites[k] < m && ScopeOf(u.nodes, sites[k]) != INVALID_ID
    ensures FirstNearest(ClaimsOf(u, m, name, sites))
  {
    if sites != [] {
      var d, rest := sites[0], sites[1..];
      FirstClaimNearest(u, m, name, rest);
      if ClaimAt(u, m, name, d).Some? {
        assert u.nodeScope[m] == ScopeOf(u.nodes, m);
        DistanceBound(u.scopes, ScopeOf(u.nodes, m), ScopeOf(u.nodes, d));
        ClaimsAreOfSites(u, m, name, rest);
        forall c | c in ClaimsOf(u, m, name, rest) ensures ClaimAt(u, m, name, d).value.distance <= c.distance {
          var e :| e in rest && e < |u.nodes| && ClaimAt(u, m, name, e) == Some(c);
          LaterIsNearer(u, m, name, e, d);
        }
      }
    }
  }

  lemma ClaimsOfFunction(u: TranslationUnit, f: nat, m: nat, name: Text) returns (claims: seq<Claim>)
    requires UnitOk(u) && m < |u.nodes| && f == EnclosingFunction(u.nodes, m) && f != INVALID_ID
    ensures LocalType(u, m, name) == Settle(claims, NOT_DECLARED, INVALID_ID)
    ensures FirstNearest(claims)
    ensures forall c :: c in claims ==> exists d :: Candidate(u, f, m, name, d) && ClaimAt(u, m, name, d) == Some(c)
    ensures forall d :: Candidate(u, f, m, name, d) ==> ClaimAt(u, m, name, d).value in claims
  {
    var sites := Sites(u.nodes, f, m);
    SitesAreNodes(u.nodes, f, m);
    SitesDescend(u.nodes, f, m);
    claims := ClaimsOf(u, m, name, sites);
    forall d: nat ensures d in sites <==> EarlierDeclaration(u.nodes, f, m, d) {
      SitesExact(u.nodes, f, m, d);
    }
    forall k | 0 <= k < |sites| ensures sites[k] < m && ScopeOf(u.nodes, sites[k]) != INVALID_ID {
      assert sites[k] in sites;
      ScopesInside(u.nodes, f, sites[k]);
    }
    FirstClaimNearest(u, m, name, sites);
    ClaimsAreOfSites(u, m, name, sites);
  }

  /** A receiver is found exactly when some earlier visible declaration names it, and its type is the one all nearest of them give. */
  lemma {:induction false} LocalTypeIsNearest(u: TranslationUnit, m: nat, name: Text)
    requires UnitOk(u) && m < |u.nodes| && EnclosingFunction(u.nodes, m) != INVALID_ID
    ensures var f, r := EnclosingFunction(u.nodes, m), LocalType(u, m, name);
      && (r.found <==> exists d :: Candidate(u, f, m, name, d))
      && (r.found ==> exists d :: Nearest(u, f, m, name, d))
      && (!r.found ==> r.typeName == [])
      && (r.typeName != [] ==> forall d :: Nearest(u, f, m, name, d) ==> ClaimAt(u, m, name, d).value.typeName == r.typeName)
      && (r.found && r.typeName == [] ==>
            || (exists d, e :: Nearest(u, f, m, name, d) && Nearest(u, f, m, name, e)
                  && ClaimAt(u, m, name, d).value.typeName != ClaimAt(u, m, name, e).value.typeName)
            || (exists d :: Nearest(u, f, m, name, d) && ClaimAt(u, m, name, d).value.typeName == []))
  {
    var f := EnclosingFunction(u.nodes, m);
    var claims := ClaimsOfFunction(u, f, m, name);
    if claims != [] {
      SettleNearest(claims);
      var first := claims[0];
      assert first in claims;
      var d :| Candidate(u, f, m, name, d) && ClaimAt(u, m, name, d) == Some(first);
      assert Nearest(u, f, m, name, d);
      if !AgreeAt(claims, first.distance, first.typeName) {
        var c :| c in claims && c.distance == first.distance && c.typeName != first.typeName;
        var e :| Candidate(u, f, m, name, e) && ClaimAt(u, m, name, e) == Some(c);
        assert Nearest(u, f, m, name, e);
      }
    }
  }

  // ---- The walk -------------------------------------------------------------

  /** The declarations still to be met from the stack, its top first. */
  ghost function PendingSites(nodes: seq<Node>, stack: seq<nat>, m: nat): seq<nat>
    requires WellFormed(nodes) && forall k :: 0 <= k < |stack| ==> stack[k] < |nodes|
  {
    if stack == [] then []
    else Sites(nodes, stack[|stack| - 1], m) + PendingSites(nodes, stack[..|stack| - 1], m)
  }

  lemma {:induction false} PendingAreNodes(nodes: seq<Node>, stack: seq<nat>, m: nat)
    requires WellFormed(nodes) && forall k :: 0 <= k < |stack| ==> stack[k] < |nodes|
    ensures forall k :: 0 <= k < |PendingSites(nodes, stack, m)| ==> PendingSites(nodes, stack, m)[k] < |nodes|
  {
    if stack != [] {
      SitesAreNodes(nodes, stack[|stack| - 1], m);
      PendingAreNodes(nodes, stack[..|stack| - 1], m);
    }
  }

  lemma {:induction false} PendingChildren(nodes: seq<Node>, rest: seq<nat>, i: nat, k: nat, m: nat)
    requires WellFormed(nodes) && i < |nodes| && k <= |nodes[i].children|
    requires forall j :: 0 <= j < |rest| ==> rest[j] < |nodes|
    requires forall j :: 0 <= j < |nodes[i].children| ==> nodes[i].children[j] < |nodes|
    ensures PendingSites(nodes, rest + nodes[i].children[..k], m) == ChildSites(nodes, i, k, m) + PendingSites(nodes, rest, m)
  {
    var c := nodes[i].children;
    if k == 0 {
      assert rest + c[..0] == rest;
    } else {
      PendingChildren(nodes, rest, i, k - 1, m);
      var stack := rest + c[..k];
      assert stack[..|stack| - 1] == rest + c[..k - 1];
    }
  }

  /** Popping `i` and pushing its children keeps the declarations to come. */
  lemma {:induction false} PendingStep(nodes: seq<Node>, rest: seq<nat>, i: nat, m: nat)
    requires WellFormed(nodes) && i < |nodes| && forall j :: 0 <= j < |rest| ==> rest[j] < |nodes|
    requires i < m && !IsLocalDeclaration(nodes, i)
    ensures forall j :: 0 <= j < |nodes[i].children| ==> nodes[i].children[j] < |nodes|
    ensures PendingSites(nodes, rest + nodes[i].children, m) == PendingSites(nodes, rest + [i], m)
  {
    var c := nodes[i].children;
    assert Linked(nodes, i);
    PendingChildren(nodes, rest, i, |c|, m);
    assert c[..|c|] == c;
    assert (rest + [i])[..|rest|] == rest;
  }

  /** Popping a declaration takes its claim, if it makes one. */
  lemma {:induction false} PendingDeclaration(u: TranslationUnit, m: nat, name: Text, rest: seq<nat>, d: nat)
    requires UnitOk(u) && d < m < |u.nodes| && IsLocalDeclaration(u.nodes, d)
    requires forall j :: 0 <= j < |rest| ==> rest[j] < |u.nodes|
    ensures PendingSites(u.nodes, rest + [d], m) == [d] + PendingSites(u.nodes, rest, m)
    ensures forall k :: 0 <= k < |PendingSites(u.nodes, rest, m)| ==> PendingSites(u.nodes, rest, m)[k] < |u.nodes|
    ensures ClaimsOf(u, m, name, [d] + PendingSites(u.nodes, rest, m))
         == var later := ClaimsOf(u, m, name, PendingSites(u.nodes, rest, m));
            if ClaimAt(u, m, name, d).Some? then [ClaimAt(u, m, name, d).value] + later else later
  {
    PendingAreNodes(u.nodes, rest, m);
    assert (rest + [d])[..|rest|] == rest;
    var sites := [d] + PendingSites(u.nodes, rest, m);
    assert sites[1..] == PendingSites(u.nodes, rest, m);
  }

  lemma {:induction false} SettleStep(c: Claim, rest: seq<Claim>, result: DeclaredReceiver, best: nat)
    ensures Settle([c] + rest, result, best)
         == if c.distance < best then Settle(rest, DeclaredReceiver(true, c.typeName), c.distance)
            else if c.distance == best && result.typeName != c.typeName then DeclaredReceiver(true, [])
            else Settle(rest, result, best)
  {
    assert ([c] + rest)[1..] == rest;
  }

  method FindEnclosingFunction(nodes: seq<Node>, i: nat) returns (f: nat)
    requires WellFormed(nodes) && i < |nodes|
    ensures f == EnclosingFunction(nodes, i)
  {
    f := i;
    while nodes[f].nodeType != FUNCTION_DEFINITION
      invariant f <= i && EnclosingFunction(nodes, i) == EnclosingFunction(nodes, f)
      decreases f
    {
      if nodes[f].parent == INVALID_ID {
        return INVALID_ID;
      }
      assert f > 0 && Parented(nodes, f);
      f := nodes[f].parent;
    }
  }

  method FindDeclaredTypeName(nodes: seq<Node>, d: nat) returns (typeName: Text)
    requires WellFormed(nodes) && d < |nodes|
    ensures typeName == DeclaredTypeName(nodes, d)
  {
    typeName := [];
    assert Linked(nodes, d);
    for k := 0 to |nodes[d].children|
      invariant typeName == TypeNameUpTo(nodes, d, k)
    {
      var childId := nodes[d].children[k];
      if childId == INVALID_ID {
        continue;
      }
      var child := nodes[childId];
      if child.nodeType == TYPE_IDENTIFIER || child.nodeType == QUALIFIED_IDENTIFIER {
        typeName := child.text;
      }
    }
  }

  method MeasureDistance(scopes: seq<Scope>, useScope: nat, declarationScope: nat) returns (r: Option<nat>)
    requires Ordered(scopes) && IsScope(scopes, useScope)
    ensures r == ScopeDistance(scopes, useScope, declarationScope)
  {
    var visibleScope: nat, distance: nat := useScope, 0;
    while visibleScope != INVALID_ID && visibleScope != declarationScope
      invariant IsScope(scopes, visibleScope)
      invariant ScopeDistance(scopes, useScope, declarationScope)
             == match ScopeDistance(scopes, visibleScope, declarationScope)
                case None => None
                case Some(n) => Some(distance + n)
      decreases if visibleScope < |scopes| then visibleScope + 1 else 0
    {
      visibleScope := scopes[visibleScope].parent;
      distance := distance + 1;
    }
    r := if visibleScope == declarationScope then Some(distance) else None;
  }

  /** The claim of one declaration. */
  method ReadClaim(u: TranslationUnit, m: nat, name: Text, d: nat, useScope: nat) returns (r: Option<Claim>)
    requires UnitOk(u) && m < |u.nodes| && d < |u.nodes| && useScope == ScopeOf(u.nodes, m)
    ensures r == ClaimAt(u, m, name, d)
  {
    assert u.nodeScope[m] == useScope && u.nodeScope[d] == ScopeOf(u.nodes, d);
    var typeName := FindDeclaredTypeName(u.nodes, d);
    var declaresReceiver := SearchSubtree(u.nodes, d, IsName(name));
    if !declaresReceiver {
      return None;
    }
    var distance := MeasureDistance(u.scopes, useScope, EntryOr(u.nodeScope, d));
    r := match distance case None => None case Some(n) => Some(Claim(n, typeName));
  }

  /** The walk with `stack` to go and `result` in hand ends in the unit's local type. */
  ghost predicate OnTrack(u: TranslationUnit, m: nat, name: Text, stack: seq<nat>, result: DeclaredReceiver, best: nat)
    requires UnitOk(u) && m < |u.nodes|
  {
    && (forall k :: 0 <= k < |stack| ==> stack[k] < |u.nodes|)
    && (PendingAreNodes(u.nodes, stack, m);
        LocalType(u, m, name) == Settle(ClaimsOf(u, m, name, PendingSites(u.nodes, stack, m)), result, best))
  }

  lemma {:induction false} StartOnTrack(u: TranslationUnit, m: nat, name: Text, f: nat)
    requires UnitOk(u) && m < |u.nodes| && f == EnclosingFunction(u.nodes, m) && f != INVALID_ID
    ensures OnTrack(u, m, name, [f], NOT_DECLARED, INVALID_ID)
  {
    PendingAreNodes(u.nodes, [f], m);
    assert [f][..0] == [];
    assert PendingSites(u.nodes, [f], m) == Sites(u.nodes, f, m);
  }

  lemma PrunedOnTrack(u: TranslationUnit, m: nat, name: Text, rest: seq<nat>, i: nat, result: DeclaredReceiver, best: nat)
    requires UnitOk(u) && m < |u.nodes| && OnTrack(u, m, name, rest + [i], result, best) && m <= i
    ensures OnTrack(u, m, name, rest, result, best)
  {
    var stack := rest + [i];
    assert stack[|rest|] == i && stack[..|rest|] == rest;
    assert forall k :: 0 <= k < |rest| ==> stack[k] == rest[k];
    assert PendingSites(u.nodes, stack, m) == PendingSites(u.nodes, rest, m);
  }

  lemma EnteredOnTrack(u: TranslationUnit, m: nat, name: Text, rest: seq<nat>, i: nat, result: DeclaredReceiver, best: nat)
    requires UnitOk(u) && i < m < |u.nodes| && OnTrack(u, m, name, rest + [i], result, best)
    requires !IsLocalDeclaration(u.nodes, i)
    ensures OnTrack(u, m, name, rest + u.nodes[i].children, result, best)
  {
    var stack := rest + [i];
    assert forall k :: 0 <= k < |rest| ==> stack[k] == rest[k];
    PendingStep(u.nodes, rest, i, m);
    PendingAreNodes(u.nodes, rest + u.nodes[i].children, m);
  }

  lemma DeclaredOnTrack(u: TranslationUnit, m: nat, name: Text, rest: seq<nat>, d: nat, result: DeclaredReceiver, best: nat)
    requires UnitOk(u) && d < m < |u.nodes| && OnTrack(u, m, name, rest + [d], result, best)
    requires IsLocalDeclaration(u.nodes, d)
    ensures match ClaimAt(u, m, name, d)
            case None => OnTrack(u, m, name, rest, result, best)
            case Some(c) =>
              if c.distance < best then OnTrack(u, m, name, rest, DeclaredReceiver(true, c.typeName), c.distance)
              else if c.distance == best && result.typeName != c.typeName then LocalType(u, m, name) == DeclaredReceiver(true, [])
              else OnTrack(u, m, name, rest, result, best)
  {
    var stack := rest + [d];
    assert forall k :: 0 <= k < |rest| ==> stack[k] == rest[k];
    PendingDeclaration(u, m, name, rest, d);
    var claim := ClaimAt(u, m, name, d);
    if claim.Some? {
      SettleStep(claim.value, ClaimsOf(u, m, name, PendingSites(u.nodes, rest, m)), result, best);
    }
  }

  method DeclaredLocalType(u: TranslationUnit, memberIdentifier: nat, receiverName: Text) returns (result: DeclaredReceiver)
    requires UnitOk(u) && memberIdentifier < |u.nodes|
    ensures result == LocalType(u, memberIdentifier, receiverName)
  {
    var nodes := u.nodes;
    var function_ := FindEnclosingFunction(nodes, memberIdentifier);
    if function_ == INVALID_ID {
      return NOT_DECLARED;
    }
    result := NOT_DECLARED;
    var best: nat := INVALID_ID;
    var useScope := EntryOr(u.nodeScope, memberIdentifier);
    var stack: seq<nat> := [function_];
    StartOnTrack(u, memberIdentifier, receiverName, function_);
    while stack != []
      invariant OnTrack(u, memberIdentifier, receiverName, stack, result, best)
      decreases Weight(nodes, stack)
    {
      var current, rest := stack[|stack| - 1], stack[..|stack| - 1];
      assert stack == rest + [current];
      WeightStep(nodes, rest, current);
      WeightSnoc(nodes, rest, current);
      stack := rest;
      if current >= memberIdentifier {
        PrunedOnTrack(u, memberIdentifier, receiverName, rest, current, result, best);
        continue;
      }
      if nodes[current].nodeType == DECLARATION || nodes[current].nodeType == PARAMETER_DECLARATION {
        DeclaredOnTrack(u, memberIdentifier, receiverName, rest, current, result, best);
        var claim := ReadClaim(u, memberIdentifier, receiverName, current, useScope);
        if claim.Some? {
          if claim.value.distance < best {
            result := DeclaredReceiver(true, claim.value.typeName);
            best := claim.value.distance;
          } else if claim.value.distance == best && result.typeName != claim.value.typeName {
            return DeclaredReceiver(true, []);
          }
        }
        continue;
      }
      EnteredOnTrack(u, memberIdentifier, receiverName, rest, current, result, best);
      stack := rest + nodes[current].children;
    }
  }
}
