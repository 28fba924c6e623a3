/** Collecting results into one list, and what does not depend on the order of a list. */
module Sequences {
  import opened Options

  /** The present items, in order. */
  function Present<T>(items: seq<Option<T>>): seq<T> {
    if items == [] then []
    else
      var rest, last := Present(items[..|items| - 1]), items[|items| - 1];
      if last.Some? then rest + [last.value] else rest
  }

  lemma PresentStep<T>(items: seq<Option<T>>, lo: nat, k: nat)
    requires lo <= k < |items|
    ensures Present(items[lo..k + 1])
         == if items[k].Some? then Present(items[lo..k]) + [items[k].value] else Present(items[lo..k])
  {
    assert items[lo..k + 1][..k - lo] == items[lo..k];
  }

  lemma {:induction false} PresentExact<T>(items: seq<Option<T>>, x: T)
    ensures x in Present(items) <==> Some(x) in items
  {
    if items != [] {
      var rest, last := items[..|items| - 1], items[|items| - 1];
      assert items == rest + [last];
      PresentExact(rest, x);
    }
  }

  lemma PresentInSlice<T>(items: seq<Option<T>>, lo: nat, hi: nat, x: T)
    requires lo <= hi <= |items|
    ensures x in Present(items[lo..hi]) <==> exists k :: lo <= k < hi && items[k] == Some(x)
  {
    var slice := items[lo..hi];
    PresentExact(slice, x);
    assert forall k :: 0 <= k < |slice| ==> slice[k] == items[lo + k];
    assert forall k :: lo <= k < hi ==> items[k] == slice[k - lo];
  }

  function Concat<T>(lists: seq<seq<T>>): seq<T> {
    if lists == [] then [] else Concat(lists[..|lists| - 1]) + lists[|lists| - 1]
  }

  lemma ConcatStep<T>(lists: seq<seq<T>>, k: nat)
    requires k < |lists|
    ensures Concat(lists[..k + 1]) == Concat(lists[..k]) + lists[k]
  {
    assert lists[..k + 1][..k] == lists[..k];
  }

  lemma {:induction false} ConcatExact<T>(lists: seq<seq<T>>, x: T)
    ensures x in Concat(lists) <==> exists k :: 0 <= k < |lists| && x in lists[k]
  {
    if lists != [] {
      var rest, last := lists[..|lists| - 1], lists[|lists| - 1];
      assert lists == rest + [last];
      ConcatExact(rest, x);
      assert x in last ==> x in lists[|lists| - 1];
      assert forall k :: 0 <= k < |rest| ==> lists[k] == rest[k];
    }
  }

  // ---- Order ----------------------------------------------------------------

  /** Every item comes `before` all later ones. */
  ghost predicate InOrder<T(!new)>(s: seq<T>, before: (T, T) -> bool) {
    forall j, k :: 0 <= j < k < |s| ==> before(s[j], s[k])
  }

  lemma JoinInOrder<T(!new)>(a: seq<T>, b: seq<T>, before: (T, T) -> bool)
    requires InOrder(a, before) && InOrder(b, before) && forall x, y :: x in a && y in b ==> before(x, y)
    ensures InOrder(a + b, before)
  {
  }

  /** The present items are in order when those in the list are. */
  lemma {:induction false} PresentInOrder<T(!new)>(items: seq<Option<T>>, before: (T, T) -> bool)
    requires forall j, k :: 0 <= j < k < |items| && items[j].Some? && items[k].Some? ==> before(items[j].value, items[k].value)
    ensures InOrder(Present(items), before)
  {
    if items != [] {
      var n := |items| - 1;
      PresentInOrder(items[..n], before);
      if items[n].Some? {
        forall x | x in Present(items[..n]) ensures before(x, items[n].value) {
          PresentExact(items[..n], x);
          var j :| 0 <= j < n && items[..n][j] == Some(x);
          assert items[j] == Some(x);
        }
        JoinInOrder(Present(items[..n]), [items[n].value], before);
      }
    }
  }

  /** Lists in order, each before the later ones, are in order one after the other. */
  lemma {:induction false} ConcatInOrder<T(!new)>(lists: seq<seq<T>>, before: (T, T) -> bool)
    requires forall n :: 0 <= n < |lists| ==> InOrder(lists[n], before)
    requires forall m, n, x, y :: 0 <= m < n < |lists| && x in lists[m] && y in lists[n] ==> before(x, y)
    ensures InOrder(Concat(lists), before)
  {
    if lists != [] {
      var n := |lists| - 1;
      assert forall m :: 0 <= m < n ==> lists[..n][m] == lists[m];
      ConcatInOrder(lists[..n], before);
      forall x, y | x in Concat(lists[..n]) && y in lists[n] ensures before(x, y) {
        ConcatExact(lists[..n], x);
      }
      JoinInOrder(Concat(lists[..n]), lists[n], before);
    }
  }

  // ---- Picking items --------------------------------------------------------

  /** The items that satisfy `p`, in order. */
  function Filter<T(!new)>(s: seq<T>, p: T -> bool): (r: seq<T>)
    ensures forall x :: x in r <==> x in s && p(x)
  {
    if s == [] then []
    else
      var rest, last := s[..|s| - 1], s[|s| - 1];
      assert s == rest + [last];
      if p(last) then Filter(rest, p) + [last] else Filter(rest, p)
  }

  lemma FilterStep<T(!new)>(s: seq<T>, p: T -> bool, k: nat)
    requires k < |s|
    ensures Filter(s[..k + 1], p) == if p(s[k]) then Filter(s[..k], p) + [s[k]] else Filter(s[..k], p)
  {
    assert s[..k + 1][..k] == s[..k];
  }

  /** Position `k` is the only one whose item satisfies `p`. */
  ghost predicate SoleAt<T>(s: seq<T>, p: T -> bool, k: nat) {
    k < |s| && p(s[k]) && forall j :: 0 <= j < |s| && p(s[j]) ==> j == k
  }

  /** At least two positions hold items that satisfy `p`. */
  ghost predicate Several<T>(s: seq<T>, p: T -> bool) {
    exists j, k :: 0 <= j < k < |s| && p(s[j]) && p(s[k])
  }

  ghost predicate Nowhere<T>(s: seq<T>, p: T -> bool) {
    forall k :: 0 <= k < |s| ==> !p(s[k])
  }

  lemma {:induction false} FilterNone<T(!new)>(s: seq<T>, p: T -> bool)
    ensures Filter(s, p) == [] <==> Nowhere(s, p)
  {
    var r := Filter(s, p);
    if r != [] {
      assert r[0] in r;
    }
    if !Nowhere(s, p) {
      var k :| 0 <= k < |s| && p(s[k]);
      assert s[k] in r;
    }
  }

  lemma {:induction false} FilterSole<T(!new)>(s: seq<T>, p: T -> bool, k: nat)
    requires SoleAt(s, p, k)
    ensures Filter(s, p) == [s[k]]
  {
    var n := |s| - 1;
    if k == n {
      FilterNone(s[..n], p);
    } else {
      assert s[..n][k] == s[k];
      FilterSole(s[..n], p, k);
    }
  }

  lemma {:induction false} FilterOne<T(!new)>(s: seq<T>, p: T -> bool) returns (k: nat)
    requires |Filter(s, p)| == 1
    ensures SoleAt(s, p, k)
  {
    var n := |s| - 1;
    var rest := s[..n];
    assert forall j :: 0 <= j < n ==> rest[j] == s[j];
    if p(s[n]) {
      FilterNone(rest, p);
      k := n;
    } else {
      k := FilterOne(rest, p);
    }
  }

  lemma {:induction false} SeveralFound<T(!new)>(s: seq<T>, p: T -> bool, j: nat, k: nat)
    requires j < k < |s| && p(s[j]) && p(s[k])
    ensures |Filter(s, p)| >= 2
  {
    FilterNone(s, p);
    if |Filter(s, p)| == 1 {
      var m := FilterOne(s, p);
    }
  }

  lemma {:induction false} FilterSeveral<T(!new)>(s: seq<T>, p: T -> bool) returns (j: nat, k: nat)
    requires |Filter(s, p)| >= 2
    ensures j < k < |s| && p(s[j]) && p(s[k])
  {
    var n := |s| - 1;
    var rest := s[..n];
    assert forall j :: 0 <= j < n ==> rest[j] == s[j];
    if p(s[n]) {
      FilterNone(rest, p);
      j :| 0 <= j < n && p(rest[j]);
      k := n;
    } else {
      j, k := FilterSeveral(rest, p);
    }
  }

  /** How many positions satisfy `p` is how many items are picked. */
  lemma {:induction false} FilterCounts<T(!new)>(s: seq<T>, p: T -> bool)
    ensures |Filter(s, p)| == 1 <==> exists k :: SoleAt(s, p, k)
    ensures forall k: nat :: SoleAt(s, p, k) ==> Filter(s, p) == [s[k]]
    ensures |Filter(s, p)| >= 2 <==> Several(s, p)
  {
    forall k: nat | SoleAt(s, p, k) ensures Filter(s, p) == [s[k]] {
      FilterSole(s, p, k);
    }
    if |Filter(s, p)| == 1 {
      var k := FilterOne(s, p);
    }
    if |Filter(s, p)| >= 2 {
      var j, k := FilterSeveral(s, p);
    }
    if Several(s, p) {
      var j, k :| 0 <= j < k < |s| && p(s[j]) && p(s[k]);
      SeveralFound(s, p, j, k);
    }
  }

  /** 1 for a condition that holds, 0 for one that does not. */
  function One(holds: bool): nat {
    if holds then 1 else 0
  }

  /** Picking twice is picking what satisfies both. */
  lemma {:induction false} FilterTwice<T(!new)>(s: seq<T>, p: T -> bool, q: T -> bool, both: T -> bool)
    requires forall x :: x in s ==> both(x) == (p(x) && q(x))
    ensures Filter(Filter(s, p), q) == Filter(s, both)
  {
    if s != [] {
      var rest, last := s[..|s| - 1], s[|s| - 1];
      assert s == rest + [last];
      FilterTwice(rest, p, q, both);
      if p(last) {
        assert (Filter(rest, p) + [last])[..|Filter(rest, p)|] == Filter(rest, p);
      }
    }
  }

  lemma {:induction false} FilterSame<T(!new)>(s: seq<T>, p: T -> bool, q: T -> bool)
    requires forall x :: x in s ==> p(x) == q(x)
    ensures Filter(s, p) == Filter(s, q)
  {
    if s != [] {
      assert s == s[..|s| - 1] + [s[|s| - 1]];
      FilterSame(s[..|s| - 1], p, q);
    }
  }

  /** Counting one for each item of a set counts the set. */
  lemma {:induction false} SumIsSize<T>(f: T -> nat, s: seq<T>, hits: set<T>)
    requires Distinct(s) && forall x :: x in s ==> f(x) == One(x in hits)
    requires forall x :: x in hits ==> x in s
    ensures Sum(f, s) == |hits|
  {
    if s != [] {
      var rest, last := s[..|s| - 1], s[|s| - 1];
      assert s == rest + [last];
      SumIsSize(f, rest, hits - {last});
    }
  }

  // ---- Repetitions ----------------------------------------------------------

  ghost predicate Distinct<T>(s: seq<T>) {
    forall i, j :: 0 <= i < j < |s| ==> s[i] != s[j]
  }

  function Occurs<T(==)>(s: seq<T>, x: T): nat {
    if s == [] then 0 else Occurs(s[..|s| - 1], x) + if s[|s| - 1] == x then 1 else 0
  }

  lemma {:induction false} OccursSnoc<T>(s: seq<T>, y: T, x: T)
    ensures Occurs(s + [y], x) == Occurs(s, x) + if y == x then 1 else 0
  {
    assert (s + [y])[..|s|] == s;
  }

  lemma {:induction false} OccursPrefix<T>(a: seq<T>, b: seq<T>, x: T)
    ensures Occurs(a, x) <= Occurs(a + b, x)
    decreases |b|
  {
    if b == [] {
      assert a + b == a;
    } else {
      assert (a + b)[..|a + b| - 1] == a + b[..|b| - 1];
      OccursPrefix(a, b[..|b| - 1], x);
    }
  }

  lemma {:induction false} OccursMember<T>(s: seq<T>, x: T)
    ensures x in s <==> Occurs(s, x) > 0
  {
    if s != [] {
      assert s == s[..|s| - 1] + [s[|s| - 1]];
      OccursMember(s[..|s| - 1], x);
    }
  }

  lemma {:induction false} OccursOnce<T>(s: seq<T>, x: T)
    requires Distinct(s)
    ensures Occurs(s, x) <= 1
  {
    if s != [] {
      var rest := s[..|s| - 1];
      OccursOnce(rest, x);
      OccursMember(rest, x);
    }
  }

  lemma {:induction false} AtMostOnceIsDistinct<T>(s: seq<T>)
    requires forall x :: Occurs(s, x) <= 1
    ensures Distinct(s)
  {
    if s != [] {
      var rest, last := s[..|s| - 1], s[|s| - 1];
      assert s == rest + [last];
      forall x ensures Occurs(rest, x) <= 1 {
        OccursSnoc(rest, last, x);
      }
      AtMostOnceIsDistinct(rest);
      OccursSnoc(rest, last, last);
      OccursMember(rest, last);
      forall i, j | 0 <= i < j < |s| ensures s[i] != s[j] {
        assert s[i] == rest[i] && rest[i] in rest;
      }
    }
  }

  lemma {:induction false} AtMostOnce<T>(s: seq<T>, x: T)
    requires Distinct(s)
    ensures multiset(s)[x] == if x in s then 1 else 0
  {
    if s != [] {
      var rest, last := s[..|s| - 1], s[|s| - 1];
      assert s == rest + [last];
      AtMostOnce(rest, x);
      assert last !in rest;
    }
  }

  lemma AtLeastTwice<T>(s: seq<T>, i: nat, j: nat)
    requires i < j < |s| && s[i] == s[j]
    ensures multiset(s)[s[i]] >= 2
  {
    var a, b := s[..j], s[j..];
    assert s == a + b && a[i] == s[i] && b[0] == s[j];
    assert s[i] in multiset(a) && s[i] in multiset(b);
    assert multiset(s) == multiset(a) + multiset(b);
  }

  lemma RearrangedDistinct<T>(a: seq<T>, b: seq<T>)
    requires Distinct(a) && multiset(a) == multiset(b)
    ensures Distinct(b)
  {
    forall i, j | 0 <= i < j < |b| ensures b[i] != b[j] {
      AtMostOnce(a, b[i]);
      if b[i] == b[j] {
        AtLeastTwice(b, i, j);
      }
    }
  }

  /** Two lists without repeats and with the same members are equally long. */
  lemma SameLength<T>(a: seq<T>, b: seq<T>)
    requires Distinct(a) && Distinct(b) && forall x :: x in a <==> x in b
    ensures |a| == |b|
  {
    forall x ensures multiset(a)[x] == multiset(b)[x] {
      AtMostOnce(a, x);
      AtMostOnce(b, x);
    }
    assert multiset(a) == multiset(b);
    assert |multiset(a)| == |a| && |multiset(b)| == |b|;
  }

  /** No item occurs more often in `a` than in `b`. */
  ghost predicate FewerItems<T(!new)>(a: seq<T>, b: seq<T>) {
    forall x :: Occurs(a, x) <= Occurs(b, x)
  }

  /** Both lists hold the same items, equally often. */
  ghost predicate SameItems<T(!new)>(a: seq<T>, b: seq<T>) {
    forall x :: Occurs(a, x) == Occurs(b, x)
  }

  lemma SameMembers<T(!new)>(a: seq<T>, b: seq<T>)
    requires SameItems(a, b)
    ensures forall x :: x in a <==> x in b
  {
    forall x ensures x in a <==> x in b {
      OccursMember(a, x);
      OccursMember(b, x);
    }
  }

  lemma Regroup<T>(a: seq<T>, b: seq<T>, c: seq<T>)
    ensures (a + b) + c == a + (b + c)
  {
  }

  // ---- Sums -----------------------------------------------------------------

  function Sum<T>(f: T -> nat, s: seq<T>): nat {
    if s == [] then 0 else Sum(f, s[..|s| - 1]) + f(s[|s| - 1])
  }

  lemma {:induction false} SumSnoc<T>(f: T -> nat, s: seq<T>, x: T)
    ensures Sum(f, s + [x]) == Sum(f, s) + f(x)
  {
    assert (s + [x])[..|s|] == s;
  }

  lemma {:induction false} SumUpdate<T>(f: T -> nat, s: seq<T>, i: nat, x: T)
    requires i < |s|
    ensures Sum(f, s[i := x]) + f(s[i]) == Sum(f, s) + f(x)
  {
    var n, now := |s| - 1, s[i := x];
    if i < n {
      SumUpdate(f, s[..n], i, x);
      assert now[..n] == s[..n][i := x];
    } else {
      assert now[..n] == s[..n];
    }
  }

  lemma {:induction false} SumMember<T>(f: T -> nat, s: seq<T>, i: nat)
    requires i < |s|
    ensures f(s[i]) <= Sum(f, s)
  {
    if i < |s| - 1 {
      SumMember(f, s[..|s| - 1], i);
    }
  }

  lemma {:induction false} SumZero<T>(f: T -> nat, s: seq<T>)
    requires forall i :: 0 <= i < |s| ==> f(s[i]) == 0
    ensures Sum(f, s) == 0
  {
    if s != [] {
      SumZero(f, s[..|s| - 1]);
    }
  }

  lemma {:induction false} SumInsert<T>(f: T -> nat, a: seq<T>, x: T, b: seq<T>)
    ensures Sum(f, a + [x] + b) == Sum(f, a + b) + f(x)
    decreases |b|
  {
    if b == [] {
      assert a + [x] + b == a + [x] && a + b == a;
      SumSnoc(f, a, x);
    } else {
      var rest, last := b[..|b| - 1], b[|b| - 1];
      SumInsert(f, a, x, rest);
      assert a + [x] + b == (a + [x] + rest) + [last] && a + b == (a + rest) + [last];
      SumSnoc(f, a + [x] + rest, last);
      SumSnoc(f, a + rest, last);
    }
  }

  lemma {:induction false} OccursInsert<T>(a: seq<T>, y: T, b: seq<T>, x: T)
    ensures Occurs(a + [y] + b, x) == Occurs(a + b, x) + if y == x then 1 else 0
    decreases |b|
  {
    if b == [] {
      assert a + [y] + b == a + [y] && a + b == a;
      OccursSnoc(a, y, x);
    } else {
      var rest, last := b[..|b| - 1], b[|b| - 1];
      OccursInsert(a, y, rest, x);
      assert a + [y] + b == (a + [y] + rest) + [last] && a + b == (a + rest) + [last];
      OccursSnoc(a + [y] + rest, last, x);
      OccursSnoc(a + rest, last, x);
    }
  }

  /** Taking the last item of `a` out of both lists. */
  lemma SplitCommon<T(!new)>(a: seq<T>, b: seq<T>) returns (x: seq<T>, y: seq<T>)
    requires FewerItems(a, b) && a != []
    ensures b == x + [a[|a| - 1]] + y && FewerItems(a[..|a| - 1], x + y)
  {
    var rest, q := a[..|a| - 1], a[|a| - 1];
    assert Occurs(a, q) > 0;
    OccursMember(b, q);
    var k :| 0 <= k < |b| && b[k] == q;
    x, y := b[..k], b[k + 1..];
    assert b == x + [q] + y && a == rest + [q];
    forall p ensures Occurs(rest, p) <= Occurs(x + y, p) {
      assert Occurs(a, p) <= Occurs(b, p);
      OccursSnoc(rest, q, p);
      OccursInsert(x, q, y, p);
    }
  }

  lemma {:induction false} SumBelow<T(!new)>(f: T -> nat, a: seq<T>, b: seq<T>)
    requires FewerItems(a, b)
    ensures Sum(f, a) <= Sum(f, b)
    decreases |a|
  {
    if a != [] {
      var x, y := SplitCommon(a, b);
      SumBelow(f, a[..|a| - 1], x + y);
      SumInsert(f, x, a[|a| - 1], y);
    }
  }

  /** A sum does not depend on the order. */
  lemma {:induction false} SumAgrees<T(!new)>(f: T -> nat, a: seq<T>, b: seq<T>)
    requires SameItems(a, b)
    ensures Sum(f, a) == Sum(f, b)
  {
    SumBelow(f, a, b);
    SumBelow(f, b, a);
  }

  // ---- Collected lists ------------------------------------------------------

  /** What every item contributes, in the order of the items. */
  function Collected<T, U>(f: T -> seq<U>, s: seq<T>): seq<U> {
    if s == [] then [] else Collected(f, s[..|s| - 1]) + f(s[|s| - 1])
  }

  function Contribution<T, U(==)>(f: T -> seq<U>, x: U): T -> nat {
    (t: T) => multiset(f(t))[x]
  }

  lemma {:induction false} CollectedCount<T, U>(f: T -> seq<U>, s: seq<T>, x: U)
    ensures multiset(Collected(f, s))[x] == Sum(Contribution(f, x), s)
  {
    if s != [] {
      CollectedCount(f, s[..|s| - 1], x);
    }
  }

  /** What is collected depends on the order of the items only in its own order. */
  lemma {:induction false} CollectedAgrees<T(!new), U(!new)>(f: T -> seq<U>, a: seq<T>, b: seq<T>)
    requires SameItems(a, b)
    ensures multiset(Collected(f, a)) == multiset(Collected(f, b))
  {
    var left, right := multiset(Collected(f, a)), multiset(Collected(f, b));
    forall x ensures left[x] == right[x] {
      CollectedCount(f, a, x);
      CollectedCount(f, b, x);
      SumAgrees(Contribution(f, x), a, b);
    }
    assert left == right;
  }
}
