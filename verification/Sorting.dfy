/** What std::sort promises: a permutation in which nothing comes before a smaller item. */
module Sorting {

  /** A strict order; items that neither precede the other may differ. */
  ghost predicate Strict<T(!new)>(lt: (T, T) -> bool) {
    (forall x :: !lt(x, x)) && (forall x, y, z :: lt(x, y) && lt(y, z) ==> lt(x, z))
  }

  ghost predicate InOrder<T>(lt: (T, T) -> bool, s: seq<T>) {
    forall i, j :: 0 <= i < j < |s| ==> !lt(s[j], s[i])
  }

  ghost predicate IsSorting<T>(lt: (T, T) -> bool, of: seq<T>, s: seq<T>) {
    multiset(s) == multiset(of) && InOrder(lt, s)
  }

  /** No two different items of `s` are left unordered. */
  ghost predicate Separates<T>(lt: (T, T) -> bool, s: seq<T>) {
    forall x, y :: x in s && y in s ==> lt(x, y) || lt(y, x) || x == y
  }

  lemma InsertedInOrder<T(!new)>(lt: (T, T) -> bool, s: seq<T>, at: nat, x: T)
    requires Strict(lt) && InOrder(lt, s) && at <= |s|
    requires (forall i :: 0 <= i < at ==> !lt(x, s[i])) && (at < |s| ==> lt(x, s[at]))
    ensures InOrder(lt, s[..at] + [x] + s[at..])
  {
    var r := s[..at] + [x] + s[at..];
    forall j | at <= j < |s| ensures !lt(s[j], x) {
      assert j > at ==> !lt(s[j], s[at]);
    }
    forall i, j | 0 <= i < j < |r| ensures !lt(r[j], r[i]) {
      assert r[i] == if i < at then s[i] else if i == at then x else s[i - 1];
      assert r[j] == if j < at then s[j] else if j == at then x else s[j - 1];
    }
  }

  lemma InsertedItems<T>(s: seq<T>, at: nat, x: T)
    requires at <= |s|
    ensures multiset(s[..at] + [x] + s[at..]) == multiset(s) + multiset{x}
  {
    assert s == s[..at] + s[at..];
  }

  /** An insertion sort, standing for std::sort. */
  method Sort<T(!new)>(lt: (T, T) -> bool, s: seq<T>) returns (r: seq<T>)
    requires Strict(lt)
    ensures IsSorting(lt, s, r)
  {
    r := [];
    for k := 0 to |s|
      invariant IsSorting(lt, s[..k], r)
    {
      var at := 0;
      while at < |r| && !lt(s[k], r[at])
        invariant at <= |r| && forall i :: 0 <= i < at ==> !lt(s[k], r[i])
      {
        at := at + 1;
      }
      InsertedInOrder(lt, r, at, s[k]);
      InsertedItems(r, at, s[k]);
      assert s[..k + 1] == s[..k] + [s[k]];
      r := r[..at] + [s[k]] + r[at..];
    }
    assert s[..|s|] == s;
  }

  lemma FirstIsLeast<T>(lt: (T, T) -> bool, s: seq<T>, x: T)
    requires InOrder(lt, s) && x in s
    ensures x == s[0] || !lt(x, s[0])
  {
    var i :| 0 <= i < |s| && s[i] == x;
  }

  lemma SameFirst<T>(lt: (T, T) -> bool, a: seq<T>, b: seq<T>)
    requires a != [] && multiset(a) == multiset(b) && InOrder(lt, a) && InOrder(lt, b) && Separates(lt, a)
    ensures b != [] && a[0] == b[0]
  {
    assert a[0] in multiset(a) && a[0] in multiset(b);
    assert b[0] in multiset(b) && b[0] in multiset(a);
    FirstIsLeast(lt, a, b[0]);
    FirstIsLeast(lt, b, a[0]);
  }

  lemma RestItems<T>(s: seq<T>)
    requires s != []
    ensures multiset(s[1..]) == multiset(s) - multiset{s[0]}
  {
    assert s == [s[0]] + s[1..];
  }

  lemma RestStays<T>(lt: (T, T) -> bool, s: seq<T>)
    requires s != [] && InOrder(lt, s) && Separates(lt, s)
    ensures InOrder(lt, s[1..]) && Separates(lt, s[1..])
  {
    forall x, y | x in s[1..] && y in s[1..] ensures lt(x, y) || lt(y, x) || x == y {
      assert x in s && y in s;
    }
  }

  lemma SameSeparates<T>(lt: (T, T) -> bool, a: seq<T>, b: seq<T>)
    requires multiset(a) == multiset(b) && Separates(lt, a)
    ensures Separates(lt, b)
  {
    forall x, y | x in b && y in b ensures lt(x, y) || lt(y, x) || x == y {
      assert x in multiset(b) && y in multiset(b) && x in multiset(a) && y in multiset(a);
    }
  }

  lemma SameParts<T>(a: seq<T>, b: seq<T>)
    requires a != [] && b != [] && a[0] == b[0] && a[1..] == b[1..]
    ensures a == b
  {
    assert a == [a[0]] + a[1..] && b == [b[0]] + b[1..];
  }

  /** Where the order tells all items apart, sorting removes the order of arrival: two sortings of the same items are equal. */
  lemma {:induction false} SortedIsUnique<T>(lt: (T, T) -> bool, a: seq<T>, b: seq<T>)
    requires multiset(a) == multiset(b) && InOrder(lt, a) && InOrder(lt, b) && Separates(lt, a)
    ensures a == b
    decreases |a|
  {
    if a == [] {
      assert |multiset(b)| == 0;
    } else {
      SameFirst(lt, a, b);
      SameSeparates(lt, a, b);
      RestItems(a);
      RestItems(b);
      RestStays(lt, a);
      RestStays(lt, b);
      SortedIsUnique(lt, a[1..], b[1..]);
      SameParts(a, b);
    }
  }
}
