/** Measuring how far threads are from done: work that only falls, and how many of them are awake. */
module Measures {
  lemma AddOne(s: set<nat>, t: nat)
    requires t !in s
    ensures |s + {t}| == |s| + 1
  {
  }

  lemma DropOne(s: set<nat>, t: nat)
    requires t in s
    ensures |s - {t}| == |s| - 1
  {
  }

  lemma {:induction false} BelowBound(s: set<nat>, n: nat)
    requires forall t :: t in s ==> t < n
    ensures |s| <= n
    decreases n
  {
    if n == 0 {
      assert s == {};
    } else {
      BelowBound(s - {n - 1}, n - 1);
    }
  }

  /** Work weighs more than all `k` threads together; then come those that are awake. */
  function Score(k: nat, work: nat, sleepers: nat): int {
    (k + 1) * work + (k - sleepers)
  }

  lemma ScoreIsNatural(k: nat, work: nat, sleepers: nat)
    requires sleepers <= k
    ensures 0 <= Score(k, work, sleepers)
  {
    assert 0 <= (k + 1) * work;
  }

  lemma {:induction false} MultiplesGrow(m: nat, a: nat, b: nat)
    requires a < b
    ensures m * a + m <= m * b
    decreases b
  {
    assert m * b == m * (b - 1) + m;
    if a + 1 < b {
      MultiplesGrow(m, a, b - 1);
    }
  }

  lemma ScoreFalls(k: nat, work: nat, sleepers: nat, work': nat, sleepers': nat)
    requires sleepers <= k && work' < work
    ensures Score(k, work', sleepers') < Score(k, work, sleepers)
  {
    MultiplesGrow(k + 1, work', work);
  }
}
