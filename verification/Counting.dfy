/** The pigeonhole principle for sequences of distinct numbers. */
module Counting {

  ghost predicate Distinct(xs: seq<int>) {
    forall i, j :: 0 <= i < j < |xs| ==> xs[i] != xs[j]
  }

  ghost predicate Inside(xs: seq<int>, m: int) {
    forall i :: 0 <= i < |xs| ==> 0 <= xs[i] < m
  }

  /** At most `m` distinct numbers lie in [0, m). */
  lemma {:induction false} DistinctCount(xs: seq<int>, m: nat)
    requires Distinct(xs) && Inside(xs, m)
    ensures |xs| <= m
  {
    if i :| 0 <= i < |xs| && xs[i] == m - 1 {
      DistinctCount(xs[..i] + xs[i + 1..], m - 1);
    } else if |xs| > 0 {
      assert 0 <= xs[0] < m;
      DistinctCount(xs, m - 1);
    }
  }

  /** A sequence of distinct numbers below its length contains every number below its length. */
  lemma Pigeonhole(xs: seq<int>, x: int)
    requires Distinct(xs) && Inside(xs, |xs|) && 0 <= x < |xs|
    ensures exists i :: 0 <= i < |xs| && xs[i] == x
  {
    if forall i :: 0 <= i < |xs| ==> xs[i] != x {
      var ys := seq(|xs|, i requires 0 <= i < |xs| => if xs[i] > x then xs[i] - 1 else xs[i]);
      DistinctCount(ys, |xs| - 1);
    }
  }
}
