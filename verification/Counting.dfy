/** Sums and threshold counts over sequences of naturals, and the pigeonhole
    facts the protocol and layout proofs share. */
module Counting {

  function Sum(xs: seq<nat>): nat {
    if xs == [] then 0 else Sum(xs[..|xs| - 1]) + xs[|xs| - 1]
  }

  /** How many entries of `xs` exceed `r`. */
  function CountAbove(xs: seq<nat>, r: nat): nat {
    if xs == [] then 0
    else CountAbove(xs[..|xs| - 1], r) + (if xs[|xs| - 1] > r then 1 else 0)
  }

  ghost predicate Below(xs: seq<nat>, ys: seq<nat>) {
    |xs| == |ys| && forall i | 0 <= i < |xs| :: xs[i] <= ys[i]
  }

  lemma {:induction false} SumIncrement(xs: seq<nat>, i: nat)
    requires i < |xs|
    ensures Sum(xs[i := xs[i] + 1]) == Sum(xs) + 1
  {
    var n := |xs| - 1;
    var ys := xs[i := xs[i] + 1];
    if i == n {
      assert ys[..n] == xs[..n];
    } else {
      assert ys[..n] == xs[..n][i := xs[i] + 1];
      SumIncrement(xs[..n], i);
    }
  }

  lemma {:induction false} CountIncrement(xs: seq<nat>, i: nat, r: nat)
    requires i < |xs|
    ensures CountAbove(xs[i := xs[i] + 1], r) == CountAbove(xs, r) + (if xs[i] == r then 1 else 0)
  {
    var n := |xs| - 1;
    var ys := xs[i := xs[i] + 1];
    if i == n {
      assert ys[..n] == xs[..n];
    } else {
      assert ys[..n] == xs[..n][i := xs[i] + 1];
      CountIncrement(xs[..n], i, r);
    }
  }

  lemma {:induction false} CountNone(xs: seq<nat>, r: nat)
    requires forall i | 0 <= i < |xs| :: xs[i] <= r
    ensures CountAbove(xs, r) == 0
  {
    if xs != [] { CountNone(xs[..|xs| - 1], r); }
  }

  lemma {:induction false} CountSome(xs: seq<nat>, i: nat, r: nat)
    requires i < |xs| && xs[i] > r
    ensures CountAbove(xs, r) > 0
  {
    if i < |xs| - 1 { CountSome(xs[..|xs| - 1], i, r); }
  }

  lemma {:induction false} CountAtMost(xs: seq<nat>, r: nat)
    ensures CountAbove(xs, r) <= |xs|
  {
    if xs != [] { CountAtMost(xs[..|xs| - 1], r); }
  }

  /** Counts of a pointwise smaller sequence are smaller; they agree only when
      the same entries exceed the threshold. */
  lemma {:induction false} CountBelow(xs: seq<nat>, ys: seq<nat>, r: nat)
    requires Below(xs, ys)
    ensures CountAbove(xs, r) <= CountAbove(ys, r)
    ensures CountAbove(xs, r) == CountAbove(ys, r) ==>
              forall i | 0 <= i < |xs| :: ys[i] > r ==> xs[i] > r
    ensures CountAbove(xs, r) < CountAbove(ys, r) ==>
              exists i :: 0 <= i < |xs| && xs[i] <= r < ys[i]
  {
    if xs != [] {
      var n := |xs| - 1;
      CountBelow(xs[..n], ys[..n], r);
      assert forall i | 0 <= i < n :: xs[..n][i] == xs[i] && ys[..n][i] == ys[i];
    }
  }

  /** Everything counted at most once per threshold 0..m-1. */
  function SumOfCounts(xs: seq<nat>, m: nat): nat {
    if m == 0 then 0 else SumOfCounts(xs, m - 1) + CountAbove(xs, m - 1)
  }

  /** Double counting: summing, over the thresholds, the entries above each of
      them is summing the entries. */
  lemma {:induction false} DoubleCounting(xs: seq<nat>, m: nat)
    requires forall i | 0 <= i < |xs| :: xs[i] <= m
    ensures SumOfCounts(xs, m) == Sum(xs)
  {
    if xs == [] {
      EmptyCounts(m);
    } else {
      var n := |xs| - 1;
      DoubleCounting(xs[..n], m);
      SplitCounts(xs, m);
    }
  }

  lemma {:induction false} EmptyCounts(m: nat)
    ensures SumOfCounts([], m) == 0
  {
    if m > 0 { EmptyCounts(m - 1); }
  }

  lemma {:induction false} SplitCounts(xs: seq<nat>, m: nat)
    requires xs != []
    ensures SumOfCounts(xs, m) ==
            SumOfCounts(xs[..|xs| - 1], m) + (if xs[|xs| - 1] < m then xs[|xs| - 1] else m)
  {
    if m > 0 { SplitCounts(xs, m - 1); }
  }

  lemma {:induction false} SumBelow(xs: seq<nat>, ys: seq<nat>)
    requires Below(xs, ys)
    ensures Sum(xs) <= Sum(ys)
    ensures Sum(xs) == Sum(ys) ==> xs == ys
  {
    if xs != [] {
      var n := |xs| - 1;
      SumBelow(xs[..n], ys[..n]);
      assert xs == xs[..n] + [xs[n]] && ys == ys[..n] + [ys[n]];
    }
  }

  lemma {:induction false} ZeroSum(n: nat)
    ensures Sum(seq(n, _ => 0)) == 0
  {
    if n > 0 {
      ZeroSum(n - 1);
      assert seq<nat>(n, _ => 0)[..n - 1] == seq<nat>(n - 1, _ => 0);
    }
  }

  /** Pigeonhole: a set of numbers below `n` has at most `n` elements. */
  lemma {:induction false} SubsetSize(s: set<nat>, n: nat)
    requires forall i | i in s :: i < n
    ensures |s| <= n
  {
    if n == 0 {
      assert s == {};
    } else {
      SubsetSize(s - {n - 1}, n - 1);
    }
  }
}
