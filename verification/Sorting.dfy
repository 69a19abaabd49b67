/** Python's `sorted` with an integer key: a stable sort. */
module Sorting {

  function InsertByKey<T>(xs: seq<T>, key: T -> int, x: T): seq<T> {
    if xs == [] || key(xs[|xs| - 1]) <= key(x) then xs + [x]
    else InsertByKey(xs[..|xs| - 1], key, x) + [xs[|xs| - 1]]
  }

  function SortByKey<T>(xs: seq<T>, key: T -> int): seq<T> {
    if xs == [] then [] else InsertByKey(SortByKey(xs[..|xs| - 1], key), key, xs[|xs| - 1])
  }

  ghost predicate SortedByKey<T>(xs: seq<T>, key: T -> int) {
    forall i, j | 0 <= i < j < |xs| :: key(xs[i]) <= key(xs[j])
  }

  lemma {:induction false} InsertBound<T>(xs: seq<T>, key: T -> int, x: T, bound: int)
    requires key(x) <= bound && forall i | 0 <= i < |xs| :: key(xs[i]) <= bound
    ensures forall i | 0 <= i < |InsertByKey(xs, key, x)| :: key(InsertByKey(xs, key, x)[i]) <= bound
  {
    if xs != [] { InsertBound(xs[..|xs| - 1], key, x, bound); }
  }

  lemma {:induction false} InsertSorted<T>(xs: seq<T>, key: T -> int, x: T)
    requires SortedByKey(xs, key)
    ensures SortedByKey(InsertByKey(xs, key, x), key)
  {
    if xs != [] && key(xs[|xs| - 1]) > key(x) {
      var n := |xs| - 1;
      InsertSorted(xs[..n], key, x);
      InsertBound(xs[..n], key, x, key(xs[n]));
    }
  }

  lemma {:induction false} InsertKeeps<T>(xs: seq<T>, key: T -> int, x: T)
    ensures multiset(InsertByKey(xs, key, x)) == multiset(xs) + multiset{x}
  {
    if xs != [] && key(xs[|xs| - 1]) > key(x) {
      var n := |xs| - 1;
      InsertKeeps(xs[..n], key, x);
      assert xs == xs[..n] + [xs[n]];
    }
  }

  lemma NothingSorted<T>(xs: seq<T>, key: T -> int)
    requires xs == []
    ensures SortedByKey(xs, key)
  {
  }

  /** The result is in order and has the same entries. */
  lemma {:induction false} SortSorts<T>(xs: seq<T>, key: T -> int)
    ensures SortedByKey(SortByKey(xs, key), key) && multiset(SortByKey(xs, key)) == multiset(xs)
  {
    hide InsertByKey, SortedByKey;
    if xs == [] {
      NothingSorted(xs, key);
    } else {
      var n := |xs| - 1;
      SortSorts(xs[..n], key);
      InsertSorted(SortByKey(xs[..n], key), key, xs[n]);
      InsertKeeps(SortByKey(xs[..n], key), key, xs[n]);
      assert xs == xs[..n] + [xs[n]];
    }
  }

  lemma SortEntries<T>(xs: seq<T>, key: T -> int)
    ensures |SortByKey(xs, key)| == |xs|
    ensures forall x :: x in SortByKey(xs, key) <==> x in xs
  {
    SortSorts(xs, key);
    assert |multiset(SortByKey(xs, key))| == |multiset(xs)|;
    forall x ensures x in SortByKey(xs, key) <==> x in xs {
      assert x in multiset(SortByKey(xs, key)) <==> x in multiset(xs);
    }
  }

  /** The entries with key `k`, in order. */
  function Having<T>(xs: seq<T>, key: T -> int, k: int): seq<T> {
    if xs == [] then []
    else Having(xs[..|xs| - 1], key, k) + (if key(xs[|xs| - 1]) == k then [xs[|xs| - 1]] else [])
  }

  lemma {:induction false} InsertStable<T>(xs: seq<T>, key: T -> int, x: T, k: int)
    requires SortedByKey(xs, key)
    ensures Having(InsertByKey(xs, key, x), key, k) == Having(xs, key, k) + (if key(x) == k then [x] else [])
  {
    var ys := InsertByKey(xs, key, x);
    if xs == [] || key(xs[|xs| - 1]) <= key(x) {
      assert ys[..|xs|] == xs;
    } else {
      var n := |xs| - 1;
      InsertStable(xs[..n], key, x, k);
      assert ys[..|ys| - 1] == InsertByKey(xs[..n], key, x);
    }
  }

  /** Two entries with key `k` stand in that order among the entries with key `k`. */
  lemma {:induction false} HavingBoth<T>(xs: seq<T>, key: T -> int, k: int, i: nat, j: nat) returns (a: nat, b: nat)
    requires i < j < |xs| && key(xs[i]) == k && key(xs[j]) == k
    ensures a < b < |Having(xs, key, k)| && Having(xs, key, k)[a] == xs[i] && Having(xs, key, k)[b] == xs[j]
  {
    var n := |xs| - 1;
    if j < n {
      a, b := HavingBoth(xs[..n], key, k, i, j);
    } else {
      a := HavingOne(xs[..n], key, k, i);
      b := |Having(xs[..n], key, k)|;
    }
  }

  lemma {:induction false} HavingOne<T>(xs: seq<T>, key: T -> int, k: int, i: nat) returns (a: nat)
    requires i < |xs| && key(xs[i]) == k
    ensures a < |Having(xs, key, k)| && Having(xs, key, k)[a] == xs[i]
  {
    var n := |xs| - 1;
    if i < n { a := HavingOne(xs[..n], key, k, i); } else { a := |Having(xs[..n], key, k)|; }
  }

  ghost predicate AscendingBelow(xs: seq<nat>, bound: nat) {
    (forall i, j | 0 <= i < j < |xs| :: xs[i] < xs[j]) && forall i | 0 <= i < |xs| :: xs[i] < bound
  }

  lemma PushAscending(xs: seq<nat>, x: nat, bound: nat)
    requires AscendingBelow(xs, x) && x < bound
    ensures AscendingBelow(xs, bound) && AscendingBelow(xs + [x], bound)
  {
  }

  /** Entries with one key of an ascending list are ascending. */
  lemma {:induction false} HavingAscends(xs: seq<nat>, key: nat -> int, k: int, bound: nat)
    requires AscendingBelow(xs, bound)
    ensures AscendingBelow(Having<nat>(xs, key, k), bound)
  {
    if xs != [] {
      var n := |xs| - 1;
      HavingAscends(xs[..n], key, k, xs[n]);
      PushAscending(Having<nat>(xs[..n], key, k), xs[n], bound);
      assert Having<nat>(xs[..n], key, k) + [] == Having<nat>(xs[..n], key, k);
    }
  }

  /** The sort is stable: entries with one key keep their order. */
  lemma {:induction false} SortStable<T>(xs: seq<T>, key: T -> int, k: int)
    ensures Having(SortByKey(xs, key), key, k) == Having(xs, key, k)
  {
    if xs != [] {
      var n := |xs| - 1;
      SortStable(xs[..n], key, k);
      SortSorts(xs[..n], key);
      InsertStable(SortByKey(xs[..n], key), key, xs[n], k);
    }
  }

  /** An ascending list sorted by a key is in order of key, and by number where keys are
      equal. */
  lemma SortTies(xs: seq<nat>, key: nat -> int, i: nat, j: nat, bound: nat)
    requires AscendingBelow(xs, bound)
    requires i < j < |SortByKey(xs, key)|
    ensures var ys := SortByKey<nat>(xs, key);
            key(ys[i]) <= key(ys[j]) && (key(ys[i]) == key(ys[j]) ==> ys[i] < ys[j])
  {
    hide SortByKey, Having;
    var ys := SortByKey<nat>(xs, key);
    SortSorts(xs, key);
    if key(ys[i]) == key(ys[j]) {
      var k := key(ys[i]);
      SortStable(xs, key, k);
      HavingAscends(xs, key, k, bound);
      var a, b := HavingBoth(ys, key, k, i, j);
    }
  }
}
