/** The interval index of scripts/convert_otel_2_perfetto.py: spans of one
    display line kept in tuple order, and the overlap check that looks at two
    neighbours only. */
module SpanIntervals {

  /** A span after conversion: `end` is already moved back by 1000 ns, which can leave
      it at or before `start`. */
  datatype Span = Span(start: int, end: int) {
    predicate Positive() { start < end }
    predicate Covers(t: int) { start <= t < end }
  }

  /** Python's order on the stored (start, end) tuples. */
  predicate Before(x: Span, y: Span) {
    x.start < y.start || (x.start == y.start && x.end < y.end)
  }

  /** Leftmost place at which a span starting at `start` or later is stored. */
  function BisectStart(iv: seq<Span>, start: int): (i: nat)
    ensures i <= |iv|
    ensures forall k | 0 <= k < i :: iv[k].start < start
    ensures i < |iv| ==> iv[i].start >= start
  {
    if iv == [] || iv[0].start >= start then 0 else 1 + BisectStart(iv[1..], start)
  }

  /** Leftmost place at which `x` can be stored in tuple order. */
  function BisectSpan(iv: seq<Span>, x: Span): (i: nat)
    ensures i <= |iv|
    ensures forall k | 0 <= k < i :: Before(iv[k], x)
    ensures i < |iv| ==> !Before(iv[i], x)
  {
    if iv == [] || !Before(iv[0], x) then 0 else 1 + BisectSpan(iv[1..], x)
  }

  predicate CheckOverlap(iv: seq<Span>, start: int, end: int) {
    var i := BisectStart(iv, start);
    (i > 0 && iv[i - 1].end > start) || (i < |iv| && iv[i].start < end)
  }

  function Insert(iv: seq<Span>, x: Span): seq<Span> {
    var i := BisectSpan(iv, x);
    iv[..i] + [x] + iv[i..]
  }

  // ---- Specification ---------------------------------------------------------

  /** A stored span conflicts with a new one when it begins inside it or reaches
      over its start. */
  predicate Conflict(x: Span, start: int, end: int) {
    start <= x.start < end || x.start < start < x.end
  }

  /** The scan the neighbour test stands for. */
  ghost predicate Conflicts(iv: seq<Span>, start: int, end: int) {
    exists k :: 0 <= k < |iv| && Conflict(iv[k], start, end)
  }

  ghost predicate Ordered(iv: seq<Span>) {
    forall i, j | 0 <= i < j < |iv| :: !Before(iv[j], iv[i])
  }

  ghost predicate HasStart(iv: seq<Span>, t: int) {
    exists m :: 0 <= m < |iv| && iv[m].start == t
  }

  /** At every instant between the two, some stored span starts. */
  ghost predicate Sealed(iv: seq<Span>, from: int, to: int) {
    forall t :: from < t < to ==> HasStart(iv, t)
  }

  /** `x` ends no later than `y` begins; or `y` has no duration, and no query can
      begin between it and the end of `x` without meeting a stored start. */
  ghost predicate Follows(iv: seq<Span>, x: Span, y: Span) {
    x.end <= y.start || (!y.Positive() && Sealed(iv, y.start, x.end))
  }

  /** Stored spans follow one another. */
  ghost predicate Chain(iv: seq<Span>) {
    Ordered(iv) && forall i, j | 0 <= i < j < |iv| :: Follows(iv, iv[i], iv[j])
  }

  ghost predicate Overlap(x: Span, y: Span) {
    exists t :: x.Covers(t) && y.Covers(t)
  }

  /** Between positive spans a conflict is an overlap in time; a span without
      positive length conflicts as the point it starts at. */
  lemma ConflictMeaning(x: Span, y: Span)
    requires y.Positive()
    ensures x.Positive() ==> (Conflict(x, y.start, y.end) <==> Overlap(x, y))
    ensures !x.Positive() ==> (Conflict(x, y.start, y.end) <==> y.Covers(x.start))
  {
    var t := if x.start < y.start then y.start else x.start;
    if x.Positive() && Conflict(x, y.start, y.end) {
      assert x.Covers(t) && y.Covers(t);
    }
  }

  ghost predicate Disjoint(iv: seq<Span>) {
    forall i, j | 0 <= i < j < |iv| :: !Overlap(iv[i], iv[j])
  }

  /** Whether the neighbour test answers every query of positive length as the
      scan does. */
  ghost predicate CheckAgrees(iv: seq<Span>) {
    forall start, end | start < end :: CheckOverlap(iv, start, end) <==> Conflicts(iv, start, end)
  }

  /** Spans that follow one another never share an instant. */
  lemma ChainDisjoint(iv: seq<Span>)
    requires Chain(iv)
    ensures Disjoint(iv)
  {
    forall i, j | 0 <= i < j < |iv| ensures !Overlap(iv[i], iv[j]) {
      assert Follows(iv, iv[i], iv[j]);
    }
  }

  lemma StartsInOrder(iv: seq<Span>, i: nat, j: nat)
    requires Ordered(iv) && i <= j < |iv|
    ensures iv[i].start <= iv[j].start
  {
    if i < j { assert !Before(iv[j], iv[i]); }
  }

  /** A stored start the bisection cannot pass. */
  lemma StartFound(iv: seq<Span>, t: int)
    requires Ordered(iv) && HasStart(iv, t)
    ensures var i := BisectStart(iv, t); i < |iv| && iv[i].start == t
  {
    var i := BisectStart(iv, t);
    var m :| 0 <= m < |iv| && iv[m].start == t;
    assert i <= m;
    StartsInOrder(iv, i, m);
  }

  /** Behind the left neighbour no stored span reaches over a start that is free. */
  lemma NeighbourCovers(iv: seq<Span>, t: int, k: nat)
    requires Chain(iv) && k < |iv| && iv[k].start < t < iv[k].end
    ensures var i := BisectStart(iv, t);
            (i > 0 && iv[i - 1].end > t) || (i < |iv| && iv[i].start == t)
  {
    var i := BisectStart(iv, t);
    if k >= i { StartsInOrder(iv, i, k); }
    if k < i - 1 {
      assert Follows(iv, iv[k], iv[i - 1]);
      assert HasStart(iv, t);
      StartFound(iv, t);
    }
  }

  /** The neighbour test answers every query of positive length as the full scan. */
  lemma CheckIsScan(iv: seq<Span>, start: int, end: int)
    requires Chain(iv) && start < end
    ensures CheckOverlap(iv, start, end) <==> Conflicts(iv, start, end)
  {
    var i := BisectStart(iv, start);
    if CheckOverlap(iv, start, end) {
      var k := if i > 0 && iv[i - 1].end > start then i - 1 else i;
      assert Conflict(iv[k], start, end);
    }
    if k :| 0 <= k < |iv| && Conflict(iv[k], start, end) {
      if iv[k].start < start {
        NeighbourCovers(iv, start, k);
      } else {
        assert i <= k;
        StartsInOrder(iv, i, k);
      }
    }
  }

  lemma InsertOrdered(iv: seq<Span>, x: Span)
    requires Ordered(iv)
    ensures Ordered(Insert(iv, x))
  {
    var p := BisectSpan(iv, x);
    var jv := Insert(iv, x);
    forall i, j | 0 <= i < j < |jv| ensures !Before(jv[j], jv[i]) {
      if j < p {
        assert jv[i] == iv[i] && jv[j] == iv[j];
      } else if i == p {
        assert jv[j] == iv[j - 1];
        if j - 1 > p { assert !Before(iv[j - 1], iv[p]); }
      } else if i > p {
        assert jv[i] == iv[i - 1] && jv[j] == iv[j - 1];
      } else if j > p {
        assert jv[i] == iv[i] && jv[j] == iv[j - 1];
      }
    }
  }

  lemma InsertAt(iv: seq<Span>, x: Span, k: nat)
    requires k <= |iv|
    ensures var p := BisectSpan(iv, x);
            var jv := Insert(iv, x);
            && |jv| == |iv| + 1 && jv[p] == x
            && (k < p ==> jv[k] == iv[k]) && (k > p ==> jv[k] == iv[k - 1])
  {
  }

  lemma InsertStarts(iv: seq<Span>, x: Span, t: int)
    ensures HasStart(Insert(iv, x), t) <==> HasStart(iv, t) || t == x.start
  {
    hide BisectSpan;
    var p := BisectSpan(iv, x);
    var jv := Insert(iv, x);
    if m :| 0 <= m < |iv| && iv[m].start == t {
      assert jv[if m < p then m else m + 1].start == t;
    }
    if t == x.start { assert jv[p].start == t; }
  }

  lemma FollowsStays(iv: seq<Span>, z: Span, x: Span, y: Span)
    requires Follows(iv, x, y)
    ensures Follows(Insert(iv, z), x, y)
  {
    hide Insert, HasStart;
    forall t | HasStart(iv, t) ensures HasStart(Insert(iv, z), t) { InsertStarts(iv, z, t); }
  }

  /** Insertion keeps the chain when the new span fits in with each stored one. */
  lemma InsertFits(iv: seq<Span>, x: Span)
    requires Chain(iv)
    requires forall k | 0 <= k < |iv| ::
               if Before(iv[k], x) then Follows(Insert(iv, x), iv[k], x) else x.end <= iv[k].start
    ensures Chain(Insert(iv, x))
  {
    hide Insert, BisectSpan, Follows;
    InsertOrdered(iv, x);
    var p := BisectSpan(iv, x);
    var jv := Insert(iv, x);
    InsertAt(iv, x, 0);
    forall i, j | 0 <= i < j < |jv| ensures Follows(jv, jv[i], jv[j]) {
      InsertAt(iv, x, i);
      InsertAt(iv, x, j);
      PlaceSplits(iv, x);
      if i == p {
        FollowsPlainly(jv, x, jv[j]);
      } else if j != p {
        FollowsStays(iv, x, jv[i], jv[j]);
      }
    }
  }

  lemma FollowsPlainly(iv: seq<Span>, x: Span, y: Span)
    requires x.end <= y.start
    ensures Follows(iv, x, y)
  {
  }

  /** Exactly the spans before the place of `x` come before `x`. */
  lemma PlaceSplits(iv: seq<Span>, x: Span)
    requires Ordered(iv)
    ensures forall k | 0 <= k < |iv| :: Before(iv[k], x) <==> k < BisectSpan(iv, x)
  {
    var p := BisectSpan(iv, x);
    forall k | p <= k < |iv| ensures !Before(iv[k], x) {
      if k > p { assert !Before(iv[k], iv[p]); }
    }
  }

  /** Storing a span the test finds room for keeps the chain, also one whose
      shortened end lies at or before its start. */
  lemma InsertKeepsChain(iv: seq<Span>, x: Span)
    requires Chain(iv) && !CheckOverlap(iv, x.start, x.end)
    ensures Chain(Insert(iv, x))
  {
    hide Insert;
    var i := BisectStart(iv, x.start);
    forall k | 0 <= k < |iv|
      ensures if Before(iv[k], x) then Follows(Insert(iv, x), iv[k], x) else x.end <= iv[k].start
    {
      if iv[k].start < x.start {
        if iv[k].end > x.start {
          NeighbourCovers(iv, x.start, k);
          RoomOnSealed(iv, x, k);
        }
      } else {
        assert i <= k;
        StartsInOrder(iv, i, k);
      }
    }
    InsertFits(iv, x);
  }

  /** A span without duration that starts where another one already does. */
  lemma RoomOnSealed(iv: seq<Span>, x: Span, k: nat)
    requires Chain(iv) && k < |iv| && iv[k].start < x.start < iv[k].end && !x.Positive()
    requires var i := BisectStart(iv, x.start); i < |iv| && iv[i].start == x.start
    ensures Follows(Insert(iv, x), iv[k], x)
  {
    hide Insert;
    var i := BisectStart(iv, x.start);
    if k > i { StartsInOrder(iv, i, k); }
    assert Follows(iv, iv[k], iv[i]);
    forall t | x.start < t < iv[k].end ensures HasStart(Insert(iv, x), t) {
      assert HasStart(iv, t);
      InsertStarts(iv, x, t);
    }
  }

  /** A point at `t` exposes a stored span that reaches over it when a later instant
      of that span is not a stored start. */
  ghost predicate Exposes(iv: seq<Span>, t: int) {
    exists k, u :: Exposed(iv, t, k, u)
  }

  ghost predicate Exposed(iv: seq<Span>, t: int, k: int, u: int) {
    0 <= k < |iv| && iv[k].start < t < u < iv[k].end && !HasStart(iv, u)
  }

  lemma PlacedAfter(iv: seq<Span>, x: Span, k: nat)
    requires Ordered(iv) && k < |iv| && iv[k].start < x.start
    ensures k < BisectSpan(iv, x)
  {
    PlaceSplits(iv, x);
  }

  /** A point can be stored unchecked exactly when it exposes nothing. */
  lemma PointKeepsChain(iv: seq<Span>, t: int)
    requires Chain(iv)
    ensures Chain(Insert(iv, Span(t, t))) <==> !Exposes(iv, t)
  {
    hide Insert;
    var x := Span(t, t);
    if k, u :| Exposed(iv, t, k, u) {
      ExposedBreaks(iv, t, k, u);
    } else {
      forall k | 0 <= k < |iv|
        ensures if Before(iv[k], x) then Follows(Insert(iv, x), iv[k], x) else x.end <= iv[k].start
      {
        if iv[k].start < t < iv[k].end {
          forall u | t < u < iv[k].end ensures HasStart(Insert(iv, x), u) {
            assert !Exposed(iv, t, k, u);
            InsertStarts(iv, x, u);
          }
        }
      }
      InsertFits(iv, x);
    }
  }

  lemma ExposedBreaks(iv: seq<Span>, t: int, k: nat, u: int)
    requires Chain(iv) && Exposed(iv, t, k, u)
    ensures !Chain(Insert(iv, Span(t, t)))
  {
    hide Insert;
    var x := Span(t, t);
    var p := BisectSpan(iv, x);
    var jv := Insert(iv, x);
    PlacedAfter(iv, x, k);
    InsertAt(iv, x, k);
    if Chain(jv) {
      assert Follows(jv, jv[k], jv[p]);
      assert HasStart(jv, u);
      InsertStarts(iv, x, u);
    }
  }

  /** An exposed span is hidden from a query of one unit inside it. */
  lemma PointHides(iv: seq<Span>, t: int, k: nat, u: int)
    requires Chain(iv) && Exposed(iv, t, k, u)
    ensures var jv := Insert(iv, Span(t, t));
            && !CheckOverlap(jv, u, u + 1) && Conflicts(jv, u, u + 1)
            && exists m :: 0 <= m < |jv| && jv[m] == iv[k] && Overlap(jv[m], Span(u, u + 1))
  {
    hide Insert, BisectSpan, BisectStart;
    var x := Span(t, t);
    var p := BisectSpan(iv, x);
    var jv := Insert(iv, x);
    PlacedAfter(iv, x, k);
    InsertAt(iv, x, k);
    assert Conflict(jv[k], u, u + 1) && jv[k].Covers(u) && Span(u, u + 1).Covers(u);
    InsertOrdered(iv, x);
    InsertStarts(iv, x, u);
    var i := BisectStart(jv, u);
    assert i < |jv| ==> HasStart(jv, jv[i].start);
    if i <= p { StartsInOrder(jv, i, p); }
    InsertAt(iv, x, i - 1);
  }

  /** Storing a point unchecked leaves the neighbour test exact if and only if the
      point exposes no stored span. */
  lemma PointAgreement(iv: seq<Span>, t: int)
    requires Chain(iv)
    ensures CheckAgrees(Insert(iv, Span(t, t))) <==> !Exposes(iv, t)
  {
    hide CheckOverlap, Conflicts, Insert, Chain;
    var jv := Insert(iv, Span(t, t));
    if k, u :| Exposed(iv, t, k, u) {
      PointHides(iv, t, k, u);
    } else {
      PointKeepsChain(iv, t);
      ChainAgrees(jv);
    }
  }

  lemma ChainAgrees(iv: seq<Span>)
    requires Chain(iv)
    ensures CheckAgrees(iv)
  {
    hide CheckOverlap, Conflicts, Chain;
    forall start, end | start < end ensures CheckOverlap(iv, start, end) <==> Conflicts(iv, start, end) {
      CheckIsScan(iv, start, end);
    }
  }

  // ---- Cover counts ----------------------------------------------------------

  /** How many of the spans cover the instant `t`. */
  function Cover(iv: seq<Span>, t: int): nat {
    if iv == [] then 0 else Cover(iv[..|iv| - 1], t) + (if iv[|iv| - 1].Covers(t) then 1 else 0)
  }

  lemma {:induction false} CoverAppend(xs: seq<Span>, ys: seq<Span>, t: int)
    ensures Cover(xs + ys, t) == Cover(xs, t) + Cover(ys, t)
    decreases |ys|
  {
    if ys == [] {
      assert xs + ys == xs;
    } else {
      var n := |ys| - 1;
      CoverAppend(xs, ys[..n], t);
      assert (xs + ys)[..|xs| + n] == xs + ys[..n];
    }
  }

  lemma CoverInsertAt(iv: seq<Span>, i: nat, x: Span, t: int)
    requires i <= |iv|
    ensures Cover(iv[..i] + [x] + iv[i..], t) == Cover(iv, t) + Cover([x], t)
  {
    CoverAppend(iv[..i] + [x], iv[i..], t);
    CoverAppend(iv[..i], [x], t);
    CoverAppend(iv[..i], iv[i..], t);
    assert iv[..i] + iv[i..] == iv;
  }

  lemma {:induction false} CoverNone(iv: seq<Span>, t: int)
    requires forall i | 0 <= i < |iv| :: !iv[i].Covers(t)
    ensures Cover(iv, t) == 0
  {
    if iv != [] { CoverNone(iv[..|iv| - 1], t); }
  }

  lemma {:induction false} CoverSome(iv: seq<Span>, i: nat, t: int)
    requires i < |iv| && iv[i].Covers(t)
    ensures Cover(iv, t) >= 1
  {
    if i < |iv| - 1 { CoverSome(iv[..|iv| - 1], i, t); }
  }

  /** On one line at most one span covers an instant. */
  lemma {:induction false} DisjointCover(iv: seq<Span>, t: int)
    requires Disjoint(iv)
    ensures Cover(iv, t) <= 1
  {
    if iv != [] {
      var n := |iv| - 1;
      if iv[n].Covers(t) {
        forall i | 0 <= i < n ensures !iv[i].Covers(t) { assert !Overlap(iv[i], iv[n]); }
        CoverNone(iv[..n], t);
      } else {
        DisjointCover(iv[..n], t);
      }
    }
  }
}
