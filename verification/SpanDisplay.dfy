/** What a viewer of the converted trace sees: every span on the line it was told, and
    spans of one line apart from each other. */
module SpanDisplay {
  import opened SpanIntervals
  import opened SpanLayout
  import opened SpanLayoutTheorems

  /** The line the span of step `i` is told. */
  ghost function Told(l: Layout, steps: seq<Step>, i: nat): int
    requires Tidy(l) && i < |steps| && steps[i].Place?
  {
    TidyKnown(Run(l, steps[..i]));
    PlaceSpan(Run(l, steps[..i]), steps[i].pid, steps[i].span).number
  }

  ghost predicate Shown(l: Layout, steps: seq<Step>, i: nat, pid: Pid, n: int)
    requires Tidy(l) && i < |steps|
  {
    steps[i].Place? && steps[i].pid == pid && Told(l, steps, i) == n
  }

  /** The spans told line `n` of a process. */
  ghost function ShownOn(l: Layout, steps: seq<Step>, pid: Pid, n: int): multiset<Span>
    requires Tidy(l)
    decreases |steps|
  {
    if steps == [] then multiset{}
    else
      var k := |steps| - 1;
      ShownOn(l, steps[..k], pid, n) + (if Shown(l, steps, k, pid, n) then multiset{steps[k].span} else multiset{})
  }

  ghost function StoredIn(lines: seq<Line>, n: int): multiset<Span> {
    if 1 <= n <= |lines| then multiset(lines[n - 1].intervals) else multiset{}
  }

  /** The spans stored on line `n` of a process. */
  ghost function StoredOn(l: Layout, pid: Pid, n: int): multiset<Span> {
    StoredIn(LinesOf(l, pid), n)
  }

  lemma InsertAdds(iv: seq<Span>, x: Span)
    ensures multiset(Insert(iv, x)) == multiset(iv) + multiset{x}
  {
    var p := BisectSpan(iv, x);
    assert iv == iv[..p] + iv[p..];
  }

  lemma StoreOne(lines: seq<Line>, k: int, iv: seq<Span>, x: Span, n: int)
    requires 1 <= k <= |lines| + 1 && iv == if k <= |lines| then lines[k - 1].intervals else []
    ensures var wide := if k <= |lines| then lines else lines + [Line(k, [])];
            StoredIn(wide[k - 1 := Line(k, Insert(iv, x))], n) ==
            StoredIn(lines, n) + (if k == n then multiset{x} else multiset{})
  {
    InsertAdds(iv, x);
    hide Insert;
  }

  lemma PlaceStores(l: Layout, q: Pid, x: Span, pid: Pid, n: int)
    requires Tidy(l) && Known(l)
    ensures var p := PlaceSpan(l, q, x);
            StoredOn(p.layout, pid, n) == StoredOn(l, pid, n) + (if q == pid && p.number == n then multiset{x} else multiset{})
  {
    PlaceEffect(l, q, x);
    TargetIsLine(l, q, x);
    hide Tidy, Known, PlaceSpan, Insert, Target, StoredIn;
    if q != pid { assert LinesOf(PlaceSpan(l, q, x).layout, pid) == LinesOf(l, pid); }
    else { StoreOne(LinesOf(l, pid), PlaceSpan(l, q, x).number, Target(l, q, x), x, n); }
  }

  /** After any steps, a line stores exactly the spans that were told its number, as
      often as they were. */
  lemma {:induction false} StoredIsShown(l: Layout, steps: seq<Step>, pid: Pid, n: int)
    requires Tidy(l)
    ensures StoredOn(Run(l, steps), pid, n) == StoredOn(l, pid, n) + ShownOn(l, steps, pid, n)
    decreases |steps|
  {
    hide Tidy, PlaceSpan, StoredOn, Run;
    if steps == [] {
      RunNothing(l);
    } else {
      var k := |steps| - 1;
      var m := Run(l, steps[..k]);
      StoredIsShown(l, steps[..k], pid, n);
      assert steps == steps[..k] + [steps[k]];
      RunAppend(l, steps[..k], steps[k]);
      if steps[k].Place? { PlaceStores(m, steps[k].pid, steps[k].span, pid, n); }
      else { SameStored(m, pid, n); }
    }
  }

  lemma RunNothing(l: Layout)
    requires Tidy(l)
    ensures Run(l, []) == l
  {
  }

  lemma SameStored(l: Layout, pid: Pid, n: int)
    ensures StoredOn(l.(status := map[]), pid, n) == StoredOn(l, pid, n)
  {
  }

  lemma {:induction false} BothShown(l: Layout, steps: seq<Step>, i: nat, j: nat, pid: Pid, n: int)
    requires Tidy(l) && i < j < |steps| && Shown(l, steps, i, pid, n) && Shown(l, steps, j, pid, n)
    ensures multiset{steps[i].span} + multiset{steps[j].span} <= ShownOn(l, steps, pid, n)
    decreases |steps|
  {
    hide Tidy, PlaceSpan, Run;
    var k := |steps| - 1;
    EarlierShown(l, steps, i, pid, n);
    if j == k {
      OneShown(l, steps[..k], i, pid, n);
    } else {
      EarlierShown(l, steps, j, pid, n);
      BothShown(l, steps[..k], i, j, pid, n);
    }
  }

  lemma EarlierShown(l: Layout, steps: seq<Step>, i: nat, pid: Pid, n: int)
    requires Tidy(l) && i < |steps| - 1
    ensures Shown(l, steps[..|steps| - 1], i, pid, n) <==> Shown(l, steps, i, pid, n)
  {
    hide Tidy, PlaceSpan, Run;
    assert steps[..|steps| - 1][..i] == steps[..i];
  }

  lemma {:induction false} OneShown(l: Layout, steps: seq<Step>, i: nat, pid: Pid, n: int)
    requires Tidy(l) && i < |steps| && Shown(l, steps, i, pid, n)
    ensures multiset{steps[i].span} <= ShownOn(l, steps, pid, n)
    decreases |steps|
  {
    hide Tidy, PlaceSpan, Run;
    var k := |steps| - 1;
    if i < k {
      EarlierShown(l, steps, i, pid, n);
      OneShown(l, steps[..k], i, pid, n);
    }
  }

  /** Two entries of a disjoint line never share an instant, equal ones included. */
  lemma {:induction false} TwoOfLine(iv: seq<Span>, x: Span, y: Span)
    requires Disjoint(iv) && multiset{x} + multiset{y} <= multiset(iv)
    ensures !Overlap(x, y)
  {
    hide Overlap;
    var n := |iv| - 1;
    assert iv == iv[..n] + [iv[n]];
    if iv[n] == x || iv[n] == y {
      var z := if iv[n] == x then y else x;
      assert (multiset{x} + multiset{y})[z] <= multiset(iv)[z];
      assert multiset(iv) == multiset(iv[..n]) + multiset{iv[n]};
      assert z in multiset(iv[..n]);
      var i :| 0 <= i < n && iv[..n][i] == z;
      assert !Overlap(iv[i], iv[n]);
      OverlapTurns(x, y);
    } else {
      assert multiset(iv) == multiset(iv[..n]) + multiset{iv[n]};
      TwoOfLine(iv[..n], x, y);
    }
  }

  lemma StoredApart(l: Layout, pid: Pid, n: int, x: Span, y: Span)
    requires DisjointLines(l) && multiset{x} + multiset{y} <= StoredOn(l, pid, n)
    ensures !Overlap(x, y)
  {
    hide Disjoint, Overlap;
    assert x in StoredOn(l, pid, n);
    TwoOfLine(LinesOf(l, pid)[n - 1].intervals, x, y);
  }

  lemma RunDisjoint(steps: seq<Step>)
    requires Tidy(EMPTY) && HidesNothing(EMPTY, steps)
    ensures DisjointLines(Run(EMPTY, steps))
  {
    EmptyTidy();
    hide Tidy, Run, HidesNothing, Chained, DisjointLines;
    RunExact(EMPTY, steps);
    ChainedTrusted(Run(EMPTY, steps));
  }

  lemma NothingStored(pid: Pid, n: int)
    ensures StoredOn(EMPTY, pid, n) == multiset{}
  {
  }

  /** In a run that hides no point, two spans shown on one line of one process never
      overlap. */
  lemma ShownApart(steps: seq<Step>, i: nat, j: nat, pid: Pid, n: int)
    requires Tidy(EMPTY) && HidesNothing(EMPTY, steps) && i < j < |steps|
    requires Shown(EMPTY, steps, i, pid, n) && Shown(EMPTY, steps, j, pid, n)
    ensures !Overlap(steps[i].span, steps[j].span)
  {
    assert steps[i].Place? && steps[j].Place?;
    hide Tidy, Run, Shown, ShownOn, HidesNothing, Overlap, DisjointLines, StoredOn;
    StoredIsShown(EMPTY, steps, pid, n);
    NothingStored(pid, n);
    BothShown(EMPTY, steps, i, j, pid, n);
    RunDisjoint(steps);
    StoredApart(Run(EMPTY, steps), pid, n, steps[i].span, steps[j].span);
  }
}
