/** What the layout guarantees: disjoint lines exactly while no point is hidden,
    and as few lines as any layout could use. */
module SpanLayoutTheorems {
  import opened SpanIntervals
  import opened SpanLayout
  import opened Sorting

  // ---- Disjoint lines --------------------------------------------------------

  lemma EmptyChain()
    ensures Chain([])
  {
  }

  lemma TargetChain(l: Layout, pid: Pid, x: Span)
    requires Tidy(l) && Known(l) && Chained(l)
    ensures Chain(Target(l, pid, x))
  {
    hide Target, Tidy;
    TargetHasRoom(l, pid, x);
    EmptyChain();
  }

  /** Storing on a line concerns that line only. */
  lemma PlaceChained(l: Layout, pid: Pid, x: Span)
    requires Tidy(l) && Known(l) && Chained(l)
    ensures Chained(PlaceSpan(l, pid, x).layout) <==> Chain(Insert(Target(l, pid, x), x))
  {
    hide Target, PlaceSpan, Chain, Insert, Tidy;
    PlaceEffect(l, pid, x);
    var l' := PlaceSpan(l, pid, x).layout;
    var n := PlaceSpan(l, pid, x).number;
    assert l'.graph[pid][n - 1].intervals == Insert(Target(l, pid, x), x);
    if Chain(Insert(Target(l, pid, x), x)) {
      forall q | q in l'.graph ensures AllChain(l'.graph[q]) {
        if q != pid { assert LinesOf(l', q) == LinesOf(l, q); }
        else if pid in l.graph { assert AllChain(l.graph[pid]); }
      }
    }
  }

  lemma StepChained(l: Layout, pid: Pid, x: Span)
    requires Tidy(l) && Known(l) && Chained(l)
    ensures Chained(PlaceSpan(l, pid, x).layout) <==> !HiddenPoint(l, pid, x)
  {
    hide Target, PlaceSpan, Chain, Insert, Tidy, CheckOverlap, Exposes;
    PlaceChained(l, pid, x);
    TargetChain(l, pid, x);
    TargetHasRoom(l, pid, x);
    if x.start == x.end && pid in l.status {
      PointKeepsChain(Target(l, pid, x), x.start);
    } else {
      InsertKeepsChain(Target(l, pid, x), x);
    }
  }

  // ---- Exactly when the lines can be trusted ---------------------------------

  /** The spans of one (pid, line) never overlap. */
  ghost predicate DisjointLines(l: Layout) {
    forall pid, i | pid in l.graph && 0 <= i < |l.graph[pid]| :: Disjoint(l.graph[pid][i].intervals)
  }

  /** Lines are disjoint, and on each of them the neighbour test answers as the full
      scan. */
  ghost predicate Trusted(l: Layout) {
    && DisjointLines(l)
    && forall pid, i | pid in l.graph && 0 <= i < |l.graph[pid]| :: CheckAgrees(l.graph[pid][i].intervals)
  }

  /** Whatever single span is placed next, lines stay disjoint. */
  ghost predicate StaysDisjoint(l: Layout)
    requires Known(l)
  {
    forall pid, x :: DisjointLines(PlaceSpan(l, pid, x).layout)
  }

  lemma ChainedTrusted(l: Layout)
    requires Chained(l)
    ensures Trusted(l)
  {
    hide Chain, Disjoint, CheckAgrees;
    forall pid, i | pid in l.graph && 0 <= i < |l.graph[pid]|
      ensures Disjoint(l.graph[pid][i].intervals) && CheckAgrees(l.graph[pid][i].intervals)
    {
      assert AllChain(l.graph[pid]);
      ChainDisjoint(l.graph[pid][i].intervals);
      ChainAgrees(l.graph[pid][i].intervals);
    }
  }

  /** A span without duration shares no instant with any other. */
  lemma EmptySpanDisjoint(iv: seq<Span>, x: Span)
    requires Disjoint(iv) && !x.Positive()
    ensures Disjoint(Insert(iv, x))
  {
    hide Insert, BisectSpan;
    var jv := Insert(iv, x);
    var p := BisectSpan(iv, x);
    InsertAt(iv, x, 0);
    forall i, j | 0 <= i < j < |jv| ensures !Overlap(jv[i], jv[j]) {
      InsertAt(iv, x, i);
      InsertAt(iv, x, j);
      if i != p && j != p {
        assert !Overlap(iv[if i < p then i else i - 1], iv[if j < p then j else j - 1]);
      }
    }
  }

  /** Any one span after a state in order leaves lines disjoint. */
  lemma PlaceDisjoint(l: Layout, pid: Pid, x: Span)
    requires Tidy(l) && Known(l) && Chained(l)
    ensures DisjointLines(PlaceSpan(l, pid, x).layout)
  {
    hide Target, PlaceSpan, Chain, Insert, Tidy, Disjoint, HiddenPoint;
    var l' := PlaceSpan(l, pid, x).layout;
    StepChained(l, pid, x);
    if !HiddenPoint(l, pid, x) {
      ChainedTrusted(l');
    } else {
      ChainedTrusted(l);
      HiddenIsEmpty(l, pid, x);
      TargetChain(l, pid, x);
      ChainDisjoint(Target(l, pid, x));
      EmptySpanDisjoint(Target(l, pid, x), x);
      PlaceEffect(l, pid, x);
      forall q, i | q in l'.graph && 0 <= i < |l'.graph[q]| ensures Disjoint(l'.graph[q][i].intervals) {
        if q != pid { assert LinesOf(l', q) == LinesOf(l, q); }
      }
    }
  }

  lemma HiddenIsEmpty(l: Layout, pid: Pid, x: Span)
    requires Known(l) && HiddenPoint(l, pid, x)
    ensures !x.Positive() && pid in l.status && pid in l.graph
  {
  }

  /** A later span that the test finds room for on the request's line goes there. */
  lemma SticksAgain(l: Layout, pid: Pid, y: Span)
    requires Tidy(l) && Known(l) && pid in l.status
    requires !CheckOverlap(l.graph[pid][Find(l.graph[pid], l.status[pid])].intervals, y.start, y.end)
    ensures Target(l, pid, y) == l.graph[pid][Find(l.graph[pid], l.status[pid])].intervals
    ensures PlaceSpan(l, pid, y).number == l.status[pid]
  {
    hide CheckOverlap, Insert, SlotsOf, LineNumbers;
    FindNumbered(l.graph[pid], l.status[pid]);
  }

  /** The line the request used last. */
  ghost function LastLine(l: Layout, pid: Pid): seq<Span>
    requires Known(l) && pid in l.status
  {
    l.graph[pid][Find(l.graph[pid], l.status[pid])].intervals
  }

  /** After a hidden point the request's line is the old one with the point on it. */
  lemma AfterHidden(l: Layout, pid: Pid, x: Span)
    requires Tidy(l) && Known(l) && HiddenPoint(l, pid, x)
    ensures var l' := PlaceSpan(l, pid, x).layout;
            && Tidy(l') && Known(l') && pid in l.status && pid in l'.status
            && LastLine(l', pid) == Insert(LastLine(l, pid), x)
  {
    PlaceTidy(l, pid, x);
    hide CheckOverlap, Insert, Exposes, SlotsOf, LineNumbers;
    var l' := PlaceSpan(l, pid, x).layout;
    TidyKnown(l');
    FindNumbered(l.graph[pid], l.status[pid]);
    FindNumbered(l'.graph[pid], l'.status[pid]);
  }

  /** On a line the test is wrong about, the next span can be laid over another. */
  lemma PlacedOver(l: Layout, pid: Pid, y: Span, z: Span)
    requires Tidy(l) && Known(l) && pid in l.status && !CheckOverlap(LastLine(l, pid), y.start, y.end)
    requires exists m :: 0 <= m < |LastLine(l, pid)| && LastLine(l, pid)[m] == z && Overlap(LastLine(l, pid)[m], y)
    ensures !DisjointLines(PlaceSpan(l, pid, y).layout)
  {
    SticksAgain(l, pid, y);
    hide PlaceSpan, Tidy, Insert, Target, CheckOverlap, Disjoint, Overlap;
    OverlapStored(LastLine(l, pid), y, z);
    PlaceEffect(l, pid, y);
    var p := PlaceSpan(l, pid, y);
    assert !Disjoint(p.layout.graph[pid][p.number - 1].intervals);
  }

  lemma UntrustedLine(l: Layout, pid: Pid)
    requires Known(l) && pid in l.status && !CheckAgrees(LastLine(l, pid))
    ensures !Trusted(l)
  {
    hide CheckAgrees;
  }

  lemma ExposedLine(l: Layout, pid: Pid, x: Span) returns (k: nat, u: int)
    requires Known(l) && Chained(l) && HiddenPoint(l, pid, x)
    ensures pid in l.status && x == Span(x.start, x.start)
    ensures Chain(LastLine(l, pid)) && Exposed(LastLine(l, pid), x.start, k, u)
  {
    hide Chain;
    assert AllChain(l.graph[pid]);
    k, u :| Exposed(LastLine(l, pid), x.start, k, u);
  }

  /** A hidden point makes the test miss a span, and one further span of the same
      request is then laid over it. */
  lemma HiddenPointBreaks(l: Layout, pid: Pid, x: Span) returns (u: int)
    requires Tidy(l) && Known(l) && Chained(l) && HiddenPoint(l, pid, x)
    ensures var l' := PlaceSpan(l, pid, x).layout;
            && Known(l') && !Trusted(l')
            && !DisjointLines(PlaceSpan(l', pid, Span(u, u + 1)).layout)
  {
    AfterHidden(l, pid, x);
    var l' := PlaceSpan(l, pid, x).layout;
    hide PlaceSpan, Tidy, HiddenPoint, Chained, Chain, Known, LastLine, DisjointLines, Trusted;
    var k;
    k, u := ExposedLine(l, pid, x);
    PointHides(LastLine(l, pid), x.start, k, u);
    hide Insert, Exposed, Conflicts, CheckOverlap, Overlap;
    assert !CheckAgrees(LastLine(l', pid));
    UntrustedLine(l', pid);
    PlacedOver(l', pid, Span(u, u + 1), LastLine(l, pid)[k]);
  }

  lemma OverlapStored(iv: seq<Span>, x: Span, y: Span)
    requires exists m :: 0 <= m < |iv| && iv[m] == y && Overlap(iv[m], x)
    ensures !Disjoint(Insert(iv, x))
  {
    hide Insert, BisectSpan, Overlap;
    var m :| 0 <= m < |iv| && iv[m] == y && Overlap(iv[m], x);
    var p := BisectSpan(iv, x);
    var jv := Insert(iv, x);
    InsertAt(iv, x, m);
    InsertAt(iv, x, m + 1);
    assert Overlap(x, iv[m]) by { OverlapTurns(x, iv[m]); }
    if m < p { assert Overlap(jv[m], jv[p]); } else { assert Overlap(jv[p], jv[m + 1]); }
  }

  lemma OverlapTurns(x: Span, y: Span)
    ensures Overlap(x, y) == Overlap(y, x)
  {
  }

  /** Exactly when one step can be trusted: the neighbour test stays exact and lines
      disjoint, and no next span can be laid over another, if and only if the step
      does not hide a point. */
  lemma StepExact(l: Layout, pid: Pid, x: Span)
    requires Tidy(l) && Known(l) && Chained(l)
    ensures var l' := PlaceSpan(l, pid, x).layout;
            && Known(l')
            && (Trusted(l') <==> !HiddenPoint(l, pid, x))
            && (StaysDisjoint(l') <==> !HiddenPoint(l, pid, x))
  {
    PlaceTidy(l, pid, x);
    hide PlaceSpan, Tidy, Chained, HiddenPoint, Trusted, DisjointLines;
    var l' := PlaceSpan(l, pid, x).layout;
    TidyKnown(l');
    if HiddenPoint(l, pid, x) {
      var u := HiddenPointBreaks(l, pid, x);
    } else {
      StepChained(l, pid, x);
      ChainedTrusted(l');
      forall q, y ensures DisjointLines(PlaceSpan(l', q, y).layout) { PlaceDisjoint(l', q, y); }
    }
  }

  ghost predicate HidesNothing(l: Layout, steps: seq<Step>)
    requires Tidy(l)
    decreases |steps|
  {
    steps == [] ||
    (ApplyTidy(l, steps[0]);
     (steps[0].Place? ==> !HiddenPoint(l, steps[0].pid, steps[0].span)) && HidesNothing(Apply(l, steps[0]), steps[1..]))
  }

  ghost predicate TrustedThroughout(l: Layout, steps: seq<Step>)
    requires Tidy(l)
    decreases |steps|
  {
    Trusted(l) && (steps == [] || (ApplyTidy(l, steps[0]); TrustedThroughout(Apply(l, steps[0]), steps[1..])))
  }

  /** No state of the run is one span away from an overlap. */
  ghost predicate DisjointThroughout(l: Layout, steps: seq<Step>)
    requires Tidy(l)
    decreases |steps|
  {
    TidyKnown(l);
    StaysDisjoint(l) && (steps == [] || (ApplyTidy(l, steps[0]); DisjointThroughout(Apply(l, steps[0]), steps[1..])))
  }

  /** Over whole runs: the test stays exact on disjoint lines, and no further span can
      overlap another, if and only if no step hides a point. */
  lemma {:induction false} RunExact(l: Layout, steps: seq<Step>)
    requires Tidy(l) && Chained(l)
    ensures TrustedThroughout(l, steps) <==> HidesNothing(l, steps)
    ensures DisjointThroughout(l, steps) <==> HidesNothing(l, steps)
    ensures HidesNothing(l, steps) ==> Chained(Run(l, steps))
    decreases |steps|
  {
    TidyKnown(l);
    hide Chained, HiddenPoint, Tidy, PlaceSpan, Trusted, StaysDisjoint;
    ChainedSafe(l);
    if steps != [] {
      ApplyTidy(l, steps[0]);
      var l' := Apply(l, steps[0]);
      if steps[0].Place? {
        StepExact(l, steps[0].pid, steps[0].span);
        StepChained(l, steps[0].pid, steps[0].span);
      } else {
        SameLines(l);
      }
      if Chained(l') { RunExact(l', steps[1..]); }
    }
  }

  lemma ChainedSafe(l: Layout)
    requires Tidy(l) && Known(l) && Chained(l)
    ensures Trusted(l) && StaysDisjoint(l)
  {
    hide PlaceSpan, Tidy, Chained, Trusted, DisjointLines;
    ChainedTrusted(l);
    forall q, y ensures DisjointLines(PlaceSpan(l, q, y).layout) { PlaceDisjoint(l, q, y); }
  }

  lemma SameLines(l: Layout)
    requires Chained(l)
    ensures Chained(l.(status := map[]))
  {
  }

  /** In a run that hides no point, spans of one (pid, line) never overlap, and the
      neighbour test answers on every line as the full scan. */
  lemma LinesAreDisjoint(steps: seq<Step>, pid: Pid, i: nat)
    requires Tidy(EMPTY) && HidesNothing(EMPTY, steps)
    requires i < |LinesOf(Run(EMPTY, steps), pid)|
    ensures var iv := LinesOf(Run(EMPTY, steps), pid)[i].intervals;
            && (forall j, k | 0 <= j < k < |iv| :: !Overlap(iv[j], iv[k]))
            && forall start, end | start < end :: CheckOverlap(iv, start, end) <==> Conflicts(iv, start, end)
  {
    hide Tidy, CheckOverlap, Conflicts, Overlap, Chain;
    EmptyTidy();
    RunExact(EMPTY, steps);
    var lines := LinesOf(Run(EMPTY, steps), pid);
    assert AllChain(lines);
    ChainDisjoint(lines[i].intervals);
    ChainAgrees(lines[i].intervals);
  }

  /** Runs without spans of zero length hide nothing, whatever else they contain. */
  lemma {:induction false} NoZeroHidesNothing(l: Layout, steps: seq<Step>)
    requires Tidy(l) && forall s | s in steps :: s.Place? ==> s.span.start != s.span.end
    ensures HidesNothing(l, steps)
    decreases |steps|
  {
    hide Tidy;
    if steps != [] {
      assert steps[0] in steps;
      ApplyTidy(l, steps[0]);
      NoZeroHidesNothing(Apply(l, steps[0]), steps[1..]);
    }
  }

  lemma OneLineStep(l: Layout, pid: Pid, iv: seq<Span>, x: Span)
    requires Known(l) && l.graph == map[pid := [Line(1, iv)]] && l.status == map[pid := 1]
    requires x.start == x.end || !CheckOverlap(iv, x.start, x.end)
    ensures var l' := PlaceSpan(l, pid, x).layout;
            l'.graph == map[pid := [Line(1, Insert(iv, x))]] && l'.status == l.status
  {
    hide CheckOverlap, Insert;
    assert Find(l.graph[pid], 1) == 0;
    assert Store(l.graph[pid], 0, x) == [Line(1, Insert(iv, x))];
    assert PlaceSpan(l, pid, x).layout.graph == map[pid := [Line(1, Insert(iv, x))]];
  }

  lemma FirstStep(pid: Pid, x: Span)
    requires Known(EMPTY)
    ensures var l := PlaceSpan(EMPTY, pid, x).layout;
            l.graph == map[pid := [Line(1, [x])]] && l.status == map[pid := 1]
  {
    hide CheckOverlap;
    assert [][..0] + [x] + [][0..] == [x];
    var lines := [Line(1, [])];
    assert lines[0].number == 1;
    assert Store(lines, 0, x) == [Line(1, [x])];
    assert PlaceSpan(EMPTY, pid, x).layout.graph == map[pid := [Line(1, [x])]];
  }

  /** Hiding a point breaks the guarantee: three spans of one request end up on
      line 1 although the first and the last overlap. */
  lemma HiddenPointOverlaps()
    ensures Tidy(EMPTY)
    ensures var pid := Engine(1);
            var lines := LinesOf(Run(EMPTY, [Place(pid, Span(5, 10)), Place(pid, Span(7, 7)), Place(pid, Span(8, 9))]), pid);
            lines == [Line(1, [Span(5, 10), Span(7, 7), Span(8, 9)])]
    ensures Overlap(Span(5, 10), Span(8, 9))
  {
    EmptyTidy();
    hide PlaceSpan, Tidy, CheckOverlap, Insert;
    var pid := Engine(1);
    var steps := [Place(pid, Span(5, 10)), Place(pid, Span(7, 7)), Place(pid, Span(8, 9))];
    PointCheck();
    ApplyTidy(EMPTY, steps[0]);
    FirstStep(pid, Span(5, 10));
    var l1 := Apply(EMPTY, steps[0]);
    ApplyTidy(l1, steps[1]);
    OneLineStep(l1, pid, [Span(5, 10)], Span(7, 7));
    var l2 := Apply(l1, steps[1]);
    ApplyTidy(l2, steps[2]);
    OneLineStep(l2, pid, [Span(5, 10), Span(7, 7)], Span(8, 9));
    assert steps[1..] == [steps[1], steps[2]] && steps[1..][1..] == [steps[2]] && steps[1..][1..][1..] == [];
    assert Run(l2, [steps[2]]) == Apply(l2, steps[2]);
    assert Run(l1, steps[1..]) == Apply(l2, steps[2]);
    assert Span(5, 10).Covers(8) && Span(8, 9).Covers(8);
  }

  lemma PointCheck()
    ensures Insert([Span(5, 10)], Span(7, 7)) == [Span(5, 10), Span(7, 7)]
    ensures !CheckOverlap([Span(5, 10), Span(7, 7)], 8, 9)
    ensures Insert([Span(5, 10), Span(7, 7)], Span(8, 9)) == [Span(5, 10), Span(7, 7), Span(8, 9)]
  {
    assert BisectSpan([Span(5, 10)], Span(7, 7)) == 1;
    var iv := [Span(5, 10), Span(7, 7)];
    assert iv[1..] == [Span(7, 7)] && iv[1..][1..] == [];
    assert BisectStart(iv, 8) == 2 && BisectSpan(iv, Span(8, 9)) == 2;
  }

  // ---- As few lines as possible ----------------------------------------------

  /** The steps that place the spans of one request, first to last. */
  function Steps(places: seq<(Pid, Span)>): seq<Step> {
    seq(|places|, i requires 0 <= i < |places| => Place(places[i].0, places[i].1))
  }

  lemma {:induction false} RunAppend(l: Layout, steps: seq<Step>, last: Step)
    requires Tidy(l)
    ensures Known(Run(l, steps)) && Run(l, steps + [last]) == Apply(Run(l, steps), last)
    decreases |steps|
  {
    hide Tidy, Known, PlaceSpan;
    if steps == [] {
      TidyKnown(l);
      assert ([] + [last])[1..] == [];
    } else {
      ApplyTidy(l, steps[0]);
      RunAppend(Apply(l, steps[0]), steps[1..], last);
      assert (steps + [last])[1..] == steps[1..] + [last];
    }
  }

  /** What a request has on one process. */
  function SpansOn(places: seq<(Pid, Span)>, pid: Pid): seq<Span> {
    if places == [] then []
    else
      var n := |places| - 1;
      SpansOn(places[..n], pid) + (if places[n].0 == pid then [places[n].1] else [])
  }

  function TotalCover(lines: seq<Line>, t: int): nat {
    if lines == [] then 0
    else TotalCover(lines[..|lines| - 1], t) + Cover(lines[|lines| - 1].intervals, t)
  }

  lemma {:induction false} TotalCoverUpdate(lines: seq<Line>, i: nat, line: Line, t: int)
    requires i < |lines|
    ensures TotalCover(lines[i := line], t) ==
            TotalCover(lines, t) - Cover(lines[i].intervals, t) + Cover(line.intervals, t)
  {
    var n := |lines| - 1;
    if i == n {
      assert lines[i := line][..n] == lines[..n];
    } else {
      assert lines[i := line][..n] == lines[..n][i := line];
      TotalCoverUpdate(lines[..n], i, line, t);
    }
  }

  lemma {:induction false} TotalCoverAtMost(lines: seq<Line>, t: int)
    requires AllChain(lines)
    ensures TotalCover(lines, t) <= |lines|
  {
    if lines != [] {
      ChainDisjoint(lines[|lines| - 1].intervals);
      DisjointCover(lines[|lines| - 1].intervals, t);
      TotalCoverAtMost(lines[..|lines| - 1], t);
    }
  }

  lemma {:induction false} TotalCoverAtLeast(lines: seq<Line>, t: int)
    requires forall i | 0 <= i < |lines| :: Cover(lines[i].intervals, t) >= 1
    ensures TotalCover(lines, t) >= |lines|
  {
    if lines != [] { TotalCoverAtLeast(lines[..|lines| - 1], t); }
  }

  /** Every stored span has a duration and starts no later than `bound`. */
  ghost predicate Within(lines: seq<Line>, bound: int) {
    forall i, k | 0 <= i < |lines| && 0 <= k < |lines[i].intervals| ::
      lines[i].intervals[k].Positive() && lines[i].intervals[k].start <= bound
  }

  function StartOf(x: Span): int { x.start }

  ghost predicate Sorted(spans: seq<Span>) {
    forall i, j | 0 <= i < j < |spans| :: spans[i].start <= spans[j].start
  }

  ghost predicate AllPositive(spans: seq<Span>) {
    forall i | 0 <= i < |spans| :: spans[i].Positive()
  }

  ghost predicate Witnessed(spans: seq<Span>, n: nat) {
    n == 0 || exists t :: Cover(spans, t) >= n
  }

  lemma PlaceCover(l: Layout, pid: Pid, x: Span, t: int)
    requires Tidy(l) && Known(l)
    ensures TotalCover(LinesOf(PlaceSpan(l, pid, x).layout, pid), t) == TotalCover(LinesOf(l, pid), t) + Cover([x], t)
  {
    hide Tidy, PlaceSpan, Cover;
    PlaceEffect(l, pid, x);
    var p := PlaceSpan(l, pid, x);
    var lines := LinesOf(l, pid);
    var wide := if p.number <= |lines| then lines else lines + [Line(p.number, [])];
    if p.number > |lines| { assert wide[..|wide| - 1] == lines; EmptyCover(t); }
    TotalCoverUpdate(wide, p.number - 1, Line(p.number, Insert(Target(l, pid, x), x)), t);
    TargetIsLine(l, pid, x);
    CoverInsertAt(Target(l, pid, x), BisectSpan(Target(l, pid, x), x), x, t);
  }

  lemma EmptyCover(t: int)
    ensures Cover([], t) == 0
  {
  }

  lemma TargetIsLine(l: Layout, pid: Pid, x: Span)
    requires Tidy(l) && Known(l)
    ensures var n := PlaceSpan(l, pid, x).number;
            Target(l, pid, x) == if 1 <= n <= |LinesOf(l, pid)| then LinesOf(l, pid)[n - 1].intervals else []
  {
  }

  /** A new line is opened only when every line has a conflict. */
  lemma NewLineMeansFull(l: Layout, pid: Pid, x: Span, k: nat)
    requires Tidy(l) && Known(l) && k < |LinesOf(l, pid)| < PlaceSpan(l, pid, x).number
    ensures CheckOverlap(LinesOf(l, pid)[k].intervals, x.start, x.end)
  {
    hide CheckOverlap, Insert, SlotsOf;
  }

  /** A conflict with a later starting span covers its first instant. */
  lemma ConflictCovers(iv: seq<Span>, x: Span)
    requires Chain(iv) && CheckOverlap(iv, x.start, x.end) && x.Positive()
    requires forall k | 0 <= k < |iv| :: iv[k].Positive() && iv[k].start <= x.start
    ensures Cover(iv, x.start) >= 1
  {
    CheckIsScan(iv, x.start, x.end);
    var k :| 0 <= k < |iv| && Conflict(iv[k], x.start, x.end);
    CoverSome(iv, k, x.start);
  }

  lemma PlaceLines(l: Layout, pid: Pid, x: Span)
    requires Tidy(l) && Known(l) && AllChain(LinesOf(l, pid)) && Within(LinesOf(l, pid), x.start) && x.Positive()
    ensures var lines' := LinesOf(PlaceSpan(l, pid, x).layout, pid);
            AllChain(lines') && Within(lines', x.start)
  {
    hide Tidy, PlaceSpan, Insert, Chain, CheckOverlap;
    PlaceEffect(l, pid, x);
    TargetHasRoom(l, pid, x);
    EmptyChain();
    var iv := Target(l, pid, x);
    InsertKeepsChain(iv, x);
    forall k | 0 <= k < |Insert(iv, x)| ensures Insert(iv, x)[k] == x || Insert(iv, x)[k] in iv { Inserted(iv, x, k); }
  }

  lemma Inserted(iv: seq<Span>, x: Span, k: nat)
    requires k < |Insert(iv, x)|
    ensures Insert(iv, x)[k] == x || Insert(iv, x)[k] in iv
  {
    var p := BisectSpan(iv, x);
    if k < p { assert Insert(iv, x)[k] == iv[k]; }
    else if k > p { assert Insert(iv, x)[k] == iv[k - 1]; }
  }

  lemma OpenedWitness(l: Layout, pid: Pid, x: Span)
    requires Tidy(l) && Known(l) && AllChain(LinesOf(l, pid)) && Within(LinesOf(l, pid), x.start) && x.Positive()
    requires PlaceSpan(l, pid, x).number > |LinesOf(l, pid)|
    ensures TotalCover(LinesOf(l, pid), x.start) >= |LinesOf(l, pid)|
  {
    hide Tidy, PlaceSpan, CheckOverlap;
    var lines := LinesOf(l, pid);
    forall i | 0 <= i < |lines| ensures Cover(lines[i].intervals, x.start) >= 1 {
      NewLineMeansFull(l, pid, x, i);
      ConflictCovers(lines[i].intervals, x);
    }
    TotalCoverAtLeast(lines, x.start);
  }

  ghost predicate Colored(l: Layout, pid: Pid, spans: seq<Span>) {
    && AllChain(LinesOf(l, pid))
    && (forall t :: TotalCover(LinesOf(l, pid), t) == Cover(spans, t))
    && Witnessed(spans, |LinesOf(l, pid)|)
    && (spans != [] ==> Within(LinesOf(l, pid), spans[|spans| - 1].start))
    && (spans == [] ==> LinesOf(l, pid) == [])
  }

  lemma ColorStep(l: Layout, pid: Pid, spans: seq<Span>)
    requires spans != [] && Sorted(spans) && AllPositive(spans)
    requires Tidy(l) && Known(l) && Colored(l, pid, spans[..|spans| - 1])
    ensures Colored(PlaceSpan(l, pid, spans[|spans| - 1]).layout, pid, spans)
  {
    hide Tidy, PlaceSpan, TotalCover, AllChain;
    var n := |spans| - 1;
    var x := spans[n];
    var lines := LinesOf(l, pid);
    assert Within(lines, x.start);
    PlaceLines(l, pid, x);
    var l' := PlaceSpan(l, pid, x).layout;
    forall t ensures TotalCover(LinesOf(l', pid), t) == Cover(spans, t) && Cover(spans, t) >= Cover(spans[..n], t) {
      PlaceCover(l, pid, x, t);
      CoverAppend(spans[..n], [x], t);
      assert spans == spans[..n] + [x];
    }
    PlaceEffect(l, pid, x);
    if PlaceSpan(l, pid, x).number > |lines| {
      OpenedWitness(l, pid, x);
      assert Cover(spans, x.start) >= |lines| + 1;
    } else if |lines| > 0 {
      var t :| Cover(spans[..n], t) >= |lines|;
      assert Cover(spans, t) >= |lines|;
    }
  }

  lemma {:induction false} RequestColors(l: Layout, pid: Pid, places: seq<(Pid, Span)>)
    requires Tidy(l) && pid !in l.graph && Sorted(SpansOn(places, pid)) && AllPositive(SpansOn(places, pid))
    ensures Colored(Run(l, Steps(places)), pid, SpansOn(places, pid))
    decreases |places|
  {
    hide Tidy, PlaceSpan, Run, Colored;
    if places == [] {
      assert Steps(places) == [];
      NothingColored(l, pid);
    } else {
      var n := |places| - 1;
      var before := Steps(places[..n]);
      var (q, x) := places[n];
      var spans := SpansOn(places, pid);
      assert q == pid ==> spans[..|spans| - 1] == SpansOn(places[..n], pid);
      assert q != pid ==> spans == SpansOn(places[..n], pid);
      RequestColors(l, pid, places[..n]);
      assert Steps(places) == before + [Place(q, x)];
      RunAppend(l, before, Place(q, x));
      if q == pid { ColorStep(Run(l, before), pid, spans); }
      else { OtherColors(Run(l, before), pid, q, x, spans); }
    }
  }

  lemma NothingColored(l: Layout, pid: Pid)
    requires Tidy(l) && pid !in l.graph
    ensures Colored(Run(l, []), pid, [])
  {
  }

  /** A span of another process changes nothing on this one. */
  lemma OtherColors(l: Layout, pid: Pid, q: Pid, x: Span, spans: seq<Span>)
    requires Tidy(l) && Known(l) && Colored(l, pid, spans) && q != pid
    ensures Colored(PlaceSpan(l, q, x).layout, pid, spans)
  {
    hide Tidy, PlaceSpan, TotalCover, AllChain, Within;
    PlaceEffect(l, q, x);
  }

  /** As many lines as the largest number of spans that cover one instant. */
  ghost predicate Optimal(n: nat, spans: seq<Span>) {
    && (forall t :: Cover(spans, t) <= n)
    && (n == 0 ==> spans == [])
    && (n > 0 ==> exists t :: Cover(spans, t) == n)
  }

  /** A request that is the first on a process gets there, for its spans in order of
      start time, exactly as many lines as any layout needs. */
  lemma OptimalLayout(l: Layout, pid: Pid, places: seq<(Pid, Span)>)
    requires Tidy(l) && pid !in l.graph && Sorted(SpansOn(places, pid)) && AllPositive(SpansOn(places, pid))
    ensures Optimal(|LinesOf(Run(l, Steps(places)), pid)|, SpansOn(places, pid))
  {
    hide Tidy, Run;
    RequestColors(l, pid, places);
    var lines := LinesOf(Run(l, Steps(places)), pid);
    var spans := SpansOn(places, pid);
    forall t ensures Cover(spans, t) == TotalCover(lines, t) <= |lines| {
      TotalCoverAtMost(lines, t);
    }
    if lines == [] && spans != [] { CoverSome(spans, 0, spans[0].start); }
  }

  lemma {:induction false} SpansOnSorted(places: seq<(Pid, Span)>, pid: Pid, bound: int)
    requires forall i, j | 0 <= i < j < |places| :: places[i].1.start <= places[j].1.start
    requires forall i | 0 <= i < |places| :: places[i].1.start <= bound
    ensures Sorted(SpansOn(places, pid))
    ensures forall i | 0 <= i < |SpansOn(places, pid)| :: SpansOn(places, pid)[i].start <= bound
  {
    if places != [] {
      var n := |places| - 1;
      SpansOnSorted(places[..n], pid, places[n].1.start);
    }
  }

  // ---- Gateway spans ---------------------------------------------------------

  function OnSmg(spans: seq<Span>): seq<(Pid, Span)> {
    seq(|spans|, i requires 0 <= i < |spans| => (Smg, spans[i]))
  }

  lemma {:induction false} OnlySmg(spans: seq<Span>)
    ensures SpansOn(OnSmg(spans), Smg) == spans
  {
    if spans != [] {
      var n := |spans| - 1;
      OnlySmg(spans[..n]);
      assert OnSmg(spans)[..n] == OnSmg(spans[..n]);
      assert spans == spans[..n] + [spans[n]];
    }
  }

  lemma {:induction false} CoverInsertByKey(spans: seq<Span>, x: Span, t: int)
    ensures Cover(InsertByKey(spans, StartOf, x), t) == Cover(spans, t) + Cover([x], t)
  {
    if spans == [] || spans[|spans| - 1].start <= x.start {
      CoverAppend(spans, [x], t);
    } else {
      var n := |spans| - 1;
      CoverInsertByKey(spans[..n], x, t);
      CoverAppend(InsertByKey(spans[..n], StartOf, x), [spans[n]], t);
      CoverAppend(spans[..n], [spans[n]], t);
      assert spans == spans[..n] + [spans[n]];
    }
  }

  lemma {:induction false} CoverSort(spans: seq<Span>, t: int)
    ensures Cover(SortByKey(spans, StartOf), t) == Cover(spans, t)
  {
    if spans != [] {
      var n := |spans| - 1;
      CoverSort(spans[..n], t);
      CoverInsertByKey(SortByKey(spans[..n], StartOf), spans[n], t);
      CoverAppend(spans[..n], [spans[n]], t);
      assert spans == spans[..n] + [spans[n]];
    }
  }

  /** The same for gateway spans, in whatever order they are given. */
  lemma OptimalGateway(l: Layout, spans: seq<Span>)
    requires Tidy(l) && Smg !in l.graph && AllPositive(spans)
    ensures Optimal(|LinesOf(Run(l, Steps(OnSmg(SortByKey(spans, StartOf)))), Smg)|, spans)
  {
    hide Tidy, Run, SortByKey, Cover;
    var sorted := SortByKey(spans, StartOf);
    SortSorts(spans, StartOf);
    SortEntries(spans, StartOf);
    forall i, j | 0 <= i < j < |sorted| ensures sorted[i].start <= sorted[j].start {
      assert StartOf(sorted[i]) <= StartOf(sorted[j]);
    }
    forall i | 0 <= i < |sorted| ensures sorted[i].Positive() { assert sorted[i] in spans; }
    OnlySmg(sorted);
    OptimalLayout(l, Smg, OnSmg(sorted));
    forall t ensures Cover(spans, t) == Cover(sorted, t) { CoverSort(spans, t); }
  }
}
