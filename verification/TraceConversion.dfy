/** The whole conversion of scripts/convert_otel_2_perfetto.py, with the two exits of
    the script on traces that are not malformed. */
module TraceConversion {
  import opened Wrappers
  import opened Sorting
  import opened SpanIntervals
  import opened SpanLayout
  import opened SpanLayoutTheorems
  import opened SpanForest
  import opened SpanDisplay
  import opened TraceLayouts

  // ---- Specification ---------------------------------------------------------

  /** Process and shortened times of a span: the process is that of its thread. */
  function PlaceOf(spans: Trace, x: nat): (Pid, Span)
    requires x < |spans| && Parent(spans, x).Some?
  {
    (Engine(spans[Parent(spans, x).value].pid), Span(spans[x].start, spans[x].end - 1000))
  }

  function Places(spans: Trace, xs: seq<nat>): seq<(Pid, Span)>
    requires forall i | 0 <= i < |xs| :: xs[i] < |spans| && Parent(spans, xs[i]).Some?
  {
    seq(|xs|, i requires 0 <= i < |xs| => PlaceOf(spans, xs[i]))
  }

  function RequestPlaces(spans: Trace, r: nat): seq<(Pid, Span)>
    requires AtDepth(spans, r, 0)
  {
    SortedDepth(spans, r);
    var xs := SortedSpans(spans, r);
    assert forall i | 0 <= i < |xs| :: xs[i] in xs;
    Places(spans, xs)
  }

  /** Start time of a request's first span. */
  function FirstStart(spans: Trace): nat -> int {
    (r: nat) =>
      var xs := SortedSpans(spans, r);
      if xs != [] then StartKey(spans)(xs[0]) else 0
  }

  function LayoutOrder(spans: Trace): seq<nat> { SortByKey(Roots(spans), FirstStart(spans)) }

  /** The layout steps of the requests in turn. */
  function Schedule(spans: Trace, rs: seq<nat>): seq<Step>
    requires forall r | r in rs :: AtDepth(spans, r, 0)
  {
    if rs == [] then []
    else
      var n := |rs| - 1;
      Schedule(spans, rs[..n]) + ([NextRequest] + Steps(RequestPlaces(spans, rs[n])))
  }

  lemma OrderDepth(spans: Trace)
    ensures forall r | r in LayoutOrder(spans) :: AtDepth(spans, r, 0)
  {
    SortEntries(Roots(spans), FirstStart(spans));
    RootsDepth(spans);
  }

  function TraceSteps(spans: Trace): seq<Step> {
    OrderDepth(spans);
    Schedule(spans, LayoutOrder(spans))
  }

  /** Some request has no span two steps below it. */
  ghost predicate Spanless(spans: Trace) {
    exists r: nat :: r < |spans| && spans[r].isRequest && forall x: nat :: !TwoBelow(spans, r, x)
  }

  // ---- The script ------------------------------------------------------------

  /** Collects a request's spans from the child lists. */
  method RequestSpans(spans: Trace, child: array<seq<nat>>, r: nat) returns (xs: seq<nat>)
    requires child.Length == |spans| && r < |spans|
    requires forall p | 0 <= p < |spans| :: child[p] == Children(spans, p)
    ensures xs == SpansOf(spans, r)
  {
    xs := [];
    var ts := child[r];
    for i := 0 to |ts|
      invariant xs == ThreadSpans(spans, ts[..i])
    {
      assert ts[i] in ts && ts[..i + 1][..i] == ts[..i];
      xs := xs + child[ts[i]];
    }
    assert ts[..|ts|] == ts;
  }

  /** The sort of the requests by their first span raises for one that has none. */
  method FirstSpans(spans: Trace, roots: seq<nat>, child: array<seq<nat>>) returns (ok: bool)
    requires child.Length == |spans| && roots == Roots(spans)
    requires forall p | 0 <= p < |spans| :: child[p] == Children(spans, p)
    ensures ok <==> !Spanless(spans)
  {
    hide SpansOf, TwoBelow;
    for i := 0 to |roots|
      invariant forall k | 0 <= k < i :: SpansOf(spans, roots[k]) != []
    {
      assert roots[i] in roots;
      var xs := RequestSpans(spans, child, roots[i]);
      if xs == [] {
        forall x: nat ensures !TwoBelow(spans, roots[i], x) { SpansOfMembers(spans, roots[i], x); }
        return false;
      }
    }
    ok := true;
    forall r: nat | r < |spans| && spans[r].isRequest ensures exists x: nat :: TwoBelow(spans, r, x) {
      RequestIsRoot(spans, r);
      var x := SpansOf(spans, r)[0];
      SpansOfMembers(spans, r, x);
    }
  }

  lemma RequestIsRoot(spans: Trace, r: nat)
    requires r < |spans| && spans[r].isRequest
    ensures r in Roots(spans)
  {
    RootsCount(spans, |spans|, r);
    assert r in multiset(Roots(spans));
  }

  /** Lays the requests out in order. */
  method LayoutRequests(spans: Trace, order: seq<nat>) returns (layout: TraceLayout)
    requires forall r | r in order :: AtDepth(spans, r, 0)
    ensures fresh(layout) && layout.Valid() && fresh(layout.owner.Keys)
    ensures Tidy(EMPTY) && Tidy(layout.Abs(map[]))
    ensures layout.Abs(map[]) == Run(EMPTY, Schedule(spans, order)).(status := map[])
  {
    hide Tidy, RequestPlaces, Run, Steps, Optimal;
    layout := new TraceLayout();
    EmptyTidy();
    RunNothing(EMPTY);
    for i := 0 to |order|
      invariant layout.Valid() && fresh(layout) && fresh(layout.owner.Keys)
      invariant Tidy(layout.Abs(map[]))
      invariant layout.Abs(map[]) == Run(EMPTY, Schedule(spans, order[..i])).(status := map[])
    {
      ghost var before := layout.Abs(map[]);
      assert order[i] in order && order[..i + 1][..i] == order[..i];
      var places := RequestPlaces(spans, order[i]);
      var tids, status := layout.LayoutRequest(places);
      ApplyTidy(layout.Abs(status), NextRequest);
      RunRequest(EMPTY, Schedule(spans, order[..i]), Steps(places));
      assert layout.Abs(map[]) == layout.Abs(status).(status := map[]);
    }
    assert order[..|order|] == order;
  }

  /** A request starts with nothing remembered. */
  lemma RunRequest(l: Layout, steps: seq<Step>, more: seq<Step>)
    requires Tidy(l)
    ensures Tidy(Run(l, steps).(status := map[]))
    ensures Run(l, steps + ([NextRequest] + more)) == Run(Run(l, steps).(status := map[]), more)
  {
    hide Tidy;
    var m := Run(l, steps);
    ApplyTidy(m, NextRequest);
    RunTwice(l, steps, [NextRequest] + more);
    assert ([NextRequest] + more)[1..] == more;
  }

  lemma {:induction false} RunTwice(l: Layout, xs: seq<Step>, ys: seq<Step>)
    requires Tidy(l)
    ensures Run(l, xs + ys) == Run(Run(l, xs), ys)
    decreases |xs|
  {
    hide Tidy, PlaceSpan;
    if xs == [] {
      assert xs + ys == ys;
    } else {
      ApplyTidy(l, xs[0]);
      RunTwice(Apply(l, xs[0]), xs[1..], ys);
      assert (xs + ys)[1..] == xs[1..] + ys;
    }
  }

  /** What the script gives: a KeyError at the first gateway span, whose child list was
      never made; an IndexError for a request without spans; else the elements. */
  ghost function Outcome(spans: Trace, gateway: seq<Span>): Result<seq<nat>> {
    if gateway != [] then Err(KeyError)
    else if Spanless(spans) then Err(IndexError)
    else
      RootsDepth(spans);
      Ok(Emitted(spans))
  }

  method Convert(spans: Trace, gateway: seq<Span>) returns (r: Result<seq<nat>>, layout: TraceLayout?)
    ensures r == Outcome(spans, gateway)
    ensures r.Ok? <==> layout != null
    ensures layout != null ==> fresh(layout) && layout.Valid()
    ensures layout != null ==> Tidy(EMPTY) && layout.Abs(map[]) == Run(EMPTY, TraceSteps(spans)).(status := map[])
  {
    hide Tidy, Run, SortByKey;
    layout := null;
    var roots, child := BuildTree(spans);
    if gateway != [] {
      return Err(KeyError), null;
    }
    var ok := FirstSpans(spans, roots, child);
    if !ok {
      return Err(IndexError), null;
    }
    OrderDepth(spans);
    layout := LayoutRequests(spans, LayoutOrder(spans));
    RootsDepth(spans);
    r := Ok(Emitted(spans));
  }

  // ---- What it means ---------------------------------------------------------

  /** The exits are exact, and without one every span two or more levels below a
      request is emitted once and nothing else is. */
  lemma ConvertExact(spans: Trace, gateway: seq<Span>)
    ensures var r := Outcome(spans, gateway);
            && (r == Err(KeyError) <==> gateway != [])
            && (r == Err(IndexError) <==> gateway == [] && Spanless(spans))
            && (r.Err? ==> r == Err(KeyError) || r == Err(IndexError))
            && (r.Ok? ==> forall x: nat :: multiset(r.value)[x] == if BelowThread(spans, x) then 1 else 0)
  {
    hide Emitted, BelowThread;
    RootsDepth(spans);
    forall x: nat ensures multiset(Emitted(spans))[x] == if BelowThread(spans, x) then 1 else 0 {
      EmittedOnce(spans, x);
    }
  }

  /** A trace with one request and nothing below it, with and without a gateway span. */
  lemma Exits()
    ensures var request := SpanRecord("a", "", true, 0, 0, 1);
            && Outcome([request], [Span(0, 1)]) == Err(KeyError)
            && Outcome([request], []) == Err(IndexError)
  {
    var spans := [SpanRecord("a", "", true, 0, 0, 1)];
    var r: nat := 0;
    assert Parent(spans, r) == None;
    assert spans[r].isRequest && forall x: nat :: !TwoBelow(spans, r, x);
  }

  /** Whether a span's duration, once shortened, is zero. */
  predicate Vanishes(spans: Trace, x: nat) {
    x < |spans| && spans[x].end - 1000 == spans[x].start
  }

  lemma BelowHasParent(spans: Trace, r: nat, x: nat)
    requires TwoBelow(spans, r, x)
    ensures x < |spans| && Parent(spans, x).Some?
  {
    TwoBelowParents(spans, r, x);
  }

  lemma {:induction false} ScheduledSpans(spans: Trace, rs: seq<nat>)
    requires forall r | r in rs :: AtDepth(spans, r, 0)
    requires forall r: nat, x: nat | TwoBelow(spans, r, x) :: !Vanishes(spans, x)
    ensures forall s | s in Schedule(spans, rs) :: s.Place? ==> s.span.start != s.span.end
  {
    hide SortedSpans, TwoBelow, AtDepth;
    if rs != [] {
      var n := |rs| - 1;
      ScheduledSpans(spans, rs[..n]);
      SortedDepth(spans, rs[n]);
      var xs := SortedSpans(spans, rs[n]);
      var steps := Steps(RequestPlaces(spans, rs[n]));
      forall s | s in steps ensures s.Place? && s.span.start != s.span.end {
        var i :| 0 <= i < |steps| && steps[i] == s;
        assert xs[i] in xs && TwoBelow(spans, rs[n], xs[i]) && !Vanishes(spans, xs[i]);
        BelowHasParent(spans, rs[n], xs[i]);
        assert s == Place(PlaceOf(spans, xs[i]).0, PlaceOf(spans, xs[i]).1);
      }
    }
  }

  /** In a trace of which no laid out span vanishes, the spans on one line of the
      converted trace never overlap. */
  lemma ConvertedLines(spans: Trace)
    requires forall r: nat, x: nat | TwoBelow(spans, r, x) :: !Vanishes(spans, x)
    ensures Tidy(EMPTY) && Trusted(Run(EMPTY, TraceSteps(spans)))
  {
    hide Tidy, Run, Trusted, TwoBelow;
    EmptyTidy();
    OrderDepth(spans);
    ScheduledSpans(spans, LayoutOrder(spans));
    NoZeroHidesNothing(EMPTY, TraceSteps(spans));
    RunExact(EMPTY, TraceSteps(spans));
    ChainedTrusted(Run(EMPTY, TraceSteps(spans)));
  }

  /** So two spans shown on one line of one process never overlap. */
  lemma ConvertedApart(spans: Trace, i: nat, j: nat, pid: Pid, n: int)
    requires forall r: nat, x: nat | TwoBelow(spans, r, x) :: !Vanishes(spans, x)
    requires Tidy(EMPTY) && i < j < |TraceSteps(spans)|
    requires Shown(EMPTY, TraceSteps(spans), i, pid, n) && Shown(EMPTY, TraceSteps(spans), j, pid, n)
    ensures !Overlap(TraceSteps(spans)[i].span, TraceSteps(spans)[j].span)
  {
    hide Tidy, Shown, TwoBelow, LayoutOrder, Overlap;
    OrderDepth(spans);
    ScheduledSpans(spans, LayoutOrder(spans));
    NoZeroHidesNothing(EMPTY, TraceSteps(spans));
    ShownApart(TraceSteps(spans), i, j, pid, n);
  }

  /** A span is placed on the process of the thread span between it and the request, with
      its times, the end a thousand nanoseconds earlier. */
  ghost predicate PlacedUnder(spans: Trace, r: nat, x: nat, place: (Pid, Span))
    requires x < |spans|
  {
    exists t: nat ::
      && ChildOf(spans, t, r) && ChildOf(spans, x, t)
      && place == (Engine(spans[t].pid), Span(spans[x].start, spans[x].end - 1000))
  }

  lemma PlaceOfExact(spans: Trace, r: nat, x: nat)
    requires TwoBelow(spans, r, x)
    ensures x < |spans| && Parent(spans, x).Some? && PlacedUnder(spans, r, x, PlaceOf(spans, x))
  {
    hide Parent, TwoBelow;
    TwoBelowParents(spans, r, x);
    var t := Parent(spans, x).value;
    ParentExact(spans, x, t);
    ParentExact(spans, t, r);
  }

  /** What is laid out for a request: for each span two steps below it, in order of start
      time, its place. */
  lemma PlacesExact(spans: Trace, r: nat)
    requires AtDepth(spans, r, 0)
    ensures var xs := SortedSpans(spans, r);
            var places := RequestPlaces(spans, r);
            && |places| == |xs| && (forall x: nat :: x in xs <==> TwoBelow(spans, r, x))
            && (forall i | 0 <= i < |xs| :: xs[i] < |spans| && PlacedUnder(spans, r, xs[i], places[i]))
            && (forall i, j | 0 <= i < j < |xs| :: spans[xs[i]].start <= spans[xs[j]].start)
  {
    hide SortByKey, SpansOf, Parent, AtDepth, TwoBelow, PlacedUnder;
    SortSorts(SpansOf(spans, r), StartKey(spans));
    SortEntries(SpansOf(spans, r), StartKey(spans));
    SortedDepth(spans, r);
    var xs := SortedSpans(spans, r);
    forall x: nat ensures x in xs <==> TwoBelow(spans, r, x) { SpansOfMembers(spans, r, x); }
    forall i | 0 <= i < |xs| ensures xs[i] < |spans| && PlacedUnder(spans, r, xs[i], RequestPlaces(spans, r)[i]) {
      assert xs[i] in xs;
      PlaceOfExact(spans, r, xs[i]);
    }
    forall i, j | 0 <= i < j < |xs| ensures spans[xs[i]].start <= spans[xs[j]].start {
      assert StartKey(spans)(xs[i]) <= StartKey(spans)(xs[j]);
    }
  }

  /** The earliest start among a request's spans. */
  ghost predicate BeginsAt(spans: Trace, r: nat, b: int) {
    && (exists x: nat :: x < |spans| && TwoBelow(spans, r, x) && spans[x].start == b)
    && forall x: nat | x < |spans| && TwoBelow(spans, r, x) :: spans[x].start >= b
  }

  lemma FirstStartBegins(spans: Trace, r: nat, b: int)
    requires r < |spans| && spans[r].isRequest && BeginsAt(spans, r, b)
    ensures FirstStart(spans)(r) == b
  {
    assert AtDepth(spans, r, 0);
    hide SortedSpans, TwoBelow, ChildOf, AtDepth, RequestPlaces;
    PlacesExact(spans, r);
    SortedDepth(spans, r);
    var xs := SortedSpans(spans, r);
    var x: nat :| x < |spans| && TwoBelow(spans, r, x) && spans[x].start == b;
    var i :| 0 <= i < |xs| && xs[i] == x;
    assert xs[0] in xs && TwoBelow(spans, r, xs[0]);
    BelowHasParent(spans, r, xs[0]);
    if i > 0 { assert spans[xs[0]].start <= spans[xs[i]].start; }
  }

  /** Requests are laid out each once, in order of their earliest span, and in the order
      of the trace where these are equal. */
  lemma OrderExact(spans: Trace, i: nat, j: nat, b: int, c: int)
    requires i < j < |LayoutOrder(spans)|
    requires BeginsAt(spans, LayoutOrder(spans)[i], b) && BeginsAt(spans, LayoutOrder(spans)[j], c)
    ensures multiset(LayoutOrder(spans)) == multiset(Roots(spans))
    ensures b <= c && (b == c ==> LayoutOrder(spans)[i] < LayoutOrder(spans)[j])
  {
    hide SortByKey, FirstStart, BeginsAt, Roots;
    var order := LayoutOrder(spans);
    SortSorts(Roots(spans), FirstStart(spans));
    SortEntries(Roots(spans), FirstStart(spans));
    RootsAscend(spans);
    SortTies(Roots(spans), FirstStart(spans), i, j, |spans|);
    assert order[i] in order && order[j] in order;
    FirstStartBegins(spans, order[i], b);
    FirstStartBegins(spans, order[j], c);
  }

  lemma RootsAscend(spans: Trace)
    ensures AscendingBelow(Roots(spans), |spans|)
    ensures forall r | r in Roots(spans) :: r < |spans| && spans[r].isRequest
  {
    RootsListed(spans, |spans|);
  }

  /** A request on a process no earlier request used, the first of the trace among
      them, gets as few lines there as possible. */
  lemma RequestOptimal(spans: Trace, rs: seq<nat>, r: nat, pid: Pid)
    requires (forall q | q in rs :: AtDepth(spans, q, 0)) && AtDepth(spans, r, 0)
    requires Tidy(EMPTY) && pid !in Run(EMPTY, Schedule(spans, rs)).graph
    requires AllPositive(SpansOn(RequestPlaces(spans, r), pid))
    ensures forall q | q in rs + [r] :: AtDepth(spans, q, 0)
    ensures Optimal(|LinesOf(Run(EMPTY, Schedule(spans, rs + [r])), pid)|, SpansOn(RequestPlaces(spans, r), pid))
  {
    hide Tidy, Run, Optimal, SortedSpans, SpansOn, AtDepth;
    var places := RequestPlaces(spans, r);
    PlacesSorted(spans, r, pid);
    assert (rs + [r])[..|rs|] == rs;
    RunRequest(EMPTY, Schedule(spans, rs), Steps(places));
    OptimalLayout(Run(EMPTY, Schedule(spans, rs)).(status := map[]), pid, places);
  }

  lemma PlacesSorted(spans: Trace, r: nat, pid: Pid)
    requires AtDepth(spans, r, 0)
    ensures Sorted(SpansOn(RequestPlaces(spans, r), pid))
  {
    hide SpansOn, SpansOf, SortByKey, Parent, AtDepth;
    SortSorts(SpansOf(spans, r), StartKey(spans));
    SortedDepth(spans, r);
    var xs := SortedSpans(spans, r);
    var places := RequestPlaces(spans, r);
    forall i, j | 0 <= i < j < |places| ensures places[i].1.start <= places[j].1.start {
      assert xs[i] in xs && xs[j] in xs;
      assert StartKey(spans)(xs[i]) <= StartKey(spans)(xs[j]);
    }
    SpansOnSorted(places, pid, if places == [] then 0 else places[|places| - 1].1.start);
  }
}
