/** The mutable layout of scripts/convert_otel_2_perfetto.py: containers updated
    in place behind a dictionary per process. Every method is proved to do to the
    objects what the functions of the layout do to values. */
module TraceLayouts {
  import opened SpanIntervals
  import opened SpanLayout
  import opened SpanLayoutTheorems
  import opened Sorting

  class SpanLayoutContainer {
    var intervals: seq<Span>

    constructor ()
      ensures intervals == []
    {
      intervals := [];
    }

    method CheckOverlap(start: int, end: int) returns (overlaps: bool)
      ensures overlaps <==> SpanIntervals.CheckOverlap(intervals, start, end)
      ensures Chain(intervals) && start < end ==> (overlaps <==> Conflicts(intervals, start, end))
    {
      if Chain(intervals) && start < end { CheckIsScan(intervals, start, end); }
      var idx := BisectStart(intervals, start);
      if idx > 0 && intervals[idx - 1].end > start {
        return true;
      }
      if idx < |intervals| && intervals[idx].start < end {
        return true;
      }
      return false;
    }

    method InsertSpan(start: int, end: int)
      modifies this
      ensures intervals == Insert(old(intervals), Span(start, end))
    {
      var idx := BisectSpan(intervals, Span(start, end));
      intervals := intervals[..idx] + [Span(start, end)] + intervals[idx..];
    }
  }

  /** One dictionary entry: a line number and its container. */
  datatype Entry = Entry(number: int, container: SpanLayoutContainer)

  class TraceLayout {
    var graph: map<Pid, seq<Entry>>
    var slots: seq<Slot>
    ghost var lines: map<Pid, seq<Line>>
    ghost var owner: map<SpanLayoutContainer, (Pid, int)>

    /** `lines` is what the dictionaries hold, and no container serves two lines. */
    ghost predicate Valid()
      reads this, owner.Keys
    {
      && graph.Keys == lines.Keys
      && (forall pid | pid in graph :: |graph[pid]| == |lines[pid]|)
      && (forall pid, i | pid in graph && 0 <= i < |graph[pid]| ::
            && graph[pid][i].container in owner && owner[graph[pid][i].container] == (pid, i)
            && lines[pid][i] == Line(graph[pid][i].number, graph[pid][i].container.intervals))
    }

    ghost function Abs(status: map<Pid, int>): Layout
      reads this
    {
      Layout(lines, status, slots)
    }

    constructor ()
      ensures Valid() && owner.Keys == {} && Abs(map[]) == EMPTY
    {
      graph, slots, lines, owner := map[], [], map[], map[];
    }

    /** Looks a line up by its number, as a dictionary does. */
    method Lookup(pid: Pid, number: int) returns (i: nat)
      requires Valid() && pid in graph && HasLine(lines[pid], number)
      ensures i < |graph[pid]| && i == Find(lines[pid], number)
    {
      i := 0;
      var es := graph[pid];
      ghost var ls := lines[pid];
      while es[i].number != number
        invariant i < |es| && HasLine(ls[i..], number)
        invariant Find(ls, number) == i + Find(ls[i..], number)
        decreases |es| - i
      {
        ghost var k :| 0 <= k < |ls[i..]| && ls[i..][k].number == number;
        assert ls[i..][1..] == ls[i + 1..] && ls[i + 1..][k - 1].number == number;
        i := i + 1;
      }
    }

    /** First line with room for the span, by checking the lines in turn. */
    method Scan(pid: Pid, start: int, end: int) returns (i: nat)
      requires Valid() && pid in graph
      ensures i == FirstFit(lines[pid], Span(start, end))
    {
      var es := graph[pid];
      ghost var ls := lines[pid];
      i := 0;
      while i < |es|
        invariant i <= |es|
        invariant FirstFit(ls, Span(start, end)) == i + FirstFit(ls[i..], Span(start, end))
      {
        var overlaps := es[i].container.CheckOverlap(start, end);
        assert ls[i..][1..] == ls[i + 1..];
        if !overlaps { return; }
        i := i + 1;
      }
    }

    method OpenLine(pid: Pid, number: int)
      requires Valid()
      modifies this
      ensures Valid() && slots == old(slots) + [Slot(pid, number)]
      ensures fresh(owner.Keys - old(owner.Keys))
      ensures lines == old(lines)[pid := LinesOf(old(Abs(map[])), pid) + [Line(number, [])]]
    {
      var container := new SpanLayoutContainer();
      var entries := (if pid in graph then graph[pid] else []) + [Entry(number, container)];
      ghost var longer := LinesOf(Abs(map[]), pid) + [Line(number, [])];
      lines, graph := lines[pid := longer], graph[pid := entries];
      owner := owner[container := (pid, |entries| - 1)];
      slots := slots + [Slot(pid, number)];
      forall q, i | q in graph && 0 <= i < |graph[q]|
        ensures graph[q][i].container in owner && owner[graph[q][i].container] == (q, i)
        ensures lines[q][i] == Line(graph[q][i].number, graph[q][i].container.intervals)
      {
        if q != pid || i < |entries| - 1 { assert graph[q][i] == old(graph)[q][i]; }
      }
    }

    method StoreSpan(pid: Pid, i: nat, start: int, end: int)
      requires Valid() && pid in graph && i < |graph[pid]|
      modifies this`lines, graph[pid][i].container
      ensures Valid()
      ensures lines == old(lines)[pid := Store(old(lines)[pid], i, Span(start, end))]
    {
      graph[pid][i].container.InsertSpan(start, end);
      lines := lines[pid := Store(lines[pid], i, Span(start, end))];
    }

    /** Whether the request can stay on the line it used last. */
    method StaysOnLine(status: map<Pid, int>, pid: Pid, start: int, end: int) returns (stays: bool)
      requires Valid() && Known(Abs(status))
      ensures stays == Sticks(Abs(status), pid, Span(start, end))
      ensures stays ==> pid in status
    {
      if pid !in status {
        return false;
      }
      if start == end {
        return true;
      }
      var i := Lookup(pid, status[pid]);
      var overlaps := graph[pid][i].container.CheckOverlap(start, end);
      return !overlaps;
    }

    /** Find the line for a span and remember it for the request. */
    method FindLine(status: map<Pid, int>, pid: Pid, start: int, end: int) returns (status': map<Pid, int>, number: int)
      requires Valid() && Known(Abs(status))
      modifies this
      ensures Valid() && fresh(owner.Keys - old(owner.Keys))
      ensures Placed(Abs(status'), number) == SpanLayout.FindLine(old(Abs(status)), pid, Span(start, end))
    {
      hide Sticks, FirstFit, Find, HasLine, SpanIntervals.CheckOverlap;
      var stays := StaysOnLine(status, pid, start, end);
      if stays {
        return status, status[pid];
      }
      var i := 0;
      if pid in graph {
        i := Scan(pid, start, end);
        if i < |graph[pid]| {
          number := graph[pid][i].number;
          return status[pid := number], number;
        }
      }
      number := if pid in graph then |graph[pid]| + 1 else 1;
      assert LinesOf(Abs(map[]), pid) == LinesOf(Abs(status), pid);
      OpenLine(pid, number);
      status' := status[pid := number];
      assert [] + [Line(1, [])] == [Line(1, [])];
    }

    /** Find a line and store the span on it. */
    method PlaceSpan(status: map<Pid, int>, pid: Pid, start: int, end: int) returns (status': map<Pid, int>, number: int)
      requires Valid() && Known(Abs(status))
      modifies this, owner.Keys
      ensures Valid() && fresh(owner.Keys - old(owner.Keys))
      ensures Placed(Abs(status'), number) == SpanLayout.PlaceSpan(old(Abs(status)), pid, Span(start, end))
    {
      hide SpanLayout.FindLine, Find, Known;
      ghost var before := Abs(status);
      status', number := FindLine(status, pid, start, end);
      FindLineKnown(before, pid, Span(start, end));
      var i := Lookup(pid, number);
      StoreSpan(pid, i, start, end);
    }

    /** The spans of one request, in the order of its sorted list. Each span is told
        the line it is on; on a process no request used before, there are as many
        lines as the request's spans ever overlap. */
    method LayoutRequest(places: seq<(Pid, Span)>) returns (tids: seq<int>, status: map<Pid, int>)
      requires Valid() && Tidy(Abs(map[]))
      modifies this, owner.Keys
      ensures Valid() && fresh(owner.Keys - old(owner.Keys))
      ensures |tids| == |places| && Tidy(Abs(status))
      ensures Abs(status) == Run(old(Abs(map[])), Steps(places))
      ensures forall i | 0 <= i < |places| :: tids[i] == LineOfStep(old(Abs(map[])), places, i)
      ensures forall pid | pid !in old(lines) && Sorted(SpansOn(places, pid)) && AllPositive(SpansOn(places, pid)) ::
                Optimal(|LinesOf(Abs(status), pid)|, SpansOn(places, pid))
    {
      hide Tidy, Known, SpanLayout.PlaceSpan, Optimal, SpansOn, Sorted, AllPositive;
      status, tids := map[], [];
      ghost var start := Abs(map[]);
      assert Steps(places[..0]) == [];
      for i := 0 to |places|
        invariant Valid() && fresh(owner.Keys - old(owner.Keys))
        invariant |tids| == i && Tidy(start) && Abs(status) == Run(start, Steps(places[..i]))
        invariant forall k | 0 <= k < i :: tids[k] == LineOfStep(start, places, k)
      {
        TidyKnown(Abs(status));
        var number;
        status, number := PlaceSpan(status, places[i].0, places[i].1.start, places[i].1.end);
        tids := tids + [number];
        assert Steps(places[..i + 1]) == Steps(places[..i]) + [Place(places[i].0, places[i].1)];
        RunAppend(start, Steps(places[..i]), Place(places[i].0, places[i].1));
      }
      assert places[..|places|] == places;
      forall pid | pid !in old(lines) && Sorted(SpansOn(places, pid)) && AllPositive(SpansOn(places, pid))
        ensures Optimal(|LinesOf(Abs(status), pid)|, SpansOn(places, pid))
      {
        OptimalLayout(start, pid, places);
      }
    }

    /** The gateway spans, sorted by start time, as a request of their own. */
    method LayoutSmg(spans: seq<Span>) returns (tids: seq<int>, status: map<Pid, int>)
      requires Valid() && Tidy(Abs(map[]))
      modifies this, owner.Keys
      ensures Valid() && fresh(owner.Keys - old(owner.Keys)) && |tids| == |spans|
      ensures Tidy(Abs(status))
      ensures Abs(status) == Run(old(Abs(map[])), Steps(OnSmg(SortByKey(spans, StartOf))))
      ensures Smg !in old(lines) && AllPositive(spans) ==> Optimal(|LinesOf(Abs(status), Smg)|, spans)
    {
      hide Tidy, Known, Optimal, SortByKey, Run;
      var sorted := SortByKey(spans, StartOf);
      SortEntries(spans, StartOf);
      ghost var start := Abs(map[]);
      tids, status := LayoutRequest(OnSmg(sorted));
      if Smg !in old(lines) && AllPositive(spans) { OptimalGateway(start, spans); }
    }
  }

  /** The line given to the `i`-th span of a request. */
  ghost function LineOfStep(l: Layout, places: seq<(Pid, Span)>, i: nat): int
    requires Tidy(l) && i < |places|
  {
    TidyKnown(Run(l, Steps(places[..i])));
    SpanLayout.PlaceSpan(Run(l, Steps(places[..i])), places[i].0, places[i].1).number
  }
}
