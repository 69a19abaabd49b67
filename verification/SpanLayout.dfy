/** The line allocator of scripts/convert_otel_2_perfetto.py: a request keeps the
    line it used last on a process while that line has room, otherwise takes the
    first line with room, and opens a new line when there is none. */
module SpanLayout {
  import opened SpanIntervals

  /** Engine processes have integer ids; the gateway spans share one of their own. */
  datatype Pid = Engine(id: int) | Smg

  /** One entry of the per-process dictionary, in insertion order. */
  datatype Line = Line(number: int, intervals: seq<Span>)

  datatype Slot = Slot(pid: Pid, number: int)

  /** `status` belongs to the request being laid out; the rest to the whole trace. */
  datatype Layout = Layout(graph: map<Pid, seq<Line>>, status: map<Pid, int>, slots: seq<Slot>)

  datatype Placed = Placed(layout: Layout, number: int)

  datatype Step = NextRequest | Place(pid: Pid, span: Span)

  const EMPTY := Layout(map[], map[], [])

  predicate HasLine(lines: seq<Line>, number: int) {
    exists i :: 0 <= i < |lines| && lines[i].number == number
  }

  /** Dictionary lookup: the place of line `number`. */
  function Find(lines: seq<Line>, number: int): (i: nat)
    requires HasLine(lines, number)
    ensures i < |lines| && lines[i].number == number
  {
    if lines[0].number == number then 0 else 1 + Find(lines[1..], number)
  }

  /** First line with room, or the number of lines. */
  function FirstFit(lines: seq<Line>, x: Span): (i: nat)
    ensures i <= |lines|
    ensures forall k | 0 <= k < i :: CheckOverlap(lines[k].intervals, x.start, x.end)
    ensures i < |lines| ==> !CheckOverlap(lines[i].intervals, x.start, x.end)
  {
    if lines == [] || !CheckOverlap(lines[0].intervals, x.start, x.end) then 0 else 1 + FirstFit(lines[1..], x)
  }

  /** Every line the request remembers exists. */
  ghost predicate Known(l: Layout) {
    forall pid | pid in l.status :: pid in l.graph && HasLine(l.graph[pid], l.status[pid])
  }

  /** The request stays on its line, unchecked for a span without duration. */
  predicate Sticks(l: Layout, pid: Pid, x: Span)
    requires pid in l.status ==> pid in l.graph && HasLine(l.graph[pid], l.status[pid])
  {
    pid in l.status &&
    (x.start == x.end || !CheckOverlap(l.graph[pid][Find(l.graph[pid], l.status[pid])].intervals, x.start, x.end))
  }

  function FindLine(l: Layout, pid: Pid, x: Span): Placed
    requires Known(l)
  {
    if Sticks(l, pid, x) then Placed(l, l.status[pid])
    else if pid !in l.graph then
      Placed(Layout(l.graph[pid := [Line(1, [])]], l.status[pid := 1], l.slots + [Slot(pid, 1)]), 1)
    else
      var lines := l.graph[pid];
      var i := FirstFit(lines, x);
      if i < |lines| then Placed(l.(status := l.status[pid := lines[i].number]), lines[i].number)
      else
        var n := |lines| + 1;
        Placed(Layout(l.graph[pid := lines + [Line(n, [])]], l.status[pid := n], l.slots + [Slot(pid, n)]), n)
  }

  function Store(lines: seq<Line>, i: nat, x: Span): seq<Line>
    requires i < |lines|
  {
    lines[i := lines[i].(intervals := Insert(lines[i].intervals, x))]
  }

  function PlaceSpan(l: Layout, pid: Pid, x: Span): Placed
    requires Known(l)
  {
    var p := FindLine(l, pid, x);
    var lines := p.layout.graph[pid];
    FindLineKnown(l, pid, x);
    Placed(p.layout.(graph := p.layout.graph[pid := Store(lines, Find(lines, p.number), x)]), p.number)
  }

  lemma FindLineKnown(l: Layout, pid: Pid, x: Span)
    requires Known(l)
    ensures var p := FindLine(l, pid, x);
            Known(p.layout) && pid in p.layout.graph && HasLine(p.layout.graph[pid], p.number)
  {
    var p := FindLine(l, pid, x);
    if !Sticks(l, pid, x) && pid in l.graph {
      var lines := l.graph[pid];
      var lines' := p.layout.graph[pid];
      forall q | q in p.layout.status
        ensures q in p.layout.graph && HasLine(p.layout.graph[q], p.layout.status[q])
      {
        if q == pid {
          var i := FirstFit(lines, x);
          assert lines'[i].number == p.number;
        }
      }
    } else if pid !in l.graph {
      assert p.layout.graph[pid][0].number == 1;
    }
  }

  // ---- What every step keeps -------------------------------------------------

  /** Lines are numbered from 1 in the order they were opened. */
  ghost predicate Numbered(lines: seq<Line>) {
    lines != [] && forall i | 0 <= i < |lines| :: lines[i].number == i + 1
  }

  function SlotsOf(slots: seq<Slot>, pid: Pid): seq<int> {
    if slots == [] then []
    else
      var n := |slots| - 1;
      SlotsOf(slots[..n], pid) + (if slots[n].pid == pid then [slots[n].number] else [])
  }

  function LineNumbers(n: nat): seq<int> { seq(n, i => i + 1) }

  function LinesOf(l: Layout, pid: Pid): seq<Line> {
    if pid in l.graph then l.graph[pid] else []
  }

  ghost predicate LinesTidy(l: Layout) {
    && (forall pid | pid in l.graph :: Numbered(l.graph[pid]))
    && (forall pid | pid in l.status :: pid in l.graph && 1 <= l.status[pid] <= |l.graph[pid]|)
  }

  /** One metadata entry per line, in order. */
  ghost predicate SlotsTidy(l: Layout) {
    forall pid :: SlotsOf(l.slots, pid) == LineNumbers(|LinesOf(l, pid)|)
  }

  ghost predicate Tidy(l: Layout) {
    LinesTidy(l) && SlotsTidy(l)
  }

  ghost predicate AllChain(lines: seq<Line>) {
    forall i | 0 <= i < |lines| :: Chain(lines[i].intervals)
  }

  ghost predicate Chained(l: Layout) {
    forall pid | pid in l.graph :: AllChain(l.graph[pid])
  }

  lemma TidyKnown(l: Layout)
    requires Tidy(l)
    ensures Known(l)
  {
    forall pid | pid in l.status ensures pid in l.graph && HasLine(l.graph[pid], l.status[pid]) {
      assert l.graph[pid][l.status[pid] - 1].number == l.status[pid];
    }
  }

  lemma FindNumbered(lines: seq<Line>, number: int)
    requires Numbered(lines) && 1 <= number <= |lines|
    ensures HasLine(lines, number) && Find(lines, number) == number - 1
  {
    assert lines[number - 1].number == number;
  }

  lemma FindLineNumbers(l: Layout, pid: Pid, x: Span)
    requires LinesTidy(l) && Known(l)
    ensures var p := FindLine(l, pid, x);
            LinesTidy(p.layout) && pid in p.layout.graph && 1 <= p.number <= |p.layout.graph[pid]|
  {
    hide CheckOverlap;
  }

  lemma FindLineSlots(l: Layout, pid: Pid, x: Span, q: Pid)
    requires SlotsTidy(l) && Known(l)
    ensures var l' := FindLine(l, pid, x).layout;
            SlotsOf(l'.slots, q) == LineNumbers(|LinesOf(l', q)|)
  {
    hide CheckOverlap, LineNumbers, SlotsOf;
    var p := FindLine(l, pid, x);
    NewSlot(l.slots, Slot(pid, p.number), q);
    NextNumber(|LinesOf(l, pid)|);
  }

  /** Numbering, remembered lines and slot metadata stay in step. */
  lemma FindLineTidy(l: Layout, pid: Pid, x: Span)
    requires Tidy(l) && Known(l)
    ensures var p := FindLine(l, pid, x);
            Tidy(p.layout) && pid in p.layout.graph && 1 <= p.number <= |p.layout.graph[pid]|
  {
    hide FindLine, LineNumbers, SlotsOf;
    FindLineNumbers(l, pid, x);
    forall q ensures SlotsOf(FindLine(l, pid, x).layout.slots, q) == LineNumbers(|LinesOf(FindLine(l, pid, x).layout, q)|) {
      FindLineSlots(l, pid, x, q);
    }
  }

  lemma NewSlot(slots: seq<Slot>, s: Slot, q: Pid)
    ensures SlotsOf(slots + [s], q) == SlotsOf(slots, q) + (if s.pid == q then [s.number] else [])
  {
    assert (slots + [s])[..|slots|] == slots;
  }

  lemma NextNumber(n: nat)
    ensures LineNumbers(n + 1) == LineNumbers(n) + [n + 1]
  {
  }

  lemma PlaceTidy(l: Layout, pid: Pid, x: Span)
    requires Tidy(l) && Known(l)
    ensures Tidy(PlaceSpan(l, pid, x).layout)
  {
    hide FindLine, LineNumbers, SlotsOf, Insert;
    FindLineTidy(l, pid, x);
    var p := FindLine(l, pid, x);
    FindNumbered(p.layout.graph[pid], p.number);
    var l' := PlaceSpan(l, pid, x).layout;
    forall q ensures |LinesOf(l', q)| == |LinesOf(p.layout, q)| {}
  }

  /** The choice of a line: the request's own line while it sticks to it, else the
      lowest line with room, else the next number; the request remembers it. */
  lemma ChoiceExact(l: Layout, pid: Pid, x: Span)
    requires Tidy(l) && Known(l)
    ensures var p := PlaceSpan(l, pid, x);
            && pid in p.layout.status && p.layout.status == l.status[pid := p.number]
            && if Sticks(l, pid, x) then p.number == l.status[pid] && p.layout.slots == l.slots
               else
                 && 1 <= p.number <= |LinesOf(l, pid)| + 1
                 && (forall i | 0 <= i < p.number - 1 :: CheckOverlap(LinesOf(l, pid)[i].intervals, x.start, x.end))
                 && (p.number <= |LinesOf(l, pid)| ==>
                       !CheckOverlap(LinesOf(l, pid)[p.number - 1].intervals, x.start, x.end) && p.layout.slots == l.slots)
                 && (p.number > |LinesOf(l, pid)| ==> p.layout.slots == l.slots + [Slot(pid, p.number)])
  {
    hide CheckOverlap, Sticks, Insert, SlotsOf, LineNumbers;
    FindLineKnown(l, pid, x);
    if Sticks(l, pid, x) { StickKeeps(l, pid, x); }
  }

  lemma StickKeeps(l: Layout, pid: Pid, x: Span)
    requires Known(l) && Sticks(l, pid, x)
    ensures pid in l.status && l.status[pid := l.status[pid]] == l.status
  {
  }

  // ---- Runs ------------------------------------------------------------------

  function Apply(l: Layout, step: Step): Layout
    requires Known(l)
  {
    match step
    case NextRequest => l.(status := map[])
    case Place(pid, x) => PlaceSpan(l, pid, x).layout
  }

  lemma ApplyTidy(l: Layout, step: Step)
    requires Tidy(l)
    ensures Known(l) && Tidy(Apply(l, step))
  {
    TidyKnown(l);
    if step.Place? { PlaceTidy(l, step.pid, step.span); }
    else { assert forall pid :: LinesOf(Apply(l, step), pid) == LinesOf(l, pid); }
  }

  /** For every sequence of steps, line numbers per process stay exactly 1..n and
      the slot metadata lists exactly these lines, once each and in order. */
  function Run(l: Layout, steps: seq<Step>): (r: Layout)
    requires Tidy(l)
    ensures Tidy(r)
    decreases |steps|
  {
    if steps == [] then l
    else
      ApplyTidy(l, steps[0]);
      Run(Apply(l, steps[0]), steps[1..])
  }

  lemma EmptyTidy()
    ensures Tidy(EMPTY) && Chained(EMPTY)
  {
  }

  /** A span without duration that the request drops, unchecked, onto its line where
      it exposes a stored span. */
  ghost predicate HiddenPoint(l: Layout, pid: Pid, x: Span)
    requires Known(l)
  {
    && x.start == x.end && pid in l.status
    && var iv := l.graph[pid][Find(l.graph[pid], l.status[pid])].intervals;
    Exposes(iv, x.start)
  }

  /** The line a span is stored on, as it was before. */
  ghost function Target(l: Layout, pid: Pid, x: Span): seq<Span>
    requires Tidy(l) && Known(l)
  {
    var p := FindLine(l, pid, x);
    if pid in l.graph && p.number <= |l.graph[pid]| && 1 <= p.number then l.graph[pid][p.number - 1].intervals else []
  }

  lemma PlaceEffect(l: Layout, pid: Pid, x: Span)
    requires Tidy(l) && Known(l)
    ensures var p := PlaceSpan(l, pid, x);
            && pid in p.layout.graph && 1 <= p.number <= |p.layout.graph[pid]|
            && p.layout.graph[pid] ==
               (if p.number <= |LinesOf(l, pid)| then LinesOf(l, pid) else LinesOf(l, pid) + [Line(p.number, [])])
                 [p.number - 1 := Line(p.number, Insert(Target(l, pid, x), x))]
            && |LinesOf(l, pid)| <= |p.layout.graph[pid]| <= |LinesOf(l, pid)| + 1
            && forall q | q != pid :: LinesOf(p.layout, q) == LinesOf(l, q)
  {
    hide CheckOverlap, Insert, SlotsOf, LineNumbers, Sticks;
    FindLineTidy(l, pid, x);
    var p := FindLine(l, pid, x);
    FindNumbered(p.layout.graph[pid], p.number);
  }

  /** The line chosen has room, except for a point the request drops unchecked. */
  lemma TargetHasRoom(l: Layout, pid: Pid, x: Span)
    requires Tidy(l) && Known(l)
    ensures !CheckOverlap(Target(l, pid, x), x.start, x.end) || (x.start == x.end && pid in l.status)
    ensures x.start == x.end && pid in l.status ==>
              Target(l, pid, x) == l.graph[pid][Find(l.graph[pid], l.status[pid])].intervals
    ensures Target(l, pid, x) == [] || exists i :: 0 <= i < |LinesOf(l, pid)| && Target(l, pid, x) == LinesOf(l, pid)[i].intervals
  {
    hide Insert, SlotsOf, LineNumbers, CheckOverlap;
    assert !CheckOverlap([], x.start, x.end) by { EmptyHasRoom(x); }
    if pid in l.status { FindNumbered(l.graph[pid], l.status[pid]); }
    var i := FindLine(l, pid, x).number - 1;
    if 0 <= i < |LinesOf(l, pid)| { assert Target(l, pid, x) == LinesOf(l, pid)[i].intervals; }
  }

  lemma EmptyHasRoom(x: Span)
    ensures !CheckOverlap([], x.start, x.end)
  {
  }
}
