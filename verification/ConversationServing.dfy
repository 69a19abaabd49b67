/** How the serving benchmark draws conversations, and exactly when every turn of every
    conversation is served. */
module ConversationServing {
  import opened Counting
  import opened ConversationQueue
  import opened ConversationTranscripts

  /** Distinct conversations fill no more than the queue's capacity. */
  lemma {:induction false} DistinctBound(m: multiset<nat>, n: nat)
    requires forall c | c in m :: c < n && m[c] == 1
    ensures |m| <= n
  {
    if n == 0 {
      assert m == multiset{};
    } else {
      var m' := m[n - 1 := 0];
      DistinctBound(m', n - 1);
      assert m == if n - 1 in m then m' + multiset{n - 1} else m';
    }
  }

  /** Putting a conversation back never waits for room in the queue. */
  lemma ReEnqueueFits(w: Workload, s: State)
    requires Reachable(w, s)
    ensures |s.queue| + |s.waiting| + |s.sent| + |s.done| <= |w|
    ensures forall c | c in s.sent :: |s.queue| < |w|
  {
    ReachableLocated(w, s);
    var m := multiset(s.queue) + s.waiting + s.sent + s.done;
    forall c | c in m ensures c < |w| && m[c] == 1 { assert m[c] == Places(s, c); }
    DistinctBound(m, |w|);
  }

  /** Every step lowers this, so no run is longer than three times the requests. */
  function Measure(w: Workload, s: State): int {
    3 * (TotalRequests(w) - s.drawn) + 2 * |s.waiting| + |s.sent|
  }

  lemma MeasureStep(w: Workload, s: State, a: Action)
    requires Enabled(w, s, a)
    ensures Measure(w, Apply(w, s, a)) < Measure(w, s)
  {
    hide TotalRequests;
    if a.Start? { assert s.waiting == (s.waiting - multiset{a.conversation}) + multiset{a.conversation}; }
    if a.Finish? { assert s.sent == (s.sent - multiset{a.conversation}) + multiset{a.conversation}; }
  }

  lemma {:induction false} RunsAreShort(w: Workload, s: State, acts: seq<Action>, s': State)
    requires Located(w, s) && Leads(w, s, acts, s')
    ensures |acts| <= Measure(w, s)
    decreases |acts|
  {
    hide Located, Measure;
    if acts == [] {
      MeasureBound(w, s);
    } else {
      MeasureStep(w, s, acts[0]);
      StepLocated(w, s, acts[0]);
      RunsAreShort(w, Apply(w, s, acts[0]), acts[1..], s');
    }
  }

  lemma MeasureBound(w: Workload, s: State)
    requires Located(w, s)
    ensures Measure(w, s) >= 0
  {
  }

  // ---- First come, first drawn -----------------------------------------------

  /** The conversations not drawn yet stand at the front of the queue in their first
      order, and an empty one that was drawn waits forever. */
  ghost predicate Fifo(w: Workload, s: State) {
    && Shaped(w, s)
    && |w| - s.drawn <= |s.queue|
    && (forall i | 0 <= i < |w| - s.drawn :: s.queue[i] == s.drawn + i)
    && (forall c | 0 <= c < |w| && c >= s.drawn :: s.finished[c] == 0)
    && (forall c | 0 <= c < |w| && c < s.drawn && w[c] == [] :: c in s.waiting)
  }

  lemma NotDrawnIsQueued(w: Workload, s: State, c: nat)
    requires Located(w, s) && Fifo(w, s) && s.drawn <= c < |w|
    ensures c in s.queue && c !in s.waiting && c !in s.sent && c !in s.done
  {
    assert s.queue[c - s.drawn] == c;
    assert c in multiset(s.queue);
    assert Places(s, c) == 1;
  }

  lemma StepFifo(w: Workload, s: State, a: Action)
    requires Located(w, s) && Fifo(w, s) && Enabled(w, s, a)
    ensures Fifo(w, Apply(w, s, a))
  {
    hide Places, DrawnEach, TotalRequests, PromptLen;
    if a.Draw? { DrawFifo(w, s); }
    if a.Finish? && a.conversation >= s.drawn { NotDrawnIsQueued(w, s, a.conversation); }
    if a.Start? { assert Counted(w, s, a.conversation); }
  }

  lemma DrawFifo(w: Workload, s: State)
    requires Fifo(w, s) && Enabled(w, s, Draw)
    ensures Fifo(w, Apply(w, s, Draw))
  {
    hide TotalRequests;
    var s' := Apply(w, s, Draw);
    forall i | 0 <= i < |w| - s'.drawn ensures s'.queue[i] == s'.drawn + i {
      assert s'.queue[i] == s.queue[i + 1];
    }
    if s.drawn < |w| {
      var first := 0;
      assert s.queue[first] == s.drawn + first;
    }
  }

  lemma {:induction false} RunFifo(w: Workload, s: State, acts: seq<Action>, s': State)
    requires Located(w, s) && Fifo(w, s) && Leads(w, s, acts, s')
    ensures Located(w, s') && Fifo(w, s')
    decreases |acts|
  {
    hide Located, Fifo;
    if acts != [] {
      StepLocated(w, s, acts[0]);
      StepFifo(w, s, acts[0]);
      RunFifo(w, Apply(w, s, acts[0]), acts[1..], s');
    }
  }

  lemma ReachableFifo(w: Workload, s: State)
    requires Reachable(w, s)
    ensures Located(w, s) && Fifo(w, s)
  {
    hide Located;
    var acts :| Leads(w, Init(w), acts, s);
    InitLocated(w);
    assert Fifo(w, Init(w));
    hide Fifo;
    RunFifo(w, Init(w), acts, s);
  }

  // ---- When every turn is served ---------------------------------------------

  /** Nothing can happen any more. */
  ghost predicate Stuck(w: Workload, s: State) {
    forall a :: !Enabled(w, s, a)
  }

  /** Every run can be continued until nothing can happen. */
  lemma RunsEnd(w: Workload, s: State) returns (acts: seq<Action>, s': State)
    requires Located(w, s)
    ensures Leads(w, s, acts, s') && Stuck(w, s')
    decreases Measure(w, s)
  {
    if a :| Enabled(w, s, a) {
      hide Located, Measure;
      var m := Apply(w, s, a);
      MeasureStep(w, s, a);
      StepLocated(w, s, a);
      MeasureBound(w, m);
      var rest;
      rest, s' := RunsEnd(w, m);
      acts := [a] + rest;
      assert acts[1..] == rest;
    } else {
      acts, s' := [], s;
    }
  }

  /** Every turn of every conversation has been answered. */
  ghost predicate AllServed(w: Workload, s: State) {
    |s.replies| == |w| && forall c | 0 <= c < |w| :: |s.replies[c]| == |w[c]|
  }

  /** No empty conversation stands among the first to be drawn. */
  ghost predicate EmptiesLast(w: Workload) {
    forall c | 0 <= c < |w| && w[c] == [] :: c >= TotalRequests(w)
  }

  /** In the end a conversation is queued, finished, or empty and drawn. */
  lemma StuckPlaces(w: Workload, s: State, c: nat)
    requires Located(w, s) && !Enabled(w, s, Start(c)) && !Enabled(w, s, Finish(c, Reply("", 0)))
    ensures c !in s.sent && (c in s.waiting ==> c < |w| && w[c] == [])
    ensures c < |w| && w[c] != [] && c !in s.done ==> c in multiset(s.queue) && DrawnEach(s)[c] == s.finished[c] < |w[c]|
    ensures c < |w| && w[c] != [] && c in s.done ==> DrawnEach(s)[c] == |w[c]|
    ensures c < |w| && w[c] == [] ==> DrawnEach(s)[c] == if c in s.waiting then 1 else 0
  {
    assert Places(s, c) == if c < |w| then 1 else 0;
    if c < |w| { assert Counted(w, s, c); }
  }

  lemma AllDrawn(w: Workload, s: State)
    requires Located(w, s) && Stuck(w, s)
    ensures s.drawn == TotalRequests(w)
  {
    hide DrawnEach, Places;
    DrawnLength(s);
    assert !Enabled(w, s, Draw);
    if s.queue == [] {
      forall c | 0 <= c < |w| ensures Lengths(w)[c] <= DrawnEach(s)[c] {
        assert !Enabled(w, s, Start(c)) && !Enabled(w, s, Finish(c, Reply("", 0)));
        StuckPlaces(w, s, c);
      }
      SumBelow(Lengths(w), DrawnEach(s));
    }
  }

  lemma ServedEmptiesLast(w: Workload, s: State)
    requires Located(w, s) && Fifo(w, s) && Stuck(w, s) && s.drawn == TotalRequests(w)
    requires forall c | 0 <= c < |w| && w[c] != [] :: c in s.done
    ensures EmptiesLast(w)
  {
    hide DrawnEach, Places;
    DrawnLength(s);
    forall c | 0 <= c < |w| ensures Lengths(w)[c] <= DrawnEach(s)[c]
                            ensures w[c] == [] && c in s.waiting ==> DrawnEach(s)[c] == 1 {
      assert !Enabled(w, s, Start(c)) && !Enabled(w, s, Finish(c, Reply("", 0)));
      StuckPlaces(w, s, c);
    }
    SumBelow(Lengths(w), DrawnEach(s));
    forall c | 0 <= c < |w| && w[c] == [] ensures c >= s.drawn {
      assert DrawnEach(s)[c] == Lengths(w)[c] == 0;
    }
  }

  lemma EmptiesLastServed(w: Workload, s: State)
    requires Located(w, s) && Fifo(w, s) && Stuck(w, s) && s.drawn == TotalRequests(w)
    requires EmptiesLast(w)
    ensures forall c | 0 <= c < |w| && w[c] != [] :: c in s.done
  {
    hide DrawnEach, Places;
    DrawnLength(s);
    forall c | 0 <= c < |w| ensures DrawnEach(s)[c] <= Lengths(w)[c]
                            ensures w[c] != [] && c !in s.done ==> DrawnEach(s)[c] < Lengths(w)[c] {
      assert !Enabled(w, s, Start(c)) && !Enabled(w, s, Finish(c, Reply("", 0)));
      StuckPlaces(w, s, c);
      if w[c] == [] { NotDrawnIsQueued(w, s, c); }
    }
    SumBelow(DrawnEach(s), Lengths(w));
  }

  /** Whatever the workload, a run without failures stops only when exactly the planned
      number of requests has been drawn; and then every turn of every conversation has
      been answered if and only if no empty conversation was early enough in the queue
      to use up one of the draws. */
  lemma StopsWhenDone(w: Workload, s: State)
    requires Reachable(w, s) && Stuck(w, s)
    ensures s.drawn == TotalRequests(w) && s.sent == multiset{}
    ensures AllServed(w, s) <==> EmptiesLast(w)
    ensures EmptiesLast(w) ==> s.waiting == multiset{} && forall c | 0 <= c < |w| :: c in s.done <==> w[c] != []
  {
    ReachableFifo(w, s);
    hide TotalRequests, DrawnEach, Places;
    AllDrawn(w, s);
    forall c: nat ensures c !in s.sent && (c in s.waiting ==> c < |w| && w[c] == []) {
      assert !Enabled(w, s, Start(c)) && !Enabled(w, s, Finish(c, Reply("", 0)));
      StuckPlaces(w, s, c);
    }
    forall c | 0 <= c < |w| ensures |s.replies| == |w| && (|s.replies[c]| == |w[c]| <==> w[c] == [] || c in s.done) {
      TurnsInOrder(w, s, c);
    }
    if EmptiesLast(w) {
      EmptiesLastServed(w, s);
      forall c: nat | c < |w| && w[c] == [] ensures c !in s.waiting && c !in s.done { NotDrawnIsQueued(w, s, c); }
    } else if AllServed(w, s) {
      ServedEmptiesLast(w, s);
    }
  }

  /** A conversation behind the planned number of draws is never asked. */
  lemma NeverAsked(w: Workload, s: State, c: nat)
    requires Reachable(w, s) && TotalRequests(w) <= c < |w|
    ensures TurnsOf(s.issued, c) == [] && |s.replies| == |w| && s.replies[c] == []
  {
    ReachableFifo(w, s);
    NotDrawnIsQueued(w, s, c);
    hide TurnsOf;
    var acts :| Leads(w, Init(w), acts, s);
    InitTold(w);
    RunTold(w, Init(w), acts, s);
    assert Told(w, s, c);
  }

  /** The second conversation is empty and takes the second of the two draws, so the
      turn of the third is never sent, in no run. */
  lemma LostTurn(t: Turn, u: Turn, s: State)
    requires Reachable([[t], [], [u]], s)
    ensures !EmptiesLast([[t], [], [u]]) && TurnsOf(s.issued, 2) == []
  {
    var w := [[t], [], [u]];
    var xs := Lengths(w);
    assert xs == [1, 0, 1];
    assert xs[..2] == [1, 0] && xs[..2][..1] == [1];
    assert Sum([1]) == 1 && Sum([1, 0]) == 1;
    assert Sum(xs) == 2;
    assert w[1] == [];
    NeverAsked(w, s, 2);
  }

  // ---- Workloads -------------------------------------------------------------

  /** With a shared prefix every request becomes a conversation of its own. */
  function Flatten(w: Workload): Workload {
    if w == [] then [] else seq(|w[0]|, i requires 0 <= i < |w[0]| => [w[0][i]]) + Flatten(w[1..])
  }

  /** All turns of the workload, conversation by conversation. */
  function AllTurns(w: Workload): seq<Turn> {
    if w == [] then [] else w[0] + AllTurns(w[1..])
  }

  /** Flattening makes the turns of the workload, in order, conversations of their own. */
  lemma {:induction false} FlattenTurns(w: Workload)
    ensures |Flatten(w)| == |AllTurns(w)|
    ensures forall k | 0 <= k < |AllTurns(w)| :: Flatten(w)[k] == [AllTurns(w)[k]]
  {
    if w != [] { FlattenTurns(w[1..]); }
  }

  lemma {:induction false} SumOnes(xs: seq<nat>)
    requires forall i | 0 <= i < |xs| :: xs[i] == 1
    ensures Sum(xs) == |xs|
  {
    if xs != [] { SumOnes(xs[..|xs| - 1]); }
  }

  lemma {:induction false} SumFirst(xs: seq<nat>)
    requires xs != []
    ensures Sum(xs) == xs[0] + Sum(xs[1..])
  {
    if |xs| > 1 {
      var n := |xs| - 1;
      SumFirst(xs[..n]);
      assert xs[1..][..n - 1] == xs[..n][1..];
    } else {
      assert xs[..0] == [] && xs[1..] == [];
    }
  }

  /** Flattening keeps the number of requests and leaves one turn per conversation, so
      with a shared prefix every turn is served. */
  lemma {:induction false} FlattenTotal(w: Workload)
    ensures EmptiesLast(Flatten(w)) && |Flatten(w)| == TotalRequests(w) == TotalRequests(Flatten(w))
    ensures forall c | 0 <= c < |Flatten(w)| :: |Flatten(w)[c]| == 1
  {
    if w != [] {
      FlattenTotal(w[1..]);
      SumFirst(Lengths(w));
      assert Lengths(w)[1..] == Lengths(w[1..]);
    }
    SumOnes(Lengths(Flatten(w)));
  }
}
