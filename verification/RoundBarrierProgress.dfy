/** Progress of the load generator: a measure every working step lowers, and a
    completing continuation of every failure-free state. */
module RoundBarrierProgress {
  import opened Counting
  import opened RoundBarrier
  import opened RoundBarrierSafety
  import RoundBarrierTheorems

  function HandlerWeight(h: Handler): nat {
    match h
    case Stopped => 0
    case Idle => 1
    case TimedOut => 1
    case Took(_) => 2
    case Releasing(_) => 2
    case AtBarrier => 4
    case Counted(_) => 12
  }

  /** Twelve units for each round not yet counted, and less for each place a
      request has already passed. */
  function Measure(cfg: Config, s: State): int {
    12 * (Sum(cfg.totals) - Sum(s.rounds))
    + 7 * |Held(s)| + 6 * |s.ready| + (if s.sender.Holding? then 5 else 0) + 4 * |s.inflight|
    + (if s.landed.Some? then 3 else 0) + 2 * |s.responses| + HandlerWeight(s.handler)
  }

  /** A poll of the sender: a look at the window, or a pop of an empty queue. A poll
      of the handler: a wait that times out, or a look at a bar that is not full. */
  predicate Poll(cfg: Config, s: State, a: Action) {
    || a.Check? || (a.Pop? && s.ready == [])
    || a.Timeout? || (a.TestBar? && s.progress != cfg.TotalRequests())
  }

  lemma LoopMeasure(cfg: Config, s: State, a: Action)
    requires Enabled(cfg, s, a) && LoopStep(a)
    ensures Poll(cfg, s, a) ==> Measure(cfg, Apply(cfg, s, a)) == Measure(cfg, s)
    ensures !Poll(cfg, s, a) ==> Measure(cfg, Apply(cfg, s, a)) < Measure(cfg, s)
  {
    hide Sum;
    if a.Land? { assert s.inflight == (s.inflight - multiset{a.request}) + multiset{a.request}; }
  }

  lemma HandlerMeasure(cfg: Config, s: State, a: Action)
    requires Enabled(cfg, s, a) && !LoopStep(a)
    ensures Poll(cfg, s, a) ==> Measure(cfg, Apply(cfg, s, a)) == Measure(cfg, s)
    ensures !Poll(cfg, s, a) ==> Measure(cfg, Apply(cfg, s, a)) < Measure(cfg, s)
  {
    hide Sum, CountAbove;
    if a.Count? { SumIncrement(s.rounds, s.handler.response.request.client); }
  }

  lemma MeasureStep(cfg: Config, s: State, a: Action)
    requires Enabled(cfg, s, a)
    ensures Poll(cfg, s, a) ==> Measure(cfg, Apply(cfg, s, a)) == Measure(cfg, s)
    ensures !Poll(cfg, s, a) ==> Measure(cfg, Apply(cfg, s, a)) < Measure(cfg, s)
  {
    hide Measure;
    if LoopStep(a) { LoopMeasure(cfg, s, a); } else { HandlerMeasure(cfg, s, a); }
  }

  function Work(cfg: Config, s: State, acts: seq<Action>): nat
    decreases |acts|
  {
    if acts == [] || !Enabled(cfg, s, acts[0]) then 0
    else (if Poll(cfg, s, acts[0]) then 0 else 1) + Work(cfg, Apply(cfg, s, acts[0]), acts[1..])
  }

  lemma {:induction false} WorkIsPaid(cfg: Config, s: State, acts: seq<Action>, s': State)
    requires Leads(cfg, s, acts, s')
    ensures Work(cfg, s, acts) <= Measure(cfg, s) - Measure(cfg, s')
    decreases |acts|
  {
    hide Measure;
    if acts != [] {
      MeasureStep(cfg, s, acts[0]);
      WorkIsPaid(cfg, Apply(cfg, s, acts[0]), acts[1..], s');
    }
  }

  /** Whatever the interleaving and whatever fails, a run has at most this many
      steps that are not polls. */
  lemma WorkIsBounded(cfg: Config, acts: seq<Action>, s: State)
    requires cfg.Valid() && Leads(cfg, Init(cfg), acts, s)
    ensures Work(cfg, Init(cfg), acts) <= 12 * cfg.TotalRequests() + 6 * |cfg.totals| + 1
  {
    WorkIsPaid(cfg, Init(cfg), acts, s);
    InitInv(cfg);
    RunKeepsInv(cfg, Init(cfg), acts, s);
    SumBelow(s.rounds, cfg.totals);
    ZeroSum(|cfg.totals|);
  }

  // ---- Completion without failures -------------------------------------------

  /** Nothing failed, and every response that came back was shown as progress. */
  ghost predicate Healthy(s: State) {
    && s.failed == multiset{}
    && (s.landed.Some? ==> s.landed.value.ok)
    && (forall x | x in s.responses :: x.ok)
    && (s.handler.Took? ==> s.handler.response.ok)
    && s.progress == s.completed + OutgoingSize(s) - |s.inflight|
  }

  /** No response is a failed one. */
  predicate FailureFree(acts: seq<Action>) {
    forall a | a in acts :: a.Land? ==> a.ok
  }

  lemma StepKeepsHealthy(cfg: Config, s: State, a: Action)
    requires Healthy(s) && Enabled(cfg, s, a) && (a.Land? ==> a.ok)
    ensures Healthy(Apply(cfg, s, a))
  {
    hide OutgoingSize;
    ProgressStep(cfg, s, a);
  }

  lemma ProgressStep(cfg: Config, s: State, a: Action)
    requires Enabled(cfg, s, a)
    ensures var s' := Apply(cfg, s, a);
            s'.progress - (s'.completed + OutgoingSize(s') - |s'.inflight|) ==
            s.progress - (s.completed + OutgoingSize(s) - |s.inflight|) - (if a.Land? && !a.shown then 1 else 0)
  {
    if LoopStep(a) { LoopSizes(cfg, s, a); }
  }

  /** With nothing between the queue of ready requests and the handler, an
      unfinished run has a ready request. */
  lemma SomethingReady(cfg: Config, s: State)
    requires Inv(cfg, s) && s.failed == multiset{} && (s.handler.Idle? || s.handler.TimedOut?)
    requires OutgoingSize(s) == 0 && !s.sender.Holding?
    requires s.completed < cfg.TotalRequests()
    ensures s.ready != []
  {
    if s.ready == [] {
      forall q ensures InActive(s, q) == 0 {
        assert |s.inflight| == 0 && |s.responses| == 0;
      }
      if s.rounds == cfg.totals { assert false; }
      var c :| 0 <= c < |s.rounds| && s.rounds[c] < cfg.totals[c];
      OnlyHeld(cfg, s, c);
      CountSome(cfg.totals, c, s.barrierRound);
      CountBelow(s.rounds, cfg.totals, s.barrierRound);
      var d :| 0 <= d < |s.rounds| && s.rounds[d] <= s.barrierRound < cfg.totals[d];
      OnlyHeld(cfg, s, d);
    }
  }

  lemma OnlyHeld(cfg: Config, s: State, c: nat)
    requires Inv(cfg, s) && s.failed == multiset{} && (s.handler.Idle? || s.handler.TimedOut?)
    requires forall q :: InActive(s, q) == 0
    requires Unfinished(cfg, s, c)
    ensures cfg.barrier && s.rounds[c] == s.barrierRound + 1
  {
    hide InActive;
    var q := Request(c, s.rounds[c]);
    assert Due(cfg, s, q);
    assert Occurrences(cfg, s, q) == 1;
    assert q in Held(s);
  }

  // ---- Stopping too early ----------------------------------------------------

  /** The handler has stopped, or is past its wait and will find the bar full, and
      responses are missing. */
  predicate Early(cfg: Config, s: State) {
    s.completed < cfg.TotalRequests() && (s.handler.Stopped? || (s.handler.TimedOut? && s.progress == cfg.TotalRequests()))
  }

  lemma EarlyStep(cfg: Config, s: State, a: Action)
    requires Inv(cfg, s) && Early(cfg, s) && Enabled(cfg, s, a)
    ensures Early(cfg, Apply(cfg, s, a))
  {
    if s.handler.TimedOut? { RoundBarrierTheorems.FullBar(cfg, s); }
    hide Inv;
  }

  /** Whatever happens afterwards, the missing responses stay unhandled. */
  lemma {:induction false} EarlyForever(cfg: Config, s: State, acts: seq<Action>, s': State)
    requires Inv(cfg, s) && Early(cfg, s) && Leads(cfg, s, acts, s')
    ensures Early(cfg, s')
    decreases |acts|
  {
    if acts != [] {
      StepKeepsInv(cfg, s, acts[0]);
      EarlyStep(cfg, s, acts[0]);
      hide Inv;
      EarlyForever(cfg, Apply(cfg, s, acts[0]), acts[1..], s');
    }
  }

  // ---- Progress --------------------------------------------------------------

  /** What a step on the way to completion has to keep. */
  ghost predicate OnTrack(cfg: Config, s: State) {
    Inv(cfg, s) && Healthy(s) && !Early(cfg, s)
  }

  /** Polls of an unfinished failure-free state, at most one of each thread, and
      the working step they lead to. */
  lemma NextSteps(cfg: Config, s: State) returns (acts: seq<Action>, s': State)
    requires OnTrack(cfg, s) && cfg.maxParallel >= 1 && s.completed < cfg.TotalRequests()
    ensures Leads(cfg, s, acts, s') && FailureFree(acts) && OnTrack(cfg, s')
    ensures 1 <= |acts| <= 3 && Work(cfg, s, acts) == 1
    ensures Measure(cfg, s') < Measure(cfg, s)
  {
    hide Inv, Measure, Healthy;
    if s.handler.TimedOut? {
      var m := Apply(cfg, s, TestBar);
      MeasureStep(cfg, s, TestBar);
      StepKeepsInv(cfg, s, TestBar);
      StepKeepsHealthy(cfg, s, TestBar);
      var rest;
      rest, s' := WaitingSteps(cfg, m);
      acts := [TestBar] + rest;
      OneMore(cfg, s, TestBar, rest, s');
      OneMoreWork(cfg, s, TestBar, rest);
    } else {
      acts, s' := WaitingSteps(cfg, s);
    }
  }

  lemma OneMoreWork(cfg: Config, s: State, a: Action, acts: seq<Action>)
    requires Enabled(cfg, s, a)
    ensures Work(cfg, s, [a] + acts) == (if Poll(cfg, s, a) then 0 else 1) + Work(cfg, Apply(cfg, s, a), acts)
  {
    assert ([a] + acts)[1..] == acts;
  }

  lemma OneStep(cfg: Config, s: State, a: Action)
    requires Inv(cfg, s) && Healthy(s) && Enabled(cfg, s, a) && (a.Land? ==> a.ok)
    requires !s.handler.TimedOut? && !s.handler.Stopped? && !a.Timeout?
    ensures OnTrack(cfg, Apply(cfg, s, a))
    ensures !Apply(cfg, s, a).handler.TimedOut? && !Apply(cfg, s, a).handler.Stopped?
    ensures Poll(cfg, s, a) ==> Measure(cfg, Apply(cfg, s, a)) == Measure(cfg, s)
    ensures !Poll(cfg, s, a) ==> Measure(cfg, Apply(cfg, s, a)) < Measure(cfg, s)
  {
    hide Inv, Measure, Healthy;
    MeasureStep(cfg, s, a);
    StepKeepsInv(cfg, s, a);
    StepKeepsHealthy(cfg, s, a);
  }

  /** The same from a state in which the handler is not past its wait. */
  lemma WaitingSteps(cfg: Config, s: State) returns (acts: seq<Action>, s': State)
    requires Inv(cfg, s) && Healthy(s) && cfg.maxParallel >= 1 && s.completed < cfg.TotalRequests()
    requires !s.handler.TimedOut? && !s.handler.Stopped?
    ensures Leads(cfg, s, acts, s') && FailureFree(acts) && OnTrack(cfg, s')
    ensures 1 <= |acts| <= 2 && Work(cfg, s, acts) == 1
    ensures Measure(cfg, s') < Measure(cfg, s)
  {
    hide Inv, Measure, Healthy, OnTrack, OutgoingSize;
    var a := FirstStep(cfg, s);
    var s1 := Apply(cfg, s, a);
    OneStep(cfg, s, a);
    if !Poll(cfg, s, a) {
      acts, s' := [a] + [], s1;
      assert Leads(cfg, s', [], s') && Work(cfg, s', []) == 0;
      hide Apply, Leads, Work;
      OneMore(cfg, s, a, [], s');
      OneMoreWork(cfg, s, a, []);
    } else {
      var b := SecondStep(cfg, s, a);
      s' := Apply(cfg, s1, b);
      assert Inv(cfg, s1) && Healthy(s1) by { OnTrackMeans(cfg, s1); }
      OneStep(cfg, s1, b);
      assert Leads(cfg, s', [], s') && Work(cfg, s', []) == 0;
      hide Apply, Leads, Work;
      acts := [a] + ([b] + []);
      OneMore(cfg, s1, b, [], s');
      OneMore(cfg, s, a, [b] + [], s');
      OneMoreWork(cfg, s1, b, []);
      OneMoreWork(cfg, s, a, [b] + []);
    }
  }

  lemma OnTrackMeans(cfg: Config, s: State)
    requires OnTrack(cfg, s)
    ensures Inv(cfg, s) && Healthy(s) && !Early(cfg, s)
  {
  }

  /** Neither thread leaves its loop while a response is missing. */
  lemma NotExited(cfg: Config, s: State)
    requires Inv(cfg, s) && Healthy(s) && s.responses == [] && s.landed.None? && !s.handler.Took?
    requires s.completed < cfg.TotalRequests()
    ensures s.progress < cfg.TotalRequests() && !s.sender.Exited?
  {
  }

  lemma FirstStep(cfg: Config, s: State) returns (a: Action)
    requires Inv(cfg, s) && Healthy(s) && cfg.maxParallel >= 1 && !s.handler.Stopped? && !s.handler.TimedOut?
    requires s.completed < cfg.TotalRequests()
    ensures Enabled(cfg, s, a) && (a.Land? ==> a.ok) && !a.Timeout? && !a.TestBar?
    ensures Poll(cfg, s, a) ==>
              && s.handler.Idle? && s.responses == [] && s.landed.None?
              && (a.Check? ==> s.sender.Polling? && s.inflight == multiset{})
  {
    match s.handler
    case Took(r) =>
      TookIsActive(s);
      FoundIsDue(cfg, s, r.request);
      a := Count;
    case Counted(_) => a := FollowUp;
    case AtBarrier => a := Barrier;
    case Releasing(_) => a := Release;
    case Idle =>
      if s.responses != [] {
        a := Take;
      } else if s.landed.Some? {
        a := Put;
      } else {
        NotExited(cfg, s);
        match s.sender
        case Holding(_) => a := Commit;
        case Cleared => a := Pop(0);
        case Polling =>
          if s.inflight != multiset{} {
            var q :| q in s.inflight;
            a := Land(q, true, true);
          } else {
            a := Check;
          }
      }
  }

  lemma SecondStep(cfg: Config, s: State, a: Action) returns (b: Action)
    requires Inv(cfg, s) && Healthy(s) && cfg.maxParallel >= 1
    requires s.completed < cfg.TotalRequests()
    requires Enabled(cfg, s, a) && Poll(cfg, s, a) && (a.Check? || a.Pop?) && s.handler.Idle? && s.responses == [] && s.landed.None?
    requires a.Check? ==> s.inflight == multiset{}
    ensures var s1 := Apply(cfg, s, a);
            Enabled(cfg, s1, b) && (b.Land? ==> b.ok) && !b.Timeout? && !b.TestBar? && !Poll(cfg, s1, b)
  {
    NotExited(cfg, s);
    if a.Check? {
      SomethingReady(cfg, s);
      b := Pop(0);
    } else {
      if s.inflight == multiset{} { SomethingReady(cfg, s); }
      var q :| q in s.inflight;
      b := Land(q, true, true);
    }
  }

  lemma MeasureBound(cfg: Config, s: State)
    requires Inv(cfg, s)
    ensures Measure(cfg, s) >= 0
  {
    SumBelow(s.rounds, cfg.totals);
  }

  ghost predicate Complete(cfg: Config, s: State) {
    && s.rounds == cfg.totals
    && s.completed == s.sent == s.progress == cfg.TotalRequests()
  }

  /** A failure-free state leads on to one where each client has done exactly its
      rounds and exactly the planned number of responses is handled. */
  lemma Completes(cfg: Config, s: State) returns (acts: seq<Action>, s': State)
    requires OnTrack(cfg, s) && cfg.maxParallel >= 1
    ensures Leads(cfg, s, acts, s') && FailureFree(acts) && Inv(cfg, s') && Complete(cfg, s')
    decreases Measure(cfg, s)
  {
    if s.completed >= cfg.TotalRequests() {
      acts, s' := [], s;
      SumBelow(s.rounds, cfg.totals);
      NothingOutgoing(cfg, s);
    } else {
      hide Inv, Healthy, Complete;
      var xs, m := NextSteps(cfg, s);
      MeasureBound(cfg, m);
      var ys;
      ys, s' := Completes(cfg, m);
      LeadsAppend(cfg, s, xs, m, ys, s');
      acts := xs + ys;
    }
  }

  /** When every round is done nothing is anywhere. */
  lemma NothingOutgoing(cfg: Config, s: State)
    requires Inv(cfg, s) && s.rounds == cfg.totals
    ensures OutgoingSize(s) == 0 && s.ready == [] && !s.sender.Holding?
  {
    RoundBarrierTheorems.EverythingFits(cfg, s);
    RoundBarrierTheorems.OutgoingCount(s, Request(0, 0));
  }

  lemma HandlerStep(cfg: Config, s: State) returns (a: Action)
    requires Inv(cfg, s) && Complete(cfg, s) && !s.handler.Stopped?
    ensures Enabled(cfg, s, a) && !a.Land? && Complete(cfg, Apply(cfg, s, a))
    ensures !Poll(cfg, s, a) || (a.Timeout? && !s.handler.TimedOut? && Apply(cfg, s, a).handler.TimedOut?)
  {
    NothingOutgoing(cfg, s);
    a := match s.handler
      case Idle => Timeout
      case TimedOut => TestBar
      case Counted(_) => FollowUp
      case AtBarrier => Barrier
      case _ => Release;
  }

  lemma HandlerLeaves(cfg: Config, s: State) returns (acts: seq<Action>, s': State)
    requires Inv(cfg, s) && Complete(cfg, s)
    ensures Leads(cfg, s, acts, s') && FailureFree(acts) && Inv(cfg, s') && Complete(cfg, s') && s'.handler.Stopped?
    decreases Measure(cfg, s), !s.handler.TimedOut?
  {
    if s.handler.Stopped? {
      acts, s' := [], s;
    } else {
      hide Inv, Measure;
      var a := HandlerStep(cfg, s);
      var m := Apply(cfg, s, a);
      StepKeepsInv(cfg, s, a);
      MeasureStep(cfg, s, a);
      MeasureBound(cfg, m);
      var rest;
      rest, s' := HandlerLeaves(cfg, m);
      OneMore(cfg, s, a, rest, s');
      acts := [a] + rest;
    }
  }

  lemma SenderLeaves(cfg: Config, s: State) returns (acts: seq<Action>, s': State)
    requires Inv(cfg, s) && Complete(cfg, s) && s.handler.Stopped? && cfg.maxParallel >= 1
    ensures Leads(cfg, s, acts, s') && FailureFree(acts)
    ensures Complete(cfg, s') && s'.handler.Stopped? && s'.sender.Exited?
  {
    NothingOutgoing(cfg, s);
    hide Inv;
    if s.sender.Exited? {
      acts, s' := [], s;
    } else {
      var m := if s.sender.Polling? then Apply(cfg, s, Check) else s;
      s' := Apply(cfg, m, Pop(0));
      assert Leads(cfg, s', [], s');
      OneMore(cfg, m, Pop(0), [], s');
      acts := [Pop(0)] + [];
      if s.sender.Polling? {
        OneMore(cfg, s, Check, acts, s');
        acts := [Check] + acts;
      }
    }
  }

  lemma {:induction false} RunKeepsHealthy(cfg: Config, s: State, acts: seq<Action>, s': State)
    requires Inv(cfg, s) && Healthy(s) && Leads(cfg, s, acts, s') && FailureFree(acts)
    ensures Inv(cfg, s') && Healthy(s')
    decreases |acts|
  {
    if acts != [] {
      assert acts[0] in acts;
      StepKeepsInv(cfg, s, acts[0]);
      StepKeepsHealthy(cfg, s, acts[0]);
      hide Inv, Healthy;
      RunKeepsHealthy(cfg, Apply(cfg, s, acts[0]), acts[1..], s');
    }
  }

  lemma InitHealthy(cfg: Config)
    ensures Healthy(Init(cfg))
  {
  }

  /** In an unfinished run without failures that has not gone past a full bar, a
      working step is at most two polls away, one of each thread. As working steps
      are bounded, only polling forever can keep such a run from completing. */
  lemma NoLivelock(cfg: Config, acts: seq<Action>, s: State) returns (more: seq<Action>, s': State)
    requires cfg.Valid() && cfg.maxParallel >= 1 && Leads(cfg, Init(cfg), acts, s) && FailureFree(acts)
    requires !Early(cfg, s) && s.completed < cfg.TotalRequests()
    ensures Leads(cfg, s, more, s') && FailureFree(more) && !Early(cfg, s')
    ensures 1 <= |more| <= 3 && Work(cfg, s, more) == 1
  {
    InitInv(cfg);
    InitHealthy(cfg);
    hide Inv, Healthy;
    RunKeepsHealthy(cfg, Init(cfg), acts, s);
    more, s' := NextSteps(cfg, s);
  }

  /** Wherever a run without failures stands, with or without the barrier, unless its
      handler has gone past a full bar too early it can go on until exactly
      `TotalRequests` responses are handled, each client has done exactly its rounds,
      and both threads have left their loops. */
  lemma FailureFreeCompletes(cfg: Config, acts: seq<Action>, s: State) returns (more: seq<Action>, s': State)
    requires cfg.Valid() && cfg.maxParallel >= 1 && Leads(cfg, Init(cfg), acts, s) && FailureFree(acts)
    requires !Early(cfg, s)
    ensures Leads(cfg, s, more, s') && FailureFree(more) && Complete(cfg, s')
    ensures s'.handler.Stopped? && s'.sender.Exited?
  {
    InitInv(cfg);
    InitHealthy(cfg);
    hide Inv, Healthy, Complete;
    RunKeepsHealthy(cfg, Init(cfg), acts, s);
    var m, n, out;
    more, m := Completes(cfg, s);
    out, n := HandlerLeaves(cfg, m);
    LeadsAppend(cfg, s, more, m, out, n);
    more := more + out;
    out, s' := SenderLeaves(cfg, n);
    LeadsAppend(cfg, s, more, n, out, s');
    more := more + out;
  }

  ghost predicate CanComplete(cfg: Config, s: State) {
    exists acts, s' :: Leads(cfg, s, acts, s') && Complete(cfg, s')
  }

  /** The condition is exact: a run without failures can still complete if and only
      if its handler has not gone past a full bar with responses missing. */
  lemma CompletionExact(cfg: Config, acts: seq<Action>, s: State)
    requires cfg.Valid() && cfg.maxParallel >= 1 && Leads(cfg, Init(cfg), acts, s) && FailureFree(acts)
    ensures CanComplete(cfg, s) <==> !Early(cfg, s)
  {
    if Early(cfg, s) {
      InitInv(cfg);
      RunKeepsInv(cfg, Init(cfg), acts, s);
      hide Inv;
      forall more, s' | Leads(cfg, s, more, s') ensures !Complete(cfg, s') {
        EarlyForever(cfg, s, more, s');
      }
    } else {
      var more, s' := FailureFreeCompletes(cfg, acts, s);
    }
  }

  /** A window of no requests sends nothing, so the bound on `maxParallel` above
      is exact whenever there is anything to send. */
  lemma {:induction false} NoWindowNoProgress(cfg: Config, s: State, acts: seq<Action>, s': State)
    requires Inv(cfg, s) && cfg.maxParallel < 1 && Leads(cfg, s, acts, s')
    ensures s'.sent == s.sent
    decreases |acts|
  {
    if acts != [] {
      StepKeepsInv(cfg, s, acts[0]);
      NoWindowNoProgress(cfg, Apply(cfg, s, acts[0]), acts[1..], s');
    }
  }

  lemma StalledStep(cfg: Config, s: State, a: Action, q: Request)
    requires Inv(cfg, s) && cfg.barrier && q in s.failed && Enabled(cfg, s, a)
    ensures q in Apply(cfg, s, a).failed && Apply(cfg, s, a).barrierRound == s.barrierRound
  {
    hide InActive, Occurrences;
    if s.handler.Releasing? {
      FoundIsDue(cfg, s, q);
      CountBelow(s.rounds, cfg.totals, s.barrierRound);
    }
  }

  /** A failed request stalls the barrier for good: no later round is opened. */
  lemma {:induction false} FailureStalls(cfg: Config, s: State, acts: seq<Action>, s': State, q: Request)
    requires Inv(cfg, s) && cfg.barrier && q in s.failed && Leads(cfg, s, acts, s')
    ensures s'.barrierRound == s.barrierRound && q in s'.failed
    ensures forall p :: InActive(s', p) > 0 ==> p.round == q.round
    decreases |acts|
  {
    hide InActive, Occurrences;
    if acts == [] {
      if s.handler.Releasing? {
        FoundIsDue(cfg, s, q);
        CountBelow(s.rounds, cfg.totals, s.barrierRound);
      }
    } else {
      StalledStep(cfg, s, acts[0], q);
      StepKeepsInv(cfg, s, acts[0]);
      FailureStalls(cfg, Apply(cfg, s, acts[0]), acts[1..], s', q);
    }
  }
}
