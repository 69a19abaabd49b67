/** Liveness of the load generator: under any fair schedule a run without failures
    completes, unless its handler goes past a full bar too early. */
module RoundBarrierFairness {
  import opened Wrappers
  import opened Counting
  import opened RoundBarrier
  import opened RoundBarrierSafety
  import opened RoundBarrierProgress

  /** What happens at each instant: an action of one of the threads, or nothing. */
  datatype Schedule = Schedule(state: nat -> State, action: nat -> Option<Action>)

  ghost predicate StepAt(cfg: Config, r: Schedule, n: nat) {
    match r.action(n)
    case None => r.state(n + 1) == r.state(n)
    case Some(a) =>
      Enabled(cfg, r.state(n), a) && r.state(n + 1) == Apply(cfg, r.state(n), a) && (a.Land? ==> a.ok)
  }

  /** A run from the start in which no response fails. */
  ghost predicate FailureFreeRun(cfg: Config, r: Schedule) {
    r.state(0) == Init(cfg) && forall n: nat :: StepAt(cfg, r, n)
  }

  // ---- Fairness --------------------------------------------------------------

  ghost predicate LoopActs(r: Schedule, n: nat) {
    r.action(n).Some? && LoopStep(r.action(n).value)
  }

  ghost predicate HandlerActs(r: Schedule, n: nat) {
    r.action(n).Some? && !LoopStep(r.action(n).value)
  }

  ghost predicate LoopCanAct(cfg: Config, s: State) {
    exists a :: LoopStep(a) && Enabled(cfg, s, a)
  }

  ghost predicate HandlerCanAct(cfg: Config, s: State) {
    exists a :: !LoopStep(a) && Enabled(cfg, s, a)
  }

  ghost predicate LoopTurn(cfg: Config, r: Schedule, n: nat) {
    exists m: nat :: n <= m && (LoopActs(r, m) || !LoopCanAct(cfg, r.state(m)))
  }

  ghost predicate HandlerTurn(cfg: Config, r: Schedule, n: nat) {
    exists m: nat :: n <= m && (HandlerActs(r, m) || !HandlerCanAct(cfg, r.state(m)))
  }

  ghost predicate Answers(r: Schedule, n: nat) {
    r.state(n).inflight == multiset{} || (r.action(n).Some? && r.action(n).value.Land?)
  }

  ghost predicate ServerTurn(r: Schedule, n: nat) {
    exists m: nat :: n <= m && Answers(r, m)
  }

  /** Neither thread is kept waiting forever while it could act, and while requests are
      in flight some response comes back. */
  ghost predicate Fair(cfg: Config, r: Schedule) {
    forall n: nat :: LoopTurn(cfg, r, n) && HandlerTurn(cfg, r, n) && ServerTurn(r, n)
  }

  /** The handler never goes past a full bar with responses missing. */
  ghost predicate NeverEarly(cfg: Config, r: Schedule) {
    forall n: nat :: !Early(cfg, r.state(n))
  }

  // ---- Working steps come to an end ------------------------------------------

  lemma {:induction false} OnTrackAt(cfg: Config, r: Schedule, n: nat)
    requires cfg.Valid() && FailureFreeRun(cfg, r) && NeverEarly(cfg, r)
    ensures OnTrack(cfg, r.state(n))
  {
    assert !Early(cfg, r.state(n));
    if n == 0 {
      InitInv(cfg);
      InitHealthy(cfg);
    } else {
      hide Inv, Healthy;
      OnTrackAt(cfg, r, n - 1);
      assert StepAt(cfg, r, n - 1);
      if r.action(n - 1).Some? {
        StepKeepsInv(cfg, r.state(n - 1), r.action(n - 1).value);
        StepKeepsHealthy(cfg, r.state(n - 1), r.action(n - 1).value);
      }
    }
  }

  ghost predicate Quiet(cfg: Config, r: Schedule, n: nat) {
    r.action(n).None? || Poll(cfg, r.state(n), r.action(n).value)
  }

  lemma MeasureAt(cfg: Config, r: Schedule, n: nat)
    requires FailureFreeRun(cfg, r)
    ensures Measure(cfg, r.state(n + 1)) <= Measure(cfg, r.state(n))
    ensures !Quiet(cfg, r, n) ==> Measure(cfg, r.state(n + 1)) < Measure(cfg, r.state(n))
  {
    hide Measure;
    assert StepAt(cfg, r, n);
    if r.action(n).Some? { MeasureStep(cfg, r.state(n), r.action(n).value); }
  }

  lemma {:induction false} MeasureFalls(cfg: Config, r: Schedule, n: nat, m: nat)
    requires FailureFreeRun(cfg, r) && n <= m
    ensures Measure(cfg, r.state(m)) <= Measure(cfg, r.state(n))
    decreases m
  {
    hide Measure, FailureFreeRun;
    if n < m {
      MeasureFalls(cfg, r, n, m - 1);
      MeasureAt(cfg, r, m - 1);
    }
  }

  ghost predicate QuietFrom(cfg: Config, r: Schedule, n: nat) {
    forall m: nat | n <= m :: Quiet(cfg, r, m)
  }

  /** From some instant on both threads only poll. */
  lemma LastWork(cfg: Config, r: Schedule, n: nat) returns (last: nat)
    requires cfg.Valid() && FailureFreeRun(cfg, r) && NeverEarly(cfg, r)
    ensures n <= last && QuietFrom(cfg, r, last)
    decreases Measure(cfg, r.state(n))
  {
    hide Measure, FailureFreeRun, NeverEarly, Quiet;
    if m: nat :| n <= m && !Quiet(cfg, r, m) {
      MeasureFalls(cfg, r, n, m);
      MeasureAt(cfg, r, m);
      OnTrackAt(cfg, r, m + 1);
      MeasureBound(cfg, r.state(m + 1)) by { OnTrackMeans(cfg, r.state(m + 1)); }
      last := LastWork(cfg, r, m + 1);
    } else {
      last := n;
    }
  }

  // ---- Polling changes nothing -----------------------------------------------

  /** All but where the two threads stand in their loops. */
  ghost predicate Frozen(s: State, s': State) {
    && s'.ready == s.ready && s'.sent == s.sent && s'.inflight == s.inflight && s'.landed == s.landed
    && s'.progress == s.progress && s'.responses == s.responses && s'.rounds == s.rounds && s'.completed == s.completed
  }

  lemma QuietStep(cfg: Config, r: Schedule, n: nat)
    requires FailureFreeRun(cfg, r) && Quiet(cfg, r, n)
    ensures Frozen(r.state(n), r.state(n + 1))
    ensures !LoopActs(r, n) ==> r.state(n + 1).sender == r.state(n).sender
    ensures !HandlerActs(r, n) ==> r.state(n + 1).handler == r.state(n).handler
  {
    assert StepAt(cfg, r, n);
  }

  lemma {:induction false} QuietFrozen(cfg: Config, r: Schedule, n: nat, m: nat)
    requires FailureFreeRun(cfg, r) && QuietFrom(cfg, r, n) && n <= m
    ensures Frozen(r.state(n), r.state(m))
    decreases m
  {
    hide FailureFreeRun, Quiet;
    if n < m {
      QuietFrozen(cfg, r, n, m - 1);
      assert Quiet(cfg, r, m - 1);
      QuietStep(cfg, r, m - 1);
    }
  }

  // ---- Turns -----------------------------------------------------------------

  lemma LoopStillCan(cfg: Config, s: State, s': State)
    requires Frozen(s, s') && s'.sender == s.sender && LoopCanAct(cfg, s)
    ensures LoopCanAct(cfg, s')
  {
    var a :| LoopStep(a) && Enabled(cfg, s, a);
    assert Enabled(cfg, s', a);
  }

  lemma HandlerStillCan(cfg: Config, s: State, s': State)
    requires Frozen(s, s') && s'.handler == s.handler && HandlerCanAct(cfg, s)
    ensures HandlerCanAct(cfg, s')
  {
    var a :| !LoopStep(a) && Enabled(cfg, s, a);
    assert Enabled(cfg, s', a);
  }

  lemma {:induction false} FirstLoopTurn(cfg: Config, r: Schedule, n: nat, k: nat) returns (m: nat)
    requires FailureFreeRun(cfg, r) && QuietFrom(cfg, r, n) && LoopCanAct(cfg, r.state(n))
    requires n <= k && (LoopActs(r, k) || !LoopCanAct(cfg, r.state(k)))
    ensures n <= m && LoopActs(r, m) && r.state(m).sender == r.state(n).sender
    decreases k - n
  {
    hide FailureFreeRun, LoopCanAct, LoopActs, Quiet;
    if LoopActs(r, n) {
      m := n;
    } else {
      assert Quiet(cfg, r, n);
      QuietStep(cfg, r, n);
      LoopStillCan(cfg, r.state(n), r.state(n + 1));
      m := FirstLoopTurn(cfg, r, n + 1, k);
    }
  }

  lemma {:induction false} FirstHandlerTurn(cfg: Config, r: Schedule, n: nat, k: nat) returns (m: nat)
    requires FailureFreeRun(cfg, r) && QuietFrom(cfg, r, n) && HandlerCanAct(cfg, r.state(n))
    requires n <= k && (HandlerActs(r, k) || !HandlerCanAct(cfg, r.state(k)))
    ensures n <= m && HandlerActs(r, m) && r.state(m).handler == r.state(n).handler
    decreases k - n
  {
    hide FailureFreeRun, HandlerCanAct, HandlerActs, Quiet;
    if HandlerActs(r, n) {
      m := n;
    } else {
      assert Quiet(cfg, r, n);
      QuietStep(cfg, r, n);
      HandlerStillCan(cfg, r.state(n), r.state(n + 1));
      m := FirstHandlerTurn(cfg, r, n + 1, k);
    }
  }

  /** The next time the event loop acts its sender is where it was. */
  lemma NextLoopTurn(cfg: Config, r: Schedule, n: nat, a: Action) returns (m: nat)
    requires FailureFreeRun(cfg, r) && Fair(cfg, r) && QuietFrom(cfg, r, n)
    requires LoopStep(a) && Enabled(cfg, r.state(n), a)
    ensures n <= m && LoopActs(r, m) && r.state(m).sender == r.state(n).sender
    ensures Frozen(r.state(n), r.state(m)) && Quiet(cfg, r, m) && Enabled(cfg, r.state(m), r.action(m).value)
  {
    hide FailureFreeRun, Quiet;
    assert LoopTurn(cfg, r, n);
    var k: nat :| n <= k && (LoopActs(r, k) || !LoopCanAct(cfg, r.state(k)));
    m := FirstLoopTurn(cfg, r, n, k);
    QuietFrozen(cfg, r, n, m);
    EnabledAt(cfg, r, m);
  }

  lemma NextHandlerTurn(cfg: Config, r: Schedule, n: nat, a: Action) returns (m: nat)
    requires FailureFreeRun(cfg, r) && Fair(cfg, r) && QuietFrom(cfg, r, n)
    requires !LoopStep(a) && Enabled(cfg, r.state(n), a)
    ensures n <= m && HandlerActs(r, m) && r.state(m).handler == r.state(n).handler
    ensures Frozen(r.state(n), r.state(m)) && Quiet(cfg, r, m) && Enabled(cfg, r.state(m), r.action(m).value)
  {
    hide FailureFreeRun, Quiet;
    assert HandlerTurn(cfg, r, n);
    var k: nat :| n <= k && (HandlerActs(r, k) || !HandlerCanAct(cfg, r.state(k)));
    m := FirstHandlerTurn(cfg, r, n, k);
    QuietFrozen(cfg, r, n, m);
    EnabledAt(cfg, r, m);
  }

  lemma EnabledAt(cfg: Config, r: Schedule, n: nat)
    requires FailureFreeRun(cfg, r) && r.action(n).Some?
    ensures Enabled(cfg, r.state(n), r.action(n).value)
    ensures r.state(n + 1) == Apply(cfg, r.state(n), r.action(n).value)
  {
    assert StepAt(cfg, r, n);
  }

  // ---- A quiet run is complete -----------------------------------------------

  lemma HandlerHasStep(cfg: Config, s: State) returns (a: Action)
    requires Inv(cfg, s) && !s.handler.Stopped?
    ensures !LoopStep(a) && Enabled(cfg, s, a)
    ensures !s.handler.Idle? && !s.handler.TimedOut? ==> forall b :: !LoopStep(b) && Enabled(cfg, s, b) ==> !Poll(cfg, s, b)
  {
    match s.handler
    case Idle => a := if s.responses == [] then Timeout else Take;
    case TimedOut => a := TestBar;
    case Took(x) =>
      TookIsActive(s);
      FoundIsDue(cfg, s, x.request);
      a := Count;
    case Counted(_) => a := FollowUp;
    case AtBarrier => a := Barrier;
    case Releasing(_) => a := Release;
  }

  /** A quiet handler waits, and nothing is in its queue. */
  lemma QuietHandler(cfg: Config, r: Schedule, n: nat)
    requires FailureFreeRun(cfg, r) && Fair(cfg, r) && QuietFrom(cfg, r, n)
    requires OnTrack(cfg, r.state(n)) && r.state(n).completed < cfg.TotalRequests()
    ensures (r.state(n).handler.Idle? || r.state(n).handler.TimedOut?) && r.state(n).responses == []
  {
    var s := r.state(n);
    OnTrackMeans(cfg, s);
    var a := HandlerHasStep(cfg, s);
    hide FailureFreeRun, Fair, Inv, OnTrack, Healthy;
    var m := NextHandlerTurn(cfg, r, n, a);
    EnabledAt(cfg, r, m);
    if s.handler.TimedOut? && s.responses != [] {
      var k := NextHandlerTurn(cfg, r, m + 1, Take);
    }
  }

  /** A quiet event loop has nothing on its way to the handler and nothing to send. */
  lemma QuietLoop(cfg: Config, r: Schedule, n: nat)
    requires FailureFreeRun(cfg, r) && Fair(cfg, r) && QuietFrom(cfg, r, n) && cfg.maxParallel >= 1
    requires OnTrack(cfg, r.state(n))
    ensures var s := r.state(n);
            && s.landed.None? && s.inflight == multiset{} && !s.sender.Holding?
            && (s.sent == s.completed && !s.sender.Exited? ==> s.ready == [])
  {
    OnTrackMeans(cfg, r.state(n));
    LandedPolls(cfg, r.state(n));
    hide Inv, OnTrack, Healthy;
    NothingLands(cfg, r, n);
    NothingHeld(cfg, r, n);
    SenderPolls(cfg, r, n);
  }

  lemma NothingHeld(cfg: Config, r: Schedule, n: nat)
    requires FailureFreeRun(cfg, r) && Fair(cfg, r) && QuietFrom(cfg, r, n)
    requires r.state(n).landed.Some? ==> r.state(n).sender.Polling?
    ensures r.state(n).landed.None? && !r.state(n).sender.Holding?
  {
    hide FailureFreeRun, Fair;
    var s := r.state(n);
    if s.landed.Some? || s.sender.Holding? {
      var m := NextLoopTurn(cfg, r, n, if s.landed.Some? then Put else Commit);
    }
  }

  lemma LandedPolls(cfg: Config, s: State)
    requires Inv(cfg, s)
    ensures s.landed.Some? ==> s.sender.Polling?
  {
  }

  lemma NothingLands(cfg: Config, r: Schedule, n: nat)
    requires FailureFreeRun(cfg, r) && Fair(cfg, r) && QuietFrom(cfg, r, n)
    ensures r.state(n).inflight == multiset{}
  {
    hide FailureFreeRun;
    assert ServerTurn(r, n);
    var m: nat :| n <= m && Answers(r, m);
    QuietFrozen(cfg, r, n, m);
    assert Quiet(cfg, r, m);
  }

  /** With the window open the sender does not only poll while a request is ready. */
  lemma SenderPolls(cfg: Config, r: Schedule, n: nat)
    requires FailureFreeRun(cfg, r) && Fair(cfg, r) && QuietFrom(cfg, r, n) && cfg.maxParallel >= 1
    requires r.state(n).landed.None? && r.state(n).inflight == multiset{} && !r.state(n).sender.Holding?
    ensures r.state(n).sent == r.state(n).completed && !r.state(n).sender.Exited? ==> r.state(n).ready == []
  {
    hide FailureFreeRun, Fair;
    var s := r.state(n);
    if s.sent == s.completed && !s.sender.Exited? && s.ready != [] {
      var m := NextLoopTurn(cfg, r, n, if s.sender.Polling? then Check else Pop(0));
      EnabledAt(cfg, r, m);
      if s.sender.Polling? {
        var k := NextLoopTurn(cfg, r, m + 1, Pop(0));
      }
    }
  }

  /** With nothing on its way and nothing ready, every response has been counted. */
  lemma QuietIsComplete(cfg: Config, s: State)
    requires OnTrack(cfg, s) && (s.handler.Idle? || s.handler.TimedOut?) && s.responses == []
    requires s.landed.None? && s.inflight == multiset{} && !s.sender.Holding?
    requires s.sent == s.completed && !s.sender.Exited? ==> s.ready == []
    ensures s.completed >= cfg.TotalRequests()
  {
    if s.completed < cfg.TotalRequests() {
      SomethingReady(cfg, s);
      NotExited(cfg, s);
    }
  }

  /** Under every fair schedule, whatever the interleaving and with or without the
      barrier, a run without failures comes to a state where each client has done exactly
      its rounds and exactly `TotalRequests` responses are handled, unless its handler
      goes past a full bar too early. */
  lemma FairRunsComplete(cfg: Config, r: Schedule) returns (n: nat)
    requires cfg.Valid() && cfg.maxParallel >= 1
    requires FailureFreeRun(cfg, r) && Fair(cfg, r) && NeverEarly(cfg, r)
    ensures Complete(cfg, r.state(n))
  {
    hide FailureFreeRun, Fair, NeverEarly, OnTrack, Complete, Quiet;
    n := LastWork(cfg, r, 0);
    OnTrackAt(cfg, r, n);
    if r.state(n).completed < cfg.TotalRequests() {
      QuietHandler(cfg, r, n);
      QuietLoop(cfg, r, n);
      QuietIsComplete(cfg, r.state(n));
    }
    AllCounted(cfg, r.state(n));
  }

  lemma AllCounted(cfg: Config, s: State)
    requires OnTrack(cfg, s) && s.completed >= cfg.TotalRequests()
    ensures Complete(cfg, s)
  {
    SumBelow(s.rounds, cfg.totals);
    NothingOutgoing(cfg, s);
  }
}
