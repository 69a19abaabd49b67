/** What every step of the load generator keeps. */
module RoundBarrierSafety {
  import opened Counting
  import opened RoundBarrier

  // ---- Where the requests are ------------------------------------------------

  /** How often `q` is among the requests sent to the server and not yet counted
      as completed. */
  function InOutgoing(s: State, q: Request): nat {
    s.inflight[q]
    + (if s.landed.Some? && s.landed.value.request == q then 1 else 0)
    + multiset(s.responses)[Response(q, true)] + multiset(s.responses)[Response(q, false)]
    + (if s.handler.Took? && s.handler.response.request == q then 1 else 0)
  }

  function OutgoingSize(s: State): nat {
    |s.inflight| + (if s.landed.Some? then 1 else 0) + |s.responses| + (if s.handler.Took? then 1 else 0)
  }

  /** How often `q` is ready, being sent, in flight or awaiting handling. */
  function InActive(s: State, q: Request): nat {
    multiset(s.ready)[q] + (if s.sender.Holding? && s.sender.request == q then 1 else 0) + InOutgoing(s, q)
  }

  /** Requests held back by the barrier: the ones a release has still to append. */
  function Held(s: State): seq<Request> {
    if s.handler.Releasing? then s.handler.rest else s.held
  }

  predicate Unfinished(cfg: Config, s: State, c: nat) {
    c < |s.rounds| == |cfg.totals| && s.rounds[c] < cfg.totals[c]
  }

  predicate FollowsUp(cfg: Config, s: State) {
    s.handler.Counted? && Unfinished(cfg, s, s.handler.request.client)
  }

  /** How often `q` is anywhere, the failed requests included. */
  function Occurrences(cfg: Config, s: State, q: Request): nat {
    InActive(s, q) + multiset(Held(s))[q] + s.failed[q]
    + (if FollowsUp(cfg, s) && s.handler.request == q then 1 else 0)
  }

  // ---- The invariant ---------------------------------------------------------

  /** `q` is the request an unfinished client is due to have. */
  predicate Due(cfg: Config, s: State, q: Request) {
    Unfinished(cfg, s, q.client) && q.round == s.rounds[q.client]
  }

  /** Each unfinished client has exactly one request, of its current round, and
      there are no other requests. */
  ghost predicate Tokens(cfg: Config, s: State) {
    && Below(s.rounds, cfg.totals)
    && (forall q :: Occurrences(cfg, s, q) == if Due(cfg, s, q) then 1 else 0)
    && (s.handler.Counted? ==>
          && s.handler.request.client < |s.rounds|
          && s.handler.request.round == s.rounds[s.handler.request.client])
  }

  /** The counters agree with where the requests are. */
  ghost predicate Counters(cfg: Config, s: State) {
    && s.sent == s.completed + OutgoingSize(s)
    && s.completed == Sum(s.rounds) + |s.failed|
    && s.progress <= s.completed + OutgoingSize(s) - |s.inflight|
    && (s.sender.Exited? ==> s.progress == cfg.TotalRequests())
    && (s.landed.Some? ==> s.sender.Polling?)
  }

  /** The window of the sender. */
  ghost predicate Window(cfg: Config, s: State) {
    && s.sent - s.completed <= (if cfg.maxParallel > 0 then cfg.maxParallel else 0)
    && (s.sender.Cleared? || s.sender.Holding? ==> s.sent - s.completed < cfg.maxParallel)
  }

  /** Every follow-up question asked so far was taken from the supply. */
  ghost predicate Supply(cfg: Config, s: State) {
    && |s.rounds| == |cfg.totals|
    && s.supply + cfg.PlannedFollowUps() ==
       cfg.SubQuestions() + FollowUps(cfg.totals, s.rounds) + (if FollowsUp(cfg, s) then 1 else 0)
  }

  /** The round the active requests belong to. */
  function ActiveRound(s: State): nat {
    if s.handler.Releasing? then s.barrierRound + 1 else s.barrierRound
  }

  ghost predicate BarrierRounds(cfg: Config, s: State) {
    && |s.rounds| == |cfg.totals|
    && (forall c | 0 <= c < |s.rounds| ::
          && s.rounds[c] <= s.barrierRound + 1
          && (s.rounds[c] >= s.barrierRound || s.rounds[c] == cfg.totals[c]))
    && (forall q :: InActive(s, q) > 0 ==> q.round == ActiveRound(s))
    && (forall q :: q in Held(s) ==> q.round == s.barrierRound + 1)
    && (forall q :: q in s.failed ==> q.round == s.barrierRound)
    && (s.handler.Counted? ==> s.handler.request.round == s.barrierRound + 1)
  }

  ghost predicate BarrierCount(cfg: Config, s: State) {
    var done := CountAbove(s.rounds, s.barrierRound);
    var expected := CountAbove(cfg.totals, s.barrierRound);
    if s.handler.Counted? || s.handler.AtBarrier? then done == s.barrierDone + 1 <= expected
    else if s.handler.Releasing? then done == s.barrierDone == expected
    else done == s.barrierDone && (expected > 0 ==> done < expected)
  }

  ghost predicate NoBarrier(s: State) {
    s.held == [] && !s.handler.AtBarrier? && !s.handler.Releasing?
  }

  ghost predicate Inv(cfg: Config, s: State) {
    && cfg.Valid()
    && Tokens(cfg, s)
    && Counters(cfg, s)
    && Window(cfg, s)
    && Supply(cfg, s)
    && (cfg.barrier ==> BarrierRounds(cfg, s) && BarrierCount(cfg, s))
    && (!cfg.barrier ==> NoBarrier(s))
  }

  // ---- Initial states --------------------------------------------------------

  /** A sequence that lists client `i` at place `i` lists each request once. */
  lemma LineupOnce(qs: seq<Request>, q: Request)
    requires forall i | 0 <= i < |qs| :: qs[i] == Request(i, 0)
    ensures multiset(qs)[q] == if q.client < |qs| && q.round == 0 then 1 else 0
  {
    if q in qs {
      var c := q.client;
      assert qs == qs[..c] + [qs[c]] + qs[c + 1..];
      assert q !in qs[..c] && q !in qs[c + 1..];
    } else if q.client < |qs| {
      assert qs[q.client] in qs;
    }
  }

  lemma InitInv(cfg: Config)
    requires cfg.Valid()
    ensures Inv(cfg, Init(cfg))
  {
    var s := Init(cfg);
    forall q ensures multiset(s.ready)[q] == if q.client < |s.ready| && q.round == 0 then 1 else 0 {
      LineupOnce(s.ready, q);
    }
    ZeroSum(|cfg.totals|);
    CountNone(s.rounds, 0);
    if |cfg.totals| > 0 { CountSome(cfg.totals, 0, 0); }
  }

  // ---- The event loop --------------------------------------------------------

  predicate LoopStep(a: Action) {
    a.Check? || a.Pop? || a.Commit? || a.Land? || a.Put?
  }

  lemma PopMoves(cfg: Config, s: State, i: nat, q: Request)
    requires Enabled(cfg, s, Pop(i))
    ensures InActive(Apply(cfg, s, Pop(i)), q) == InActive(s, q)
  {
    if s.ready != [] { WithoutOne(s.ready, i, q); }
  }

  lemma WithoutOne(qs: seq<Request>, i: nat, q: Request)
    requires i < |qs|
    ensures multiset(qs)[q] == multiset(qs[..i] + qs[i + 1..])[q] + (if qs[i] == q then 1 else 0)
  {
    assert qs == qs[..i] + [qs[i]] + qs[i + 1..];
  }

  lemma LandMoves(cfg: Config, s: State, a: Action, q: Request)
    requires a.Land? && Enabled(cfg, s, a)
    ensures InActive(Apply(cfg, s, a), q) == InActive(s, q)
  {
  }

  lemma PutMoves(cfg: Config, s: State, q: Request)
    requires Enabled(cfg, s, Put)
    ensures InActive(Apply(cfg, s, Put), q) == InActive(s, q)
  {
  }

  lemma CommitMoves(cfg: Config, s: State, q: Request)
    requires Enabled(cfg, s, Commit)
    ensures InActive(Apply(cfg, s, Commit), q) == InActive(s, q)
  {
  }

  /** The event loop moves requests among the active places only. */
  lemma LoopMoves(cfg: Config, s: State, a: Action, q: Request)
    requires LoopStep(a) && Enabled(cfg, s, a)
    ensures InActive(Apply(cfg, s, a), q) == InActive(s, q)
  {
    match a
    case Check =>
    case Pop(i) => PopMoves(cfg, s, i, q);
    case Commit => CommitMoves(cfg, s, q);
    case Land(_, _, _) => LandMoves(cfg, s, a, q);
    case Put => PutMoves(cfg, s, q);
  }

  lemma LoopSizes(cfg: Config, s: State, a: Action)
    requires LoopStep(a) && Enabled(cfg, s, a)
    ensures OutgoingSize(Apply(cfg, s, a)) == OutgoingSize(s) + (if a.Commit? then 1 else 0)
    ensures |Apply(cfg, s, a).inflight| == |s.inflight| + (if a.Commit? then 1 else if a.Land? then -1 else 0)
  {
    if a.Land? { assert s.inflight == (s.inflight - multiset{a.request}) + multiset{a.request}; }
  }

  /** A step of the event loop leaves what the handler owns alone. */
  ghost predicate HandlerSideSame(s: State, s': State) {
    && s'.handler == s.handler && s'.rounds == s.rounds && s'.completed == s.completed
    && s'.supply == s.supply && s'.held == s.held && s'.failed == s.failed
    && s'.barrierRound == s.barrierRound && s'.barrierDone == s.barrierDone
    && forall q :: InActive(s', q) == InActive(s, q)
  }

  lemma LoopLeavesHandler(cfg: Config, s: State, a: Action)
    requires LoopStep(a) && Enabled(cfg, s, a)
    ensures HandlerSideSame(s, Apply(cfg, s, a))
  {
    hide InActive;
    forall q ensures InActive(Apply(cfg, s, a), q) == InActive(s, q) {
      LoopMoves(cfg, s, a, q);
    }
  }

  lemma HandlerSideKept(cfg: Config, s: State, s': State)
    requires Inv(cfg, s) && HandlerSideSame(s, s')
    ensures Tokens(cfg, s') && Supply(cfg, s')
    ensures cfg.barrier ==> BarrierRounds(cfg, s') && BarrierCount(cfg, s')
  {
    hide InActive;
    assert forall q :: Occurrences(cfg, s', q) == Occurrences(cfg, s, q);
  }

  lemma LoopKeepsInv(cfg: Config, s: State, a: Action)
    requires Inv(cfg, s) && LoopStep(a) && Enabled(cfg, s, a)
    ensures Inv(cfg, Apply(cfg, s, a))
  {
    hide InActive, Tokens, BarrierRounds, BarrierCount, Supply;
    LoopLeavesHandler(cfg, s, a);
    HandlerSideKept(cfg, s, Apply(cfg, s, a));
    LoopSizes(cfg, s, a);
  }

  // ---- The handler -----------------------------------------------------------

  lemma {:induction false} FollowUpsIncrement(totals: seq<nat>, rounds: seq<nat>, c: nat)
    requires |totals| == |rounds| && c < |rounds|
    ensures FollowUps(totals, rounds) ==
            FollowUps(totals, rounds[c := rounds[c] + 1]) + (if rounds[c] + 1 < totals[c] then 1 else 0)
  {
    var n := |totals| - 1;
    var rounds' := rounds[c := rounds[c] + 1];
    if c == n {
      assert rounds'[..n] == rounds[..n];
    } else {
      assert rounds'[..n] == rounds[..n][c := rounds[c] + 1];
      FollowUpsIncrement(totals[..n], rounds[..n], c);
    }
  }

  /** A request found anywhere is the one its client is due to have. */
  lemma FoundIsDue(cfg: Config, s: State, q: Request)
    requires Tokens(cfg, s) && (InActive(s, q) > 0 || q in Held(s) || q in s.failed)
    ensures Due(cfg, s, q)
  {
    assert Occurrences(cfg, s, q) > 0;
  }

  lemma TookIsActive(s: State)
    requires s.handler.Took?
    ensures InActive(s, s.handler.response.request) > 0
  {
  }

  lemma TakeMoves(cfg: Config, s: State, q: Request)
    requires Enabled(cfg, s, Take)
    ensures InActive(Apply(cfg, s, Take), q) == InActive(s, q)
    ensures Occurrences(cfg, Apply(cfg, s, Take), q) == Occurrences(cfg, s, q)
  {
    assert s.responses == [s.responses[0]] + s.responses[1..];
  }

  lemma TakeKeepsInv(cfg: Config, s: State)
    requires Inv(cfg, s) && Enabled(cfg, s, Take)
    ensures Inv(cfg, Apply(cfg, s, Take))
  {
    hide InActive, Occurrences;
    forall q ensures InActive(Apply(cfg, s, Take), q) == InActive(s, q)
             ensures Occurrences(cfg, Apply(cfg, s, Take), q) == Occurrences(cfg, s, q) {
      TakeMoves(cfg, s, q);
    }
  }

  lemma FailMoves(cfg: Config, s: State, q: Request)
    requires Enabled(cfg, s, Count) && !s.handler.response.ok
    ensures InActive(Apply(cfg, s, Count), q) <= InActive(s, q)
    ensures Occurrences(cfg, Apply(cfg, s, Count), q) == Occurrences(cfg, s, q)
  {
  }

  lemma FailKeepsInv(cfg: Config, s: State)
    requires Inv(cfg, s) && Enabled(cfg, s, Count) && !s.handler.response.ok
    ensures Inv(cfg, Apply(cfg, s, Count))
  {
    hide InActive, Occurrences, Sum, CountAbove, FollowUps;
    TookIsActive(s);
    forall q ensures InActive(Apply(cfg, s, Count), q) <= InActive(s, q)
             ensures Occurrences(cfg, Apply(cfg, s, Count), q) == Occurrences(cfg, s, q) {
      FailMoves(cfg, s, q);
    }
  }

  lemma SucceedMoves(cfg: Config, s: State, q: Request)
    requires |s.rounds| == |cfg.totals| && Enabled(cfg, s, Count) && s.handler.response.ok
    ensures InActive(Apply(cfg, s, Count), q) <= InActive(s, q)
    ensures var done := s.handler.response.request;
            var s' := Apply(cfg, s, Count);
            Occurrences(cfg, s', q) == Occurrences(cfg, s, q) - (if q == done then 1 else 0)
              + (if q == Request(done.client, s.rounds[done.client] + 1) && Unfinished(cfg, s', q.client) then 1 else 0)
  {
  }

  lemma SucceedKeepsTokens(cfg: Config, s: State)
    requires Tokens(cfg, s) && Enabled(cfg, s, Count) && s.handler.response.ok
    ensures Due(cfg, s, s.handler.response.request)
    ensures Tokens(cfg, Apply(cfg, s, Count))
  {
    hide InActive, Occurrences;
    TookIsActive(s);
    FoundIsDue(cfg, s, s.handler.response.request);
    var s' := Apply(cfg, s, Count);
    forall q ensures Occurrences(cfg, s', q) == if Due(cfg, s', q) then 1 else 0 {
      SucceedMoves(cfg, s, q);
    }
  }

  lemma SucceedKeepsBarrier(cfg: Config, s: State)
    requires Inv(cfg, s) && cfg.barrier && Enabled(cfg, s, Count) && s.handler.response.ok
    ensures BarrierRounds(cfg, Apply(cfg, s, Count)) && BarrierCount(cfg, Apply(cfg, s, Count))
  {
    var s' := Apply(cfg, s, Count);
    var c := s.handler.response.request.client;
    hide InActive, Occurrences;
    TookIsActive(s);
    FoundIsDue(cfg, s, s.handler.response.request);
    forall q ensures InActive(s', q) <= InActive(s, q) { SucceedMoves(cfg, s, q); }
    CountIncrement(s.rounds, c, s.barrierRound);
    CountBelow(s'.rounds, cfg.totals, s.barrierRound);
  }

  lemma SucceedKeepsInv(cfg: Config, s: State)
    requires Inv(cfg, s) && Enabled(cfg, s, Count) && s.handler.response.ok
    ensures Inv(cfg, Apply(cfg, s, Count))
  {
    hide InActive, Occurrences, BarrierRounds, BarrierCount, Sum, FollowUps;
    var c := s.handler.response.request.client;
    SucceedKeepsTokens(cfg, s);
    hide Tokens;
    SumIncrement(s.rounds, c);
    FollowUpsIncrement(cfg.totals, s.rounds, c);
    if cfg.barrier { SucceedKeepsBarrier(cfg, s); }
  }

  lemma FollowUpActive(cfg: Config, s: State, q: Request)
    requires Enabled(cfg, s, FollowUp)
    ensures InActive(Apply(cfg, s, FollowUp), q) == InActive(s, q)
              + (if FollowsUp(cfg, s) && !cfg.barrier && s.handler.request == q then 1 else 0)
  {
  }

  lemma FollowUpMoves(cfg: Config, s: State, q: Request)
    requires Enabled(cfg, s, FollowUp)
    ensures Occurrences(cfg, Apply(cfg, s, FollowUp), q) == Occurrences(cfg, s, q)
    ensures cfg.barrier ==> InActive(Apply(cfg, s, FollowUp), q) == InActive(s, q)
  {
    hide InActive;
    FollowUpActive(cfg, s, q);
  }

  lemma FollowUpKeepsInv(cfg: Config, s: State)
    requires Inv(cfg, s) && Enabled(cfg, s, FollowUp)
    ensures Inv(cfg, Apply(cfg, s, FollowUp))
  {
    hide InActive, Occurrences;
    forall q ensures Occurrences(cfg, Apply(cfg, s, FollowUp), q) == Occurrences(cfg, s, q)
             ensures cfg.barrier ==> InActive(Apply(cfg, s, FollowUp), q) == InActive(s, q) {
      FollowUpMoves(cfg, s, q);
    }
  }

  /** When the round's completions match the round's clients, every client with
      that round has succeeded in it, so nothing is active and nothing failed. */
  lemma RoundIsOver(cfg: Config, s: State)
    requires Tokens(cfg, s) && BarrierRounds(cfg, s) && !s.handler.Releasing?
    requires CountAbove(s.rounds, s.barrierRound) == CountAbove(cfg.totals, s.barrierRound)
    ensures forall c | 0 <= c < |s.rounds| :: cfg.totals[c] > s.barrierRound ==> s.rounds[c] == s.barrierRound + 1
    ensures forall q :: InActive(s, q) == 0
    ensures s.failed == multiset{}
  {
    CountBelow(s.rounds, cfg.totals, s.barrierRound);
    hide InActive, Occurrences;
    forall q ensures InActive(s, q) == 0 && q !in s.failed {
      if InActive(s, q) > 0 || q in s.failed { FoundIsDue(cfg, s, q); }
    }
  }

  lemma BarrierMoves(cfg: Config, s: State, q: Request)
    requires Enabled(cfg, s, Barrier)
    ensures InActive(Apply(cfg, s, Barrier), q) == InActive(s, q)
    ensures Occurrences(cfg, Apply(cfg, s, Barrier), q) == Occurrences(cfg, s, q)
  {
    hide CountAbove;
    SameActive(s, Apply(cfg, s, Barrier), q);
    hide InActive;
  }

  /** The handler's place does not matter to what is active, unless a response has
      been taken. */
  lemma SameActive(s: State, s': State, q: Request)
    requires s'.ready == s.ready && s'.sender == s.sender && s'.inflight == s.inflight
    requires s'.landed == s.landed && s'.responses == s.responses && !s.handler.Took? && !s'.handler.Took?
    ensures InActive(s', q) == InActive(s, q)
  {
  }

  lemma BarrierKeepsRounds(cfg: Config, s: State)
    requires Inv(cfg, s) && cfg.barrier && Enabled(cfg, s, Barrier)
    requires forall q :: InActive(Apply(cfg, s, Barrier), q) == InActive(s, q)
    ensures BarrierRounds(cfg, Apply(cfg, s, Barrier)) && BarrierCount(cfg, Apply(cfg, s, Barrier))
  {
    hide InActive, Occurrences, Supply, Counters, Window;
    if s.barrierRound >= cfg.maxRounds { CountNone(cfg.totals, s.barrierRound); }
    if Apply(cfg, s, Barrier).handler.Releasing? { RoundIsOver(cfg, s); }
  }

  lemma BarrierKeepsTokens(cfg: Config, s: State)
    requires Tokens(cfg, s) && Enabled(cfg, s, Barrier)
    ensures Tokens(cfg, Apply(cfg, s, Barrier))
    ensures forall q :: InActive(Apply(cfg, s, Barrier), q) == InActive(s, q)
  {
    hide InActive, Occurrences;
    forall q ensures InActive(Apply(cfg, s, Barrier), q) == InActive(s, q)
             ensures Occurrences(cfg, Apply(cfg, s, Barrier), q) == Occurrences(cfg, s, q) {
      BarrierMoves(cfg, s, q);
    }
  }

  lemma BarrierKeepsInv(cfg: Config, s: State)
    requires Inv(cfg, s) && Enabled(cfg, s, Barrier)
    ensures Inv(cfg, Apply(cfg, s, Barrier))
  {
    var s' := Apply(cfg, s, Barrier);
    hide InActive, Occurrences, BarrierRounds, BarrierCount;
    BarrierKeepsTokens(cfg, s);
    hide Tokens;
    BarrierKeepsRounds(cfg, s);
  }

  lemma ReleaseMoves(cfg: Config, s: State, q: Request)
    requires Enabled(cfg, s, Release)
    ensures var s' := Apply(cfg, s, Release);
            && Occurrences(cfg, s', q) == Occurrences(cfg, s, q)
            && InActive(s', q) == InActive(s, q)
               + (if s.handler.rest != [] && q == s.handler.rest[0] then 1 else 0)
  {
    if s.handler.rest != [] {
      assert s.handler.rest == [s.handler.rest[0]] + s.handler.rest[1..];
    }
  }

  lemma AppendKeepsInv(cfg: Config, s: State)
    requires Inv(cfg, s) && Enabled(cfg, s, Release) && s.handler.rest != []
    ensures Inv(cfg, Apply(cfg, s, Release))
  {
    var s' := Apply(cfg, s, Release);
    hide InActive, Occurrences;
    forall q ensures Occurrences(cfg, s', q) == Occurrences(cfg, s, q)
             ensures InActive(s', q) == InActive(s, q) + (if q == s.handler.rest[0] then 1 else 0) {
      ReleaseMoves(cfg, s, q);
    }
    if cfg.barrier { AppendKeepsRounds(cfg, s); }
    hide BarrierRounds;
  }

  /** The released request is one of those held back, so it is of the next round. */
  lemma AppendKeepsRounds(cfg: Config, s: State)
    requires BarrierRounds(cfg, s) && Enabled(cfg, s, Release) && s.handler.rest != []
    requires forall q :: InActive(Apply(cfg, s, Release), q) ==
               InActive(s, q) + (if q == s.handler.rest[0] then 1 else 0)
    ensures BarrierRounds(cfg, Apply(cfg, s, Release))
  {
    hide InActive;
    var rest := s.handler.rest;
    assert forall q :: q in rest[1..] ==> q in rest;
    assert rest[0] in Held(s);
  }

  lemma NextRoundKeepsInv(cfg: Config, s: State)
    requires Inv(cfg, s) && Enabled(cfg, s, Release) && s.handler.rest == []
    ensures Inv(cfg, Apply(cfg, s, Release))
  {
    var s' := Apply(cfg, s, Release);
    hide InActive, Occurrences;
    forall q ensures Occurrences(cfg, s', q) == Occurrences(cfg, s, q) && InActive(s', q) == InActive(s, q) {
      ReleaseMoves(cfg, s, q);
    }
    CountBelow(s.rounds, cfg.totals, s.barrierRound);
    CountNone(s.rounds, s.barrierRound + 1);
    forall q ensures q !in s.failed { if q in s.failed { FoundIsDue(cfg, s, q); } }
  }

  lemma WaitMoves(cfg: Config, s: State, a: Action, q: Request)
    requires (a.Timeout? || a.TestBar?) && Enabled(cfg, s, a)
    ensures InActive(Apply(cfg, s, a), q) == InActive(s, q)
    ensures Occurrences(cfg, Apply(cfg, s, a), q) == Occurrences(cfg, s, q)
  {
    SameActive(s, Apply(cfg, s, a), q);
    hide InActive;
  }

  lemma WaitKeepsInv(cfg: Config, s: State, a: Action)
    requires Inv(cfg, s) && (a.Timeout? || a.TestBar?) && Enabled(cfg, s, a)
    ensures Inv(cfg, Apply(cfg, s, a))
  {
    hide InActive, Occurrences;
    forall q ensures InActive(Apply(cfg, s, a), q) == InActive(s, q)
             ensures Occurrences(cfg, Apply(cfg, s, a), q) == Occurrences(cfg, s, q) {
      WaitMoves(cfg, s, a, q);
    }
  }

  /** Every step keeps the invariant. */
  lemma StepKeepsInv(cfg: Config, s: State, a: Action)
    requires Inv(cfg, s) && Enabled(cfg, s, a)
    ensures Inv(cfg, Apply(cfg, s, a))
  {
    hide Inv;
    match a
    case Take => TakeKeepsInv(cfg, s);
    case Count => if s.handler.response.ok { SucceedKeepsInv(cfg, s); } else { FailKeepsInv(cfg, s); }
    case FollowUp => FollowUpKeepsInv(cfg, s);
    case Barrier => BarrierKeepsInv(cfg, s);
    case Release => if s.handler.rest != [] { AppendKeepsInv(cfg, s); } else { NextRoundKeepsInv(cfg, s); }
    case Timeout => WaitKeepsInv(cfg, s, a);
    case TestBar => WaitKeepsInv(cfg, s, a);
    case _ => LoopKeepsInv(cfg, s, a);
  }

  lemma {:induction false} RunKeepsInv(cfg: Config, s: State, acts: seq<Action>, s': State)
    requires Inv(cfg, s) && Leads(cfg, s, acts, s')
    ensures Inv(cfg, s')
    decreases |acts|
  {
    hide Inv;
    if acts != [] {
      StepKeepsInv(cfg, s, acts[0]);
      RunKeepsInv(cfg, Apply(cfg, s, acts[0]), acts[1..], s');
    }
  }

  lemma {:induction false} LeadsAppend(cfg: Config, s: State, xs: seq<Action>, m: State, ys: seq<Action>, s': State)
    requires Leads(cfg, s, xs, m) && Leads(cfg, m, ys, s')
    ensures Leads(cfg, s, xs + ys, s')
    decreases |xs|
  {
    if xs == [] {
      assert xs + ys == ys;
    } else {
      LeadsAppend(cfg, Apply(cfg, s, xs[0]), xs[1..], m, ys, s');
      assert (xs + ys)[1..] == xs[1..] + ys;
    }
  }

  lemma OneMore(cfg: Config, s: State, a: Action, acts: seq<Action>, s': State)
    requires Enabled(cfg, s, a) && Leads(cfg, Apply(cfg, s, a), acts, s')
    ensures Leads(cfg, s, [a] + acts, s')
  {
    assert ([a] + acts)[1..] == acts;
  }

  lemma {:induction false} LastStep(cfg: Config, s: State, acts: seq<Action>, s': State) returns (m: State)
    requires acts != [] && Leads(cfg, s, acts, s')
    ensures Leads(cfg, s, acts[..|acts| - 1], m) && Enabled(cfg, m, acts[|acts| - 1])
    ensures s' == Apply(cfg, m, acts[|acts| - 1])
    decreases |acts|
  {
    hide Apply, Enabled;
    var n := |acts| - 1;
    if n == 0 {
      m := s;
      assert acts[1..] == [] && acts[..0] == [];
    } else {
      m := LastStep(cfg, Apply(cfg, s, acts[0]), acts[1..], s');
      assert acts[1..][..n - 1] == acts[..n][1..] && acts[1..][n - 1] == acts[n];
    }
  }

  lemma ReachableInv(cfg: Config, s: State)
    requires cfg.Valid() && Reachable(cfg, s)
    ensures Inv(cfg, s)
  {
    hide Inv;
    var acts :| Leads(cfg, Init(cfg), acts, s);
    InitInv(cfg);
    RunKeepsInv(cfg, Init(cfg), acts, s);
  }
}
