/** The classes of benchmark/hicache/bench_multiturn.py. Each method is one
    segment of a thread between two accesses to shared data, and carries out one
    action of the state machine; a whole pass of the handler is a path of it. */
module WorkloadGenerators {
  import opened Wrappers
  import opened Counting
  import opened RoundBarrier
  import RoundBarrierSafety
  import RoundBarrierTheorems

  class ReadyQueue {
    var requests: seq<Request>
    const policy: string

    constructor (init: seq<Request>, policy: string)
      ensures requests == init && this.policy == policy
    {
      requests := init;
      this.policy := policy;
    }

    method Append(item: Request)
      modifies this
      ensures requests == old(requests) + [item]
    {
      requests := requests + [item];
    }

    /** `pick` stands for the drawn index of the random policy. The item removed
        is the one returned, the rest keeps its order, and an unknown policy is an
        error that leaves the queue alone. */
    method Pop(pick: nat) returns (r: Result<Option<Request>>)
      requires requests != [] ==> pick < |requests|
      modifies this
      ensures old(requests) == [] ==> r == Ok(None) && requests == []
      ensures old(requests) != [] && policy != "random" && policy != "fifo" ==>
                r == Err(ValueError) && requests == old(requests)
      ensures old(requests) != [] && (policy == "random" || policy == "fifo") ==>
                var i := if policy == "fifo" then 0 else pick;
                r == Ok(Some(old(requests)[i])) && requests == old(requests)[..i] + old(requests)[i + 1..]
    {
      if requests == [] {
        return Ok(None);
      }
      if policy == "random" {
        r := Ok(Some(requests[pick]));
        requests := requests[..pick] + requests[pick + 1..];
      } else if policy == "fifo" {
        r := Ok(Some(requests[0]));
        requests := requests[1..];
      } else {
        r := Err(ValueError);
      }
    }
  }

  /** The plan of a run from the flags; `draws` are the random round counts. */
  function Plan(minRounds: int, maxRounds: int, numRounds: int, clients: nat, draws: seq<nat>,
                barrier: bool, maxParallel: int): (r: Result<Config>)
    requires ResolveRounds(minRounds, maxRounds, numRounds).Ok? ==>
               var (lo, hi) := ResolveRounds(minRounds, maxRounds, numRounds).value;
               |draws| == clients && forall c | 0 <= c < |draws| :: lo <= draws[c] <= hi
    ensures r == Err(ValueError) <==>
              if minRounds == 0 && maxRounds == 0 then numRounds < 1
              else if minRounds == 0 || maxRounds == 0 then minRounds + maxRounds < 1
              else minRounds < 1 || minRounds > maxRounds
    ensures r.Err? ==> r == Err(ValueError)
    ensures r.Ok? ==> r.value.Valid() && |r.value.totals| == clients
    ensures r.Ok? ==> r.value.totals == draws && r.value.barrier == barrier && r.value.maxParallel == maxParallel
    ensures r.Ok? ==>
              if minRounds == 0 && maxRounds == 0 then r.value.maxRounds == numRounds
              else if minRounds == 0 || maxRounds == 0 then r.value.maxRounds == minRounds + maxRounds
              else r.value.maxRounds == maxRounds
    ensures r.Ok? ==> SumOfCounts(r.value.totals, r.value.maxRounds) == r.value.TotalRequests()
  {
    var bounds := ResolveRounds(minRounds, maxRounds, numRounds);
    if bounds.Err? then Err(ValueError)
    else
      var (lo, hi) := bounds.value;
      var totals := if lo == hi then seq(clients, _ => lo) else draws;
      assert totals == draws;
      DoubleCounting(totals, hi);
      Ok(Config(totals, hi, barrier, maxParallel))
  }

  /** What the flags promise of every run planned from them: with the barrier flag on,
      active requests are of one round, held ones of the next, and every client is through
      with its rounds below the active one; and requests between sender and counter never
      exceed the window flag. */
  lemma PlannedRun(minRounds: int, maxRounds: int, numRounds: int, clients: nat, draws: seq<nat>,
                   barrier: bool, maxParallel: int, s: State)
    requires ResolveRounds(minRounds, maxRounds, numRounds).Ok? ==>
               var (lo, hi) := ResolveRounds(minRounds, maxRounds, numRounds).value;
               |draws| == clients && forall c | 0 <= c < |draws| :: lo <= draws[c] <= hi
    requires var p := Plan(minRounds, maxRounds, numRounds, clients, draws, barrier, maxParallel);
             p.Ok? && Reachable(p.value, s)
    ensures |s.rounds| == clients == |draws| && forall c | 0 <= c < clients :: s.rounds[c] <= draws[c]
    ensures s.sent - s.completed <= (if maxParallel > 0 then maxParallel else 0)
    ensures barrier ==>
              && (forall q :: RoundBarrierSafety.InActive(s, q) > 0 ==> q.round == RoundBarrierSafety.ActiveRound(s))
              && (forall q :: q in RoundBarrierSafety.Held(s) ==> q.round == s.barrierRound + 1)
              && (forall q :: q in s.failed ==> q.round == RoundBarrierSafety.ActiveRound(s))
              && forall c | 0 <= c < clients ::
                   s.rounds[c] >= RoundBarrierSafety.ActiveRound(s) || s.rounds[c] == draws[c]
  {
    var cfg := Plan(minRounds, maxRounds, numRounds, clients, draws, barrier, maxParallel).value;
    hide RoundBarrierSafety.InActive, RoundBarrierSafety.Occurrences, Reachable, Plan, ResolveRounds;
    RoundBarrierTheorems.InFlightBound(cfg, s);
    RoundBarrierSafety.ReachableInv(cfg, s);
    if barrier { RoundBarrierTheorems.BarrierSafety(cfg, s); }
  }

  class WorkloadGenerator {
    const cfg: Config
    const readyQueue: ReadyQueue
    var sender: Sender
    var sentRequests: nat
    var inflight: multiset<Request>
    var landed: Option<Response>
    var progressBar: nat
    var responseQueue: seq<Response>
    var handler: Handler
    var clientRounds: seq<nat>
    var completedRequests: nat
    var subQuestions: int
    var nextRoundRequests: seq<Request>
    var currentBarrierRound: nat
    var barrierRoundCompleted: nat
    ghost var failures: multiset<Request>

    ghost function Abs(): State
      reads this, readyQueue
    {
      State(readyQueue.requests, sender, sentRequests, inflight, landed, progressBar, responseQueue, handler,
            clientRounds, completedRequests, subQuestions, nextRoundRequests, currentBarrierRound,
            barrierRoundCompleted, failures)
    }

    constructor (cfg: Config, policy: string)
      ensures this.cfg == cfg && Abs() == Init(cfg)
      ensures fresh(readyQueue) && readyQueue.policy == policy
    {
      this.cfg := cfg;
      readyQueue := new ReadyQueue(Init(cfg).ready, policy);
      sender, sentRequests, inflight, landed, progressBar := Polling, 0, multiset{}, None, 0;
      responseQueue, handler, clientRounds, completedRequests := [], Idle, Init(cfg).rounds, 0;
      subQuestions, nextRoundRequests := cfg.SubQuestions(), [];
      currentBarrierRound, barrierRoundCompleted, failures := 0, 0, multiset{};
    }

    // ---- request_sender ------------------------------------------------------

    method SenderCheck()
      requires Enabled(cfg, Abs(), Check)
      modifies this
      ensures Abs() == Apply(cfg, old(Abs()), Check)
    {
      if sentRequests - completedRequests < cfg.maxParallel { sender := Cleared; }
    }

    /** An unknown policy raises, which ends the sender thread with nothing changed. */
    method SenderPop(pick: nat) returns (ok: bool)
      requires sender.Cleared? && (readyQueue.requests != [] ==> pick < |readyQueue.requests|)
      modifies this, readyQueue
      ensures !ok <==> old(readyQueue.requests) != [] && readyQueue.policy != "random" && readyQueue.policy != "fifo"
      ensures !ok ==> Abs() == old(Abs())
      ensures ok ==>
                var i := if readyQueue.policy == "fifo" then 0 else pick;
                Enabled(cfg, old(Abs()), Pop(i)) && Abs() == Apply(cfg, old(Abs()), Pop(i))
    {
      var r := readyQueue.Pop(pick);
      ok := r.Ok?;
      if !ok {
        return;
      }
      if r.value.Some? {
        sender := Holding(r.value.value);
      } else {
        sender := if progressBar == cfg.TotalRequests() then Exited else Polling;
      }
    }

    method SenderCommit()
      requires Enabled(cfg, Abs(), Commit)
      modifies this
      ensures Abs() == Apply(cfg, old(Abs()), Commit)
    {
      inflight := inflight + multiset{sender.request};
      sentRequests := sentRequests + 1;
      sender := if progressBar == cfg.TotalRequests() then Exited else Polling;
    }

    /** One pass of the sender's loop, uninterrupted: a path of the machine that sends one
        request if the window is open and one is ready, and keeps the invariant. */
    method SenderPass(pick: nat) returns (ok: bool, ghost path: seq<Action>)
      requires RoundBarrierSafety.Inv(cfg, Abs()) && LoopFree(Abs())
      requires readyQueue.requests != [] ==> pick < |readyQueue.requests|
      modifies this, readyQueue
      ensures Leads(cfg, old(Abs()), path, Abs()) && RoundBarrierSafety.Inv(cfg, Abs())
      ensures ok ==> sender.Polling? || sender.Exited?
      ensures ok ==>
                var sends := old(sentRequests - completedRequests < cfg.maxParallel && readyQueue.requests != []);
                sentRequests == old(sentRequests) + (if sends then 1 else 0)
      ensures !ok ==> sentRequests == old(sentRequests) && readyQueue.policy != "random" && readyQueue.policy != "fifo"
    {
      hide RoundBarrierSafety.Inv;
      ok := true;
      path := Extend(cfg, Abs(), [], Abs(), Check);
      hide Leads;
      SenderCheck();
      if sender.Polling? { return; }
      ghost var cleared := Abs();
      ok := SenderPop(pick);
      if !ok { return; }
      path := Extend(cfg, old(Abs()), path, cleared, Pop(if readyQueue.policy == "fifo" then 0 else pick));
      if sender.Holding? {
        path := Extend(cfg, old(Abs()), path, Abs(), Commit);
        SenderCommit();
      }
    }

    // ---- handle_request ------------------------------------------------------

    method ResponseLands(q: Request, ok: bool, shown: bool)
      requires Enabled(cfg, Abs(), Land(q, ok, shown))
      modifies this
      ensures Abs() == Apply(cfg, old(Abs()), Land(q, ok, shown))
    {
      if shown { progressBar := progressBar + 1; }
      inflight := inflight - multiset{q};
      landed := Some(Response(q, ok));
    }

    method ResponseEnqueued()
      requires Enabled(cfg, Abs(), Put)
      modifies this
      ensures Abs() == Apply(cfg, old(Abs()), Put)
    {
      responseQueue := responseQueue + [landed.value];
      landed := None;
    }

    // ---- response_handler ----------------------------------------------------

    method TakeResponse()
      requires Enabled(cfg, Abs(), Take)
      modifies this
      ensures Abs() == Apply(cfg, old(Abs()), Take)
    {
      handler := Took(responseQueue[0]);
      responseQueue := responseQueue[1..];
    }

    method CountResponse()
      requires Enabled(cfg, Abs(), Count)
      modifies this
      ensures Abs() == Apply(cfg, old(Abs()), Count)
    {
      var response := handler.response;
      var c := response.request.client;
      if !response.ok {
        failures := failures + multiset{response.request};
        handler := Idle;
      } else {
        clientRounds := clientRounds[c := clientRounds[c] + 1];
        handler := Counted(Request(c, clientRounds[c]));
      }
      completedRequests := completedRequests + 1;
    }

    method AskFollowUp()
      requires Enabled(cfg, Abs(), FollowUp)
      modifies this, readyQueue
      ensures Abs() == Apply(cfg, old(Abs()), FollowUp)
    {
      var q := handler.request;
      if clientRounds[q.client] < cfg.totals[q.client] {
        subQuestions := subQuestions - 1;
        if cfg.barrier {
          nextRoundRequests := nextRoundRequests + [q];
        } else {
          readyQueue.Append(q);
        }
      }
      handler := if cfg.barrier then AtBarrier else Idle;
    }

    method ReachBarrier()
      requires Enabled(cfg, Abs(), Barrier)
      modifies this
      ensures Abs() == Apply(cfg, old(Abs()), Barrier)
    {
      handler := Idle;
      if currentBarrierRound < cfg.maxRounds {
        barrierRoundCompleted := barrierRoundCompleted + 1;
        if barrierRoundCompleted == cfg.ClientsPerRound(currentBarrierRound) {
          handler := Releasing(nextRoundRequests);
        }
      }
    }

    method ReleaseOne()
      requires Enabled(cfg, Abs(), Release)
      modifies this, readyQueue
      ensures Abs() == Apply(cfg, old(Abs()), Release)
    {
      var rest := handler.rest;
      if rest != [] {
        readyQueue.Append(rest[0]);
        handler := Releasing(rest[1..]);
      } else {
        nextRoundRequests := [];
        currentBarrierRound := currentBarrierRound + 1;
        barrierRoundCompleted := 0;
        handler := Idle;
      }
    }

    /** The wait raises on an empty queue; what comes in later is not seen. */
    method WaitTimesOut()
      requires Enabled(cfg, Abs(), Timeout)
      modifies this
      ensures Abs() == Apply(cfg, old(Abs()), Timeout)
    {
      handler := TimedOut;
    }

    method TestProgressBar()
      requires Enabled(cfg, Abs(), TestBar)
      modifies this
      ensures Abs() == Apply(cfg, old(Abs()), TestBar)
    {
      if progressBar == cfg.TotalRequests() {
        handler := Stopped;
      } else {
        handler := Idle;
      }
    }

    /** The barrier part of a pass, with the loop that appends the held requests. */
    method PassBarrier() returns (ghost path: seq<Action>)
      requires RoundBarrierSafety.Inv(cfg, Abs()) && handler.AtBarrier?
      modifies this, readyQueue
      ensures Leads(cfg, old(Abs()), path, Abs()) && RoundBarrierSafety.Inv(cfg, Abs())
      ensures handler.Idle? && completedRequests == old(completedRequests)
    {
      hide RoundBarrierSafety.Inv;
      path := Extend(cfg, Abs(), [], Abs(), Barrier);
      ReachBarrier();
      while handler.Releasing?
        invariant handler.Releasing? || handler.Idle?
        invariant Leads(cfg, old(Abs()), path, Abs()) && RoundBarrierSafety.Inv(cfg, Abs())
        invariant completedRequests == old(completedRequests)
        decreases handler.Releasing?, if handler.Releasing? then |handler.rest| else 0
      {
        path := Extend(cfg, old(Abs()), path, Abs(), Release);
        ReleaseOne();
      }
    }

    /** One pass of the handler's loop, uninterrupted: a path of the machine that
        handles one response and keeps the invariant. */
    method HandlerPass() returns (ghost path: seq<Action>)
      requires RoundBarrierSafety.Inv(cfg, Abs()) && Enabled(cfg, Abs(), Take)
      modifies this, readyQueue
      ensures Leads(cfg, old(Abs()), path, Abs()) && RoundBarrierSafety.Inv(cfg, Abs())
      ensures handler.Idle? && completedRequests == old(completedRequests) + 1
    {
      hide RoundBarrierSafety.Inv, Leads;
      path := HandledSoFar(cfg, Abs());
      TakeResponse();
      CountResponse();
      if handler.Idle? { return; }
      ghost var counted := Abs();
      path := FollowUpNext(cfg, old(Abs()), path, counted);
      AskFollowUp();
      if handler.Idle? { return; }
      ghost var asked := Abs();
      ghost var rest := PassBarrier();
      RoundBarrierSafety.LeadsAppend(cfg, old(Abs()), path, asked, rest, Abs());
      path := path + rest;
    }
  }

  lemma HandledSoFar(cfg: Config, s: State) returns (path: seq<Action>)
    requires RoundBarrierSafety.Inv(cfg, s) && Enabled(cfg, s, Take)
    ensures Enabled(cfg, Apply(cfg, s, Take), Count)
    ensures var s' := Apply(cfg, Apply(cfg, s, Take), Count);
            Leads(cfg, s, path, s') && RoundBarrierSafety.Inv(cfg, s')
  {
    hide RoundBarrierSafety.Inv;
    path := Extend(cfg, s, [], s, Take);
    TookIsKnown(cfg, Apply(cfg, s, Take));
    path := Extend(cfg, s, path, Apply(cfg, s, Take), Count);
  }

  lemma FollowUpNext(cfg: Config, s: State, path: seq<Action>, m: State) returns (longer: seq<Action>)
    requires Leads(cfg, s, path, m) && RoundBarrierSafety.Inv(cfg, m) && m.handler.Counted?
    ensures Enabled(cfg, m, FollowUp) && Leads(cfg, s, longer, Apply(cfg, m, FollowUp))
    ensures RoundBarrierSafety.Inv(cfg, Apply(cfg, m, FollowUp))
  {
    CountedIsKnown(cfg, m);
    hide RoundBarrierSafety.Inv;
    longer := Extend(cfg, s, path, m, FollowUp);
  }

  lemma Extend(cfg: Config, s: State, path: seq<Action>, m: State, a: Action) returns (longer: seq<Action>)
    requires Leads(cfg, s, path, m) && Enabled(cfg, m, a) && RoundBarrierSafety.Inv(cfg, m)
    ensures Leads(cfg, s, longer, Apply(cfg, m, a)) && RoundBarrierSafety.Inv(cfg, Apply(cfg, m, a))
  {
    hide RoundBarrierSafety.Inv;
    longer := path + [a];
    assert [a][1..] == [] && Leads(cfg, m, [a], Apply(cfg, m, a));
    RoundBarrierSafety.LeadsAppend(cfg, s, path, m, [a], Apply(cfg, m, a));
    RoundBarrierSafety.StepKeepsInv(cfg, m, a);
  }

  lemma TookIsKnown(cfg: Config, s: State)
    requires RoundBarrierSafety.Inv(cfg, s) && s.handler.Took?
    ensures Enabled(cfg, s, Count)
  {
    RoundBarrierSafety.TookIsActive(s);
    RoundBarrierSafety.FoundIsDue(cfg, s, s.handler.response.request);
  }

  lemma CountedIsKnown(cfg: Config, s: State)
    requires RoundBarrierSafety.Inv(cfg, s) && s.handler.Counted?
    ensures Enabled(cfg, s, FollowUp)
  {
  }
}
