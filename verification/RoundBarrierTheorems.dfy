/** What holds in every reachable state of the load generator, failed responses
    included. */
module RoundBarrierTheorems {
  import opened Counting
  import opened RoundBarrier
  import opened RoundBarrierSafety

  // ---- Counting the requests -------------------------------------------------

  function Requests(rs: seq<Response>): multiset<Request> {
    if rs == [] then multiset{} else Requests(rs[..|rs| - 1]) + multiset{rs[|rs| - 1].request}
  }

  lemma {:induction false} RequestsCount(rs: seq<Response>, q: Request)
    ensures Requests(rs)[q] == multiset(rs)[Response(q, true)] + multiset(rs)[Response(q, false)]
    ensures |Requests(rs)| == |rs|
  {
    if rs != [] {
      var n := |rs| - 1;
      assert rs == rs[..n] + [rs[n]];
      RequestsCount(rs[..n], q);
    }
  }

  function Outgoing(s: State): multiset<Request> {
    s.inflight + (if s.landed.Some? then multiset{s.landed.value.request} else multiset{})
    + Requests(s.responses) + (if s.handler.Took? then multiset{s.handler.response.request} else multiset{})
  }

  function Everything(cfg: Config, s: State): multiset<Request> {
    multiset(s.ready) + (if s.sender.Holding? then multiset{s.sender.request} else multiset{})
    + Outgoing(s) + multiset(Held(s)) + s.failed
    + (if FollowsUp(cfg, s) then multiset{s.handler.request} else multiset{})
  }

  lemma OutgoingCount(s: State, q: Request)
    ensures Outgoing(s)[q] == InOutgoing(s, q)
    ensures |Outgoing(s)| == OutgoingSize(s)
  {
    RequestsCount(s.responses, q);
  }

  lemma EverythingCount(cfg: Config, s: State, q: Request)
    ensures Everything(cfg, s)[q] == Occurrences(cfg, s, q)
  {
    hide Outgoing, InOutgoing;
    OutgoingCount(s, q);
  }

  /** `m` has one request, of the current round, for each client whose entry of
      `ys` exceeds `r`, and nothing else. */
  ghost predicate OneEach(m: multiset<Request>, rounds: seq<nat>, ys: seq<nat>, r: nat) {
    && |rounds| == |ys|
    && (forall q :: m[q] == if q.client < |rounds| && q.round == rounds[q.client] && ys[q.client] > r then 1 else 0)
  }

  lemma {:induction false} OneEachSize(m: multiset<Request>, rounds: seq<nat>, ys: seq<nat>, r: nat)
    requires OneEach(m, rounds, ys, r)
    ensures |m| == CountAbove(ys, r)
    decreases |rounds|
  {
    if rounds == [] {
      assert m == multiset{};
    } else {
      var n := |rounds| - 1;
      var last := Request(n, rounds[n]);
      OneEachSize(m[last := 0], rounds[..n], ys[..n], r);
      if ys[n] > r {
        assert m == m[last := 0] + multiset{last};
      } else {
        assert m == m[last := 0];
      }
    }
  }

  function Gap(totals: seq<nat>, rounds: seq<nat>): seq<nat>
    requires Below(rounds, totals)
  {
    seq(|totals|, c requires 0 <= c < |totals| => totals[c] - rounds[c])
  }

  lemma {:induction false} GapSlack(totals: seq<nat>, rounds: seq<nat>)
    requires Below(rounds, totals)
    ensures CountAbove(Gap(totals, rounds), 0) + Sum(rounds) <= Sum(totals)
    decreases |totals|
  {
    if totals != [] {
      var n := |totals| - 1;
      GapSlack(totals[..n], rounds[..n]);
      assert Gap(totals, rounds)[..n] == Gap(totals[..n], rounds[..n]);
    }
  }

  /** Requests anywhere plus successes counted never exceed the planned total. */
  lemma EverythingFits(cfg: Config, s: State)
    requires Tokens(cfg, s)
    ensures |Everything(cfg, s)| == CountAbove(Gap(cfg.totals, s.rounds), 0)
    ensures |Everything(cfg, s)| + Sum(s.rounds) <= cfg.TotalRequests()
  {
    hide Everything, Occurrences;
    forall q ensures Everything(cfg, s)[q] == if Due(cfg, s, q) then 1 else 0 {
      EverythingCount(cfg, s, q);
    }
    OneEachSize(Everything(cfg, s), s.rounds, Gap(cfg.totals, s.rounds), 0);
    GapSlack(cfg.totals, s.rounds);
  }

  // ---- Theorems --------------------------------------------------------------

  /** At most one request per client exists anywhere, and it is of the client's
      current round. */
  lemma OneRequestPerClient(cfg: Config, s: State, p: Request, q: Request)
    requires cfg.Valid() && Reachable(cfg, s)
    requires p.client == q.client && Occurrences(cfg, s, p) > 0 && Occurrences(cfg, s, q) > 0
    ensures p == q && Occurrences(cfg, s, p) == 1
    ensures p.client < |s.rounds| == |cfg.totals| && p.round == s.rounds[p.client] < cfg.totals[p.client]
  {
    hide Occurrences;
    ReachableInv(cfg, s);
  }

  /** In every reachable state, also with nothing active and the barrier stalled by
      a failure: active requests are of one round, held ones of the round after the
      barrier's, failed ones of the active round, and every client has succeeded in
      all of its rounds below the active one. */
  lemma BarrierSafety(cfg: Config, s: State)
    requires cfg.Valid() && cfg.barrier && Reachable(cfg, s)
    ensures forall p :: InActive(s, p) > 0 ==> p.round == ActiveRound(s)
    ensures forall p :: p in Held(s) ==> p.round == s.barrierRound + 1
    ensures forall p :: p in s.failed ==> p.round == ActiveRound(s) == s.barrierRound
    ensures |s.rounds| == |cfg.totals|
    ensures forall c | 0 <= c < |cfg.totals| ::
              (s.rounds[c] >= ActiveRound(s) || s.rounds[c] == cfg.totals[c]) && s.rounds[c] <= s.barrierRound + 1
  {
    hide InActive, Occurrences;
    ReachableInv(cfg, s);
    CountBelow(s.rounds, cfg.totals, s.barrierRound);
    forall p | p in s.failed ensures p.round == ActiveRound(s) {
      FoundIsDue(cfg, s, p);
    }
  }

  /** The barrier opens exactly for the clients that have a next round. */
  lemma ReleaseSize(cfg: Config, s: State)
    requires cfg.Valid() && cfg.barrier && Reachable(cfg, s)
    requires Enabled(cfg, s, Barrier) && Apply(cfg, s, Barrier).handler.Releasing?
    ensures |s.held| == cfg.ClientsPerRound(s.barrierRound + 1)
    ensures Apply(cfg, s, Barrier).handler.rest == s.held
  {
    hide InActive, Occurrences;
    ReachableInv(cfg, s);
    RoundIsOver(cfg, s);
    forall q ensures multiset(s.held)[q] ==
      if q.client < |s.rounds| && q.round == s.rounds[q.client] && cfg.totals[q.client] > s.barrierRound + 1 then 1 else 0
    {
      AllHeld(cfg, s, q);
    }
    OneEachSize(multiset(s.held), s.rounds, cfg.totals, s.barrierRound + 1);
  }

  lemma AllHeld(cfg: Config, s: State, q: Request)
    requires Tokens(cfg, s) && s.handler.AtBarrier? && InActive(s, q) == 0 && s.failed == multiset{}
    requires BarrierRounds(cfg, s)
    requires forall c | 0 <= c < |s.rounds| :: cfg.totals[c] > s.barrierRound ==> s.rounds[c] == s.barrierRound + 1
    ensures multiset(s.held)[q] ==
      if q.client < |s.rounds| && q.round == s.rounds[q.client] && cfg.totals[q.client] > s.barrierRound + 1 then 1 else 0
  {
    hide InActive;
    assert Occurrences(cfg, s, q) == multiset(s.held)[q];
  }

  /** The number of requests between the sender and the counter of completions is
      `sent - completed`, and never exceeds the window. */
  lemma InFlightBound(cfg: Config, s: State)
    requires cfg.Valid() && Reachable(cfg, s)
    ensures |Outgoing(s)| == s.sent - s.completed
    ensures |s.inflight| <= s.sent - s.completed
    ensures s.sent - s.completed <= (if cfg.maxParallel > 0 then cfg.maxParallel else 0)
    ensures s.sender.Holding? ==> s.sent - s.completed < cfg.maxParallel
  {
    hide Outgoing;
    ReachableInv(cfg, s);
    OutgoingCount(s, Request(0, 0));
  }

  lemma {:induction false} NoFollowUps(xs: seq<nat>)
    ensures FollowUps(xs, xs) == 0
  {
    if xs != [] { NoFollowUps(xs[..|xs| - 1]); }
  }

  lemma {:induction false} AllFollowUps(xs: seq<nat>)
    requires forall i | 0 <= i < |xs| :: xs[i] >= 1
    ensures FollowUps(xs, seq(|xs|, _ => 0)) == Sum(xs) - |xs|
  {
    if xs != [] {
      var n := |xs| - 1;
      AllFollowUps(xs[..n]);
      assert seq<nat>(|xs|, _ => 0)[..n] == seq<nat>(n, _ => 0);
    }
  }

  /** Whenever the handler takes a follow-up question one is left, and a completed
      run has taken exactly one per round of a client but the first. */
  lemma SubQuestionsSuffice(cfg: Config, s: State)
    requires cfg.Valid() && Reachable(cfg, s)
    ensures FollowsUp(cfg, s) ==> s.supply >= 1
    ensures s.rounds == cfg.totals ==> cfg.SubQuestions() - s.supply == cfg.TotalRequests() - |cfg.totals|
    ensures cfg.SubQuestions() ==
            if cfg.TotalRequests() - |cfg.totals| > 1 then cfg.TotalRequests() - |cfg.totals| else 1
  {
    ReachableInv(cfg, s);
    NoFollowUps(cfg.totals);
    AllFollowUps(cfg.totals);
  }

  // ---- The response queue ----------------------------------------------------

  /** The responses in the order they came back. */
  function LandedOf(acts: seq<Action>): seq<Response> {
    if acts == [] then []
    else
      var n := |acts| - 1;
      LandedOf(acts[..n]) + (if acts[n].Land? then [Response(acts[n].request, acts[n].ok)] else [])
  }

  function CountTakes(acts: seq<Action>): nat {
    if acts == [] then 0 else CountTakes(acts[..|acts| - 1]) + (if acts[|acts| - 1].Take? then 1 else 0)
  }

  function CountPuts(acts: seq<Action>): nat {
    if acts == [] then 0 else CountPuts(acts[..|acts| - 1]) + (if acts[|acts| - 1].Put? then 1 else 0)
  }

  ghost predicate InOrder(all: seq<Response>, takes: nat, puts: nat, s: State) {
    && takes <= puts <= |all| && s.responses == all[takes..puts]
    && (if s.landed.Some? then all[puts..] == [s.landed.value] else puts == |all|)
    && (s.handler.Took? ==> takes > 0 && s.handler.response == all[takes - 1])
  }

  lemma PutInOrder(cfg: Config, s: State, all: seq<Response>, takes: nat, puts: nat)
    requires InOrder(all, takes, puts, s) && Enabled(cfg, s, Put)
    ensures InOrder(all, takes, puts + 1, Apply(cfg, s, Put))
  {
    assert all[puts..][0] == all[puts];
    assert all[takes..puts + 1] == all[takes..puts] + [all[puts]];
  }

  lemma TakeInOrder(cfg: Config, s: State, all: seq<Response>, takes: nat, puts: nat)
    requires InOrder(all, takes, puts, s) && Enabled(cfg, s, Take)
    ensures InOrder(all, takes + 1, puts, Apply(cfg, s, Take))
  {
    assert all[takes..puts][0] == all[takes] && all[takes..puts][1..] == all[takes + 1..puts];
  }

  lemma LandInOrder(cfg: Config, s: State, a: Action, all: seq<Response>, takes: nat, puts: nat)
    requires InOrder(all, takes, puts, s) && a.Land? && Enabled(cfg, s, a)
    ensures InOrder(all + [Response(a.request, a.ok)], takes, puts, Apply(cfg, s, a))
  {
    var longer := all + [Response(a.request, a.ok)];
    assert longer[takes..puts] == all[takes..puts] && longer[puts..] == [Response(a.request, a.ok)];
  }

  lemma StepInOrder(cfg: Config, s: State, a: Action, all: seq<Response>, takes: nat, puts: nat)
    requires InOrder(all, takes, puts, s) && Enabled(cfg, s, a)
    ensures InOrder(all + (if a.Land? then [Response(a.request, a.ok)] else []),
                    takes + (if a.Take? then 1 else 0), puts + (if a.Put? then 1 else 0), Apply(cfg, s, a))
  {
    hide CountAbove, Sum;
    assert all + [] == all;
    if a.Put? { PutInOrder(cfg, s, all, takes, puts); }
    else if a.Take? { TakeInOrder(cfg, s, all, takes, puts); }
    else if a.Land? { LandInOrder(cfg, s, a, all, takes, puts); }
    else { assert Apply(cfg, s, a).responses == s.responses && Apply(cfg, s, a).landed == s.landed; }
  }

  /** Responses are handled in the order they came back, each once: the queue holds those
      after the ones taken, and the handler the last one taken. */
  lemma {:induction false} ResponsesInOrder(cfg: Config, acts: seq<Action>, s: State)
    requires Leads(cfg, Init(cfg), acts, s)
    ensures InOrder(LandedOf(acts), CountTakes(acts), CountPuts(acts), s)
    decreases |acts|
  {
    hide Apply, Enabled;
    if acts != [] {
      var n := |acts| - 1;
      var m := LastStep(cfg, Init(cfg), acts, s);
      ResponsesInOrder(cfg, acts[..n], m);
      StepInOrder(cfg, m, acts[n], LandedOf(acts[..n]), CountTakes(acts[..n]), CountPuts(acts[..n]));
    }
  }

  /** A full progress bar leaves nothing to send. */
  lemma FullBar(cfg: Config, s: State)
    requires Inv(cfg, s) && s.progress == cfg.TotalRequests()
    ensures s.ready == [] && !s.sender.Holding? && s.inflight == multiset{} && Held(s) == []
    ensures s.sent == cfg.TotalRequests()
  {
    EverythingFits(cfg, s);
    OutgoingCount(s, Request(0, 0));
  }

  /** Once the progress bar is full nothing remains to be sent; only responses on
      their way to the handler can be unhandled. */
  lemma FullProgress(cfg: Config, s: State)
    requires cfg.Valid() && Reachable(cfg, s) && s.progress == cfg.TotalRequests()
    ensures s.ready == [] && !s.sender.Holding? && s.inflight == multiset{} && Held(s) == []
    ensures s.sent == cfg.TotalRequests()
  {
    ReachableInv(cfg, s);
    FullBar(cfg, s);
  }

  /** Responses that came back and have not reached the handler. */
  function Undelivered(s: State): nat {
    |s.responses| + (if s.landed.Some? then 1 else 0)
  }

  /** The handler finds the bar full after a wait that timed out, and stops. All
      responses are handled exactly when none came back meanwhile; those that did
      are lost, at most one per client and no more than the window. */
  lemma StopIsComplete(cfg: Config, s: State)
    requires cfg.Valid() && Reachable(cfg, s) && Enabled(cfg, s, TestBar) && s.progress == cfg.TotalRequests()
    ensures Apply(cfg, s, TestBar).handler.Stopped?
    ensures s.completed == cfg.TotalRequests() <==> s.landed.None? && s.responses == []
    ensures cfg.TotalRequests() - s.completed == Undelivered(s)
    ensures Undelivered(s) <= |cfg.totals| && (Undelivered(s) > 0 ==> Undelivered(s) <= cfg.maxParallel)
  {
    FullProgress(cfg, s);
    ReachableInv(cfg, s);
    EverythingFits(cfg, s);
    OutgoingCount(s, Request(0, 0));
    CountAtMost(Gap(cfg.totals, s.rounds), 0);
  }

  /** The sender looks, pops the first request and sends it. */
  lemma SendsNext(cfg: Config, s: State) returns (acts: seq<Action>, s': State)
    requires s.ready != [] && LoopFree(s) && s.sent - s.completed < cfg.maxParallel && s.progress != cfg.TotalRequests()
    ensures s' == s.(ready := s.ready[1..], sent := s.sent + 1, inflight := s.inflight + multiset{s.ready[0]})
    ensures Leads(cfg, s, acts, s')
  {
    hide Sum, CountAbove, FollowUps;
    var s1 := Apply(cfg, s, Check);
    var s2 := Apply(cfg, s1, Pop(0));
    s' := Apply(cfg, s2, Commit);
    assert s.ready[..0] + s.ready[1..] == s.ready[1..];
    hide Apply;
    acts := [Check] + ([Pop(0)] + ([Commit] + []));
    OneMore(cfg, s2, Commit, [], s');
    OneMore(cfg, s1, Pop(0), [Commit] + [], s');
    OneMore(cfg, s, Check, [Pop(0)] + ([Commit] + []), s');
  }

  /** From a start with a single request, five steps lead to a state in which the
      handler stops with nothing handled. */
  lemma EarlyStopFrom(cfg: Config, s: State, q: Request) returns (acts: seq<Action>, s': State)
    requires s.ready == [q] && LoopFree(s) && s.sent == 0 && s.completed == 0 && s.progress == 0
    requires s.handler.Idle? && s.responses == [] && s.inflight == multiset{}
    requires cfg.maxParallel == 1 && cfg.TotalRequests() == 1
    ensures Leads(cfg, s, acts, s') && Enabled(cfg, s', TestBar) && s'.progress == 1
    ensures s'.completed == 0 && s'.landed.Some?
  {
    hide Sum, CountAbove, FollowUps;
    var land := Land(q, true, true);
    var m;
    acts, m := SendsNext(cfg, s);
    var m1 := Apply(cfg, m, land);
    s' := Apply(cfg, m1, Timeout);
    OneMore(cfg, m1, Timeout, [], s');
    OneMore(cfg, m, land, [Timeout] + [], s');
    LeadsAppend(cfg, s, acts, m, [land] + ([Timeout] + []), s');
    acts := acts + ([land] + ([Timeout] + []));
  }

  /** One client with one round: the wait can time out between the update of the
      progress bar and the enqueueing of the only response. */
  lemma EarlyStop()
    ensures var cfg := Config([1], 1, false, 1);
            cfg.Valid() && exists s :: && Reachable(cfg, s) && Enabled(cfg, s, TestBar)
                                       && s.progress == cfg.TotalRequests() && s.completed == 0 && s.landed.Some?
  {
    var cfg := Config([1], 1, false, 1);
    var s := Init(cfg);
    assert s.ready == [Request(0, 0)];
    assert cfg.TotalRequests() == 1;
    hide Leads, Enabled, Apply;
    var acts, s' := EarlyStopFrom(cfg, s, Request(0, 0));
    assert Reachable(cfg, s');
  }

  // ---- Every response lost ---------------------------------------------------

  /** `n` clients of one round each, with room for all of their requests. */
  function OneRound(n: nat, barrier: bool): Config {
    Config(seq(n, _ => 1), 1, barrier, n)
  }

  /** The wait has timed out, and the first `k` clients have been answered since. */
  function LostSoFar(cfg: Config, k: nat): State
    requires k <= |cfg.totals|
  {
    Init(cfg).(handler := TimedOut, sent := k, progress := k,
               ready := seq(|cfg.totals| - k, i requires 0 <= i => Request(k + i, 0)),
               responses := seq(k, i requires 0 <= i => Response(Request(i, 0), true)))
  }

  lemma {:induction false} OneRoundTotal(n: nat)
    ensures Sum(seq(n, _ => 1)) == n
  {
    if n > 0 {
      OneRoundTotal(n - 1);
      assert seq<nat>(n, _ => 1)[..n - 1] == seq<nat>(n - 1, _ => 1);
    }
  }

  /** One more client is asked and answered while the handler is past its wait. */
  lemma LoseOne(cfg: Config, k: nat) returns (acts: seq<Action>)
    requires k < |cfg.totals| == cfg.TotalRequests() && cfg.maxParallel == |cfg.totals|
    ensures Leads(cfg, LostSoFar(cfg, k), acts, LostSoFar(cfg, k + 1))
  {
    hide Sum, CountAbove, FollowUps;
    var s := LostSoFar(cfg, k);
    var land := Land(Request(k, 0), true, true);
    assert s.ready[0] == Request(k, 0);
    var m;
    acts, m := SendsNext(cfg, s);
    var m1 := Apply(cfg, m, land);
    var s' := LostSoFar(cfg, k + 1);
    assert m.ready == s'.ready && m1.responses + [m1.landed.value] == s'.responses && m1.inflight == s'.inflight;
    assert Apply(cfg, m1, Put) == s';
    OneMore(cfg, m1, Put, [], s');
    OneMore(cfg, m, land, [Put] + [], s');
    LeadsAppend(cfg, s, acts, m, [land] + ([Put] + []), s');
    acts := acts + ([land] + ([Put] + []));
  }

  lemma {:induction false} LoseFirst(cfg: Config, k: nat) returns (acts: seq<Action>)
    requires k <= |cfg.totals| == cfg.TotalRequests() && cfg.maxParallel == |cfg.totals|
    ensures Leads(cfg, Init(cfg), acts, LostSoFar(cfg, k))
  {
    hide Sum;
    if k == 0 {
      assert Apply(cfg, Init(cfg), Timeout) == LostSoFar(cfg, 0);
      acts := [Timeout] + [];
      OneMore(cfg, Init(cfg), Timeout, [], LostSoFar(cfg, 0));
    } else {
      hide LostSoFar;
      var before := LoseFirst(cfg, k - 1);
      var more := LoseOne(cfg, k - 1);
      LeadsAppend(cfg, Init(cfg), before, LostSoFar(cfg, k - 1), more, LostSoFar(cfg, k));
      acts := before + more;
    }
  }

  /** The bound on lost responses is attained, for any number of clients: after one
      wait that timed out too early the handler stops with every response lost. */
  lemma AllLost(n: nat, barrier: bool)
    ensures var cfg := OneRound(n, barrier);
            && cfg.Valid() && cfg.TotalRequests() == n
            && exists s :: && Reachable(cfg, s) && Enabled(cfg, s, TestBar)
                           && s.progress == cfg.TotalRequests() && Undelivered(s) == n && s.completed == 0
  {
    var cfg := OneRound(n, barrier);
    OneRoundTotal(n);
    var acts := LoseFirst(cfg, n);
    assert Reachable(cfg, LostSoFar(cfg, n));
  }
}
