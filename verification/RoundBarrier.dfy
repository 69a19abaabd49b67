/** The multi-turn load generator of benchmark/hicache/bench_multiturn.py as a
    state machine: a sender coroutine and the request tasks share one event
    loop, the response handler runs on a second thread, and the two threads
    interleave between any two accesses to what they share. */
module RoundBarrier {
  import opened Wrappers
  import opened Counting

  /** A request of a client, with the number of the client's turn it carries. */
  datatype Request = Request(client: nat, round: nat)

  datatype Response = Response(request: Request, ok: bool)

  /** Round bounds from the three command line flags. */
  function ResolveRounds(minRounds: int, maxRounds: int, numRounds: int): (r: Result<(int, int)>) {
    var lo := if minRounds == 0 then (if maxRounds == 0 then numRounds else maxRounds) else minRounds;
    var hi := if maxRounds == 0 then (if minRounds == 0 then numRounds else minRounds) else maxRounds;
    if lo < 1 || lo > hi then Err(ValueError) else Ok((lo, hi))
  }

  datatype Config = Config(totals: seq<nat>, maxRounds: nat, barrier: bool, maxParallel: int) {
    /** What the constructor establishes: every client has between 1 and
        `maxRounds` rounds. */
    ghost predicate Valid() {
      forall c | 0 <= c < |totals| :: 1 <= totals[c] <= maxRounds
    }

    function TotalRequests(): nat { Sum(totals) }

    function ClientsPerRound(r: nat): nat { CountAbove(totals, r) }

    /** One question for every round of a client but the first. */
    function PlannedFollowUps(): nat { FollowUps(totals, seq(|totals|, _ => 0)) }

    function SubQuestions(): nat {
      if PlannedFollowUps() > 1 then PlannedFollowUps() else 1
    }
  }

  /** How many follow-up questions clients at `rounds` may still ask for. */
  function FollowUps(totals: seq<nat>, rounds: seq<nat>): nat
    requires |totals| == |rounds|
  {
    if totals == [] then 0
    else
      var n := |totals| - 1;
      FollowUps(totals[..n], rounds[..n]) + (if totals[n] > rounds[n] + 1 then totals[n] - rounds[n] - 1 else 0)
  }

  /** Where the sender coroutine stands inside one pass of its loop. */
  datatype Sender = Polling | Cleared | Holding(request: Request) | Exited

  /** Where the response handler stands inside one pass of its loop. The wait for a
      response times out on an empty queue; the progress bar is read after that. */
  datatype Handler =
    | Idle
    | TimedOut
    | Took(response: Response)
    | Counted(request: Request)
    | AtBarrier
    | Releasing(rest: seq<Request>)
    | Stopped

  datatype State = State(
    ready: seq<Request>,
    sender: Sender,
    sent: nat,
    inflight: multiset<Request>,
    landed: Option<Response>,
    progress: nat,
    responses: seq<Response>,
    handler: Handler,
    rounds: seq<nat>,
    completed: nat,
    supply: int,
    held: seq<Request>,
    barrierRound: nat,
    barrierDone: nat,
    failed: multiset<Request>)

  datatype Action =
    | Check
    | Pop(index: nat)
    | Commit
    | Land(request: Request, ok: bool, shown: bool)
    | Put
    | Take
    | Count
    | FollowUp
    | Barrier
    | Release
    | Timeout
    | TestBar

  function Init(cfg: Config): State {
    State(seq(|cfg.totals|, c requires 0 <= c => Request(c, 0)), Polling, 0, multiset{}, None, 0, [], Idle,
          seq(|cfg.totals|, _ => 0), 0, cfg.SubQuestions(), [], 0, 0, multiset{})
  }

  /** The event loop runs one coroutine segment at a time. */
  predicate LoopFree(s: State) {
    s.sender.Polling? && s.landed.None?
  }

  predicate Enabled(cfg: Config, s: State, a: Action) {
    match a
    case Check => LoopFree(s)
    case Pop(i) => s.sender.Cleared? && (s.ready == [] || i < |s.ready|)
    case Commit => s.sender.Holding?
    case Land(q, ok, shown) => LoopFree(s) && q in s.inflight && (ok ==> shown)
    case Put => s.landed.Some?
    case Take => s.handler.Idle? && s.responses != []
    case Count => s.handler.Took? && s.handler.response.request.client < |s.rounds|
    case FollowUp => s.handler.Counted? && s.handler.request.client < |s.rounds| == |cfg.totals|
    case Barrier => s.handler.AtBarrier?
    case Release => s.handler.Releasing?
    case Timeout => s.handler.Idle? && s.responses == []
    case TestBar => s.handler.TimedOut?
  }

  /** After a pop or a commit the sender leaves its loop once the progress bar
      is full. */
  function AfterPass(cfg: Config, s: State): Sender {
    if s.progress == cfg.TotalRequests() then Exited else Polling
  }

  function Apply(cfg: Config, s: State, a: Action): State
    requires Enabled(cfg, s, a)
  {
    match a
    case Check =>
      if s.sent - s.completed < cfg.maxParallel then s.(sender := Cleared) else s
    case Pop(i) =>
      if s.ready == [] then s.(sender := AfterPass(cfg, s))
      else s.(sender := Holding(s.ready[i]), ready := s.ready[..i] + s.ready[i + 1..])
    case Commit =>
      s.(sender := AfterPass(cfg, s), sent := s.sent + 1, inflight := s.inflight + multiset{s.sender.request})
    case Land(q, ok, shown) =>
      s.(inflight := s.inflight - multiset{q}, landed := Some(Response(q, ok)),
         progress := if shown then s.progress + 1 else s.progress)
    case Put =>
      s.(landed := None, responses := s.responses + [s.landed.value])
    case Take =>
      s.(handler := Took(s.responses[0]), responses := s.responses[1..])
    case Count =>
      var q := s.handler.response.request;
      if s.handler.response.ok then
        var n := s.rounds[q.client] + 1;
        s.(handler := Counted(Request(q.client, n)), rounds := s.rounds[q.client := n], completed := s.completed + 1)
      else
        s.(handler := Idle, completed := s.completed + 1, failed := s.failed + multiset{q})
    case FollowUp =>
      var q := s.handler.request;
      var next := if cfg.barrier then AtBarrier else Idle;
      if s.rounds[q.client] < cfg.totals[q.client] then
        if cfg.barrier then s.(handler := next, supply := s.supply - 1, held := s.held + [q])
        else s.(handler := next, supply := s.supply - 1, ready := s.ready + [q])
      else s.(handler := next)
    case Barrier =>
      if s.barrierRound < cfg.maxRounds then
        if s.barrierDone + 1 == cfg.ClientsPerRound(s.barrierRound) then
          s.(handler := Releasing(s.held), barrierDone := s.barrierDone + 1)
        else s.(handler := Idle, barrierDone := s.barrierDone + 1)
      else s.(handler := Idle)
    case Release =>
      var rest := s.handler.rest;
      if rest != [] then s.(handler := Releasing(rest[1..]), ready := s.ready + [rest[0]])
      else s.(handler := Idle, held := [], barrierRound := s.barrierRound + 1, barrierDone := 0)
    case Timeout =>
      s.(handler := TimedOut)
    case TestBar =>
      s.(handler := if s.progress == cfg.TotalRequests() then Stopped else Idle)
  }

  /** `s'` results from `s` by the actions `acts`, each enabled when it is taken. */
  ghost predicate Leads(cfg: Config, s: State, acts: seq<Action>, s': State)
    decreases |acts|
  {
    if acts == [] then s' == s
    else Enabled(cfg, s, acts[0]) && Leads(cfg, Apply(cfg, s, acts[0]), acts[1..], s')
  }

  ghost predicate Reachable(cfg: Config, s: State) {
    exists acts :: Leads(cfg, Init(cfg), acts, s)
  }
}
