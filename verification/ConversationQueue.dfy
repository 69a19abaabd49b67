/** Multi-turn serving of benchmark/hicache/bench_serving.py: conversations wait in
    a bounded queue, a generator draws a fixed number of requests from it, and a
    finished turn puts its conversation back at the end. All tasks share one event
    loop, so a segment between two awaits is one step. */
module ConversationQueue {
  import opened Counting

  datatype Turn = Turn(text: string, inputLen: nat, outputLen: nat)

  datatype Message = User(text: string) | Assistant(text: string)

  /** A request sent to the server. */
  datatype Issued = Issued(conversation: nat, turn: nat, promptLen: nat, messages: seq<Message>)

  /** What the server answered. */
  datatype Reply = Reply(text: string, outputLen: nat)

  type Workload = seq<seq<Turn>>

  function Lengths(w: Workload): seq<nat> {
    seq(|w|, c requires 0 <= c < |w| => |w[c]|)
  }

  /** Number of requests to draw, computed before the run. */
  function TotalRequests(w: Workload): nat { Sum(Lengths(w)) }

  datatype State = State(
    prompts: Workload,
    messages: seq<seq<Message>>,
    finished: seq<nat>,
    queue: seq<nat>,
    drawn: nat,
    waiting: multiset<nat>,
    sent: multiset<nat>,
    done: multiset<nat>,
    issued: seq<Issued>,
    replies: seq<seq<Reply>>)

  datatype Action = Draw | Start(conversation: nat) | Finish(conversation: nat, reply: Reply)

  function Init(w: Workload): State {
    State(w, seq(|w|, _ => []), seq(|w|, _ => 0), seq(|w|, c requires 0 <= c => c), 0,
          multiset{}, multiset{}, multiset{}, [], seq(|w|, _ => []))
  }

  predicate Shaped(w: Workload, s: State) {
    |s.prompts| == |s.messages| == |s.finished| == |s.replies| == |w|
  }

  predicate Enabled(w: Workload, s: State, a: Action) {
    Shaped(w, s) &&
    match a
    case Draw => s.drawn < TotalRequests(w) && s.queue != []
    case Start(c) => c in s.waiting && c < |w| && s.finished[c] < |s.prompts[c]|
    case Finish(c, _) => c in s.sent && c < |w| && s.finished[c] < |s.prompts[c]|
  }

  /** Input and output lengths of the turns before `k`, and the input of turn `k`. */
  function PromptLen(turns: seq<Turn>, k: nat): nat
    requires k < |turns|
  {
    LenBefore(turns, k) + turns[k].inputLen
  }

  function LenBefore(turns: seq<Turn>, k: nat): nat
    requires k <= |turns|
  {
    if k == 0 then 0 else LenBefore(turns, k - 1) + turns[k - 1].inputLen + turns[k - 1].outputLen
  }

  function Apply(w: Workload, s: State, a: Action): State
    requires Enabled(w, s, a)
  {
    match a
    case Draw =>
      s.(queue := s.queue[1..], drawn := s.drawn + 1, waiting := s.waiting + multiset{s.queue[0]})
    case Start(c) =>
      var k := s.finished[c];
      var messages := s.messages[c] + [User(s.prompts[c][k].text)];
      s.(waiting := s.waiting - multiset{c}, sent := s.sent + multiset{c},
         messages := s.messages[c := messages],
         issued := s.issued + [Issued(c, k, PromptLen(s.prompts[c], k), messages)])
    case Finish(c, reply) =>
      var k := s.finished[c];
      var s1 := s.(
        sent := s.sent - multiset{c},
        prompts := s.prompts[c := s.prompts[c][k := s.prompts[c][k].(outputLen := reply.outputLen)]],
        messages := s.messages[c := s.messages[c] + [Assistant(reply.text)]],
        replies := s.replies[c := s.replies[c] + [reply]]);
      if k + 1 < |s.prompts[c]| then s1.(finished := s.finished[c := k + 1], queue := s.queue + [c])
      else s1.(done := s.done + multiset{c})
  }

  ghost predicate Leads(w: Workload, s: State, acts: seq<Action>, s': State)
    decreases |acts|
  {
    if acts == [] then s' == s
    else Enabled(w, s, acts[0]) && Leads(w, Apply(w, s, acts[0]), acts[1..], s')
  }

  ghost predicate Reachable(w: Workload, s: State) {
    exists acts :: Leads(w, Init(w), acts, s)
  }

  // ---- Invariant -------------------------------------------------------------

  function Places(s: State, c: nat): nat {
    multiset(s.queue)[c] + s.waiting[c] + s.sent[c] + s.done[c]
  }

  /** Turns of `c` that have been answered. */
  function Answered(s: State, c: nat): nat
    requires c < |s.finished|
  {
    s.finished[c] + (if c in s.done then 1 else 0)
  }

  /** Turns of `c` that have been drawn from the queue. */
  function Drawn(s: State, c: nat): nat
    requires c < |s.finished|
  {
    s.finished[c] + (if s.waiting[c] + s.sent[c] + s.done[c] > 0 then 1 else 0)
  }

  function DrawnEach(s: State): seq<nat> {
    seq(|s.finished|, c requires 0 <= c < |s.finished| => Drawn(s, c))
  }

  /** Where the turn counter of a conversation can stand. */
  ghost predicate Counted(w: Workload, s: State, c: nat)
    requires Shaped(w, s) && c < |w|
  {
    && |s.prompts[c]| == |w[c]|
    && (w[c] != [] ==> s.finished[c] < |w[c]| && (c in s.done ==> s.finished[c] + 1 == |w[c]|))
    && (w[c] == [] ==> s.finished[c] == 0 && c !in s.sent && c !in s.done)
  }

  /** Each conversation is in exactly one place, and the draws are accounted for. */
  ghost predicate Located(w: Workload, s: State) {
    && Shaped(w, s)
    && (forall c: nat :: Places(s, c) == if c < |w| then 1 else 0)
    && (forall c | 0 <= c < |w| :: Counted(w, s, c))
    && s.drawn == Sum(DrawnEach(s)) <= TotalRequests(w)
  }

  // ---- Initial states and steps ----------------------------------------------

  lemma OnceInOrder(cs: seq<nat>, c: nat)
    requires forall i | 0 <= i < |cs| :: cs[i] == i
    ensures multiset(cs)[c] == if c < |cs| then 1 else 0
  {
    if c < |cs| {
      assert cs == cs[..c] + [cs[c]] + cs[c + 1..];
      assert c !in cs[..c] && c !in cs[c + 1..];
    } else {
      assert c !in cs;
    }
  }

  lemma InitLocated(w: Workload)
    ensures Located(w, Init(w))
  {
    var s := Init(w);
    forall c: nat ensures multiset(s.queue)[c] == if c < |w| then 1 else 0 { OnceInOrder(s.queue, c); }
    assert DrawnEach(s) == seq(|w|, _ => 0);
    ZeroSum(|w|);
  }

  /** Steps move a conversation from one place to the next. */
  lemma PlacesKept(w: Workload, s: State, a: Action, c: nat)
    requires Enabled(w, s, a)
    ensures Places(Apply(w, s, a), c) == Places(s, c)
  {
    hide TotalRequests, PromptLen;
    match a
    case Draw => DrawPlaces(w, s, c);
    case Start(_) =>
    case Finish(d, reply) => FinishPlaces(w, s, d, reply, c);
  }

  lemma DrawPlaces(w: Workload, s: State, c: nat)
    requires Enabled(w, s, Draw)
    ensures Places(Apply(w, s, Draw), c) == Places(s, c)
  {
    assert s.queue == [s.queue[0]] + s.queue[1..];
  }

  lemma FinishPlaces(w: Workload, s: State, d: nat, reply: Reply, c: nat)
    requires Enabled(w, s, Finish(d, reply))
    ensures Places(Apply(w, s, Finish(d, reply)), c) == Places(s, c)
  {
  }

  /** Drawing takes one more turn of the conversation at the head of the queue;
      nothing else changes how many turns have been drawn. */
  lemma DrawnAt(w: Workload, s: State, a: Action, d: nat)
    requires Located(w, s) && Enabled(w, s, a) && d < |w|
    ensures |Apply(w, s, a).finished| == |w|
    ensures Drawn(Apply(w, s, a), d) == Drawn(s, d) + (if a.Draw? && d == s.queue[0] then 1 else 0)
  {
    hide TotalRequests, PromptLen, DrawnEach;
    if a.Draw? { assert s.queue[0] in multiset(s.queue); }
    assert Places(s, d) == 1;
  }

  lemma HeadIsKnown(w: Workload, s: State)
    requires Located(w, s) && s.queue != []
    ensures s.queue[0] < |w|
  {
    assert s.queue[0] in multiset(s.queue);
    assert Places(s, s.queue[0]) > 0;
  }

  lemma StepDrawn(w: Workload, s: State, a: Action)
    requires Located(w, s) && Enabled(w, s, a)
    ensures a.Draw? ==> s.queue[0] < |w| && DrawnEach(Apply(w, s, a)) == DrawnEach(s)[s.queue[0] := DrawnEach(s)[s.queue[0]] + 1]
    ensures !a.Draw? ==> DrawnEach(Apply(w, s, a)) == DrawnEach(s)
  {
    if a.Draw? { HeadIsKnown(w, s); }
    hide Apply, Drawn, TotalRequests;
    forall d | 0 <= d < |w|
      ensures |Apply(w, s, a).finished| == |w|
      ensures Drawn(Apply(w, s, a), d) == Drawn(s, d) + (if a.Draw? && d == s.queue[0] then 1 else 0)
    {
      DrawnAt(w, s, a, d);
    }
    FinishedLength(w, s, a);
  }

  lemma FinishedLength(w: Workload, s: State, a: Action)
    requires Enabled(w, s, a)
    ensures |Apply(w, s, a).finished| == |w|
  {
  }

  lemma StepCounted(w: Workload, s: State, a: Action, c: nat)
    requires Located(w, s) && Enabled(w, s, a) && c < |w|
    ensures Shaped(w, Apply(w, s, a)) && Counted(w, Apply(w, s, a), c)
  {
    hide TotalRequests, PromptLen, DrawnEach;
    assert Places(s, c) == 1 && Counted(w, s, c);
  }

  lemma StepLocated(w: Workload, s: State, a: Action)
    requires Located(w, s) && Enabled(w, s, a)
    ensures Located(w, Apply(w, s, a))
  {
    var s' := Apply(w, s, a);
    hide Places, TotalRequests, PromptLen, Counted, DrawnEach;
    FinishedLength(w, s, a);
    forall c: nat ensures Places(s', c) == Places(s, c) { PlacesKept(w, s, a, c); }
    forall c | 0 <= c < |w| ensures Shaped(w, s') && Counted(w, s', c) { StepCounted(w, s, a, c); }
    StepDrawn(w, s, a);
    DrawnLength(s);
    if a.Draw? { SumIncrement(DrawnEach(s), s.queue[0]); }
  }

  lemma DrawnLength(s: State)
    ensures |DrawnEach(s)| == |s.finished|
  {
  }

  lemma {:induction false} RunLocated(w: Workload, s: State, acts: seq<Action>, s': State)
    requires Located(w, s) && Leads(w, s, acts, s')
    ensures Located(w, s')
    decreases |acts|
  {
    hide Located;
    if acts != [] {
      StepLocated(w, s, acts[0]);
      RunLocated(w, Apply(w, s, acts[0]), acts[1..], s');
    }
  }

  lemma ReachableLocated(w: Workload, s: State)
    requires Reachable(w, s)
    ensures Located(w, s)
  {
    hide Located;
    var acts :| Leads(w, Init(w), acts, s);
    InitLocated(w);
    RunLocated(w, Init(w), acts, s);
  }
}
