/** What the conversations of the serving benchmark say: each request carries the true
    dialogue and length before it. */
module ConversationTranscripts {
  import opened Counting
  import opened ConversationQueue

  /** The dialogue of the answered turns. */
  function Dialogue(turns: seq<Turn>, rs: seq<Reply>): seq<Message>
    requires |rs| <= |turns|
  {
    if rs == [] then []
    else
      var n := |rs| - 1;
      Dialogue(turns, rs[..n]) + [User(turns[n].text), Assistant(rs[n].text)]
  }

  /** Planned input plus actual output lengths of the turns before `k`. */
  function ActualBefore(turns: seq<Turn>, rs: seq<Reply>, k: nat): nat
    requires k <= |turns| && k <= |rs|
  {
    if k == 0 then 0 else ActualBefore(turns, rs, k - 1) + turns[k - 1].inputLen + rs[k - 1].outputLen
  }

  /** The turns of one conversation among the issued requests. */
  function TurnsOf(issued: seq<Issued>, c: nat): seq<nat> {
    if issued == [] then []
    else
      var n := |issued| - 1;
      TurnsOf(issued[..n], c) + (if issued[n].conversation == c then [issued[n].turn] else [])
  }

  function UpTo(n: nat): seq<nat> { seq(n, i => i) }

  /** An issued request carries the whole dialogue before it, and its length is that
      of the earlier inputs and actual outputs plus its own input. */
  ghost predicate Faithful(turns: seq<Turn>, rs: seq<Reply>, e: Issued) {
    && e.turn < |turns| && e.turn <= |rs| <= |turns|
    && e.promptLen == ActualBefore(turns, rs, e.turn) + turns[e.turn].inputLen
    && e.messages == Dialogue(turns, rs[..e.turn]) + [User(turns[e.turn].text)]
  }

  /** The prompts with the output lengths that were answered. */
  ghost predicate Updated(turns: seq<Turn>, rs: seq<Reply>, prompts: seq<Turn>) {
    && |rs| <= |turns| == |prompts|
    && forall j | 0 <= j < |turns| ::
         prompts[j] == if j < |rs| then turns[j].(outputLen := rs[j].outputLen) else turns[j]
  }

  ghost predicate Told(w: Workload, s: State, c: nat)
    requires Shaped(w, s) && c < |w|
  {
    var rs := s.replies[c];
    && |rs| == Answered(s, c)
    && Updated(w[c], rs, s.prompts[c])
    && (c in s.sent ==> |rs| < |w[c]|)
    && s.messages[c] == Dialogue(w[c], rs) + (if c in s.sent then [User(w[c][|rs|].text)] else [])
    && TurnsOf(s.issued, c) == UpTo(|rs| + (if c in s.sent then 1 else 0))
    && forall e | e in s.issued && e.conversation == c :: Faithful(w[c], rs, e)
  }

  lemma {:induction false} LengthsAgree(turns: seq<Turn>, rs: seq<Reply>, prompts: seq<Turn>, k: nat)
    requires Updated(turns, rs, prompts) && k <= |rs|
    ensures LenBefore(prompts, k) == ActualBefore(turns, rs, k)
    decreases k
  {
    if k > 0 { LengthsAgree(turns, rs, prompts, k - 1); }
  }

  lemma {:induction false} MoreReplies(turns: seq<Turn>, rs: seq<Reply>, x: Reply, k: nat)
    requires |rs| < |turns| && k <= |rs|
    ensures ActualBefore(turns, rs + [x], k) == ActualBefore(turns, rs, k)
    decreases k
  {
    if k > 0 { MoreReplies(turns, rs, x, k - 1); }
  }

  lemma FaithfulLater(turns: seq<Turn>, rs: seq<Reply>, x: Reply, e: Issued)
    requires Faithful(turns, rs, e) && |rs| < |turns|
    ensures Faithful(turns, rs + [x], e)
  {
    MoreReplies(turns, rs, x, e.turn);
    assert (rs + [x])[..e.turn] == rs[..e.turn];
  }

  lemma IssueOne(issued: seq<Issued>, e: Issued, c: nat)
    ensures TurnsOf(issued + [e], c) == TurnsOf(issued, c) + (if e.conversation == c then [e.turn] else [])
  {
    assert (issued + [e])[..|issued|] == issued;
  }

  lemma UpToNext(n: nat)
    ensures UpTo(n + 1) == UpTo(n) + [n]
  {
  }

  lemma StartTold(w: Workload, s: State, c: nat)
    requires Located(w, s) && Enabled(w, s, Start(c)) && Told(w, s, c)
    ensures Told(w, Apply(w, s, Start(c)), c)
  {
    hide Dialogue, LenBefore, ActualBefore, TurnsOf, UpTo;
    var s' := Apply(w, s, Start(c));
    var rs := s.replies[c];
    assert Places(s, c) == 1;
    var k := |rs|;
    LengthsAgree(w[c], rs, s.prompts[c], k);
    var e := s'.issued[|s.issued|];
    IssueOne(s.issued, e, c);
    UpToNext(k);
    assert rs[..k] == rs;
    assert Faithful(w[c], rs, e) by { assert Dialogue(w[c], rs) + [] == Dialogue(w[c], rs); }
    assert s'.messages[c] == Dialogue(w[c], rs) + [User(w[c][k].text)];
  }

  lemma FinishTold(w: Workload, s: State, c: nat, reply: Reply)
    requires Located(w, s) && Enabled(w, s, Finish(c, reply)) && Told(w, s, c)
    ensures Told(w, Apply(w, s, Finish(c, reply)), c)
  {
    hide LenBefore, ActualBefore, TurnsOf, UpTo;
    var s' := Apply(w, s, Finish(c, reply));
    var rs := s.replies[c];
    assert Places(s, c) == 1;
    assert s'.replies[c] == rs + [reply];
    assert (rs + [reply])[..|rs|] == rs;
    assert s'.messages[c] == Dialogue(w[c], rs + [reply]);
    forall e | e in s'.issued && e.conversation == c ensures Faithful(w[c], rs + [reply], e) {
      FaithfulLater(w[c], rs, reply, e);
    }
  }

  /** A step of one conversation leaves what another has alone. */
  lemma Elsewhere(w: Workload, s: State, a: Action, d: nat)
    requires Enabled(w, s, a) && d < |w| && (a.Draw? || a.conversation != d)
    ensures var s' := Apply(w, s, a);
            && Shaped(w, s') && s'.replies[d] == s.replies[d] && s'.prompts[d] == s.prompts[d]
            && s'.messages[d] == s.messages[d] && s'.finished[d] == s.finished[d]
            && (d in s'.sent <==> d in s.sent) && (d in s'.done <==> d in s.done)
            && TurnsOf(s'.issued, d) == TurnsOf(s.issued, d)
            && (forall e | e in s'.issued && e.conversation == d :: e in s.issued)
  {
    hide LenBefore, TurnsOf, TotalRequests;
    if a.Start? { IssueOne(s.issued, Apply(w, s, a).issued[|s.issued|], d); }
  }

  lemma OthersTold(w: Workload, s: State, a: Action, d: nat)
    requires Enabled(w, s, a) && d < |w| && Told(w, s, d)
    requires a.Draw? || a.conversation != d
    ensures Shaped(w, Apply(w, s, a)) && Told(w, Apply(w, s, a), d)
  {
    hide Dialogue, TurnsOf, UpTo, Faithful, Updated;
    Elsewhere(w, s, a, d);
    hide Apply, Enabled;
  }

  ghost predicate AllTold(w: Workload, s: State) {
    Located(w, s) && forall c | 0 <= c < |w| :: Told(w, s, c)
  }

  lemma StepTold(w: Workload, s: State, a: Action)
    requires AllTold(w, s) && Enabled(w, s, a)
    ensures AllTold(w, Apply(w, s, a))
  {
    hide Told, Places;
    StepLocated(w, s, a);
    forall d | 0 <= d < |w| ensures Told(w, Apply(w, s, a), d) {
      if a.Draw? || a.conversation != d { OthersTold(w, s, a, d); }
      else if a.Start? { StartTold(w, s, d); }
      else { FinishTold(w, s, d, a.reply); }
    }
  }

  lemma InitTold(w: Workload)
    ensures AllTold(w, Init(w))
  {
    InitLocated(w);
  }

  lemma {:induction false} RunTold(w: Workload, s: State, acts: seq<Action>, s': State)
    requires AllTold(w, s) && Leads(w, s, acts, s')
    ensures AllTold(w, s')
    decreases |acts|
  {
    hide AllTold;
    if acts != [] {
      StepTold(w, s, acts[0]);
      RunTold(w, Apply(w, s, acts[0]), acts[1..], s');
    }
  }

  /** Every conversation is in exactly one place, and its turns are issued in order
      and once each, every request with the true dialogue and length before it. */
  lemma TurnsInOrder(w: Workload, s: State, c: nat)
    requires Reachable(w, s) && c < |w|
    ensures Places(s, c) == 1 && Shaped(w, s)
    ensures TurnsOf(s.issued, c) == UpTo(|s.replies[c]| + (if c in s.sent then 1 else 0))
    ensures |s.replies[c]| <= |w[c]| && (c in s.done <==> w[c] != [] && |s.replies[c]| == |w[c]|)
    ensures forall e | e in s.issued && e.conversation == c :: Faithful(w[c], s.replies[c], e)
  {
    hide Faithful, Dialogue, TurnsOf, UpTo;
    var acts :| Leads(w, Init(w), acts, s);
    InitTold(w);
    RunTold(w, Init(w), acts, s);
    assert Told(w, s, c) && Counted(w, s, c);
  }
}
