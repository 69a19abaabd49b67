/** The objects of benchmark/hicache/bench_serving.py. */
module ServingBenchmark {
  import opened ConversationQueue

  /** The run as the script holds it: inputs updated in place and a shared queue.
      Each method is one segment of a task between two awaits. */
  class Benchmark {
    const workload: Workload
    var prompts: array<seq<Turn>>
    var prevMessages: array<seq<Message>>
    var finishedPrompts: array<nat>
    var requestQueue: seq<nat>
    var drawn: nat
    ghost var waiting: multiset<nat>
    ghost var sent: multiset<nat>
    ghost var done: multiset<nat>
    ghost var issued: seq<Issued>
    ghost var replies: seq<seq<Reply>>

    ghost predicate Valid()
      reads this
    {
      && prompts.Length == prevMessages.Length == finishedPrompts.Length == |replies| == |workload|
      && (prompts as object) != prevMessages
    }

    ghost function Abs(): State
      reads this, prompts, prevMessages, finishedPrompts
    {
      State(prompts[..], prevMessages[..], finishedPrompts[..], requestQueue, drawn, waiting, sent, done, issued, replies)
    }

    constructor (w: Workload)
      ensures Valid() && workload == w && Abs() == Init(w)
      ensures fresh(prompts) && fresh(prevMessages) && fresh(finishedPrompts)
    {
      workload := w;
      prompts := new seq<Turn>[|w|](i requires 0 <= i < |w| => w[i]);
      prevMessages := new seq<Message>[|w|](_ => []);
      finishedPrompts := new nat[|w|](_ => 0);
      requestQueue, drawn := Init(w).queue, 0;
      waiting, sent, done, issued, replies := multiset{}, multiset{}, multiset{}, [], Init(w).replies;
      new;
      assert prompts[..] == w;
    }

    method DrawRequest() returns (c: nat)
      requires Valid() && Enabled(workload, Abs(), Draw)
      modifies this
      ensures Valid() && c == old(requestQueue)[0]
      ensures prompts == old(prompts) && prevMessages == old(prevMessages) && finishedPrompts == old(finishedPrompts)
      ensures Abs() == Apply(workload, old(Abs()), Draw)
    {
      c := requestQueue[0];
      requestQueue := requestQueue[1..];
      drawn := drawn + 1;
      waiting := waiting + multiset{c};
    }

    method SendTurn(c: nat) returns (promptLen: nat)
      requires Valid() && Enabled(workload, Abs(), Start(c))
      modifies this`waiting, this`sent, this`issued, prevMessages
      ensures Valid() && Abs() == Apply(workload, old(Abs()), Start(c))
      ensures promptLen == issued[|old(issued)|].promptLen
    {
      var k := finishedPrompts[c];
      var turns := prompts[c];
      promptLen := 0;
      for j := 0 to k
        invariant promptLen == LenBefore(turns, j)
      {
        promptLen := promptLen + turns[j].inputLen + turns[j].outputLen;
      }
      promptLen := promptLen + turns[k].inputLen;
      prevMessages[c] := prevMessages[c] + [User(turns[k].text)];
      issued := issued + [Issued(c, k, promptLen, prevMessages[c])];
      waiting, sent := waiting - multiset{c}, sent + multiset{c};
    }

    /** The answered turn gets its actual output length and the reply its place in the
        dialogue. */
    method RecordReply(c: nat, reply: Reply)
      requires Valid() && Enabled(workload, Abs(), Finish(c, reply))
      modifies this`replies, this`sent, prompts, prevMessages
      ensures Valid() && sent == old(sent) - multiset{c}
      ensures var k := finishedPrompts[c];
              && prompts[..] == old(prompts[..])[c := old(prompts[c])[k := old(prompts[c])[k].(outputLen := reply.outputLen)]]
              && prevMessages[..] == old(prevMessages[..])[c := old(prevMessages[c]) + [Assistant(reply.text)]]
              && replies == old(replies)[c := old(replies)[c] + [reply]]
    {
      var k := finishedPrompts[c];
      prompts[c] := prompts[c][k := prompts[c][k].(outputLen := reply.outputLen)];
      prevMessages[c] := prevMessages[c] + [Assistant(reply.text)];
      replies := replies[c := replies[c] + [reply]];
      sent := sent - multiset{c};
    }

    /** An answer is recorded, and the conversation goes to the end of the queue while
        it has turns left. */
    method TurnAnswered(c: nat, reply: Reply)
      requires Valid() && Enabled(workload, Abs(), Finish(c, reply))
      modifies this, prompts, prevMessages, finishedPrompts
      ensures Valid() && Abs() == Apply(workload, old(Abs()), Finish(c, reply))
    {
      var k := finishedPrompts[c];
      var more := k + 1 < |prompts[c]|;
      RecordReply(c, reply);
      if more {
        finishedPrompts[c] := k + 1;
        requestQueue := requestQueue + [c];
        assert finishedPrompts[..] == old(finishedPrompts[..])[c := k + 1];
      } else {
        done := done + multiset{c};
      }
    }
  }
}
