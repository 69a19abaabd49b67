# Verified models of the load generators and trace tools

This project models the algorithms behind the repository's benchmark drivers and
scripts in Dafny and proves what they guarantee for all inputs and, where threads or
tasks are involved, for all interleavings.

| files | subject |
|---|---|
| RoundBarrier, RoundBarrierSafety, RoundBarrierTheorems, RoundBarrierProgress, RoundBarrierFairness, WorkloadGenerator | the multi-turn load generator: a state machine of sender, server and response handler, its invariant, safety and progress over all runs, completion under every fair schedule, and the classes whose methods are its steps |
| SpanIntervals, SpanLayout, SpanLayoutTheorems, SpanDisplay, TraceLayout | the line layout of a converted trace: the two neighbour overlap test, the sticky first-fit allocator, exactly when its lines can be trusted, that it is optimal, what is shown on a line, and the objects it updates |
| SpanForest, TraceConversion | the span forest built from untrusted parent ids, the recursion over it, and the whole conversion with its two exits |
| LineRedirects | redirect resolution with rings and values updated in place, and the query selection that consumes it |
| ConversationQueue, ConversationTranscripts, ConversationServing, ServingBenchmark | conversations re-enqueued into a bounded queue while a generator draws a fixed number of requests |
| GitLog, PullRequests, PullRequestReading, ReleaseIndex | the release index: log printing and parsing, first release per commit and pull request, compaction, and the whole script |
| Text, AnswerExtraction, FracArguments, BoxedTexts | split, join and strip, repair of \frac arguments and what is read after it, boxed answers |
| MetricsCache | single-flight cache refresh |
| WheelIndex | the repeatedly rewritten wheel index |
| ChatFilter | the cyclic dataset filter |
| Counting, Sorting, Wrappers | sums, counts, pigeonhole facts, the stable sort, options and exceptions |

## What the proofs show about the code

Most of what the sources promise holds as they stand. Where it does not, the code is
modelled as it is, a lemma gives a concrete input, and another gives the exact condition:

- The response handler of the load generator can stop with responses unhandled. Its wait
  times out on an empty queue and only then is the progress bar read; the bar is advanced
  inside the request function (python/sglang/test/kits/cache_hit_kit.py:87-88) before the
  response is enqueued. A response that lands in between is lost (`EarlyStop`), and so can
  be those of all clients at once (`AllLost`). All responses are handled exactly when none
  stands between the bar and the handler when the bar is read (`StopIsComplete`), and a
  run without failures can complete exactly as long as its handler has not gone past a
  full bar with responses missing (`CompletionExact`). Under every fair schedule that
  avoids this it does complete (`FairRunsComplete`).
- The `start == end` shortcut of the layout puts a span without duration on the
  request's line unchecked. If a stored span reaches over it and some later instant of
  that span is not the start of a stored span, the overlap test misses the span there and
  the next span can be laid over it (`HiddenPointOverlaps`, `HiddenPointBreaks`). The test
  stays exact, and lines stay disjoint whatever comes next, in exactly the runs that do
  not do this (`StepExact`, `RunExact`), which include all runs without zero-length spans.
- Gateway spans never get a child list, so a trace with one makes the conversion raise a
  KeyError; a request without a span two levels below it makes the sort of the requests
  raise an IndexError (`Exits`). All other traces are converted (`ConvertExact`).
- A message with a line that ends in the end marker cuts the release log in the wrong
  place (`MarkerMentions`); the log reads back as written if and only if there is none
  (`LogExact`).
- The end marker stays on the last message of every chunk of the release log. For a
  one line message with blanks behind it the pull request number is then not found, so
  the chunk size can show in the index (`LostPr`); `PrExact` says exactly when. The
  theorems on pull requests are about messages for which it does not.
- An empty conversation uses up a draw of the serving benchmark and sends nothing, so a
  turn of another conversation can be lost (`LostTurn`). Every turn is answered if and
  only if each empty conversation stands behind as many others as there are requests
  (`StopsWhenDone`).
- The chat filter reaches a positive count if and only if some conversation is kept, and
  loops forever otherwise (`CountReached`).
- The repair of \frac keeps the two arguments that are read after it and puts each in
  braces, but turns a closing brace in the place of the second into an empty argument
  (`FracExamples`); `PartArguments` says exactly when what is read changes.
- The docstring of the nightly wheel index speaks of an order by commit count; the code
  orders by update, newest first, which is what `RunIsDedup` states.

## Conventions

A state machine is a function `Apply` on states with a guard `Enabled`; `Leads` is a run
of it. One step is one access of a thread to data another thread changes, or one segment
of a coroutine between two awaits. Server answers, random draws and clock readings are
parameters of the steps. Classes hold the fields the source updates; their methods are
proved equal to the steps or functions on values that the lemmas are about.

## Model

| member | source | states |
|---|---|---|
| `RoundBarrierTheorems.BarrierSafety` | benchmark/hicache/bench_multiturn.py:513-538 | with the barrier on, in every reachable state (failed responses and a stalled barrier included): all requests that are ready, being sent, in flight or awaiting handling belong to one round, held ones to the round after the barrier's, failed ones to the active round, and every client has succeeded in all its rounds below the active one and in none beyond the next |
| `RoundBarrierTheorems.ReleaseSize` | benchmark/hicache/bench_multiturn.py:518-538 | a barrier release appends exactly `clients_per_round[r + 1]` requests |
| `RoundBarrierTheorems.OneRequestPerClient` | benchmark/hicache/bench_multiturn.py:484-516 | two requests of one client found anywhere are the same request, occur once, and carry the client's current, unfinished round |
| `RoundBarrierTheorems.InFlightBound` | benchmark/hicache/bench_multiturn.py:403-411 | under every interleaving `sent - completed` is the number of requests between sender and counter and never exceeds `max_parallel`, although the sender's read is stale by the time it sends |
| `RoundBarrierTheorems.SubQuestionsSuffice` | benchmark/hicache/bench_multiturn.py:292-303 | one question is supplied per round of a client but the first, and at least one; the pop from `sub_question_inputs` never finds it empty, and a completed run has taken exactly those |
| `RoundBarrierTheorems.ResponsesInOrder` | benchmark/hicache/bench_multiturn.py:391-443 | over the actions of any run: responses are handled each once and in the order they came back, the queue holding those between the last taken and the last enqueued |
| `RoundBarrierTheorems.EverythingFits` | benchmark/hicache/bench_multiturn.py:484-516 | requests anywhere are as many as the unfinished clients, and with the counted successes never exceed `total_requests` |
| `RoundBarrierTheorems.FullProgress` | benchmark/hicache/bench_multiturn.py:414-415 | once the progress bar is full nothing is ready, being sent, in flight or held, and `total_requests` were sent; so only responses on their way to the handler can be missing |
| `RoundBarrierTheorems.StopIsComplete` | benchmark/hicache/bench_multiturn.py:539-541 | when the handler reads a full bar after its wait timed out it stops; all responses are handled if and only if none stands between bar and queue or in the queue, exactly those are lost, and they are at most one per client and at most the window |
| `RoundBarrierTheorems.EarlyStop` | benchmark/hicache/bench_multiturn.py:391-394 | a five step run of one client with one round in which the wait times out between bar and queue and the handler stops with nothing handled |
| `RoundBarrierTheorems.AllLost` | benchmark/hicache/bench_multiturn.py:439-541 | the bound on lost responses is attained: for any number of clients of one round, a wait that timed out before the first response makes the handler stop with every response lost |
| `RoundBarrierSafety.InitInv` | benchmark/hicache/bench_multiturn.py:231-232 | the constructor's state satisfies the invariant |
| `RoundBarrierSafety.LoopKeepsInv` | benchmark/hicache/bench_multiturn.py:388-415 | sender check, pop, commit, arrival and enqueueing of a response keep the invariant |
| `RoundBarrierSafety.StepKeepsInv` | benchmark/hicache/bench_multiturn.py:402-538 | every step of either thread keeps the invariant: one request per unfinished client, counters, window, supply, barrier rounds and counts |
| `RoundBarrierSafety.RoundIsOver` | benchmark/hicache/bench_multiturn.py:524-526 | when the completions of the barrier round equal its clients, each of them has succeeded in it, no request is active and none has failed |
| `RoundBarrierSafety.ReachableInv` | benchmark/hicache/bench_multiturn.py:402-538 | the invariant holds in every reachable state |
| `RoundBarrierProgress.MeasureStep` | benchmark/hicache/bench_multiturn.py:402-538 | every step except a poll of either thread lowers the measure, a poll leaves it |
| `RoundBarrierProgress.WorkIsBounded` | benchmark/hicache/bench_multiturn.py:402-538 | whatever fails, a run has at most 12 * total + 6 * clients + 1 steps that are not polls |
| `RoundBarrierProgress.SomethingReady` | benchmark/hicache/bench_multiturn.py:518-538 | an unfinished failure-free state with nothing between queue and handler has a ready request: the barrier cannot deadlock |
| `RoundBarrierProgress.Completes` | benchmark/hicache/bench_multiturn.py:403-538 | a failure-free state whose handler has not gone past a full bar leads on to one where each client has done exactly its rounds and exactly `total_requests` responses are sent, shown and handled |
| `RoundBarrierProgress.FailureFreeCompletes` | benchmark/hicache/bench_multiturn.py:403-544 | wherever a run without failures stands, with or without the barrier, unless its handler has gone past a full bar too early it can go on, without failures, to completion, and both threads leave their loops |
| `RoundBarrierProgress.CompletionExact` | benchmark/hicache/bench_multiturn.py:403-544 | with a window of at least one, a run without failures can still complete if and only if its handler has not gone past a full bar with responses missing |
| `RoundBarrierProgress.EarlyForever` | benchmark/hicache/bench_multiturn.py:539-541 | once it has, whatever happens the missing responses stay unhandled |
| `RoundBarrierProgress.NoLivelock` | benchmark/hicache/bench_multiturn.py:403-544 | in an unfinished run without failures that has not, a working step is at most two polls away, one of each thread |
| `RoundBarrierFairness.LastWork` | benchmark/hicache/bench_multiturn.py:403-544 | in every infinite schedule without failures and early stop both threads only poll from some instant on |
| `RoundBarrierFairness.FairRunsComplete` | benchmark/hicache/bench_multiturn.py:403-544 | under every schedule in which no thread is kept waiting forever while it could act and in-flight requests are answered, a run without failures whose handler never goes past a full bar too early reaches the state where each client has done exactly its rounds and exactly `total_requests` responses are sent, shown and handled |
| `RoundBarrierProgress.NoWindowNoProgress` | benchmark/hicache/bench_multiturn.py:405-411 | with `max_parallel` below 1 nothing is ever sent, so the bound in the progress theorem is exact |
| `RoundBarrierProgress.FailureStalls` | benchmark/hicache/bench_multiturn.py:444-447 | after a failed response the barrier round never changes again: the barrier stalls instead of opening early |
| `Counting.DoubleCounting` | benchmark/hicache/bench_multiturn.py:263-267 | `clients_per_round` sums to the sum of the clients' rounds |
| `WorkloadGenerators.Plan` | benchmark/hicache/bench_multiturn.py:234-385 | flags are a ValueError exactly when the rounds they resolve to are below one or out of order; otherwise clients get the drawn rounds, `max_rounds`, barrier and window are what the flags say, and `clients_per_round` sums to `total_requests` |
| `WorkloadGenerators.PlannedRun` | benchmark/hicache/bench_multiturn.py:234-538 | every run planned from the flags keeps them: with the barrier flag on active, held and failed requests are of their rounds and every client is through with its earlier ones, no client goes beyond its rounds, and `sent - completed` never exceeds the window flag |
| `WorkloadGenerators.ReadyQueue.constructor` | benchmark/hicache/bench_multiturn.py:188-191 | the queue starts with the given requests |
| `WorkloadGenerators.ReadyQueue.Append` | benchmark/hicache/bench_multiturn.py:193-195 | the request goes to the end |
| `WorkloadGenerators.ReadyQueue.Pop` | benchmark/hicache/bench_multiturn.py:197-208 | the returned request is the removed one, the rest keeps its order; empty queue gives nothing, unknown policy an error without change |
| `WorkloadGenerators.WorkloadGenerator.constructor` | benchmark/hicache/bench_multiturn.py:231-385 | the object starts in the machine's initial state |
| `WorkloadGenerators.WorkloadGenerator.SenderCheck` | benchmark/hicache/bench_multiturn.py:405-411 | is the machine's window check |
| `WorkloadGenerators.WorkloadGenerator.SenderPop` | benchmark/hicache/bench_multiturn.py:406-407 | is the machine's pop at the index the policy chooses; an unknown policy ends the sender without change |
| `WorkloadGenerators.WorkloadGenerator.SenderCommit` | benchmark/hicache/bench_multiturn.py:408-415 | is the machine's send, with the exit test after it |
| `WorkloadGenerators.WorkloadGenerator.SenderPass` | benchmark/hicache/bench_multiturn.py:403-415 | a whole pass of the sender is a path of the machine, sends one request exactly if the window is open and one is ready, and keeps the invariant |
| `WorkloadGenerators.WorkloadGenerator.ResponseLands` | benchmark/hicache/bench_multiturn.py:391-400 | is the machine's arrival of a response, good or failed |
| `WorkloadGenerators.WorkloadGenerator.ResponseEnqueued` | benchmark/hicache/bench_multiturn.py:394-394 | is the machine's enqueueing of a response |
| `WorkloadGenerators.WorkloadGenerator.TakeResponse` | benchmark/hicache/bench_multiturn.py:441-443 | is the machine's removal from the response queue |
| `WorkloadGenerators.WorkloadGenerator.CountResponse` | benchmark/hicache/bench_multiturn.py:444-482 | is the machine's counting of a response, failed or not |
| `WorkloadGenerators.WorkloadGenerator.AskFollowUp` | benchmark/hicache/bench_multiturn.py:484-516 | is the machine's follow-up request, held back or made ready |
| `WorkloadGenerators.WorkloadGenerator.ReachBarrier` | benchmark/hicache/bench_multiturn.py:520-526 | is the machine's barrier count |
| `WorkloadGenerators.WorkloadGenerator.ReleaseOne` | benchmark/hicache/bench_multiturn.py:534-538 | is one append of the release loop, or the move to the next round after the last |
| `WorkloadGenerators.WorkloadGenerator.WaitTimesOut` | benchmark/hicache/bench_multiturn.py:441-443 | is the machine's timeout of a wait on an empty queue |
| `WorkloadGenerators.WorkloadGenerator.TestProgressBar` | benchmark/hicache/bench_multiturn.py:539-541 | is the machine's look at the bar after it: the handler stops or waits again |
| `WorkloadGenerators.WorkloadGenerator.PassBarrier` | benchmark/hicache/bench_multiturn.py:520-538 | the barrier part of a pass, release loop included, is a path of the machine and keeps the invariant |
| `WorkloadGenerators.WorkloadGenerator.HandlerPass` | benchmark/hicache/bench_multiturn.py:439-538 | a whole pass of the handler is a path of the machine, counts one response and keeps the invariant |
| `SpanIntervals.BisectStart` | scripts/convert_otel_2_perfetto.py:59-59 | the place returned splits the spans into those starting before and the rest |
| `SpanIntervals.BisectSpan` | scripts/convert_otel_2_perfetto.py:73-73 | the place returned splits the spans into those before the new tuple and the rest |
| `SpanIntervals.ConflictMeaning` | scripts/convert_otel_2_perfetto.py:58-70 | between spans of positive length a conflict is a shared instant; a span without positive length conflicts as the point it starts at |
| `SpanIntervals.CheckIsScan` | scripts/convert_otel_2_perfetto.py:58-70 | on a line whose spans follow one another, zero-length ones that expose nothing included, the two neighbour test answers every query of positive length as a scan of all stored spans |
| `SpanIntervals.InsertOrdered` | scripts/convert_otel_2_perfetto.py:72-73 | insertion keeps tuple order |
| `SpanIntervals.InsertKeepsChain` | scripts/convert_otel_2_perfetto.py:72-73 | storing a span the test finds room for keeps the spans following one another, also when the shortened end lies at or before the start |
| `SpanIntervals.ChainDisjoint` | scripts/convert_otel_2_perfetto.py:58-73 | spans that follow one another never share an instant |
| `SpanIntervals.PointKeepsChain` | scripts/convert_otel_2_perfetto.py:98-99 | an unchecked point keeps the line in order if and only if it exposes no stored span: none reaches over it with a later instant that is not a stored start |
| `SpanIntervals.PointHides` | scripts/convert_otel_2_perfetto.py:98-99 | an exposed span is missed by the test for a query of one unit inside it, which overlaps it |
| `SpanIntervals.PointAgreement` | scripts/convert_otel_2_perfetto.py:98-99 | after storing a point unchecked the test agrees with the scan for all queries of positive length if and only if the point exposes no stored span |
| `SpanIntervals.DisjointCover` | scripts/convert_otel_2_perfetto.py:58-73 | on a line of disjoint spans at most one covers an instant |
| `SpanLayout.FirstFit` | scripts/convert_otel_2_perfetto.py:111-114 | the line returned is the first with room |
| `SpanLayout.FindLineTidy` | scripts/convert_otel_2_perfetto.py:95-120 | line numbers per process stay 1..n, remembered lines exist, slot metadata has one entry per line in order |
| `SpanLayout.ChoiceExact` | scripts/convert_otel_2_perfetto.py:95-120 | the line is the request's own while it sticks, else the lowest with room, else the next number; it is remembered, and a slot entry is added exactly for a new line |
| `SpanLayout.PlaceEffect` | scripts/convert_otel_2_perfetto.py:277-287 | storing changes one line of one process and nothing else |
| `SpanLayout.Run` | scripts/convert_otel_2_perfetto.py:264-304 | the numbering and metadata invariant holds after every sequence of steps |
| `SpanLayoutTheorems.StepExact` | scripts/convert_otel_2_perfetto.py:95-120 | after a step the test is exact on every line and lines are disjoint if and only if the step does not drop a zero-length span, unchecked, where it exposes a stored span; and the same condition decides whether lines stay disjoint whatever single span comes next |
| `SpanLayoutTheorems.RunExact` | scripts/convert_otel_2_perfetto.py:264-304 | over whole runs: the test is exact on disjoint lines in every state, and no state is one span away from an overlap, if and only if no step does that |
| `SpanLayoutTheorems.LinesAreDisjoint` | scripts/convert_otel_2_perfetto.py:264-304 | in such runs spans of one (pid, line) never overlap and the test equals the scan on every line for queries of positive length |
| `SpanLayoutTheorems.NoZeroHidesNothing` | scripts/convert_otel_2_perfetto.py:98-99 | runs without zero-length spans are such runs, negative leftovers of the shortening included |
| `SpanLayoutTheorems.HiddenPointOverlaps` | scripts/convert_otel_2_perfetto.py:98-102 | three spans of one request for which the layout puts overlapping spans on line 1 |
| `SpanLayoutTheorems.HiddenPointBreaks` | scripts/convert_otel_2_perfetto.py:98-102 | in any state in order, such a point makes the test wrong and one further span of one unit of the same request overlap another on its line |
| `SpanLayoutTheorems.NewLineMeansFull` | scripts/convert_otel_2_perfetto.py:111-120 | a line is opened only when every line has a conflict |
| `SpanLayoutTheorems.RequestColors` | scripts/convert_otel_2_perfetto.py:274-288 | while such a request is laid out the lines of the process are in order, cover every instant as often as its spans do, and some instant is covered as often as there are lines |
| `SpanLayoutTheorems.OptimalLayout` | scripts/convert_otel_2_perfetto.py:264-288 | a request that is the first on a process gets there, for its spans of positive length in order of start, exactly as many lines as the largest number of them covering one instant, whatever it has on other processes |
| `SpanLayoutTheorems.OptimalGateway` | scripts/convert_otel_2_perfetto.py:290-304 | the loop over gateway spans does the same for spans in any order; the script gets there with none only, see `TraceConversion.ConvertExact` |
| `Sorting.SortSorts` | scripts/convert_otel_2_perfetto.py:266-272 | the sorts by start time are ordered and permutations |
| `Sorting.SortStable` | scripts/convert_otel_2_perfetto.py:266-272 | and stable |
| `Sorting.SortTies` | scripts/convert_otel_2_perfetto.py:266-272 | a list in ascending order comes out in order of key, and ascending where keys are equal |
| `SpanDisplay.StoredIsShown` | scripts/convert_otel_2_perfetto.py:277-288 | after any steps a line stores exactly the spans that were told its number, as often as they were |
| `SpanDisplay.ShownApart` | scripts/convert_otel_2_perfetto.py:264-304 | in a run that hides no point two spans shown on one (pid, line) never overlap |
| `TraceLayouts.SpanLayoutContainer.constructor` | scripts/convert_otel_2_perfetto.py:55-56 | a container starts empty |
| `TraceLayouts.SpanLayoutContainer.CheckOverlap` | scripts/convert_otel_2_perfetto.py:58-70 | the answer of the neighbour test, which for queries of positive length is that of the scan on a line in order |
| `TraceLayouts.SpanLayoutContainer.InsertSpan` | scripts/convert_otel_2_perfetto.py:72-73 | the span is inserted at its place |
| `TraceLayouts.TraceLayout.constructor` | scripts/convert_otel_2_perfetto.py:273-273 | the layout starts empty |
| `TraceLayouts.TraceLayout.StaysOnLine` | scripts/convert_otel_2_perfetto.py:96-102 | whether the request stays on its line |
| `TraceLayouts.TraceLayout.Scan` | scripts/convert_otel_2_perfetto.py:111-114 | the loop over the lines finds the first with room |
| `TraceLayouts.TraceLayout.OpenLine` | scripts/convert_otel_2_perfetto.py:116-119 | a fresh, unshared container is added under the new number, with its slot entry |
| `TraceLayouts.TraceLayout.StoreSpan` | scripts/convert_otel_2_perfetto.py:285-287 | one container is changed in place and no other line with it |
| `TraceLayouts.TraceLayout.FindLine` | scripts/convert_otel_2_perfetto.py:95-120 | on objects, does what the line choice does on values |
| `TraceLayouts.TraceLayout.PlaceSpan` | scripts/convert_otel_2_perfetto.py:277-287 | on objects, does what placing a span does on values |
| `TraceLayouts.TraceLayout.LayoutRequest` | scripts/convert_otel_2_perfetto.py:274-288 | the loop over one request's spans: final layout, the line told to each span, and the optimal number of lines on every process that was not used before |
| `TraceLayouts.TraceLayout.LayoutSmg` | scripts/convert_otel_2_perfetto.py:290-304 | the loop over the gateway spans as a request of their own: final layout and the optimal number of lines; the script reaches it with no spans only |
| `SpanForest.BuildTree` | scripts/convert_otel_2_perfetto.py:172-195 | the loop that appends each span to its parent's list gives exactly the requests as roots and, per span, exactly the spans that are no request and name its id as parent where no later span has that id, each list ascending |
| `SpanForest.ParentExact` | scripts/convert_otel_2_perfetto.py:180-185 | the parent of a span is `p` if and only if the span is no request, `p` has the id it names, and no later span has it |
| `SpanForest.ChildrenCount` | scripts/convert_otel_2_perfetto.py:183-185 | every span is in at most one child list, once |
| `SpanForest.DepthBound` | scripts/convert_otel_2_perfetto.py:225-226 | below a request no span is deeper than there are spans, whatever the parent ids |
| `SpanForest.GatherCount` | scripts/convert_otel_2_perfetto.py:391-402 | the recursion from a span, which ends without a bound of its own, meets a span once if it is a descendant and not otherwise |
| `SpanForest.EmittedOnce` | scripts/convert_otel_2_perfetto.py:405-413 | for any parent ids (self-parents, cycles, duplicates) the recursion emits every span that a chain of two or more named parents leads from to a request exactly once and nothing else, when the script gets so far |
| `SpanForest.EmittedInOrder` | scripts/convert_otel_2_perfetto.py:391-413 | each emitted span is two steps below a request or comes after its parent |
| `SpanForest.TopsInOrder` | scripts/convert_otel_2_perfetto.py:405-410 | the spans below threads are emitted request by request, each request's in order of start time |
| `SpanForest.SpansOfMembers` | scripts/convert_otel_2_perfetto.py:228-249 | the spans collected for a request are exactly those two named parents below it |
| `SpanForest.SpansOfOrder` | scripts/convert_otel_2_perfetto.py:237-248 | thread by thread, and in the order of the trace |
| `TraceConversion.RequestSpans` | scripts/convert_otel_2_perfetto.py:230-249 | the nested loop over child lists collects them |
| `TraceConversion.FirstSpans` | scripts/convert_otel_2_perfetto.py:270-272 | the sort by first span gets through if and only if every request has a span |
| `TraceConversion.LayoutRequests` | scripts/convert_otel_2_perfetto.py:273-288 | the loop over the sorted requests gives the layout of the steps of all of them |
| `TraceConversion.PlacesExact` | scripts/convert_otel_2_perfetto.py:207-249 | what is laid out for a request: each span two steps below it, in order of start time, on the process of the thread span between them, its end a thousand nanoseconds earlier |
| `TraceConversion.OrderExact` | scripts/convert_otel_2_perfetto.py:270-272 | requests are laid out each once, in order of their earliest span, and in the order of the trace where these are equal |
| `TraceConversion.Convert` | scripts/convert_otel_2_perfetto.py:440-454 | the whole script: its outcome and, when it gets through, the layout |
| `TraceConversion.ConvertExact` | scripts/convert_otel_2_perfetto.py:225-272 | the script raises a KeyError if and only if there is a gateway span, an IndexError if and only if there is none and some request has no span two levels below it, and otherwise emits every span two or more levels below a request exactly once and nothing else |
| `TraceConversion.Exits` | scripts/convert_otel_2_perfetto.py:270-272 | a request without spans, with and without a gateway span, gives the two exits |
| `TraceConversion.ConvertedLines` | scripts/convert_otel_2_perfetto.py:264-304 | in a trace of which no laid out span is shortened to zero the test is exact and all lines are disjoint |
| `TraceConversion.ConvertedApart` | scripts/convert_otel_2_perfetto.py:264-304 | and two spans shown on one (pid, line) never overlap |
| `TraceConversion.RequestOptimal` | scripts/convert_otel_2_perfetto.py:264-288 | each request gets as few lines as possible on the processes it is the first to use, the first request of the trace on all |
| `LineRedirects.WalkComplete` | benchmark/line_retrieval/gen_data.py:63-74 | the walk follows redirects without repetition and ends at a line without redirect or at the first line met again |
| `LineRedirects.WalkIsShort` | benchmark/line_retrieval/gen_data.py:66-74 | the walk ends within `num_lines` redirects |
| `LineRedirects.RingExact` | benchmark/line_retrieval/gen_data.py:71-74 | a line is found in a ring if and only if no number of redirects from it reaches a line without redirect |
| `LineRedirects.StopOfStop` | benchmark/line_retrieval/gen_data.py:75-75 | the line a walk stops at is its own stop, so values read in place are still original |
| `LineRedirects.TargetChain` | benchmark/line_retrieval/gen_data.py:66-76 | off the rings the chain of a line is its target followed by the target's chain |
| `LineRedirects.Resolve` | benchmark/line_retrieval/gen_data.py:63-74 | the inner loop with its visited set computes stop and chain, or nothing for a ring |
| `LineRedirects.BuildLinks` | benchmark/line_retrieval/gen_data.py:57-76 | despite updates in place every line ends with the original value of its stop, links are the chains, the ring set is exact, and off the rings a line has its direct target's value |
| `LineRedirects.GroupByHops` | benchmark/line_retrieval/gen_data.py:79-83 | a line is in a group if and only if it is in no ring and the key is its chain length plus one; groups are ascending |
| `LineRedirects.CandidatesMembers` | benchmark/line_retrieval/bench_sglang.py:41-46 | the query filter keeps exactly the lines of the group whose links are shown and which come before the last shown line |
| `LineRedirects.CandidatesInOrder` | benchmark/line_retrieval/bench_sglang.py:41-46 | in the order of the group and as often as they occur there |
| `LineRedirects.PickAt` | benchmark/line_retrieval/bench_sglang.py:47-49 | the candidate taken is the last that does not lie beyond the wanted fraction of the list, or the last of all |
| `LineRedirects.MakeQuery` | benchmark/line_retrieval/bench_sglang.py:41-64 | an empty candidate list is an IndexError, otherwise the query is the candidate at the wanted fraction with its label, and the four parts, three of them a quarter of the body rounded down, concatenate to the lines up to the source line |
| `LineRedirects.QueryIsAnswerable` | benchmark/line_retrieval/bench_sglang.py:41-66 | a selected query has its whole chain in the shown body and its label is the original value at the end of that chain |
| `ConversationQueue.StepLocated` | benchmark/hicache/bench_serving.py:170-188 | every step keeps each conversation in exactly one of queued, waiting, sent or finished, and the draw count right |
| `ConversationTranscripts.TurnsInOrder` | benchmark/hicache/bench_serving.py:97-114 | for every workload a conversation is in one place, its turns are issued in order and once each, every request carries the dialogue before it, and its length is earlier inputs and actual outputs plus its own input |
| `ConversationTranscripts.LengthsAgree` | benchmark/hicache/bench_serving.py:100-104 | the length computed from the overwritten prompts is that of the actual outputs |
| `ConversationServing.ReEnqueueFits` | benchmark/hicache/bench_serving.py:184-188 | the queue never exceeds its capacity and has room whenever a conversation is put back |
| `ConversationServing.MeasureStep` | benchmark/hicache/bench_serving.py:266-270 | every step lowers the measure |
| `ConversationServing.RunsAreShort` | benchmark/hicache/bench_serving.py:266-270 | so a run is no longer than its starting measure |
| `ConversationServing.StopsWhenDone` | benchmark/hicache/bench_serving.py:412-491 | for every workload a run stops only when exactly `num_actual_requests` were drawn, and every turn of every conversation is answered then if and only if each empty conversation stands at place `num_actual_requests` or later |
| `ConversationServing.StepFifo` | benchmark/hicache/bench_serving.py:266-270 | conversations not drawn yet stay at the front of the queue in their first order, and a drawn empty one waits forever |
| `ConversationServing.RunsEnd` | benchmark/hicache/bench_serving.py:266-270 | every run can be continued until nothing can happen |
| `ConversationServing.NeverAsked` | benchmark/hicache/bench_serving.py:412-491 | a conversation at place `num_actual_requests` or later is never asked, in no run |
| `ConversationServing.LostTurn` | benchmark/hicache/bench_serving.py:97-99 | a workload of three conversations, the second empty, in which the turn of the third is never sent |
| `ConversationServing.FlattenTotal` | benchmark/hicache/bench_serving.py:416-418 | flattening for a shared prefix keeps the number of requests and leaves one turn per conversation, so no turn is lost |
| `ConversationServing.FlattenTurns` | benchmark/hicache/bench_serving.py:416-418 | the single turns are the turns of the workload in order |
| `ServingBenchmark.Benchmark.constructor` | benchmark/hicache/bench_serving.py:458-466 | the objects start in the machine's initial state |
| `ServingBenchmark.Benchmark.DrawRequest` | benchmark/hicache/bench_serving.py:266-270 | is the machine's draw |
| `ServingBenchmark.Benchmark.SendTurn` | benchmark/hicache/bench_serving.py:97-114 | is the machine's start of a turn, prompt length summed by the loop |
| `ServingBenchmark.Benchmark.RecordReply` | benchmark/hicache/bench_serving.py:170-182 | the answered prompt gets its actual output length, the dialogue the reply |
| `ServingBenchmark.Benchmark.TurnAnswered` | benchmark/hicache/bench_serving.py:170-188 | is the machine's finish of a turn, with the re-enqueueing |
| `GitLog.StrippedLog` | docs/release_lookup/generate_index.py:101-104 | for any messages the stripped log is the entries joined by the separator, the marker left on the last |
| `GitLog.PieceFree` | docs/release_lookup/generate_index.py:104-104 | an entry contains no separator if and only if no line of its message ends in the marker |
| `GitLog.LogRoundTrip` | docs/release_lookup/generate_index.py:101-112 | when no line of a message ends in the marker, splitting and parsing the stripped log gives every commit back once and in order, with its message |
| `GitLog.LogExact` | docs/release_lookup/generate_index.py:101-112 | and only then: the log reads back as written if and only if no line of a message ends in the marker |
| `GitLog.MarkerMentions` | docs/release_lookup/generate_index.py:104-104 | a mention of the marker inside a line does no harm, one at the end of a line does |
| `PullRequests.PrExact` | docs/release_lookup/generate_index.py:104-121 | the marker left on the last message of a chunk changes the pull request read from it if and only if the message is one line followed by a blank, ends in "(#n)" and does not name the same merge |
| `PullRequests.LostPr` | docs/release_lookup/generate_index.py:60-72 | a commit whose pull request number is lost that way |
| `PullRequestReading.NumberAtEndExact` | docs/release_lookup/generate_index.py:64-66 | a line gives number d if and only if it ends in "(#d)" with d all digits: the whole number |
| `PullRequestReading.NumberOfMergeExact` | docs/release_lookup/generate_index.py:68-70 | a message merges d if and only if d is the whole run of digits behind the leftmost merge text that a digit follows |
| `PullRequestReading.FirstLineExact` | docs/release_lookup/generate_index.py:61-62 | the line looked at is the first line of the stripped message |
| `PullRequestReading.ExtractPrExact` | docs/release_lookup/generate_index.py:60-72 | the number read is d if and only if the first line ends in d, or in no number and the message merges d |
| `PullRequestReading.TitleRoundTrip` | docs/release_lookup/generate_index.py:60-66 | a number put at the end of the first line is read back, for every digit string and whatever stands around it |
| `PullRequestReading.MergeRoundTrip` | docs/release_lookup/generate_index.py:68-70 | so is one behind the merge text a message begins with |
| `PullRequestReading.ReadingExamples` | docs/release_lookup/generate_index.py:60-72 | a title and a merge with numbers of several digits |
| `ReleaseIndex.NewCommits` | docs/release_lookup/generate_index.py:85-93 | the loop gives the commits not seen before, in order, and the enlarged seen set |
| `ReleaseIndex.ProcessChunk` | docs/release_lookup/generate_index.py:101-126 | one chunk updates both tables by the records parsed from its log, which for messages the log can be split at are its commits in order |
| `ReleaseIndex.ProcessRelease` | docs/release_lookup/generate_index.py:98-126 | all chunks of a release do the same for any chunk size |
| `ReleaseIndex.ProcessTagLine` | docs/release_lookup/generate_index.py:75-126 | what a release line records of messages the log can be split at is a function of the releases and messages alone; the pull requests too, where the left-over marker changes none |
| `ReleaseIndex.TrailExact` | docs/release_lookup/generate_index.py:77-93 | each commit is processed once, with the first release that reaches it |
| `ReleaseIndex.CommitsExact` | docs/release_lookup/generate_index.py:116-119 | a line records for every commit the first release reaching it, and leaves unreached commits and the other line alone |
| `ReleaseIndex.TwoLines` | docs/release_lookup/generate_index.py:162-163 | after both lines each commit has under each line exactly the first release reaching it, and nothing where none does |
| `ReleaseIndex.TableKeys` | docs/release_lookup/generate_index.py:116-119 | the table has exactly the commits some release reaches |
| `ReleaseIndex.PrsExact` | docs/release_lookup/generate_index.py:121-126 | a line records for every pull request the least release index over the commits whose messages name it, and nothing for others |
| `ReleaseIndex.PrOfExact` | docs/release_lookup/generate_index.py:114-121 | the pull request recorded for a commit is the one its message names |
| `ReleaseIndex.TwoPrLines` | docs/release_lookup/generate_index.py:162-163 | after both lines each pull request has under each line the least release index over its commits |
| `ReleaseIndex.ShortenTable` | docs/release_lookup/generate_index.py:165-180 | the script exits on a collision if and only if there is one; otherwise lookup by short name gives the full table's data |
| `ReleaseIndex.ShortBegins` | docs/release_lookup/generate_index.py:168-169 | a short name is the first eight characters of the name, or all it has |
| `ReleaseIndex.DecimalRoundTrip` | docs/release_lookup/generate_index.py:194-194 | an index printed in decimal reads back |
| `ReleaseIndex.SimplifyLossless` | docs/release_lookup/generate_index.py:188-198 | a simplified entry reads back as the entry |
| `ReleaseIndex.SimplifyExact` | docs/release_lookup/generate_index.py:188-197 | exactly the entries with one release become text: the line and the index in digits without leading zero |
| `ReleaseIndex.LookupIs` | docs/release_lookup/generate_index.py:188-198 | a written table reads as the table it was made from |
| `ReleaseIndex.BuildIndex` | docs/release_lookup/generate_index.py:129-204 | the whole script: it exits if and only if two reached commits share a short name, and otherwise looking up the written tables gives each commit the first release of each line that reaches it and each pull request the least release index, for any chunk size |
| `Text.JoinSplit` | benchmark/reasoning_benchmark/answer_extraction.py:9-9 | joining what was split gives the text back, for every text |
| `Text.SplitJoin` | benchmark/reasoning_benchmark/answer_extraction.py:9-9 | splitting what was joined gives the parts back when none contains a separator that does not overlap itself |
| `Text.StripExact` | docs/release_lookup/generate_index.py:17-17 | stripping takes white space off both ends, all of it and nothing else |
| `AnswerExtraction.FixFracsLoop` | benchmark/reasoning_benchmark/answer_extraction.py:8-37 | the loop with its early return computes the repair, which `FracArguments.FracsRepaired` and `FracArguments.BailsExactly` describe |
| `AnswerExtraction.FixFracsIdempotent` | benchmark/reasoning_benchmark/answer_extraction.py:8-37 | repairing twice is repairing once, for every text |
| `AnswerExtraction.FracsAreBraced` | benchmark/reasoning_benchmark/answer_extraction.py:13-36 | unless the repair bails out every \frac of the result is followed by a brace |
| `AnswerExtraction.FixFracsKeepsText` | benchmark/reasoning_benchmark/answer_extraction.py:13-36 | the repair adds braces and changes nothing else, for every text |
| `FracArguments.PartArguments` | benchmark/reasoning_benchmark/answer_extraction.py:18-36 | a piece that begins without brace keeps the two arguments read from it and the text behind them, each argument in braces of its own; what is read stays the same if and only if the second character is not a closing brace in the place of an argument |
| `FracArguments.FracsRepaired` | benchmark/reasoning_benchmark/answer_extraction.py:8-37 | unless the repair gives up, the text before the first \frac is kept and every piece after one is repaired so, or kept if it begins with a brace |
| `FracArguments.BailsExactly` | benchmark/reasoning_benchmark/answer_extraction.py:18-21 | it gives up, and returns the text as it was, if and only if fewer than two characters and no brace follow some \frac |
| `FracArguments.FracExamples` | benchmark/reasoning_benchmark/answer_extraction.py:22-36 | \frac12 becomes \frac{1}{2}; a lone closing brace becomes an empty argument |
| `AnswerExtraction.ScanPiece` | benchmark/reasoning_benchmark/answer_extraction.py:185-191 | the scan finds the first closing brace without partner, or shows there is none |
| `AnswerExtraction.AnswerExact` | benchmark/reasoning_benchmark/answer_extraction.py:184-196 | a piece yields an answer if and only if some prefix of it closes more braces than it opens |
| `AnswerExtraction.ExtractBoxed` | benchmark/reasoning_benchmark/answer_extraction.py:182-197 | one answer per such piece, in order: the balanced prefix before that brace, brace included when a percent sign follows |
| `AnswerExtraction.BoxedRoundTrip` | benchmark/reasoning_benchmark/answer_extraction.py:182-197 | a balanced text without marker, boxed after a prefix without marker and not followed by a percent sign, comes back as the first answer |
| `BoxedTexts.AllBoxed` | benchmark/reasoning_benchmark/answer_extraction.py:182-197 | however many balanced texts without marker are boxed, all come back in order, with the closing brace where a percent sign follows |
| `MetricsCache.StepKeeps` | docs/performance_dashboard/server.py:219-234 | every critical section keeps single flight, whole data, and the cache equal to the last store |
| `MetricsCache.EveryRun` | docs/performance_dashboard/server.py:219-234 | so does every interleaving of any number of threads, raising fetches included |
| `MetricsCache.FromStart` | docs/performance_dashboard/server.py:219-234 | from the start the flag is set exactly while a thread is inside, no two fetches overlap, and every reader saw the initial data or one whole fetch |
| `MetricsCache.RunExplained` | docs/performance_dashboard/server.py:219-234 | over the actions of any run: the cache holds what the thread of the last store had fetched last, with the time of that store, or the initial data when there was none; each store leaves one record, and each reader gets what the cache holds when it reads |
| `MetricsCache.RefreshIsSeen` | docs/performance_dashboard/server.py:219-234 | after one refresh the reader gets what was fetched |
| `MetricsCache.Reopens` | docs/performance_dashboard/server.py:232-234 | the flag can always be cleared again |
| `MetricsCache.CacheObject.TryAcquire` | docs/performance_dashboard/server.py:221-224 | lets exactly one caller through until release |
| `MetricsCache.CacheObject.StoreResult` | docs/performance_dashboard/server.py:228-230 | stores a fetch as a whole, with the time, and leaves the flag |
| `MetricsCache.CacheObject.Leave` | docs/performance_dashboard/server.py:232-234 | clears the flag |
| `MetricsCache.CacheObject.ReadCopy` | docs/performance_dashboard/server.py:337-343 | a reader gets the initial data or the whole of the fetch stored last, as the machine's read records it, and takes it for fresh exactly if a fetch was stored less than the lifetime ago |
| `WheelIndex.DedupLoop` | scripts/update_nightly_whl_index.py:112-121 | the loop keeps the first link to each file |
| `WheelIndex.LinkNames` | scripts/update_nightly_whl_index.py:95-96 | the file name extracted from a link is the one it was made for |
| `WheelIndex.LinkIsGood` | scripts/update_nightly_whl_index.py:94-98 | a link made from clean parts is one line of the page that names a file |
| `WheelIndex.LinkCarriesUrl` | scripts/update_nightly_whl_index.py:95-96 | a link leads to the address it was made for |
| `WheelIndex.WheelLink` | scripts/update_nightly_whl_index.py:95-96 | the link of a wheel leads to its release and file, with its hash |
| `WheelIndex.FileOfExact` | scripts/update_nightly_whl_index.py:116-118 | the file of any line is the leftmost text between `>` and `</a>` that has no `<` and ends in .whl, if there is one |
| `WheelIndex.ReadBack` | scripts/update_nightly_whl_index.py:79-85 | reading the written page back gives exactly the written links |
| `WheelIndex.DedupExact` | scripts/update_nightly_whl_index.py:112-121 | each file appears once and no file is lost |
| `WheelIndex.KeepsFirst` | scripts/update_nightly_whl_index.py:112-121 | the link kept for a file is the first given, that is the newest |
| `WheelIndex.RunIsDedup` | scripts/update_nightly_whl_index.py:77-150 | after any sequence of updates the page holds the first link to each file among all links ever added, newest update first |
| `WheelIndex.RepeatChangesNothing` | scripts/update_nightly_whl_index.py:104-121 | repeating an update changes nothing |
| `ChatFilter.KeepExact` | benchmark/hicache/data_processing.py:57-84 | exactly the exchanges within all given bounds are kept, in order and once each, with their prompt, its tokens, and the fixed output length or else the tokens of the completion |
| `ChatFilter.Filtered` | benchmark/hicache/data_processing.py:53-87 | the filtered dataset has no empty conversation and only exchanges within the bounds |
| `ChatFilter.FilteredExact` | benchmark/hicache/data_processing.py:53-87 | the filtered dataset has exactly the conversations with an acceptable exchange, in order and once each |
| `ChatFilter.KeepLoop` | benchmark/hicache/data_processing.py:56-84 | the inner loop computes that |
| `ChatFilter.OnePass` | benchmark/hicache/data_processing.py:53-87 | the loop over the dataset computes a pass: kept conversations are appended until there are enough |
| `ChatFilter.PassAdds` | benchmark/hicache/data_processing.py:53-87 | a pass adds the filtered dataset, as much of it as is wanted |
| `ChatFilter.PassesLength` | benchmark/hicache/data_processing.py:52-87 | n passes collect n rounds of the filtered dataset, or the wanted count |
| `ChatFilter.CountReached` | benchmark/hicache/data_processing.py:52-87 | a positive count is reached after some number of passes if and only if some conversation is kept |
| `ChatFilter.CommonFilterChat` | benchmark/hicache/data_processing.py:47-91 | exactly `num_requests` non-empty conversations, entry k being entry (k modulo the number of kept conversations) of the filtered dataset |

## Left out

- HTTP, tokenizers, sleeping, Poisson delays, heartbeats, metrics and printing of the load generators; a request of the load generator is its client and round, the token history and payload text are not modelled there (the dialogue is, for the serving benchmark).
- The `ValueError` branch of the response handler and the check of the distribution flag.
- Failed requests of the serving benchmark: such a request is a conversation that stays in the sent place, which the safety theorems cover; the generator's five minute timeout is not modelled.
- ReleaseIndex.ProcessTagLine: says nothing about the commit table for a message with a line that ends in the end marker, because such a log is not read back as written (`GitLog.LogExact`), and nothing about the pull request table for a message that fails the condition of `PullRequests.PrExact`.
- ReleaseIndex.BuildIndex: the same holds of the whole script; the date in the written file and the tag list itself are not modelled.
- Span events and links, JSON input and output, Python's recursion limit, and the KeyErrors of engine spans without the attributes the script reads (rid, pid, host and thread names). A gateway span of the input is taken to carry no child list of its own.
- The warm-up request of the serving benchmark, which raises when the first conversation is empty or there is none.
- The few-shot suffix, random line generation and scoring of the line retrieval task; the fraction of the query list is a real number, not a float.
- Git itself: what `rev-list` prints for a tag and the body of a commit are inputs; tag discovery and the stable release pattern are not modelled. Digits are the ASCII ones.
- SHA-256, the root index page and the directory handling of the wheel index; the title line is a parameter.
- Authentication tokens and the HTTP handlers of the dashboard.
- The other clean-up steps of the answer extraction, which depend on regular expression libraries.
- The engine, kernels, scheduler, caches and gateway of the repository, and the remaining benchmarks.
