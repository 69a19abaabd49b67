/** Single-flight refresh of docs/performance_dashboard/server.py: any number of
    threads may ask for a refresh, every access to the cache happens under one lock,
    and a fetch may raise. */
module MetricsCache {
  import opened Wrappers

  type Data = seq<string>

  /** Where a thread stands inside update_cache_async. */
  datatype Phase = Outside | Fetching | Fetched(data: Data) | Leaving

  datatype Cache = Cache(data: Data, lastUpdated: Option<int>, updating: bool)

  /** Data put into the cache, and when. */
  datatype Stored = Stored(data: Data, at: int)

  /** The cache, the threads, and for the record every completed fetch, every store
      and every answer given to a reader. */
  datatype State = State(cache: Cache, threads: map<nat, Phase>, fetches: seq<Data>, stores: seq<Stored>, answers: seq<Data>)

  /** How long, in seconds, data counts as fresh. */
  const CACHE_TTL := 300

  datatype Action =
    | Acquire(thread: nat)
    | FetchOk(thread: nat, data: Data)
    | FetchRaises(thread: nat)
    | Store(thread: nat, now: int)
    | Release(thread: nat)
    | Read

  function Init(initial: Data): State { State(Cache(initial, None, false), map[], [], [], []) }

  function PhaseOf(s: State, t: nat): Phase {
    if t in s.threads then s.threads[t] else Outside
  }

  predicate Enabled(s: State, a: Action) {
    match a
    case Acquire(t) => PhaseOf(s, t).Outside?
    case FetchOk(t, _) => PhaseOf(s, t).Fetching?
    case FetchRaises(t) => PhaseOf(s, t).Fetching?
    case Store(t, _) => PhaseOf(s, t).Fetched?
    case Release(t) => PhaseOf(s, t).Leaving?
    case Read => true
  }

  function Apply(s: State, a: Action): State
    requires Enabled(s, a)
  {
    match a
    case Acquire(t) =>
      if s.cache.updating then s
      else s.(cache := s.cache.(updating := true), threads := s.threads[t := Fetching])
    case FetchOk(t, d) => s.(threads := s.threads[t := Fetched(d)], fetches := s.fetches + [d])
    case FetchRaises(t) => s.(threads := s.threads[t := Leaving])
    case Store(t, now) =>
      s.(cache := s.cache.(data := PhaseOf(s, t).data, lastUpdated := Some(now)), threads := s.threads[t := Leaving],
         stores := s.stores + [Stored(PhaseOf(s, t).data, now)])
    case Release(t) => s.(cache := s.cache.(updating := false), threads := s.threads[t := Outside])
    case Read => s.(answers := s.answers + [s.cache.data])
  }

  ghost predicate Leads(s: State, acts: seq<Action>, s': State)
    decreases |acts|
  {
    if acts == [] then s' == s else Enabled(s, acts[0]) && Leads(Apply(s, acts[0]), acts[1..], s')
  }

  /** At most one thread is inside, and the flag says whether one is. */
  ghost predicate SingleFlight(s: State) {
    && (forall t, u :: !PhaseOf(s, t).Outside? && !PhaseOf(s, u).Outside? ==> t == u)
    && (s.cache.updating <==> exists t :: !PhaseOf(s, t).Outside?)
  }

  ghost predicate Whole(initial: Data, s: State) {
    && (s.cache.lastUpdated.None? ==> s.stores == [] && s.cache.data == initial)
    && (s.cache.lastUpdated.Some? ==>
          s.stores != [] && s.stores[|s.stores| - 1] == Stored(s.cache.data, s.cache.lastUpdated.value))
    && (forall x | x in s.stores :: x.data in s.fetches)
    && (forall t :: PhaseOf(s, t).Fetched? ==> PhaseOf(s, t).data in s.fetches)
    && (forall d | d in s.answers :: d == initial || d in s.fetches)
  }

  lemma StepKeeps(initial: Data, s: State, a: Action)
    requires SingleFlight(s) && Whole(initial, s) && Enabled(s, a)
    ensures SingleFlight(Apply(s, a)) && Whole(initial, Apply(s, a))
  {
    var s' := Apply(s, a);
    if !a.Read? {
      var t := a.thread;
      assert forall u :: u != t ==> PhaseOf(s', u) == PhaseOf(s, u);
      if a.Acquire? && !s.cache.updating { assert PhaseOf(s', t) == Fetching; }
      if !a.Acquire? { assert !PhaseOf(s, t).Outside?; }
      if !a.Acquire? && !a.Release? { assert !PhaseOf(s', t).Outside?; }
    } else {
      assert forall u :: PhaseOf(s', u) == PhaseOf(s, u);
    }
  }

  /** In every run, whatever the interleaving and whichever fetches raise, the flag
      is set exactly while one thread is between acquire and release, no two fetches
      overlap, and a reader sees the initial data or the whole of one fetch. */
  lemma {:induction false} EveryRun(initial: Data, s: State, acts: seq<Action>, s': State)
    requires SingleFlight(s) && Whole(initial, s) && Leads(s, acts, s')
    ensures SingleFlight(s') && Whole(initial, s')
    decreases |acts|
  {
    if acts != [] {
      StepKeeps(initial, s, acts[0]);
      EveryRun(initial, Apply(s, acts[0]), acts[1..], s');
    }
  }

  lemma FromStart(initial: Data, acts: seq<Action>, s: State)
    requires Leads(Init(initial), acts, s)
    ensures s.cache.updating <==> exists t :: !PhaseOf(s, t).Outside?
    ensures forall t, u :: PhaseOf(s, t).Fetching? && PhaseOf(s, u).Fetching? ==> t == u
    ensures forall d | d in s.answers :: d == initial || d in s.fetches
  {
    assert forall t :: PhaseOf(Init(initial), t) == Outside;
    EveryRun(initial, Init(initial), acts, s);
  }

  // ---- What the actions leave behind -----------------------------------------

  /** The data of the thread's last completed fetch. */
  function LastFetch(acts: seq<Action>, t: nat): Option<Data> {
    if acts == [] then None
    else
      var n := |acts| - 1;
      if acts[n].FetchOk? && acts[n].thread == t then Some(acts[n].data) else LastFetch(acts[..n], t)
  }

  /** What was put into the cache, in order: for each store what its thread fetched last,
      and the time. */
  function StoresOf(acts: seq<Action>): seq<Stored> {
    if acts == [] then []
    else
      var n := |acts| - 1;
      var before := StoresOf(acts[..n]);
      if acts[n].Store? && LastFetch(acts[..n], acts[n].thread).Some? then
        before + [Stored(LastFetch(acts[..n], acts[n].thread).value, acts[n].now)]
      else before
  }

  /** How many stores there are among the actions. */
  function CountStores(acts: seq<Action>): nat {
    if acts == [] then 0 else CountStores(acts[..|acts| - 1]) + (if acts[|acts| - 1].Store? then 1 else 0)
  }

  function FetchesOf(acts: seq<Action>): seq<Data> {
    if acts == [] then []
    else
      var n := |acts| - 1;
      FetchesOf(acts[..n]) + (if acts[n].FetchOk? then [acts[n].data] else [])
  }

  /** What the cache should hold after the actions. */
  function CurrentData(initial: Data, acts: seq<Action>): Data {
    var stores := StoresOf(acts);
    if stores == [] then initial else stores[|stores| - 1].data
  }

  function CurrentTime(acts: seq<Action>): Option<int> {
    var stores := StoresOf(acts);
    if stores == [] then None else Some(stores[|stores| - 1].at)
  }

  /** What the readers should have got: at each read what the cache should hold then. */
  function AnswersOf(initial: Data, acts: seq<Action>): seq<Data> {
    if acts == [] then []
    else
      var n := |acts| - 1;
      AnswersOf(initial, acts[..n]) + (if acts[n].Read? then [CurrentData(initial, acts[..n])] else [])
  }

  /** The state is what the actions before it make of the start. */
  ghost predicate Explained(initial: Data, acts: seq<Action>, s: State) {
    && s.cache.data == CurrentData(initial, acts) && s.cache.lastUpdated == CurrentTime(acts)
    && s.stores == StoresOf(acts) && |StoresOf(acts)| == CountStores(acts)
    && s.fetches == FetchesOf(acts) && s.answers == AnswersOf(initial, acts)
    && forall t :: PhaseOf(s, t).Fetched? ==> LastFetch(acts, t) == Some(PhaseOf(s, t).data)
  }

  lemma {:induction false} LastStep(s: State, acts: seq<Action>, s': State) returns (m: State)
    requires acts != [] && Leads(s, acts, s')
    ensures Leads(s, acts[..|acts| - 1], m) && Enabled(m, acts[|acts| - 1]) && s' == Apply(m, acts[|acts| - 1])
    decreases |acts|
  {
    var n := |acts| - 1;
    if n == 0 {
      m := s;
      assert acts[1..] == [] && acts[..0] == [];
    } else {
      m := LastStep(Apply(s, acts[0]), acts[1..], s');
      assert acts[1..][..n - 1] == acts[..n][1..] && acts[1..][n - 1] == acts[n];
    }
  }

  lemma StepExplained(initial: Data, acts: seq<Action>, s: State, a: Action)
    requires Explained(initial, acts, s) && Enabled(s, a)
    ensures Explained(initial, acts + [a], Apply(s, a))
  {
    var s' := Apply(s, a);
    assert (acts + [a])[..|acts|] == acts;
    if !a.Read? {
      assert forall u :: u != a.thread ==> PhaseOf(s', u) == PhaseOf(s, u);
    } else {
      assert forall u :: PhaseOf(s', u) == PhaseOf(s, u);
    }
  }

  /** In every run, whatever the interleaving and whichever fetches raise, the cache holds
      what the thread of the last store had fetched last, with the time of that store, or
      the initial data when there was none; each store left one record, and each reader got
      what the cache held when it read. */
  lemma {:induction false} RunExplained(initial: Data, acts: seq<Action>, s: State)
    requires Leads(Init(initial), acts, s)
    ensures s.cache.data == CurrentData(initial, acts) && s.cache.lastUpdated == CurrentTime(acts)
    ensures s.stores == StoresOf(acts) && |s.stores| == CountStores(acts)
    ensures s.fetches == FetchesOf(acts) && s.answers == AnswersOf(initial, acts)
    ensures Explained(initial, acts, s)
    decreases |acts|
  {
    if acts == [] {
      assert forall t :: PhaseOf(s, t) == Outside;
    } else {
      var n := |acts| - 1;
      var m := LastStep(Init(initial), acts, s);
      hide Leads, Explained;
      RunExplained(initial, acts[..n], m);
      StepExplained(initial, acts[..n], m, acts[n]);
      assert acts[..n] + [acts[n]] == acts;
      ExplainedMeans(initial, acts, s);
    }
  }

  lemma ExplainedMeans(initial: Data, acts: seq<Action>, s: State)
    requires Explained(initial, acts, s)
    ensures s.cache.data == CurrentData(initial, acts) && s.cache.lastUpdated == CurrentTime(acts)
    ensures s.stores == StoresOf(acts) && |s.stores| == CountStores(acts)
    ensures s.fetches == FetchesOf(acts) && s.answers == AnswersOf(initial, acts)
  {
  }

  /** One refresh: the reader after it gets what was fetched. */
  lemma RefreshIsSeen(initial: Data, d: Data, t: nat, now: int, s: State)
    requires Leads(Init(initial), [Acquire(t), FetchOk(t, d), Store(t, now), Release(t), Read], s)
    ensures s.answers == [d] && s.cache == Cache(d, Some(now), false)
  {
    var acts := [Acquire(t), FetchOk(t, d), Store(t, now), Release(t), Read];
    var s1 := Apply(Init(initial), acts[0]);
    assert acts[1..] == [FetchOk(t, d), Store(t, now), Release(t), Read] && Leads(s1, acts[1..], s);
    var s2 := Apply(s1, acts[1]);
    assert acts[1..][1..] == [Store(t, now), Release(t), Read] && Leads(s2, acts[1..][1..], s);
    var s3 := Apply(s2, acts[2]);
    assert acts[1..][1..][1..] == [Release(t), Read] && Leads(s3, [Release(t), Read], s);
    var s4 := Apply(s3, acts[3]);
    assert [Release(t), Read][1..] == [Read] && [Read][1..] == [] && Leads(s4, [Read], s);
    assert Leads(Apply(s4, Read), [], s);
  }

  /** The flag cannot stay set: the one thread inside can always leave. */
  lemma Reopens(s: State) returns (acts: seq<Action>, s': State)
    requires SingleFlight(s)
    ensures Leads(s, acts, s') && !s'.cache.updating
  {
    if !s.cache.updating {
      acts, s' := [], s;
    } else {
      var t :| !PhaseOf(s, t).Outside?;
      var out := match PhaseOf(s, t)
        case Fetching => [FetchRaises(t), Release(t)]
        case Fetched(_) => [Store(t, 0), Release(t)]
        case _ => [Release(t)];
      acts := out;
      assert |acts| == 2 ==> acts[1..] == [acts[1]] && acts[1..][1..] == [];
      assert |acts| == 1 ==> acts[1..] == [];
      var m := Apply(s, acts[0]);
      s' := if |acts| == 1 then m else Apply(m, acts[1]);
      assert |acts| == 2 ==> Leads(m, acts[1..], s');
    }
  }

  // ---- The lock-protected blocks ---------------------------------------------

  class CacheObject {
    var data: Data
    var lastUpdated: Option<int>
    var updating: bool

    ghost function Abs(): Cache
      reads this
    {
      Cache(data, lastUpdated, updating)
    }

    constructor (initial: Data)
      ensures Abs() == Init(initial).cache
    {
      data, lastUpdated, updating := initial, None, false;
    }

    /** Lets exactly one caller through until it releases. */
    method TryAcquire(ghost s: State, ghost t: nat) returns (entered: bool)
      requires Abs() == s.cache && Enabled(s, Acquire(t))
      modifies this
      ensures entered == !old(updating)
      ensures Abs() == Apply(s, Acquire(t)).cache
      ensures entered <==> Apply(s, Acquire(t)).threads != s.threads
    {
      assert !updating ==> s.threads[t := Fetching] != s.threads by { assert s.threads[t := Fetching][t] == Fetching; }
      if updating {
        return false;
      }
      updating := true;
      return true;
    }

    method StoreResult(result: Data, now: int, ghost s: State, ghost t: nat)
      requires Abs() == s.cache && PhaseOf(s, t) == Fetched(result)
      modifies this
      ensures Abs() == Apply(s, Store(t, now)).cache
      ensures data == result && lastUpdated == Some(now) && updating == old(updating)
    {
      data := result;
      lastUpdated := Some(now);
    }

    method Leave(ghost s: State, ghost t: nat)
      requires Abs() == s.cache && Enabled(s, Release(t))
      modifies this
      ensures Abs() == Apply(s, Release(t)).cache
    {
      updating := false;
    }

    /** A reader gets the initial data, or the whole of the fetch stored last; what it
        takes for fresh is such a fetch, stored less than the lifetime ago. A store at
        time zero counts as none. */
    method ReadCopy(now: int, ghost initial: Data, ghost s: State) returns (copy: Data, valid: bool)
      requires Abs() == s.cache && SingleFlight(s) && Whole(initial, s)
      ensures Apply(s, Read).answers == s.answers + [copy] && Apply(s, Read).cache == Abs()
      ensures s.stores == [] ==> copy == initial && !valid
      ensures s.stores != [] ==> copy == s.stores[|s.stores| - 1].data && copy in s.fetches
      ensures valid <==> s.stores != [] && s.stores[|s.stores| - 1].at != 0 && now - s.stores[|s.stores| - 1].at < 300
    {
      valid := lastUpdated.Some? && lastUpdated.value != 0 && now - lastUpdated.value < CACHE_TTL;
      copy := data;
    }
  }
}
