/** The span forest of scripts/convert_otel_2_perfetto.py. Parent ids come from
    the trace and may repeat, dangle, point at the span itself or form cycles. */
module SpanForest {
  import opened Counting
  import opened Wrappers
  import opened Sorting

  /** A recorded span: `parent` is the empty string when the field is absent, `pid`
      counts for thread spans only. */
  datatype SpanRecord = SpanRecord(id: string, parent: string, isRequest: bool, pid: int, start: int, end: int)

  type Trace = seq<SpanRecord>

  /** `p` is the last span with this id. */
  ghost predicate LastWith(spans: Trace, id: string, p: nat) {
    p < |spans| && spans[p].id == id && forall q | p < q < |spans| :: spans[q].id != id
  }

  /** The id map: a later span with the same id replaces an earlier one. */
  function Lookup(spans: Trace, id: string): (r: Option<nat>)
    ensures r.Some? ==> LastWith(spans, id, r.value)
    ensures r.None? ==> forall q | 0 <= q < |spans| :: spans[q].id != id
  {
    if spans == [] then None
    else if spans[|spans| - 1].id == id then Some(|spans| - 1)
    else
      var n := |spans| - 1;
      assert forall q | 0 <= q < n :: spans[..n][q] == spans[q];
      Lookup(spans[..n], id)
  }

  /** What the records say: `i` is no request, `p` has the id it names as parent, and no
      later span has that id. */
  ghost predicate ChildOf(spans: Trace, i: nat, p: nat) {
    i < |spans| && !spans[i].isRequest && LastWith(spans, spans[i].parent, p)
  }

  /** The span whose child list `i` is appended to; requests are roots instead. */
  function Parent(spans: Trace, i: nat): (r: Option<nat>)
    requires i < |spans|
    ensures r.Some? ==> r.value < |spans|
  {
    if spans[i].isRequest then None else Lookup(spans, spans[i].parent)
  }

  lemma ParentExact(spans: Trace, i: nat, p: nat)
    requires i < |spans|
    ensures Parent(spans, i) == Some(p) <==> ChildOf(spans, i, p)
  {
  }

  function ChildrenBelow(spans: Trace, p: nat, n: nat): (cs: seq<nat>)
    requires n <= |spans|
    ensures forall c | c in cs :: c < n && Parent(spans, c) == Some(p)
  {
    if n == 0 then []
    else ChildrenBelow(spans, p, n - 1) + (if Parent(spans, n - 1) == Some(p) then [n - 1] else [])
  }

  function Children(spans: Trace, p: nat): seq<nat> { ChildrenBelow(spans, p, |spans|) }

  function RootsBelow(spans: Trace, n: nat): (rs: seq<nat>)
    requires n <= |spans|
    ensures forall r | r in rs :: r < n && spans[r].isRequest
  {
    if n == 0 then [] else RootsBelow(spans, n - 1) + (if spans[n - 1].isRequest then [n - 1] else [])
  }

  function Roots(spans: Trace): seq<nat> { RootsBelow(spans, |spans|) }

  /** Builds the child lists span by span, appending each to its parent's list. */
  method BuildTree(spans: Trace) returns (roots: seq<nat>, child: array<seq<nat>>)
    ensures fresh(child) && child.Length == |spans|
    ensures roots == Roots(spans)
    ensures forall p | 0 <= p < |spans| :: child[p] == Children(spans, p)
    ensures AscendingBelow(roots, |spans|) && forall i: nat :: i in roots <==> i < |spans| && spans[i].isRequest
    ensures forall p | 0 <= p < |spans| ::
              AscendingBelow(child[p], |spans|) && forall i: nat :: i in child[p] <==> ChildOf(spans, i, p)
  {
    hide Lookup;
    child := new seq<nat>[|spans|](_ => []);
    roots := [];
    for i := 0 to |spans|
      invariant roots == RootsBelow(spans, i)
      invariant forall p | 0 <= p < |spans| :: child[p] == ChildrenBelow(spans, p, i)
    {
      if spans[i].isRequest {
        roots := roots + [i];
      } else {
        var parent := Lookup(spans, spans[i].parent);
        if parent.Some? {
          child[parent.value] := child[parent.value] + [i];
        }
      }
    }
    RootsListed(spans, |spans|);
    forall p | 0 <= p < |spans|
      ensures AscendingBelow(child[p], |spans|) && forall i: nat :: i in child[p] <==> ChildOf(spans, i, p)
    {
      ChildrenListed(spans, p, |spans|);
    }
  }

  /** A child list holds exactly the spans that name the span as parent, in order. */
  lemma {:induction false} ChildrenListed(spans: Trace, p: nat, n: nat)
    requires n <= |spans|
    ensures AscendingBelow(ChildrenBelow(spans, p, n), n)
    ensures forall i: nat :: i in ChildrenBelow(spans, p, n) <==> i < n && ChildOf(spans, i, p)
  {
    hide Parent, ChildOf;
    if n > 0 {
      ChildrenListed(spans, p, n - 1);
      ParentExact(spans, n - 1, p);
      PushAscending(ChildrenBelow(spans, p, n - 1), n - 1, n);
    }
  }

  lemma {:induction false} RootsListed(spans: Trace, n: nat)
    requires n <= |spans|
    ensures AscendingBelow(RootsBelow(spans, n), n)
    ensures forall i: nat :: i in RootsBelow(spans, n) <==> i < n && spans[i].isRequest
  {
    if n > 0 {
      RootsListed(spans, n - 1);
      PushAscending(RootsBelow(spans, n - 1), n - 1, n);
    }
  }

  // ---- Depth below the request roots -----------------------------------------

  /** `i` is `d` parent steps below a request. */
  ghost predicate AtDepth(spans: Trace, i: nat, d: nat)
    decreases d
  {
    i < |spans| &&
    if d == 0 then spans[i].isRequest
    else Parent(spans, i).Some? && AtDepth(spans, Parent(spans, i).value, d - 1)
  }

  lemma {:induction false} DepthUnique(spans: Trace, i: nat, d: nat, e: nat)
    requires AtDepth(spans, i, d) && AtDepth(spans, i, e)
    ensures d == e
    decreases d
  {
    hide Lookup;
    if d > 0 && e > 0 { DepthUnique(spans, Parent(spans, i).value, d - 1, e - 1); }
  }

  ghost function Lineage(spans: Trace, i: nat, d: nat): set<nat>
    requires AtDepth(spans, i, d)
    decreases d
  {
    if d == 0 then {i} else {i} + Lineage(spans, Parent(spans, i).value, d - 1)
  }

  ghost predicate AtMost(spans: Trace, i: nat, d: nat) {
    exists e: nat :: e <= d && AtDepth(spans, i, e)
  }

  lemma {:induction false} LineageSize(spans: Trace, i: nat, d: nat)
    requires AtDepth(spans, i, d)
    ensures |Lineage(spans, i, d)| == d + 1
    ensures forall j | j in Lineage(spans, i, d) :: AtMost(spans, j, d)
    decreases d
  {
    hide Parent;
    if d > 0 {
      var p := Parent(spans, i).value;
      var above := Lineage(spans, p, d - 1);
      LineageSize(spans, p, d - 1);
      hide AtDepth;
      if i in above {
        var e: nat :| e <= d - 1 && AtDepth(spans, i, e);
        DepthUnique(spans, i, d, e);
      }
      assert Lineage(spans, i, d) == {i} + above;
      forall j | j in above ensures AtMost(spans, j, d) {
        var e: nat :| e <= d - 1 && AtDepth(spans, j, e);
      }
    }
  }

  /** Pigeonhole: a span below a request is at most as deep as there are spans. */
  lemma DepthBound(spans: Trace, i: nat, d: nat)
    requires AtDepth(spans, i, d)
    ensures d < |spans|
  {
    LineageSize(spans, i, d);
    SubsetSize(Lineage(spans, i, d), |spans|);
  }

  // ---- The recursion ---------------------------------------------------------

  lemma ChildrenDepth(spans: Trace, i: nat, d: nat)
    requires AtDepth(spans, i, d)
    ensures forall c | c in Children(spans, i) :: AtDepth(spans, c, d + 1)
  {
  }

  /** Pre-order over a span and its child lists. The depth is not computed; it
      only shows that the recursion ends. */
  function Gather(spans: Trace, i: nat, ghost d: nat): seq<nat>
    requires AtDepth(spans, i, d)
    decreases |spans| - d, 0
  {
    DepthBound(spans, i, d);
    ChildrenDepth(spans, i, d);
    [i] + GatherList(spans, Children(spans, i), d + 1)
  }

  function GatherList(spans: Trace, cs: seq<nat>, ghost d: nat): seq<nat>
    requires forall c | c in cs :: AtDepth(spans, c, d)
    decreases |spans| - d, |cs|
  {
    if cs == [] then []
    else
      DepthBound(spans, cs[0], d);
      Gather(spans, cs[0], d) + GatherList(spans, cs[1..], d)
  }

  /** The children of thread spans, thread by thread. */
  function ThreadSpans(spans: Trace, ts: seq<nat>): seq<nat> {
    if ts == [] then [] else ThreadSpans(spans, ts[..|ts| - 1]) + Children(spans, ts[|ts| - 1])
  }

  /** A request's spans are the children of its thread spans. */
  function SpansOf(spans: Trace, r: nat): seq<nat> { ThreadSpans(spans, Children(spans, r)) }

  function StartKey(spans: Trace): nat -> int {
    (x: nat) => if x < |spans| then spans[x].start else 0
  }

  function SortedSpans(spans: Trace, r: nat): seq<nat> { SortByKey(SpansOf(spans, r), StartKey(spans)) }

  /** `x` is two parent steps below `r`. */
  ghost predicate TwoBelow(spans: Trace, r: nat, x: nat) {
    exists t: nat :: ChildOf(spans, t, r) && ChildOf(spans, x, t)
  }

  lemma TwoBelowParents(spans: Trace, r: nat, x: nat)
    ensures TwoBelow(spans, r, x) <==>
            x < |spans| && Parent(spans, x).Some? && Parent(spans, Parent(spans, x).value) == Some(r)
  {
    hide Parent;
    if t: nat :| ChildOf(spans, t, r) && ChildOf(spans, x, t) {
      ParentExact(spans, t, r);
      ParentExact(spans, x, t);
    }
    if x < |spans| && Parent(spans, x).Some? && Parent(spans, Parent(spans, x).value) == Some(r) {
      var t := Parent(spans, x).value;
      ParentExact(spans, x, t);
      ParentExact(spans, t, r);
    }
  }

  lemma ChildrenMembers(spans: Trace, p: nat, c: nat)
    ensures c in Children(spans, p) <==> c < |spans| && Parent(spans, c) == Some(p)
  {
    hide Parent;
    ChildrenCount(spans, p, |spans|, c);
    assert c in Children(spans, p) <==> c in multiset(Children(spans, p));
  }

  lemma {:induction false} ThreadSpansMembers(spans: Trace, ts: seq<nat>, x: nat)
    ensures x in ThreadSpans(spans, ts) <==> x < |spans| && Parent(spans, x).Some? && Parent(spans, x).value in ts
  {
    hide Parent, Children;
    if ts != [] {
      var n := |ts| - 1;
      ThreadSpansMembers(spans, ts[..n], x);
      ChildrenMembers(spans, ts[n], x);
      assert ts == ts[..n] + [ts[n]];
    }
  }

  /** A request's spans are exactly those two parent steps below it. */
  lemma SpansOfMembers(spans: Trace, r: nat, x: nat)
    ensures x in SpansOf(spans, r) <==> TwoBelow(spans, r, x)
  {
    hide Parent, Children, ThreadSpans, TwoBelow;
    TwoBelowParents(spans, r, x);
    ThreadSpansMembers(spans, Children(spans, r), x);
    if x < |spans| && Parent(spans, x).Some? { ChildrenMembers(spans, r, Parent(spans, x).value); }
  }

  lemma SortedDepth(spans: Trace, r: nat)
    requires AtDepth(spans, r, 0)
    ensures forall c | c in SortedSpans(spans, r) :: AtDepth(spans, c, 2) && TwoBelow(spans, r, c)
  {
    hide Parent, SortByKey, SpansOf, TwoBelow;
    SortEntries(SpansOf(spans, r), StartKey(spans));
    forall c | c in SortedSpans(spans, r) ensures AtDepth(spans, c, 2) && TwoBelow(spans, r, c) {
      SpansOfMembers(spans, r, c);
      TwoBelowParents(spans, r, c);
      assert AtDepth(spans, Parent(spans, c).value, 1);
    }
  }

  function EmitRoots(spans: Trace, rs: seq<nat>): seq<nat>
    requires forall r | r in rs :: AtDepth(spans, r, 0)
  {
    if rs == [] then []
    else
      SortedDepth(spans, rs[0]);
      GatherList(spans, SortedSpans(spans, rs[0]), 2) + EmitRoots(spans, rs[1..])
  }

  /** All requests in turn, the spans of each in order of start time. */
  function Emitted(spans: Trace): seq<nat> { EmitRoots(spans, Roots(spans)) }

  // ---- Every reachable span exactly once -------------------------------------

  /** The ancestor of `x` at depth `d`. */
  ghost function Above(spans: Trace, x: nat, e: nat, d: nat): (y: nat)
    requires AtDepth(spans, x, e) && d <= e
    ensures AtDepth(spans, y, d)
    decreases e
  {
    if d == e then x else Above(spans, Parent(spans, x).value, e - 1, d)
  }

  lemma {:induction false} AboveParent(spans: Trace, x: nat, e: nat, d: nat)
    requires AtDepth(spans, x, e) && d < e
    ensures Parent(spans, Above(spans, x, e, d + 1)) == Some(Above(spans, x, e, d))
    decreases e
  {
    hide Parent;
    if d + 1 < e { AboveParent(spans, Parent(spans, x).value, e - 1, d); }
  }

  lemma AboveChild(spans: Trace, x: nat, e: nat, d: nat, p: nat)
    requires AtDepth(spans, x, e) && d < e
    ensures multiset(Children(spans, p))[Above(spans, x, e, d + 1)] == if Above(spans, x, e, d) == p then 1 else 0
  {
    hide Parent;
    AboveParent(spans, x, e, d);
    ChildrenCount(spans, p, |spans|, Above(spans, x, e, d + 1));
  }

  lemma {:induction false} ChildrenCount(spans: Trace, p: nat, n: nat, c: nat)
    requires n <= |spans|
    ensures multiset(ChildrenBelow(spans, p, n))[c] == if c < n && Parent(spans, c) == Some(p) then 1 else 0
  {
    if n > 0 { ChildrenCount(spans, p, n - 1, c); }
  }

  lemma {:induction false} RootsCount(spans: Trace, n: nat, r: nat)
    requires n <= |spans|
    ensures multiset(RootsBelow(spans, n))[r] == if r < n && spans[r].isRequest then 1 else 0
  {
    if n > 0 { RootsCount(spans, n - 1, r); }
  }

  /** The recursion below `i` meets `x` once if `i` is `x` or an ancestor of it. */
  lemma {:induction false} GatherCount(spans: Trace, i: nat, d: nat, x: nat, e: nat)
    requires AtDepth(spans, i, d) && AtDepth(spans, x, e)
    ensures multiset(Gather(spans, i, d))[x] == if e >= d && Above(spans, x, e, d) == i then 1 else 0
    decreases |spans| - d, 0
  {
    hide AtDepth, Children;
    DepthBound(spans, i, d);
    ChildrenDepth(spans, i, d);
    if x == i { DepthUnique(spans, x, d, e); }
    GatherListCount(spans, Children(spans, i), d + 1, x, e);
    if e > d { AboveChild(spans, x, e, d, i); }
  }

  lemma {:induction false} GatherListCount(spans: Trace, cs: seq<nat>, d: nat, x: nat, e: nat)
    requires (forall c | c in cs :: AtDepth(spans, c, d)) && AtDepth(spans, x, e)
    ensures multiset(GatherList(spans, cs, d))[x] == if e < d then 0 else multiset(cs)[Above(spans, x, e, d)]
    decreases |spans| - d, |cs|
  {
    hide AtDepth;
    if cs != [] {
      DepthBound(spans, cs[0], d);
      GatherCount(spans, cs[0], d, x, e);
      GatherListCount(spans, cs[1..], d, x, e);
      assert cs == [cs[0]] + cs[1..];
    }
  }

  lemma {:induction false} ThreadSpansCount(spans: Trace, ts: seq<nat>, x: nat, e: nat)
    requires AtDepth(spans, x, e) && e >= 2
    ensures multiset(ThreadSpans(spans, ts))[Above(spans, x, e, 2)] == multiset(ts)[Above(spans, x, e, 1)]
  {
    hide AtDepth, Children, Above;
    if ts != [] {
      var n := |ts| - 1;
      ThreadSpansCount(spans, ts[..n], x, e);
      AboveChild(spans, x, e, 1, ts[n]);
      assert ts == ts[..n] + [ts[n]];
    }
  }

  /** Each span two or more steps below a request comes from one span of its. */
  lemma SortedSpansCount(spans: Trace, r: nat, x: nat, e: nat)
    requires AtDepth(spans, x, e) && e >= 2
    ensures multiset(SortedSpans(spans, r))[Above(spans, x, e, 2)] == if Above(spans, x, e, 0) == r then 1 else 0
  {
    hide AtDepth, Children, Above, ThreadSpans, SortByKey;
    SortSorts(SpansOf(spans, r), StartKey(spans));
    ThreadSpansCount(spans, Children(spans, r), x, e);
    AboveChild(spans, x, e, 0, r);
  }

  lemma {:induction false} EmitRootsCount(spans: Trace, rs: seq<nat>, x: nat, e: nat)
    requires (forall r | r in rs :: AtDepth(spans, r, 0)) && AtDepth(spans, x, e)
    ensures multiset(EmitRoots(spans, rs))[x] == if e < 2 then 0 else multiset(rs)[Above(spans, x, e, 0)]
  {
    hide AtDepth, SortedSpans, GatherList, Above;
    if rs != [] {
      SortedDepth(spans, rs[0]);
      GatherListCount(spans, SortedSpans(spans, rs[0]), 2, x, e);
      if e >= 2 { SortedSpansCount(spans, rs[0], x, e); }
      EmitRootsCount(spans, rs[1..], x, e);
      assert rs == [rs[0]] + rs[1..];
    }
  }

  /** The recursion stays below the requests. */
  ghost predicate Rooted(spans: Trace, x: nat) {
    exists e :: AtDepth(spans, x, e)
  }

  lemma {:induction false} GatherRooted(spans: Trace, i: nat, d: nat, x: nat)
    requires AtDepth(spans, i, d) && x in Gather(spans, i, d)
    ensures Rooted(spans, x)
    decreases |spans| - d, 0
  {
    hide AtDepth, Children;
    DepthBound(spans, i, d);
    ChildrenDepth(spans, i, d);
    if x != i { GatherListRooted(spans, Children(spans, i), d + 1, x); }
  }

  lemma {:induction false} GatherListRooted(spans: Trace, cs: seq<nat>, d: nat, x: nat)
    requires (forall c | c in cs :: AtDepth(spans, c, d)) && x in GatherList(spans, cs, d)
    ensures Rooted(spans, x)
    decreases |spans| - d, |cs|
  {
    hide AtDepth;
    DepthBound(spans, cs[0], d);
    if x in Gather(spans, cs[0], d) { GatherRooted(spans, cs[0], d, x); }
    else { GatherListRooted(spans, cs[1..], d, x); }
  }

  lemma {:induction false} EmitRootsRooted(spans: Trace, rs: seq<nat>, x: nat)
    requires (forall r | r in rs :: AtDepth(spans, r, 0)) && x in EmitRoots(spans, rs)
    ensures Rooted(spans, x)
  {
    hide AtDepth, SortedSpans, GatherList;
    SortedDepth(spans, rs[0]);
    if x in GatherList(spans, SortedSpans(spans, rs[0]), 2) { GatherListRooted(spans, SortedSpans(spans, rs[0]), 2, x); }
    else { EmitRootsRooted(spans, rs[1..], x); }
  }

  /** A request, and each span after it names the one before as its parent. */
  ghost predicate Descent(spans: Trace, path: seq<nat>) {
    && path != [] && path[0] < |spans| && spans[path[0]].isRequest
    && forall k | 0 < k < |path| :: ChildOf(spans, path[k], path[k - 1])
  }

  /** Two or more parent steps below a request. */
  ghost predicate BelowThread(spans: Trace, x: nat) {
    exists path :: Descent(spans, path) && |path| >= 3 && path[|path| - 1] == x
  }

  lemma {:induction false} DescentDepth(spans: Trace, path: seq<nat>)
    requires Descent(spans, path)
    ensures AtDepth(spans, path[|path| - 1], |path| - 1)
  {
    hide Parent, ChildOf;
    var n := |path| - 1;
    if n > 0 {
      DescentDepth(spans, path[..n]);
      assert ChildOf(spans, path[n], path[n - 1]);
      ChildIsKnown(spans, path[n], path[n - 1]);
      ParentExact(spans, path[n], path[n - 1]);
    }
  }

  lemma ChildIsKnown(spans: Trace, i: nat, p: nat)
    requires ChildOf(spans, i, p)
    ensures i < |spans|
  {
  }

  lemma {:induction false} DepthDescent(spans: Trace, x: nat, e: nat) returns (path: seq<nat>)
    requires AtDepth(spans, x, e)
    ensures Descent(spans, path) && |path| == e + 1 && path[e] == x
    decreases e
  {
    hide Parent, ChildOf;
    if e == 0 {
      path := [x];
    } else {
      var p := Parent(spans, x).value;
      var above := DepthDescent(spans, p, e - 1);
      path := above + [x];
      ParentExact(spans, x, p);
    }
  }

  lemma BelowThreadDepth(spans: Trace, x: nat)
    ensures BelowThread(spans, x) <==> exists e :: e >= 2 && AtDepth(spans, x, e)
  {
    hide AtDepth, Descent;
    if path :| Descent(spans, path) && |path| >= 3 && path[|path| - 1] == x {
      DescentDepth(spans, path);
    }
    if e :| e >= 2 && AtDepth(spans, x, e) {
      var path := DepthDescent(spans, x, e);
    }
  }

  lemma RootsDepth(spans: Trace)
    ensures forall r | r in Roots(spans) :: AtDepth(spans, r, 0)
  {
  }

  /** Whatever the parent ids, each span two or more steps below a request is
      emitted exactly once, and nothing else is emitted. */
  lemma EmittedOnce(spans: Trace, x: nat)
    ensures multiset(Emitted(spans))[x] == if BelowThread(spans, x) then 1 else 0
  {
    hide AtDepth, Roots, BelowThread;
    BelowThreadDepth(spans, x);
    RootsDepth(spans);
    if x in Emitted(spans) { EmitRootsRooted(spans, Roots(spans), x); }
    if e :| AtDepth(spans, x, e) {
      EmitRootsCount(spans, Roots(spans), x, e);
      AboveRoot(spans, Above(spans, x, e, 0));
      if f :| f >= 2 && AtDepth(spans, x, f) { DepthUnique(spans, x, e, f); }
    }
  }

  // ---- The order of emission -------------------------------------------------

  /** Every span of the list is one of `tops` or stands somewhere behind its parent. */
  ghost predicate ParentsFirst(spans: Trace, xs: seq<nat>, tops: seq<nat>) {
    forall j | 0 <= j < |xs| :: xs[j] in tops || HasParentIn(spans, xs[..j], xs[j])
  }

  ghost predicate HasParentIn(spans: Trace, xs: seq<nat>, x: nat) {
    exists i :: 0 <= i < |xs| && ChildOf(spans, x, xs[i])
  }

  lemma HasParentLater(spans: Trace, xs: seq<nat>, ys: seq<nat>, x: nat)
    requires HasParentIn(spans, ys, x)
    ensures HasParentIn(spans, xs + ys, x)
  {
    hide ChildOf;
    var i :| 0 <= i < |ys| && ChildOf(spans, x, ys[i]);
    assert (xs + ys)[|xs| + i] == ys[i];
  }

  lemma ParentsFirstAppend(spans: Trace, xs: seq<nat>, ys: seq<nat>, tops: seq<nat>, more: seq<nat>)
    requires ParentsFirst(spans, xs, tops) && ParentsFirst(spans, ys, more)
    ensures ParentsFirst(spans, xs + ys, tops + more)
  {
    hide HasParentIn;
    var zs := xs + ys;
    forall j | 0 <= j < |zs| ensures zs[j] in tops + more || HasParentIn(spans, zs[..j], zs[j]) {
      if j < |xs| {
        assert zs[..j] == xs[..j];
      } else {
        var k := j - |xs|;
        assert zs[..j] == xs + ys[..k];
        if HasParentIn(spans, ys[..k], ys[k]) { HasParentLater(spans, xs, ys[..k], ys[k]); }
      }
    }
  }

  /** A span goes before everything below it. */
  lemma {:induction false} GatherParents(spans: Trace, i: nat, d: nat)
    requires AtDepth(spans, i, d)
    ensures ParentsFirst(spans, Gather(spans, i, d), [i])
    decreases |spans| - d, 0
  {
    hide AtDepth, ChildOf;
    DepthBound(spans, i, d);
    ChildrenDepth(spans, i, d);
    var cs := Children(spans, i);
    hide Children;
    GatherListParents(spans, cs, d + 1);
    var ys := GatherList(spans, cs, d + 1);
    var xs := [i] + ys;
    forall j | 0 <= j < |xs| ensures xs[j] in [i] || HasParentIn(spans, xs[..j], xs[j]) {
      if j > 0 {
        assert xs[..j] == [i] + ys[..j - 1];
        if ys[j - 1] in cs {
          ChildrenMembers(spans, i, ys[j - 1]);
          ParentExact(spans, ys[j - 1], i);
          assert xs[..j][0] == i;
        } else {
          HasParentLater(spans, [i], ys[..j - 1], ys[j - 1]);
        }
      }
    }
  }

  lemma {:induction false} GatherListParents(spans: Trace, cs: seq<nat>, d: nat)
    requires forall c | c in cs :: AtDepth(spans, c, d)
    ensures ParentsFirst(spans, GatherList(spans, cs, d), cs)
    decreases |spans| - d, |cs|
  {
    hide AtDepth, ParentsFirst, Gather;
    if cs == [] {
      NothingFirst(spans, cs);
    } else {
      DepthBound(spans, cs[0], d);
      GatherParents(spans, cs[0], d);
      GatherListParents(spans, cs[1..], d);
      ParentsFirstAppend(spans, Gather(spans, cs[0], d), GatherList(spans, cs[1..], d), [cs[0]], cs[1..]);
      assert cs == [cs[0]] + cs[1..];
    }
  }

  lemma NothingFirst(spans: Trace, tops: seq<nat>)
    ensures ParentsFirst(spans, [], tops)
  {
  }

  /** The spans right below the threads of some requests. */
  function Tops(spans: Trace, rs: seq<nat>): seq<nat> {
    if rs == [] then [] else SortedSpans(spans, rs[0]) + Tops(spans, rs[1..])
  }

  lemma {:induction false} EmitRootsParents(spans: Trace, rs: seq<nat>)
    requires forall r | r in rs :: AtDepth(spans, r, 0)
    ensures ParentsFirst(spans, EmitRoots(spans, rs), Tops(spans, rs))
    ensures forall x | x in Tops(spans, rs) :: exists r :: r in rs && TwoBelow(spans, r, x)
  {
    hide AtDepth, ParentsFirst, SortedSpans, GatherList, TwoBelow;
    if rs == [] {
      NothingFirst(spans, []);
    } else {
      SortedDepth(spans, rs[0]);
      GatherListParents(spans, SortedSpans(spans, rs[0]), 2);
      EmitRootsParents(spans, rs[1..]);
      ParentsFirstAppend(spans, GatherList(spans, SortedSpans(spans, rs[0]), 2), EmitRoots(spans, rs[1..]),
                         SortedSpans(spans, rs[0]), Tops(spans, rs[1..]));
    }
  }

  /** Each emitted span is two steps below a request or comes after its parent. */
  lemma EmittedInOrder(spans: Trace, j: nat)
    requires j < |Emitted(spans)|
    ensures || (exists r: nat :: TwoBelow(spans, r, Emitted(spans)[j]))
            || HasParentIn(spans, Emitted(spans)[..j], Emitted(spans)[j])
  {
    hide TwoBelow, HasParentIn, Roots, AtDepth;
    RootsDepth(spans);
    EmitRootsParents(spans, Roots(spans));
  }

  /** Those of the spans that stand right below a thread. */
  ghost function TopsIn(spans: Trace, xs: seq<nat>): seq<nat> {
    if xs == [] then []
    else (if AtDepth(spans, xs[0], 2) then [xs[0]] else []) + TopsIn(spans, xs[1..])
  }

  lemma {:induction false} TopsInAppend(spans: Trace, xs: seq<nat>, ys: seq<nat>)
    ensures TopsIn(spans, xs + ys) == TopsIn(spans, xs) + TopsIn(spans, ys)
  {
    hide AtDepth;
    if xs == [] {
      assert xs + ys == ys;
    } else {
      assert (xs + ys)[1..] == xs[1..] + ys;
      TopsInAppend(spans, xs[1..], ys);
    }
  }

  lemma {:induction false} TopsOfGather(spans: Trace, i: nat, d: nat)
    requires AtDepth(spans, i, d) && d >= 2
    ensures TopsIn(spans, Gather(spans, i, d)) == if d == 2 then [i] else []
    decreases |spans| - d, 0
  {
    hide AtDepth, Children;
    DepthBound(spans, i, d);
    ChildrenDepth(spans, i, d);
    TopsOfList(spans, Children(spans, i), d + 1);
    if AtDepth(spans, i, 2) { DepthUnique(spans, i, d, 2); }
  }

  lemma {:induction false} TopsOfList(spans: Trace, cs: seq<nat>, d: nat)
    requires (forall c | c in cs :: AtDepth(spans, c, d)) && d >= 2
    ensures TopsIn(spans, GatherList(spans, cs, d)) == if d == 2 then cs else []
    decreases |spans| - d, |cs|
  {
    hide AtDepth, Gather;
    if cs != [] {
      DepthBound(spans, cs[0], d);
      TopsOfGather(spans, cs[0], d);
      TopsOfList(spans, cs[1..], d);
      TopsInAppend(spans, Gather(spans, cs[0], d), GatherList(spans, cs[1..], d));
      assert cs == [cs[0]] + cs[1..];
    }
  }

  /** The spans right below threads are emitted request by request, each request's in order
      of start time. */
  lemma {:induction false} TopsInOrder(spans: Trace, rs: seq<nat>)
    requires forall r | r in rs :: AtDepth(spans, r, 0)
    ensures TopsIn(spans, EmitRoots(spans, rs)) == Tops(spans, rs)
  {
    hide AtDepth, SortedSpans, GatherList;
    if rs != [] {
      SortedDepth(spans, rs[0]);
      TopsOfList(spans, SortedSpans(spans, rs[0]), 2);
      TopsInOrder(spans, rs[1..]);
      TopsInAppend(spans, GatherList(spans, SortedSpans(spans, rs[0]), 2), EmitRoots(spans, rs[1..]));
    }
  }

  /** The spans of a request come thread by thread, each list in the order of the trace. */
  lemma {:induction false} ThreadSpansOrder(spans: Trace, ts: seq<nat>, i: nat, j: nat)
    requires AscendingBelow(ts, |spans|) && i < j < |ThreadSpans(spans, ts)|
    ensures var xs := ThreadSpans(spans, ts);
            && xs[i] < |spans| && xs[j] < |spans| && Parent(spans, xs[i]).Some? && Parent(spans, xs[j]).Some?
            && var t, u := Parent(spans, xs[i]).value, Parent(spans, xs[j]).value;
               t < u || (t == u && xs[i] < xs[j])
  {
    hide Parent, Children;
    var n := |ts| - 1;
    var before, last := ThreadSpans(spans, ts[..n]), Children(spans, ts[n]);
    ChildrenInOrder(spans, ts[n]);
    if j < |before| {
      ThreadSpansOrder(spans, ts[..n], i, j);
    } else {
      var xs := ThreadSpans(spans, ts);
      assert xs[j] == last[j - |before|];
      ChildrenMembers(spans, ts[n], xs[j]);
      if i < |before| {
        assert xs[i] == before[i] && before[i] in before;
        ThreadSpansMembers(spans, ts[..n], xs[i]);
      } else {
        assert xs[i] == last[i - |before|];
        ChildrenMembers(spans, ts[n], xs[i]);
      }
    }
  }

  lemma ChildrenInOrder(spans: Trace, p: nat)
    ensures AscendingBelow(Children(spans, p), |spans|)
  {
    ChildrenListed(spans, p, |spans|);
  }

  /** So they do for every request. */
  lemma SpansOfOrder(spans: Trace, r: nat, i: nat, j: nat, t: nat, u: nat)
    requires i < j < |SpansOf(spans, r)|
    requires ChildOf(spans, SpansOf(spans, r)[i], t) && ChildOf(spans, SpansOf(spans, r)[j], u)
    ensures t < u || (t == u && SpansOf(spans, r)[i] < SpansOf(spans, r)[j])
  {
    hide Parent, Children, ThreadSpans;
    ChildrenInOrder(spans, r);
    ThreadSpansOrder(spans, Children(spans, r), i, j);
    ParentExact(spans, SpansOf(spans, r)[i], t);
    ParentExact(spans, SpansOf(spans, r)[j], u);
  }

  lemma AboveRoot(spans: Trace, r: nat)
    requires AtDepth(spans, r, 0)
    ensures multiset(Roots(spans))[r] == 1
  {
    RootsCount(spans, |spans|, r);
  }
}
