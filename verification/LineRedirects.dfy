/** Redirect resolution of benchmark/line_retrieval/gen_data.py and the query
    selection of benchmark/line_retrieval/bench_sglang.py. */
module LineRedirects {
  import opened Counting
  import opened Sorting
  import opened Wrappers

  type Redirects = seq<Option<nat>>

  ghost predicate Valid(rs: Redirects) {
    forall i | 0 <= i < |rs| :: rs[i].Some? ==> rs[i].value < |rs|
  }

  ghost predicate Distinct(p: seq<nat>) {
    forall i, j | 0 <= i < j < |p| :: p[i] != p[j]
  }

  ghost predicate InRange(p: seq<nat>, n: nat) {
    forall i | 0 <= i < |p| :: p[i] < n
  }

  function SetOf(p: seq<nat>): set<nat> { set i | i in p }

  lemma {:induction false} DistinctSize(p: seq<nat>)
    requires Distinct(p)
    ensures |SetOf(p)| == |p|
  {
    if p != [] {
      var n := |p| - 1;
      DistinctSize(p[..n]);
      assert SetOf(p) == SetOf(p[..n]) + {p[n]};
      assert p[n] !in p[..n];
    }
  }

  /** Pigeonhole: a repetition-free walk has at most as many lines as there are. */
  lemma WalkBound(p: seq<nat>, n: nat)
    requires Distinct(p) && InRange(p, n)
    ensures |p| <= n
  {
    DistinctSize(p);
    SubsetSize(SetOf(p), n);
  }

  /** Follows redirects from the last line of `p` until a line without redirect,
      or until a line comes up again, which is then the last of the result. */
  function Walk(rs: Redirects, p: seq<nat>): seq<nat>
    requires Valid(rs) && p != [] && Distinct(p) && InRange(p, |rs|)
    decreases |rs| - |p|
  {
    WalkBound(p, |rs|);
    var cur := p[|p| - 1];
    if rs[cur].None? then p
    else
      var next := rs[cur].value;
      if next in p then p + [next]
      else
        WalkBound(p + [next], |rs|);
        Walk(rs, p + [next])
  }

  lemma WalkStep(rs: Redirects, p: seq<nat>)
    requires Valid(rs) && p != [] && Distinct(p) && InRange(p, |rs|)
    ensures var cur := p[|p| - 1];
            && |p| <= |rs|
            && (rs[cur].None? ==> Walk(rs, p) == p)
            && (rs[cur].Some? && rs[cur].value in p ==> Walk(rs, p) == p + [rs[cur].value])
            && (rs[cur].Some? && rs[cur].value !in p ==>
                  |p| + 1 <= |rs| && Distinct(p + [rs[cur].value]) && Walk(rs, p) == Walk(rs, p + [rs[cur].value]))
  {
    var cur := p[|p| - 1];
    WalkBound(p, |rs|);
    if rs[cur].Some? && rs[cur].value !in p { WalkBound(p + [rs[cur].value], |rs|); }
  }

  // ---- Specification ---------------------------------------------------------

  /** The line `k` redirects after `i`, if there are that many. */
  function Hop(rs: Redirects, i: nat, k: nat): Option<nat>
    decreases k
  {
    if i >= |rs| then None
    else if k == 0 then Some(i)
    else if rs[i].None? then None
    else Hop(rs, rs[i].value, k - 1)
  }

  /** Following redirects from `i` reaches a line without redirect. */
  ghost predicate Resolves(rs: Redirects, i: nat) {
    exists k :: Hop(rs, i, k).Some? && Hop(rs, i, k).value < |rs| && rs[Hop(rs, i, k).value].None?
  }

  /** Each line of `w` redirects to the next. */
  ghost predicate Follows(rs: Redirects, w: seq<nat>) {
    && InRange(w, |rs|)
    && forall j | 0 <= j < |w| - 1 :: rs[w[j]] == Some(w[j + 1])
  }

  ghost predicate Complete(rs: Redirects, w: seq<nat>) {
    && w != [] && Follows(rs, w) && Distinct(w[..|w| - 1])
    && if rs[w[|w| - 1]].None? then Distinct(w) else w[|w| - 1] in w[..|w| - 1]
  }

  lemma {:induction false} WalkComplete(rs: Redirects, p: seq<nat>)
    requires Valid(rs) && p != [] && Distinct(p) && Follows(rs, p)
    ensures Complete(rs, Walk(rs, p)) && p <= Walk(rs, p)
    decreases |rs| - |p|
  {
    hide Walk;
    WalkStep(rs, p);
    var cur := p[|p| - 1];
    if rs[cur].Some? {
      var next := rs[cur].value;
      if next in p {
        var b :| 0 <= b < |p| && p[b] == next;
        assert b < |p| - 1 ==> rs[p[b]] == Some(p[b + 1]);
        assert (p + [next])[..|p|] == p;
      } else {
        WalkComplete(rs, p + [next]);
      }
    } else {
      assert Distinct(p[..|p| - 1]);
    }
  }

  /** The lines met from `i` on, `i` first. */
  function WalkFrom(rs: Redirects, i: nat): (w: seq<nat>)
    requires Valid(rs) && i < |rs|
    ensures Complete(rs, w) && w[0] == i
  {
    WalkComplete(rs, [i]);
    Walk(rs, [i])
  }

  function Links(rs: Redirects, i: nat): seq<nat>
    requires Valid(rs) && i < |rs|
  {
    WalkFrom(rs, i)[1..]
  }

  /** The walk ends after at most as many redirects as there are lines. */
  lemma WalkIsShort(rs: Redirects, i: nat)
    requires Valid(rs) && i < |rs|
    ensures |Links(rs, i)| <= |rs|
  {
    var w := WalkFrom(rs, i);
    WalkBound(w[..|w| - 1], |rs|);
  }

  function Stop(rs: Redirects, i: nat): (t: nat)
    requires Valid(rs) && i < |rs|
    ensures t < |rs|
  {
    WalkFrom(rs, i)[|WalkFrom(rs, i)| - 1]
  }

  predicate InRing(rs: Redirects, i: nat)
    requires Valid(rs) && i < |rs|
  {
    rs[Stop(rs, i)].Some?
  }

  lemma {:induction false} HopAlong(rs: Redirects, w: seq<nat>, k: nat)
    requires Follows(rs, w) && k < |w|
    ensures Hop(rs, w[0], k) == Some(w[k])
    decreases k
  {
    if k > 0 { HopAlong(rs, w[1..], k - 1); }
  }

  /** From a walk that came back to itself, every number of redirects stays in it. */
  lemma {:induction false} HopStays(rs: Redirects, w: seq<nat>, i: nat, k: nat)
    requires Complete(rs, w) && rs[w[|w| - 1]].Some? && i in w
    ensures Hop(rs, i, k).Some? && Hop(rs, i, k).value in w[..|w| - 1]
    decreases k
  {
    var n := |w| - 1;
    var j :| 0 <= j < n && w[j] == i by {
      var a :| 0 <= a < |w| && w[a] == i;
      if a == n { var b :| 0 <= b < n && w[..n][b] == i; assert w[b] == i; }
    }
    if k == 0 {
      assert i == w[..n][j];
    } else {
      HopStays(rs, w, w[j + 1], k - 1);
    }
  }

  /** A line is found to be in a ring exactly when no number of redirects from it
      reaches a line without redirect. */
  lemma RingExact(rs: Redirects, i: nat)
    requires Valid(rs) && i < |rs|
    ensures InRing(rs, i) <==> !Resolves(rs, i)
  {
    var w := WalkFrom(rs, i);
    if InRing(rs, i) {
      forall k ensures Hop(rs, i, k).Some? && Hop(rs, i, k).value < |rs| ==> rs[Hop(rs, i, k).value].Some? {
        HopStays(rs, w, i, k);
        var v := Hop(rs, i, k).value;
        var j :| 0 <= j < |w| - 1 && w[..|w| - 1][j] == v;
        assert rs[w[j]] == Some(w[j + 1]);
      }
    } else {
      HopAlong(rs, w, |w| - 1);
    }
  }

  /** The walk from a later line of a walk is the rest of it, when the walk ends
      or when that line is the one it comes back to. */
  lemma {:induction false} WalkSuffix(rs: Redirects, w: seq<nat>, a: nat, b: nat)
    requires Valid(rs) && Complete(rs, w) && a < b <= |w|
    requires rs[w[|w| - 1]].None? || (b < |w| && w[a] == w[|w| - 1])
    ensures Distinct(w[a..b]) && InRange(w[a..b], |rs|) && Walk(rs, w[a..b]) == w[a..]
    decreases |w| - b
  {
    var n := |w| - 1;
    assert forall i | 0 <= i < n :: w[..n][i] == w[i];
    var p := w[a..b];
    assert p[|p| - 1] == w[b - 1];
    if b == |w| {
      assert p == w[a..];
    } else {
      assert rs[w[b - 1]] == Some(w[b]);
      assert p + [w[b]] == w[a..b + 1];
      if b == n && rs[w[n]].Some? {
        assert w[n] == p[0];
        assert w[a..b + 1] == w[a..];
      } else {
        assert w[b] !in p;
        WalkSuffix(rs, w, a, b + 1);
      }
    }
  }

  /** The line a walk stops at is its own stop. */
  lemma StopOfStop(rs: Redirects, i: nat)
    requires Valid(rs) && i < |rs|
    ensures Stop(rs, Stop(rs, i)) == Stop(rs, i)
  {
    var w := WalkFrom(rs, i);
    var n := |w| - 1;
    if rs[w[n]].Some? {
      var a :| 0 <= a < n && w[..n][a] == w[n];
      WalkSuffix(rs, w, a, a + 1);
      assert w[a..a + 1] == [w[n]];
    } else {
      assert Walk(rs, [w[n]]) == [w[n]];
    }
  }

  /** Off the rings a line has the links of its direct target, after the target. */
  lemma TargetChain(rs: Redirects, i: nat)
    requires Valid(rs) && i < |rs| && !InRing(rs, i) && rs[i].Some?
    ensures WalkFrom(rs, i) == [i] + WalkFrom(rs, rs[i].value)
    ensures Stop(rs, i) == Stop(rs, rs[i].value)
  {
    var w := WalkFrom(rs, i);
    assert w[1] == rs[i].value;
    WalkSuffix(rs, w, 1, 2);
    assert w[1..2] == [rs[i].value] && w == [i] + w[1..];
  }

  // ---- The generator ---------------------------------------------------------

  /** The walk of one line: the loop with its set of visited lines. */
  method Resolve(rs: Redirects, i: nat) returns (link: Option<seq<nat>>, cur: nat)
    requires Valid(rs) && i < |rs| && rs[i].Some?
    ensures cur == Stop(rs, i)
    ensures link == if InRing(rs, i) then None else Some(Links(rs, i))
  {
    hide Walk;
    var tmp: seq<nat> := [];
    cur := i;
    var visited: set<nat> := {};
    ghost var p := [i];
    while rs[cur].Some?
      invariant p != [] && Distinct(p) && InRange(p, |rs|) && p[|p| - 1] == cur
      invariant visited == SetOf(p) - {cur} && tmp == p[1..]
      invariant WalkFrom(rs, i) == Walk(rs, p)
      decreases |rs| - |p|
    {
      WalkStep(rs, p);
      visited := visited + {cur};
      tmp := tmp + [rs[cur].value];
      cur := rs[cur].value;
      if cur in visited {
        assert Stop(rs, i) == cur;
        assert Complete(rs, WalkFrom(rs, i));
        return None, cur;
      }
      p := p + [cur];
    }
    WalkStep(rs, p);
    link := Some(tmp);
  }

  lemma NoRedirect(rs: Redirects, i: nat)
    requires Valid(rs) && i < |rs| && rs[i].None?
    ensures Links(rs, i) == [] && Stop(rs, i) == i
  {
  }

  /** All lines in turn, each value overwritten in place by the value of the line
      its walk stops at. */
  method BuildLinks(rs: Redirects, values: array<string>)
    returns (links: seq<Option<seq<nat>>>, ring: set<nat>)
    requires Valid(rs) && values.Length == |rs|
    modifies values
    ensures |links| == |rs|
    ensures forall i | 0 <= i < |rs| :: i in ring <==> !Resolves(rs, i)
    ensures forall i | i in ring :: i < |rs|
    ensures forall i | 0 <= i < |rs| :: links[i] == if i in ring then None else Some(Links(rs, i))
    ensures forall i | 0 <= i < |rs| :: values[i] == old(values[Stop(rs, i)])
    ensures forall i | 0 <= i < |rs| && i !in ring && rs[i].Some? :: values[i] == values[rs[i].value]
  {
    hide Walk, Links, Resolves;
    links, ring := [], {};
    ghost var was := values[..];
    for i := 0 to |rs|
      invariant |links| == i && values.Length == |rs|
      invariant forall j | 0 <= j < i :: j in ring <==> InRing(rs, j)
      invariant forall j | j in ring :: j < i
      invariant forall j | 0 <= j < i :: links[j] == if j in ring then None else Some(Links(rs, j))
      invariant forall j | 0 <= j < i :: values[j] == was[Stop(rs, j)]
      invariant forall j | i <= j < |rs| :: values[j] == was[j]
    {
      if rs[i].None? {
        links := links + [Some([])];
        NoRedirect(rs, i);
      } else {
        var link, cur := Resolve(rs, i);
        StopOfStop(rs, i);
        assert values[cur] == was[cur];
        if link.None? {
          ring := ring + {i};
        }
        values[i] := values[cur];
        links := links + [link];
      }
    }
    forall i | 0 <= i < |rs| ensures i in ring <==> !Resolves(rs, i) { RingExact(rs, i); }
    forall i | 0 <= i < |rs| && i !in ring && rs[i].Some? ensures values[i] == values[rs[i].value] { TargetChain(rs, i); }
  }

  predicate InGroup(groups: map<nat, seq<nat>>, key: nat, i: nat) {
    key in groups && i in groups[key]
  }

  ghost predicate Ascending(s: seq<nat>) {
    forall a, b | 0 <= a < b < |s| :: s[a] < s[b]
  }

  /** Groups the lines outside the rings by chain length plus one. */
  method GroupByHops(links: seq<Option<seq<nat>>>, ring: set<nat>) returns (groups: map<nat, seq<nat>>)
    requires forall i | 0 <= i < |links| :: links[i].None? ==> i in ring
    ensures forall key: nat, i: nat :: InGroup(groups, key, i) <==>
              (i < |links| && i !in ring && links[i].Some? && key == |links[i].value| + 1)
    ensures forall key | key in groups :: Ascending(groups[key])
  {
    groups := map[];
    for n := 0 to |links|
      invariant forall key: nat, i: nat :: InGroup(groups, key, i) <==>
                  (i < n && i !in ring && links[i].Some? && key == |links[i].value| + 1)
      invariant forall key | key in groups :: Ascending(groups[key])
    {
      if n !in ring {
        var key := |links[n].value| + 1;
        var before := if key in groups then groups[key] else [];
        forall a | 0 <= a < |before| ensures before[a] < n { assert InGroup(groups, key, before[a]); }
        assert Ascending(before + [n]);
        ghost var was := groups;
        groups := groups[key := before + [n]];
        assert forall k: nat, i: nat :: InGroup(groups, k, i) <==> InGroup(was, k, i) || (k == key && i == n);
      }
    }
  }

  // ---- The evaluator ---------------------------------------------------------

  datatype Query = Query(line: nat, answer: string, parts: seq<seq<string>>)

  /** All links are visible and the line itself comes before the last one shown. */
  predicate Visible(links: seq<Option<seq<nat>>>, src: int, q: nat) {
    q < |links| && links[q].Some? && (forall l | l in links[q].value :: l <= src) && q < src
  }

  function Candidates(links: seq<Option<seq<nat>>>, group: seq<nat>, src: int): seq<nat> {
    if group == [] then []
    else
      var n := |group| - 1;
      Candidates(links, group[..n], src) + (if Visible(links, src, group[n]) then [group[n]] else [])
  }

  /** The `i`-th of `n` candidates is the last that does not lie beyond the fraction of
      the list, or the last of all. */
  ghost predicate RankAt(i: int, n: int, fraction: real) {
    if fraction < 1.0 then i as real <= n as real * fraction < (i + 1) as real else i == n - 1
  }

  /** The places in the group whose lines are visible. */
  ghost function VisiblePlaces(links: seq<Option<seq<nat>>>, group: seq<nat>, src: int): (picks: seq<nat>)
    ensures AscendingBelow(picks, |group|)
  {
    if group == [] then []
    else
      var n := |group| - 1;
      var before := VisiblePlaces(links, group[..n], src);
      PushAscending(before, n, n + 1);
      if Visible(links, src, group[n]) then before + [n] else before
  }

  lemma {:induction false} PlacesVisible(links: seq<Option<seq<nat>>>, group: seq<nat>, src: int, i: nat)
    requires i < |group|
    ensures i in VisiblePlaces(links, group, src) <==> Visible(links, src, group[i])
  {
    hide Visible;
    var n := |group| - 1;
    if i < n {
      PlacesVisible(links, group[..n], src, i);
    } else {
      assert i !in VisiblePlaces(links, group[..n], src);
    }
  }

  lemma {:induction false} CandidatesAt(links: seq<Option<seq<nat>>>, group: seq<nat>, src: int, k: nat)
    requires k < |Candidates(links, group, src)|
    ensures k < |VisiblePlaces(links, group, src)|
    ensures Candidates(links, group, src)[k] == group[VisiblePlaces(links, group, src)[k]]
  {
    hide Visible;
    var n := |group| - 1;
    CandidatesMany(links, group[..n], src);
    if k < |Candidates(links, group[..n], src)| { CandidatesAt(links, group[..n], src, k); }
  }

  lemma {:induction false} CandidatesMany(links: seq<Option<seq<nat>>>, group: seq<nat>, src: int)
    ensures |Candidates(links, group, src)| == |VisiblePlaces(links, group, src)|
  {
    hide Visible;
    if group != [] { CandidatesMany(links, group[..|group| - 1], src); }
  }

  /** Candidates are the visible entries of the group, in its order, as often as they
      occur there. */
  lemma CandidatesInOrder(links: seq<Option<seq<nat>>>, group: seq<nat>, src: int) returns (picks: seq<nat>)
    ensures |picks| == |Candidates(links, group, src)| && AscendingBelow(picks, |group|)
    ensures forall k | 0 <= k < |picks| :: Candidates(links, group, src)[k] == group[picks[k]]
    ensures forall i: nat | i < |group| :: i in picks <==> Visible(links, src, group[i])
  {
    hide Visible, Candidates, VisiblePlaces;
    picks := VisiblePlaces(links, group, src);
    CandidatesMany(links, group, src);
    forall k | 0 <= k < |picks| ensures Candidates(links, group, src)[k] == group[picks[k]] {
      CandidatesAt(links, group, src, k);
    }
    forall i: nat | i < |group| ensures i in picks <==> Visible(links, src, group[i]) {
      PlacesVisible(links, group, src, i);
    }
  }

  /** The query filter keeps exactly the visible lines of the group. */
  lemma CandidatesMembers(links: seq<Option<seq<nat>>>, group: seq<nat>, src: int)
    ensures forall q: nat :: q in Candidates(links, group, src) <==> q in group && Visible(links, src, q)
  {
    hide Visible, Candidates;
    var qs := Candidates(links, group, src);
    var picks := CandidatesInOrder(links, group, src);
    forall q: nat ensures q in qs <==> q in group && Visible(links, src, q) {
      if q in qs {
        var k :| 0 <= k < |qs| && qs[k] == q;
        assert picks[k] in picks;
      }
      if q in group && Visible(links, src, q) {
        var i: nat :| i < |group| && group[i] == q;
        var k :| 0 <= k < |picks| && picks[k] == i;
        assert qs[k] == q;
      }
    }
  }

  /** The lines up to the source line, it included. */
  function Body(lines: seq<string>, src: nat): (body: seq<string>)
    ensures body <= lines && |body| == if src < |lines| then src + 1 else |lines|
  {
    if src + 1 <= |lines| then lines[..src + 1] else lines
  }

  ghost predicate RankedAt(qs: seq<nat>, q: nat, fraction: real) {
    exists i :: 0 <= i < |qs| && q == qs[i] && RankAt(i, |qs|, fraction)
  }

  lemma Scaled(n: real, f: real)
    requires n > 0.0
    ensures f < 1.0 ==> n * f < n
    ensures f >= 1.0 ==> n * f >= n
    ensures f >= 0.0 ==> n * f >= 0.0
  {
    assert n * f == n - n * (1.0 - f);
  }

  lemma RankFits(rank: int, n: nat, fraction: real)
    requires n > 0 && fraction >= 0.0 && rank == (n as real * fraction).Floor
    ensures rank >= 0 && RankAt(if rank < n - 1 then rank else n - 1, n, fraction)
  {
    var x := n as real * fraction;
    Scaled(n as real, fraction);
    FloorBelow(x, n);
  }

  lemma FloorBelow(x: real, n: nat)
    ensures x.Floor as real <= x < (x.Floor + 1) as real
    ensures x < n as real ==> x.Floor < n
    ensures x >= n as real ==> x.Floor >= n
    ensures x >= 0.0 ==> x.Floor >= 0
  {
  }

  /** The candidate at the wanted fraction of the list. */
  function PickAt(qs: seq<nat>, fraction: real): (q: nat)
    requires qs != [] && fraction >= 0.0
    ensures q in qs && RankedAt(qs, q, fraction)
  {
    var rank := (|qs| as real * fraction).Floor;
    RankFits(rank, |qs|, fraction);
    qs[if rank < |qs| - 1 then rank else |qs| - 1]
  }

  /** Three quarters of a body, rounded down, and what is left. */
  function Quarters(body: seq<string>): (parts: seq<seq<string>>)
    ensures |parts| == 4 && |parts[0]| == |parts[1]| == |parts[2]| == |body| / 4
    ensures parts[0] + parts[1] + parts[2] + parts[3] == body
  {
    var k := |body| / 4;
    [body[..k], body[k..2 * k], body[2 * k..3 * k], body[3 * k..]]
  }

  /** One query: the candidate at the wanted fraction of the list, its label, and
      the visible lines cut into four parts. */
  function MakeQuery(lines: seq<string>, values: seq<string>, links: seq<Option<seq<nat>>>, group: seq<nat>,
                     src: int, fraction: real): (r: Result<Query>)
    requires |lines| == |values| == |links| && fraction >= 0.0
    ensures r == Err(IndexError) <==> forall q | q in group :: !Visible(links, src, q)
    ensures r.Err? ==> r == Err(IndexError)
    ensures r.Ok? ==>
              && r.value.line in group && Visible(links, src, r.value.line)
              && RankedAt(Candidates(links, group, src), r.value.line, fraction)
              && r.value.answer == values[r.value.line]
              && |r.value.parts| == 4
              && |r.value.parts[0]| == |r.value.parts[1]| == |r.value.parts[2]| == |Body(lines, src)| / 4
              && r.value.parts[0] + r.value.parts[1] + r.value.parts[2] + r.value.parts[3] == Body(lines, src)
  {
    CandidatesMembers(links, group, src);
    var qs := Candidates(links, group, src);
    if qs == [] then Err(IndexError)
    else
      var q := PickAt(qs, fraction);
      Ok(Query(q, values[q], Quarters(Body(lines, src))))
  }

  /** A selected query is answerable from what is shown: its whole chain is among
      the shown lines, and its label is the original value of the chain's end. */
  lemma QueryIsAnswerable(rs: Redirects, lines: seq<string>, original: seq<string>, values: seq<string>,
                          links: seq<Option<seq<nat>>>, group: seq<nat>, src: int, fraction: real)
    requires Valid(rs) && |lines| == |values| == |links| == |rs| == |original| && fraction >= 0.0
    requires forall i | 0 <= i < |rs| :: links[i] == if Resolves(rs, i) then Some(Links(rs, i)) else None
    requires forall i | 0 <= i < |rs| :: values[i] == original[Stop(rs, i)]
    ensures var r := MakeQuery(lines, values, links, group, src, fraction);
            r.Ok? ==>
              && r.value.line < |rs| && Resolves(rs, r.value.line)
              && var w := WalkFrom(rs, r.value.line);
                 (forall l | l in w :: l < |Body(lines, src)| && Body(lines, src)[l] == lines[l])
                 && rs[w[|w| - 1]].None? && r.value.answer == original[w[|w| - 1]]
  {
    var r := MakeQuery(lines, values, links, group, src, fraction);
    if r.Ok? {
      var q := r.value.line;
      RingExact(rs, q);
      var w := WalkFrom(rs, q);
      forall l | l in w ensures l <= src && l < |rs| {
        var j :| 0 <= j < |w| && w[j] == l;
        if j > 0 { assert w[1..][j - 1] == l; assert l in links[q].value; }
      }
    }
  }
}
