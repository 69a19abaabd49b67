/** The release index of docs/release_lookup/generate_index.py: the first release
    that contains each commit and each pull request, and its compact form. */
module ReleaseIndex {
  import opened Wrappers
  import opened Text
  import opened GitLog
  import opened PullRequests
  import opened PullRequestReading

  /** A release: its place in the tag list and what `git rev-list` prints for it. */
  datatype Tag = Tag(index: nat, commits: seq<string>)

  /** Per commit or pull request, the release index for each release line. */
  type Index = map<string, map<string, nat>>

  type Bodies = map<string, string>

  /** One commit met for the first time, with the release that brought it. */
  datatype Found = Found(sha: string, index: nat)

  function Get(m: Index, key: string, line: string): Option<nat> {
    if key in m && line in m[key] then Some(m[key][line]) else None
  }

  function Put(m: Index, key: string, line: string, index: nat): Index {
    m[key := (if key in m then m[key] else map[])[line := index]]
  }

  function PutFirst(m: Index, key: string, line: string, index: nat): Index {
    if Get(m, key, line).Some? then m else Put(m, key, line, index)
  }

  // ---- Specification ---------------------------------------------------------

  /** The commits of a release not seen before, in order. */
  function Unseen(commits: seq<string>, seen: set<string>): seq<string> {
    if commits == [] then []
    else if commits[0] in seen then Unseen(commits[1..], seen)
    else [commits[0]] + Unseen(commits[1..], seen + {commits[0]})
  }

  function Seen(tags: seq<Tag>): set<string> {
    set t, c | t in tags && c in t.commits :: c
  }

  function Label(shas: seq<string>, index: nat): seq<Found> {
    seq(|shas|, i requires 0 <= i < |shas| => Found(shas[i], index))
  }

  /** Everything found along a release line. */
  function Trail(tags: seq<Tag>): seq<Found> {
    if tags == [] then []
    else
      var n := |tags| - 1;
      Trail(tags[..n]) + Label(Unseen(tags[n].commits, Seen(tags[..n])), tags[n].index)
  }

  function IndexCommits(m: Index, trail: seq<Found>, line: string): Index {
    if trail == [] then m
    else
      var n := |trail| - 1;
      Put(IndexCommits(m, trail[..n], line), trail[n].sha, line, trail[n].index)
  }

  /** The pull request of a commit, its message read without the end marker. */
  function PrOf(bodies: Bodies, sha: string): Option<string> {
    if sha in bodies then ExtractPr(Message(Commit(sha, bodies[sha]), false)) else None
  }

  function IndexPrs(m: Index, trail: seq<Found>, bodies: Bodies, line: string): Index {
    if trail == [] then m
    else
      var n := |trail| - 1;
      var before := IndexPrs(m, trail[..n], bodies, line);
      match PrOf(bodies, trail[n].sha)
      case None => before
      case Some(pr) => PutFirst(before, pr, line, trail[n].index)
  }

  /** What git can be asked about: a hexadecimal name with a message. */
  ghost predicate Recorded(bodies: Bodies, sha: string) {
    sha in bodies && Hex(sha)
  }

  /** No line of the message ends in the end marker. */
  ghost predicate Splits(bodies: Bodies, sha: string) {
    Recorded(bodies, sha) && Printable(Commit(sha, bodies[sha]))
  }

  /** Besides, the pull request number is the same wherever in a chunk the message
      stands. */
  ghost predicate Clean(bodies: Bodies, sha: string) {
    && Splits(bodies, sha)
    && (TrailingBlank(bodies[sha]) ==>
          var n := NumberAtEnd(Strip(bodies[sha])); n.None? || n == NumberOfMerge(Strip(bodies[sha])))
  }

  ghost predicate AllRecorded(bodies: Bodies, shas: seq<string>) {
    forall i | 0 <= i < |shas| :: Recorded(bodies, shas[i])
  }

  ghost predicate AllSplit(bodies: Bodies, shas: seq<string>) {
    forall i | 0 <= i < |shas| :: Splits(bodies, shas[i])
  }

  ghost predicate AllClean(bodies: Bodies, shas: seq<string>) {
    forall i | 0 <= i < |shas| :: Clean(bodies, shas[i])
  }

  // ---- The script ------------------------------------------------------------

  method NewCommits(commits: seq<string>, seen: set<string>) returns (unseen: seq<string>, seen': set<string>)
    ensures unseen == Unseen(commits, seen)
    ensures seen' == seen + set c | c in commits
  {
    unseen, seen' := [], seen;
    for i := 0 to |commits|
      invariant seen' == seen + set c | c in commits[..i]
      invariant Unseen(commits, seen) == unseen + Unseen(commits[i..], seen')
    {
      var c := commits[i];
      assert commits[i..][0] == c && commits[i..][1..] == commits[i + 1..];
      assert commits[..i + 1] == commits[..i] + [c];
      if c !in seen' {
        unseen := unseen + [c];
        seen' := seen' + {c};
      }
    }
    assert commits[..|commits|] == commits;
  }

  function Commits(bodies: Bodies, shas: seq<string>): seq<Commit>
    requires AllRecorded(bodies, shas)
  {
    seq(|shas|, i requires 0 <= i < |shas| => Commit(shas[i], bodies[shas[i]]))
  }

  lemma CleanPr(bodies: Bodies, sha: string, last: bool)
    requires Clean(bodies, sha)
    ensures ExtractPr(Message(Commit(sha, bodies[sha]), last)) == PrOf(bodies, sha)
  {
    hide ExtractPr, Message;
    PrExact(Commit(sha, bodies[sha]));
  }

  /** The tables after the records of one chunk, whatever they are. */
  function PutRecords(m: Index, rs: seq<Record>, line: string, index: nat): Index {
    if rs == [] then m else Put(PutRecords(m, rs[..|rs| - 1], line, index), rs[|rs| - 1].sha, line, index)
  }

  function PutPrs(m: Index, rs: seq<Record>, line: string, index: nat): Index {
    if rs == [] then m
    else
      var before := PutPrs(m, rs[..|rs| - 1], line, index);
      match ExtractPr(rs[|rs| - 1].message)
      case None => before
      case Some(pr) => PutFirst(before, pr, line, index)
  }

  lemma {:induction false} RecordsAreCommits(m: Index, rs: seq<Record>, shas: seq<string>, line: string, index: nat)
    requires |rs| == |shas| && forall i | 0 <= i < |shas| :: rs[i].sha == shas[i]
    ensures PutRecords(m, rs, line, index) == IndexCommits(m, Label(shas, index), line)
  {
    if rs != [] {
      var n := |rs| - 1;
      RecordsAreCommits(m, rs[..n], shas[..n], line, index);
      assert Label(shas, index)[..n] == Label(shas[..n], index);
    }
  }

  lemma {:induction false} RecordsArePrs(m: Index, rs: seq<Record>, shas: seq<string>, bodies: Bodies, line: string, index: nat)
    requires |rs| == |shas| && forall i | 0 <= i < |shas| :: ExtractPr(rs[i].message) == PrOf(bodies, shas[i])
    ensures PutPrs(m, rs, line, index) == IndexPrs(m, Label(shas, index), bodies, line)
  {
    hide ExtractPr, PrOf;
    if rs != [] {
      var n := |rs| - 1;
      RecordsArePrs(m, rs[..n], shas[..n], bodies, line, index);
      assert Label(shas, index)[..n] == Label(shas[..n], index);
    }
  }

  /** One call of git for a chunk of commits, and the two tables updated from what
      it prints. */
  method ProcessChunk(chunk: seq<string>, bodies: Bodies, index: nat, line: string, commitMap: Index, prMap: Index)
    returns (commitMap': Index, prMap': Index)
    requires chunk != [] && AllRecorded(bodies, chunk)
    ensures commitMap' == PutRecords(commitMap, ParseLog(PrintChunk(bodies, chunk)), line, index)
    ensures prMap' == PutPrs(prMap, ParseLog(PrintChunk(bodies, chunk)), line, index)
    ensures AllSplit(bodies, chunk) ==> commitMap' == IndexCommits(commitMap, Label(chunk, index), line)
    ensures AllClean(bodies, chunk) ==> prMap' == IndexPrs(prMap, Label(chunk, index), bodies, line)
  {
    hide ExtractPr, ParseLog, PrintChunk, AllSplit, AllClean, AllRecorded, Put, PutFirst, IndexCommits, IndexPrs;
    var records := ParseLog(PrintChunk(bodies, chunk));
    commitMap', prMap' := commitMap, prMap;
    for i := 0 to |records|
      invariant commitMap' == PutRecords(commitMap, records[..i], line, index)
      invariant prMap' == PutPrs(prMap, records[..i], line, index)
    {
      assert records[..i + 1][..i] == records[..i];
      commitMap' := Put(commitMap', records[i].sha, line, index);
      var pr := ExtractPr(records[i].message);
      if pr.Some? {
        prMap' := PutFirst(prMap', pr.value, line, index);
      }
    }
    assert records[..|records|] == records;
    ChunkTables(bodies, chunk, line, index, commitMap, prMap);
  }

  lemma ChunkTables(bodies: Bodies, chunk: seq<string>, line: string, index: nat, commitMap: Index, prMap: Index)
    requires chunk != [] && AllRecorded(bodies, chunk)
    ensures var rs := ParseLog(PrintChunk(bodies, chunk));
            && (AllSplit(bodies, chunk) ==> PutRecords(commitMap, rs, line, index) == IndexCommits(commitMap, Label(chunk, index), line))
            && (AllClean(bodies, chunk) ==> PutPrs(prMap, rs, line, index) == IndexPrs(prMap, Label(chunk, index), bodies, line))
  {
    hide ExtractPr, ParseLog, PrintChunk, AllSplit, AllClean, AllRecorded, IndexCommits, IndexPrs, PutRecords, PutPrs, PrOf;
    var rs := ParseLog(PrintChunk(bodies, chunk));
    CleanSplits(bodies, chunk);
    if AllSplit(bodies, chunk) {
      ChunkRecords(bodies, chunk);
      RecordsAreCommits(commitMap, rs, chunk, line, index);
    }
    if AllClean(bodies, chunk) {
      RecordsArePrs(prMap, rs, chunk, bodies, line, index);
    }
  }

  lemma CleanSplits(bodies: Bodies, shas: seq<string>)
    ensures AllClean(bodies, shas) ==> AllSplit(bodies, shas)
  {
  }

  function PrintChunk(bodies: Bodies, chunk: seq<string>): string
    requires AllRecorded(bodies, chunk)
  {
    Strip(PrintLog(Commits(bodies, chunk)))
  }

  lemma ChunkRecords(bodies: Bodies, chunk: seq<string>)
    requires chunk != [] && AllRecorded(bodies, chunk) && AllSplit(bodies, chunk)
    ensures var rs := ParseLog(PrintChunk(bodies, chunk));
            && |rs| == |chunk|
            && forall i | 0 <= i < |chunk| ::
                 && rs[i].sha == chunk[i]
                 && (AllClean(bodies, chunk) ==> ExtractPr(rs[i].message) == PrOf(bodies, chunk[i]))
  {
    hide ExtractPr, Message, ParseLog, PrintLog, Strip, Hex, Printable;
    var cs := Commits(bodies, chunk);
    forall i | 0 <= i < |cs| ensures Printable(cs[i]) && Hex(cs[i].sha) { assert Splits(bodies, chunk[i]); }
    LogRoundTrip(cs);
    if AllClean(bodies, chunk) {
      forall i | 0 <= i < |chunk|
        ensures ExtractPr(Message(cs[i], i == |cs| - 1)) == PrOf(bodies, chunk[i])
      {
        CleanPr(bodies, chunk[i], i == |cs| - 1);
      }
    }
  }

  lemma {:induction false} UnseenFrom(commits: seq<string>, seen: set<string>)
    ensures forall c :: c in Unseen(commits, seen) <==> c in commits && c !in seen
    ensures forall i, j | 0 <= i < j < |Unseen(commits, seen)| :: Unseen(commits, seen)[i] != Unseen(commits, seen)[j]
  {
    if commits != [] {
      UnseenFrom(commits[1..], seen);
      UnseenFrom(commits[1..], seen + {commits[0]});
      assert forall c :: c in commits <==> c == commits[0] || c in commits[1..];
    }
  }

  lemma {:induction false} IndexCommitsAppend(m: Index, xs: seq<Found>, ys: seq<Found>, line: string)
    ensures IndexCommits(m, xs + ys, line) == IndexCommits(IndexCommits(m, xs, line), ys, line)
    decreases |ys|
  {
    if ys == [] {
      assert xs + ys == xs;
    } else {
      var n := |ys| - 1;
      assert (xs + ys)[..|xs| + n] == xs + ys[..n];
      IndexCommitsAppend(m, xs, ys[..n], line);
    }
  }

  lemma {:induction false} IndexPrsAppend(m: Index, xs: seq<Found>, ys: seq<Found>, bodies: Bodies, line: string)
    ensures IndexPrs(m, xs + ys, bodies, line) == IndexPrs(IndexPrs(m, xs, bodies, line), ys, bodies, line)
    decreases |ys|
  {
    hide PrOf;
    if ys == [] {
      assert xs + ys == xs;
    } else {
      var n := |ys| - 1;
      assert (xs + ys)[..|xs| + n] == xs + ys[..n];
      IndexPrsAppend(m, xs, ys[..n], bodies, line);
    }
  }

  lemma SliceToo(bodies: Bodies, shas: seq<string>, i: nat, j: nat)
    requires i <= j <= |shas|
    ensures AllRecorded(bodies, shas) ==> AllRecorded(bodies, shas[i..j])
    ensures AllSplit(bodies, shas) ==> AllSplit(bodies, shas[i..j])
    ensures AllClean(bodies, shas) ==> AllClean(bodies, shas[i..j])
  {
    hide Recorded, Splits, Clean;
  }

  /** The chunk loop of one release. */
  method ProcessRelease(unseen: seq<string>, bodies: Bodies, index: nat, line: string, chunkSize: nat,
                        commitMap: Index, prMap: Index) returns (commitMap': Index, prMap': Index)
    requires chunkSize > 0 && AllRecorded(bodies, unseen)
    ensures AllSplit(bodies, unseen) ==> commitMap' == IndexCommits(commitMap, Label(unseen, index), line)
    ensures AllClean(bodies, unseen) ==> prMap' == IndexPrs(prMap, Label(unseen, index), bodies, line)
  {
    hide AllClean, AllSplit, AllRecorded, IndexCommits, IndexPrs, ParseLog, PrintChunk, PutRecords, PutPrs;
    commitMap', prMap' := commitMap, prMap;
    var i := 0;
    assert Label(unseen[..0], index) == [];
    EmptyTrail(commitMap, prMap, bodies, line);
    while i < |unseen|
      invariant i <= |unseen|
      invariant AllSplit(bodies, unseen) ==> commitMap' == IndexCommits(commitMap, Label(unseen[..i], index), line)
      invariant AllClean(bodies, unseen) ==> prMap' == IndexPrs(prMap, Label(unseen[..i], index), bodies, line)
    {
      var j := if i + chunkSize <= |unseen| then i + chunkSize else |unseen|;
      SliceToo(bodies, unseen, i, j);
      commitMap', prMap' := ProcessChunk(unseen[i..j], bodies, index, line, commitMap', prMap');
      assert Label(unseen[..j], index) == Label(unseen[..i], index) + Label(unseen[i..j], index);
      IndexCommitsAppend(commitMap, Label(unseen[..i], index), Label(unseen[i..j], index), line);
      IndexPrsAppend(prMap, Label(unseen[..i], index), Label(unseen[i..j], index), bodies, line);
      i := j;
    }
    assert unseen[..|unseen|] == unseen;
  }

  lemma EmptyTrail(commitMap: Index, prMap: Index, bodies: Bodies, line: string)
    ensures IndexCommits(commitMap, [], line) == commitMap && IndexPrs(prMap, [], bodies, line) == prMap
  {
  }

  /** All commits of a release line. */
  ghost predicate LineRecorded(bodies: Bodies, tags: seq<Tag>) {
    forall t | t in tags :: AllRecorded(bodies, t.commits)
  }

  ghost predicate LineSplits(bodies: Bodies, tags: seq<Tag>) {
    forall t | t in tags :: AllSplit(bodies, t.commits)
  }

  ghost predicate LineClean(bodies: Bodies, tags: seq<Tag>) {
    forall t | t in tags :: AllClean(bodies, t.commits)
  }

  lemma UnseenToo(bodies: Bodies, commits: seq<string>, seen: set<string>)
    ensures AllRecorded(bodies, commits) ==> AllRecorded(bodies, Unseen(commits, seen))
    ensures AllSplit(bodies, commits) ==> AllSplit(bodies, Unseen(commits, seen))
    ensures AllClean(bodies, commits) ==> AllClean(bodies, Unseen(commits, seen))
  {
    hide Recorded, Splits, Clean, Unseen;
    UnseenFrom(commits, seen);
    var unseen := Unseen(commits, seen);
    forall k | 0 <= k < |unseen| ensures exists i :: 0 <= i < |commits| && commits[i] == unseen[k] {
      assert unseen[k] in commits;
    }
  }

  /** A whole release line. What it records of messages the log can be split at is a
      function of the releases alone: neither the chunk size nor the order of git calls
      shows in it. */
  method ProcessTagLine(tags: seq<Tag>, bodies: Bodies, line: string, chunkSize: nat, commitMap: Index, prMap: Index)
    returns (commitMap': Index, prMap': Index)
    requires chunkSize > 0 && LineRecorded(bodies, tags)
    ensures LineSplits(bodies, tags) ==> commitMap' == IndexCommits(commitMap, Trail(tags), line)
    ensures LineClean(bodies, tags) ==> prMap' == IndexPrs(prMap, Trail(tags), bodies, line)
  {
    hide AllRecorded, AllSplit, AllClean, IndexCommits, IndexPrs;
    commitMap', prMap' := commitMap, prMap;
    var seen: set<string> := {};
    EmptyTrail(commitMap, prMap, bodies, line);
    for i := 0 to |tags|
      invariant seen == Seen(tags[..i])
      invariant LineSplits(bodies, tags) ==> commitMap' == IndexCommits(commitMap, Trail(tags[..i]), line)
      invariant LineClean(bodies, tags) ==> prMap' == IndexPrs(prMap, Trail(tags[..i]), bodies, line)
    {
      assert tags[i] in tags && tags[..i + 1][..i] == tags[..i] && tags[..i + 1] == tags[..i] + [tags[i]];
      var unseen;
      ghost var before := seen;
      unseen, seen := NewCommits(tags[i].commits, seen);
      UnseenToo(bodies, tags[i].commits, before);
      commitMap', prMap' := ProcessRelease(unseen, bodies, tags[i].index, line, chunkSize, commitMap', prMap');
      IndexCommitsAppend(commitMap, Trail(tags[..i]), Label(unseen, tags[i].index), line);
      IndexPrsAppend(prMap, Trail(tags[..i]), Label(unseen, tags[i].index), bodies, line);
    }
    assert tags[..|tags|] == tags;
  }

  // ---- What the tables mean --------------------------------------------------

  /** `t` is the first release of the line that reaches `c`. */
  ghost predicate FirstReaching(tags: seq<Tag>, c: string, t: nat) {
    t < |tags| && c in tags[t].commits && forall s | 0 <= s < t :: c !in tags[s].commits
  }

  lemma SeenMeans(tags: seq<Tag>, c: string)
    ensures c in Seen(tags) <==> exists s :: 0 <= s < |tags| && c in tags[s].commits
  {
    if c in Seen(tags) {
      var t :| t in tags && c in t.commits;
      var s :| 0 <= s < |tags| && tags[s] == t;
    }
  }

  /** The first release that reaches `c` has this index. */
  ghost predicate Brings(tags: seq<Tag>, c: string, index: nat) {
    exists t: nat :: FirstReaching(tags, c, t) && tags[t].index == index
  }

  lemma FirstReachingBefore(tags: seq<Tag>, n: nat, c: string, t: nat)
    requires n <= |tags|
    ensures FirstReaching(tags[..n], c, t) <==> FirstReaching(tags, c, t) && t < n
  {
    if t < n { assert forall s | 0 <= s <= t :: tags[..n][s] == tags[s]; }
  }

  lemma BringsNext(tags: seq<Tag>, c: string, index: nat)
    requires tags != []
    ensures var n := |tags| - 1;
            && (Brings(tags, c, index) <==>
                  Brings(tags[..n], c, index) || (c in tags[n].commits && c !in Seen(tags[..n]) && tags[n].index == index))
            && (Brings(tags[..n], c, index) ==> c in Seen(tags[..n]))
  {
    hide Seen, FirstReaching;
    var n := |tags| - 1;
    forall t: nat ensures FirstReaching(tags[..n], c, t) <==> FirstReaching(tags, c, t) && t < n
                  ensures FirstReaching(tags[..n], c, t) ==> tags[..n][t] == tags[t] && c in Seen(tags[..n]) {
      FirstReachingBefore(tags, n, c, t);
      ReachedIsSeen(tags[..n], c, t);
    }
    LastReaches(tags, c);
    forall t: nat | FirstReaching(tags, c, t) ensures t < |tags| { ReachedIsSeen(tags, c, t); }
  }

  lemma ReachedIsSeen(tags: seq<Tag>, c: string, t: nat)
    ensures FirstReaching(tags, c, t) ==> t < |tags| && c in Seen(tags)
  {
  }

  lemma LastReaches(tags: seq<Tag>, c: string)
    requires tags != []
    ensures var n := |tags| - 1;
            FirstReaching(tags, c, n) <==> c in tags[n].commits && c !in Seen(tags[..n])
  {
    hide Seen;
    var n := |tags| - 1;
    SeenMeans(tags[..n], c);
    assert forall s | 0 <= s < n :: tags[..n][s] == tags[s];
  }

  /** The trail lists each commit once, with the first release that reaches it. */
  lemma {:induction false} TrailExact(tags: seq<Tag>, c: string, index: nat)
    ensures multiset(Trail(tags))[Found(c, index)] == if Brings(tags, c, index) then 1 else 0
  {
    if tags != [] {
      var n := |tags| - 1;
      TrailExact(tags[..n], c, index);
      BringsNext(tags, c, index);
      hide Brings, Seen;
      UnseenFrom(tags[n].commits, Seen(tags[..n]));
      LabelCount(Unseen(tags[n].commits, Seen(tags[..n])), tags[n].index, c, index);
    }
  }

  lemma {:induction false} LabelCount(shas: seq<string>, j: nat, c: string, index: nat)
    requires forall a, b | 0 <= a < b < |shas| :: shas[a] != shas[b]
    ensures multiset(Label(shas, j))[Found(c, index)] == if c in shas && index == j then 1 else 0
  {
    if shas != [] {
      var n := |shas| - 1;
      LabelCount(shas[..n], j, c, index);
      assert Label(shas, j) == Label(shas[..n], j) + [Found(shas[n], j)];
      assert shas == shas[..n] + [shas[n]];
    }
  }

  lemma BringsOne(tags: seq<Tag>, c: string, i: nat, j: nat)
    requires Brings(tags, c, i) && Brings(tags, c, j)
    ensures i == j
  {
    var s: nat :| FirstReaching(tags, c, s) && tags[s].index == i;
    var t: nat :| FirstReaching(tags, c, t) && tags[t].index == j;
  }

  /** The last index a trail gives to a commit. */
  function LastOf(trail: seq<Found>, c: string): (r: Option<nat>)
    ensures r.Some? <==> exists i :: 0 <= i < |trail| && trail[i].sha == c
    ensures r.Some? ==> Found(c, r.value) in trail
  {
    if trail == [] then None
    else
      var n := |trail| - 1;
      if trail[n].sha == c then assert trail[n] == Found(c, trail[n].index); Some(trail[n].index)
      else LastOf(trail[..n], c)
  }

  lemma {:induction false} IndexCommitsGet(m: Index, trail: seq<Found>, line: string, c: string, other: string)
    ensures Get(IndexCommits(m, trail, line), c, other) ==
            if other == line && LastOf(trail, c).Some? then LastOf(trail, c) else Get(m, c, other)
  {
    if trail != [] { IndexCommitsGet(m, trail[..|trail| - 1], line, c, other); }
  }

  /** Each release line records for every commit the first release that reaches it,
      and leaves the other line and unreached commits alone. */
  lemma CommitsExact(tags: seq<Tag>, m: Index, line: string, c: string)
    ensures var r := IndexCommits(m, Trail(tags), line);
            && (forall t: nat :: FirstReaching(tags, c, t) ==> Get(r, c, line) == Some(tags[t].index))
            && (c !in Seen(tags) ==> Get(r, c, line) == Get(m, c, line))
            && (forall other | other != line :: Get(r, c, other) == Get(m, c, other))
  {
    hide Seen, Trail, IndexCommits;
    var trail := Trail(tags);
    var r := IndexCommits(m, trail, line);
    forall other ensures Get(r, c, other) ==
      if other == line && LastOf(trail, c).Some? then LastOf(trail, c) else Get(m, c, other)
    {
      IndexCommitsGet(m, trail, line, c, other);
    }
    if LastOf(trail, c).Some? {
      var last := LastOf(trail, c).value;
      TrailExact(tags, c, last);
      assert Found(c, last) in multiset(trail);
      SeenMeans(tags, c);
      forall t: nat | FirstReaching(tags, c, t) ensures last == tags[t].index {
        BringsOne(tags, c, last, tags[t].index);
      }
    } else {
      forall t: nat ensures !FirstReaching(tags, c, t) {
        if FirstReaching(tags, c, t) {
          TrailExact(tags, c, tags[t].index);
        }
      }
    }
  }

  lemma {:induction false} SeenHasFirst(tags: seq<Tag>, c: string) returns (t: nat)
    requires c in Seen(tags)
    ensures FirstReaching(tags, c, t)
  {
    hide Seen, FirstReaching;
    SeenMeans(tags, c);
    var n := |tags| - 1;
    if c in Seen(tags[..n]) {
      t := SeenHasFirst(tags[..n], c);
      FirstReachingBefore(tags, n, c, t);
    } else {
      SeenSplit(tags, c);
      LastReaches(tags, c);
      t := n;
    }
  }

  lemma SeenSplit(tags: seq<Tag>, c: string)
    requires tags != []
    ensures c in Seen(tags) <==> c in Seen(tags[..|tags| - 1]) || c in tags[|tags| - 1].commits
  {
    assert tags == tags[..|tags| - 1] + [tags[|tags| - 1]];
  }

  /** Both release lines in one table. */
  function BothLines(releases: seq<Tag>, gateway: seq<Tag>): Index {
    IndexCommits(IndexCommits(map[], Trail(releases), "m"), Trail(gateway), "g")
  }

  /** Both lines in one table: each commit has, under each line, the first release of
      that line that reaches it, and nothing where none does. */
  lemma TwoLines(releases: seq<Tag>, gateway: seq<Tag>, c: string)
    ensures forall i: nat :: Get(BothLines(releases, gateway), c, "m") == Some(i) <==> Brings(releases, c, i)
    ensures forall i: nat :: Get(BothLines(releases, gateway), c, "g") == Some(i) <==> Brings(gateway, c, i)
  {
    hide Trail, IndexCommits, Seen;
    CommitsExact(releases, map[], "m", c);
    CommitsExact(gateway, IndexCommits(map[], Trail(releases), "m"), "g", c);
    BringsFirst(releases, c, Get(BothLines(releases, gateway), c, "m"));
    BringsFirst(gateway, c, Get(BothLines(releases, gateway), c, "g"));
  }

  lemma BringsFirst(tags: seq<Tag>, c: string, v: Option<nat>)
    requires forall t: nat :: FirstReaching(tags, c, t) ==> v == Some(tags[t].index)
    requires c !in Seen(tags) ==> v.None?
    ensures forall i: nat :: v == Some(i) <==> Brings(tags, c, i)
  {
    hide Seen;
    if c in Seen(tags) {
      var t := SeenHasFirst(tags, c);
      assert Brings(tags, c, tags[t].index);
      forall i: nat | Brings(tags, c, i) ensures i == tags[t].index { BringsOne(tags, c, i, tags[t].index); }
    } else {
      forall t: nat ensures !FirstReaching(tags, c, t) { ReachedIsSeen(tags, c, t); }
    }
  }

  /** The table has exactly the commits some release reaches. */
  lemma TableKeys(releases: seq<Tag>, gateway: seq<Tag>, c: string)
    ensures c in BothLines(releases, gateway) <==> c in Seen(releases) + Seen(gateway)
  {
    hide Trail, IndexCommits, Seen;
    KeysAdded(map[], Trail(releases), "m", c);
    KeysAdded(IndexCommits(map[], Trail(releases), "m"), Trail(gateway), "g", c);
    TrailShas(releases, c);
    TrailShas(gateway, c);
  }

  lemma {:induction false} KeysAdded(m: Index, trail: seq<Found>, line: string, c: string)
    ensures c in IndexCommits(m, trail, line) <==> c in m || LastOf(trail, c).Some?
  {
    if trail != [] { KeysAdded(m, trail[..|trail| - 1], line, c); }
  }

  lemma TrailShas(tags: seq<Tag>, c: string)
    ensures LastOf(Trail(tags), c).Some? <==> c in Seen(tags)
  {
    hide Trail, Seen;
    var trail := Trail(tags);
    if LastOf(trail, c).Some? {
      var last := LastOf(trail, c).value;
      TrailExact(tags, c, last);
      assert Found(c, last) in multiset(trail);
      var t: nat :| FirstReaching(tags, c, t) && tags[t].index == last;
      ReachedIsSeen(tags, c, t);
    }
    if c in Seen(tags) {
      var t := SeenHasFirst(tags, c);
      assert Brings(tags, c, tags[t].index);
      TrailExact(tags, c, tags[t].index);
      assert Found(c, tags[t].index) in multiset(trail);
      assert Found(c, tags[t].index) in trail;
    }
  }

  // ---- Pull requests ---------------------------------------------------------

  /** Where a trail first meets a commit of a pull request. */
  function FirstPrAt(trail: seq<Found>, bodies: Bodies, pr: string): (r: Option<nat>)
    ensures r.Some? ==> r.value < |trail| && PrOf(bodies, trail[r.value].sha) == Some(pr)
    ensures forall i | 0 <= i < (if r.Some? then r.value else |trail|) :: PrOf(bodies, trail[i].sha) != Some(pr)
  {
    if trail == [] then None
    else
      var n := |trail| - 1;
      var before := FirstPrAt(trail[..n], bodies, pr);
      assert forall i | 0 <= i < n :: trail[..n][i] == trail[i];
      if before.Some? then before
      else if PrOf(bodies, trail[n].sha) == Some(pr) then Some(n) else None
  }

  function FirstPr(trail: seq<Found>, bodies: Bodies, pr: string): Option<nat> {
    var r := FirstPrAt(trail, bodies, pr);
    if r.Some? then Some(trail[r.value].index) else None
  }

  lemma {:induction false} IndexPrsGet(m: Index, trail: seq<Found>, bodies: Bodies, line: string, pr: string, other: string)
    ensures Get(IndexPrs(m, trail, bodies, line), pr, other) ==
            if other == line && Get(m, pr, line).None? then FirstPr(trail, bodies, pr) else Get(m, pr, other)
  {
    hide PrOf;
    if trail != [] { IndexPrsGet(m, trail[..|trail| - 1], bodies, line, pr, other); }
  }

  ghost predicate Ascending(tags: seq<Tag>) {
    forall s, t | 0 <= s < t < |tags| :: tags[s].index <= tags[t].index
  }

  ghost predicate TrailAscending(trail: seq<Found>) {
    forall i, j | 0 <= i < j < |trail| :: trail[i].index <= trail[j].index
  }

  lemma {:induction false} TrailIsAscending(tags: seq<Tag>)
    requires Ascending(tags)
    ensures TrailAscending(Trail(tags))
    ensures tags != [] ==> forall i | 0 <= i < |Trail(tags)| :: Trail(tags)[i].index <= tags[|tags| - 1].index
  {
    hide Unseen, Seen;
    if tags != [] {
      TrailIsAscending(tags[..|tags| - 1]);
    }
  }

  /** In ascending order the first index of a pull request is the least. */
  lemma FirstPrLeast(trail: seq<Found>, bodies: Bodies, pr: string)
    requires TrailAscending(trail)
    ensures var v := FirstPr(trail, bodies, pr);
            && (v.Some? ==> exists x :: x in trail && PrOf(bodies, x.sha) == Some(pr) && x.index == v.value)
            && forall x | x in trail && PrOf(bodies, x.sha) == Some(pr) :: v.Some? && v.value <= x.index
  {
    hide PrOf;
    var r := FirstPrAt(trail, bodies, pr);
    if r.Some? { assert trail[r.value] in trail; }
    forall x | x in trail && PrOf(bodies, x.sha) == Some(pr) ensures r.Some? && trail[r.value].index <= x.index {
      var i :| 0 <= i < |trail| && trail[i] == x;
      if r.Some? && i != r.value { assert r.value < i; }
    }
  }

  /** The commit's message names the pull request. */
  ghost predicate CommitNames(bodies: Bodies, c: string, pr: string) {
    c in bodies && NamesPr(Strip(bodies[c]), pr)
  }

  lemma PrOfExact(bodies: Bodies, c: string, pr: string)
    ensures PrOf(bodies, c) == Some(pr) <==> CommitNames(bodies, c, pr)
  {
    hide ExtractPr, NamesPr;
    if c in bodies {
      PlainMessage(bodies[c]);
      assert bodies[c] + "\n" + "" == bodies[c] + "\n";
      ExtractPrExact(Strip(bodies[c]), pr);
    }
  }

  lemma PlainMessage(body: string)
    ensures Strip(body + "\n") == Strip(body)
  {
    hide StripRight;
    StripLeftAppend(body, "\n");
    if StripLeft(body) != [] {
      BareTail(StripLeft(body));
    } else {
      assert "\n"[1..] == "";
      assert StripLeft("\n") == [];
    }
  }

  /** Some commit of the pull request is brought by this release. */
  ghost predicate PrBrought(tags: seq<Tag>, bodies: Bodies, pr: string, index: nat) {
    exists c :: CommitNames(bodies, c, pr) && Brings(tags, c, index)
  }

  /** Each release line records for every pull request the least release index over
      its commits, keeping what was recorded before and the other line. */
  lemma PrsExact(tags: seq<Tag>, m: Index, bodies: Bodies, line: string, pr: string)
    requires Ascending(tags) && Get(m, pr, line).None?
    ensures var r := IndexPrs(m, Trail(tags), bodies, line);
            && (Get(r, pr, line).Some? ==>
                  && PrBrought(tags, bodies, pr, Get(r, pr, line).value)
                  && forall i: nat | PrBrought(tags, bodies, pr, i) :: Get(r, pr, line).value <= i)
            && (Get(r, pr, line).None? ==> forall i: nat :: !PrBrought(tags, bodies, pr, i))
            && (forall other | other != line :: Get(r, pr, other) == Get(m, pr, other))
  {
    hide PrOf, Trail, Brings, IndexPrs, CommitNames;
    var trail := Trail(tags);
    var r := IndexPrs(m, trail, bodies, line);
    forall other ensures Get(r, pr, other) == if other == line then FirstPr(trail, bodies, pr) else Get(m, pr, other) {
      IndexPrsGet(m, trail, bodies, line, pr, other);
    }
    TrailIsAscending(tags);
    FirstPrLeast(trail, bodies, pr);
    forall i: nat | PrBrought(tags, bodies, pr, i)
      ensures exists x :: x in trail && PrOf(bodies, x.sha) == Some(pr) && x.index == i
    {
      var c :| CommitNames(bodies, c, pr) && Brings(tags, c, i);
      PrOfExact(bodies, c, pr);
      TrailExact(tags, c, i);
      assert Found(c, i) in multiset(trail);
      assert Found(c, i) in trail;
    }
    if Get(r, pr, line).Some? {
      var x :| x in trail && PrOf(bodies, x.sha) == Some(pr) && x.index == Get(r, pr, line).value;
      PrOfExact(bodies, x.sha, pr);
      TrailExact(tags, x.sha, x.index);
      assert x in multiset(trail) && x == Found(x.sha, x.index);
    }
  }

  /** `v` is the least release index over the commits of the pull request. */
  ghost predicate LeastOf(tags: seq<Tag>, bodies: Bodies, pr: string, v: Option<int>) {
    && (v.Some? ==>
          && v.value >= 0 && PrBrought(tags, bodies, pr, v.value)
          && forall i: nat | PrBrought(tags, bodies, pr, i) :: v.value <= i)
    && (v.None? ==> forall i: nat :: !PrBrought(tags, bodies, pr, i))
  }

  function BothPrLines(releases: seq<Tag>, gateway: seq<Tag>, bodies: Bodies): Index {
    IndexPrs(IndexPrs(map[], Trail(releases), bodies, "m"), Trail(gateway), bodies, "g")
  }

  function AsInt(v: Option<nat>): Option<int> {
    match v
    case None => None
    case Some(n) => Some(n)
  }

  /** The same for pull requests. */
  lemma TwoPrLines(releases: seq<Tag>, gateway: seq<Tag>, bodies: Bodies, pr: string)
    requires Ascending(releases) && Ascending(gateway)
    ensures LeastOf(releases, bodies, pr, AsInt(Get(BothPrLines(releases, gateway, bodies), pr, "m")))
    ensures LeastOf(gateway, bodies, pr, AsInt(Get(BothPrLines(releases, gateway, bodies), pr, "g")))
  {
    hide Trail, IndexPrs, PrBrought, Ascending;
    PrsExact(releases, map[], bodies, "m", pr);
    PrsExact(gateway, IndexPrs(map[], Trail(releases), bodies, "m"), bodies, "g", pr);
  }

  // ---- The compact form ------------------------------------------------------

  const SHORT_HASH_LEN := 8

  function Short(sha: string): string {
    if |sha| <= SHORT_HASH_LEN then sha else sha[..SHORT_HASH_LEN]
  }

  /** A short name is how the name begins, eight characters of it if it has them. */
  lemma ShortBegins(sha: string)
    ensures Short(sha) <= sha && |Short(sha)| == if |sha| < 8 then |sha| else 8
  {
  }

  datatype Item = Item(sha: string, data: map<string, nat>)

  /** Two different commits with the same short name. */
  ghost predicate Collide(items: seq<Item>) {
    exists i, j :: 0 <= i < j < |items| && items[i].sha != items[j].sha && Short(items[i].sha) == Short(items[j].sha)
  }

  /** The table under short names; nothing when the script exits on a collision,
      which it does exactly when there is one. */
  method ShortenTable(items: seq<Item>) returns (r: Option<Index>)
    requires forall i, j | 0 <= i < j < |items| :: items[i].sha != items[j].sha
    ensures r.None? <==> Collide(items)
    ensures r.Some? ==> forall i | 0 <= i < |items| :: Short(items[i].sha) in r.value && r.value[Short(items[i].sha)] == items[i].data
    ensures r.Some? ==> forall s | s in r.value :: exists i :: 0 <= i < |items| && s == Short(items[i].sha)
  {
    hide Short;
    var table: Index := map[];
    var full: map<string, string> := map[];
    ghost var at: map<string, nat> := map[];
    for n := 0 to |items|
      invariant table.Keys == full.Keys == at.Keys
      invariant forall s | s in at ::
                  at[s] < n && s == Short(items[at[s]].sha) && full[s] == items[at[s]].sha && table[s] == items[at[s]].data
      invariant forall i | 0 <= i < n :: Short(items[i].sha) in at && at[Short(items[i].sha)] == i
    {
      var s := Short(items[n].sha);
      if s in full && full[s] != items[n].sha {
        assert items[at[s]].sha != items[n].sha && Short(items[at[s]].sha) == Short(items[n].sha);
        return None;
      }
      table := table[s := items[n].data];
      full := full[s := items[n].sha];
      at := at[s := n];
    }
    return Some(table);
  }

  function Decimal(n: nat): (s: string)
    ensures s != []
  {
    var digit := ['0' + (n % 10) as char];
    if n < 10 then digit else Decimal(n / 10) + digit
  }

  function ParseDecimal(s: string): int {
    if s == [] then 0 else 10 * ParseDecimal(s[..|s| - 1]) + (s[|s| - 1] as int - '0' as int)
  }

  lemma {:induction false} DecimalRoundTrip(n: nat)
    ensures ParseDecimal(Decimal(n)) == n
  {
    var s := Decimal(n);
    if n < 10 {
      assert s[..0] == [];
    } else {
      DecimalRoundTrip(n / 10);
      assert s[..|s| - 1] == Decimal(n / 10);
    }
  }

  /** A table entry as written: a single release as text, several as they are. */
  datatype Compact = Single(text: string) | Several(releases: map<string, nat>)

  function Simplify(v: map<string, nat>): Compact {
    if |v| == 1 then
      var line :| line in v;
      SingleKey(v, line);
      Single(line + Decimal(v[line]))
    else Several(v)
  }

  lemma SingleKey(v: map<string, nat>, line: string)
    requires |v| == 1 && line in v
    ensures forall k | k in v :: k == line
    ensures v == map[line := v[line]]
  {
    assert v.Keys == {line} by {
      assert v.Keys == (v.Keys - {line}) + {line};
      assert |v.Keys - {line}| == 0;
    }
  }

  /** Only an entry with one release is written as text: the line and, behind it, the
      index in decimal digits without leading zero. */
  lemma SimplifyExact(v: map<string, nat>)
    ensures Simplify(v).Single? <==> |v| == 1
    ensures Simplify(v).Several? ==> Simplify(v).releases == v
    ensures forall line | |v| == 1 && line in v :: exists s ::
              Simplify(v).text == line + s && DecimalDigits(s) && ParseDecimal(s) == v[line]
  {
    forall line | |v| == 1 && line in v ensures exists s ::
      Simplify(v).text == line + s && DecimalDigits(s) && ParseDecimal(s) == v[line]
    {
      SingleKey(v, line);
      DecimalRoundTrip(v[line]);
      DecimalShape(v[line]);
      assert Simplify(v).text == line + Decimal(v[line]);
    }
  }

  ghost predicate DecimalDigits(s: string) {
    s != [] && (forall i | 0 <= i < |s| :: IsDigit(s[i])) && (|s| > 1 ==> s[0] != '0')
  }

  lemma {:induction false} DecimalShape(n: nat)
    ensures DecimalDigits(Decimal(n)) && (n > 0 ==> Decimal(n)[0] != '0')
  {
    if n >= 10 { DecimalShape(n / 10); }
  }

  /** Reading an entry: the line is the first character, the index the rest. */
  function Expand(c: Compact): map<string, int> {
    match c
    case Single(text) => if text == [] then map[] else map[text[..1] := ParseDecimal(text[1..])]
    case Several(m) => map k | k in m :: m[k] as int
  }

  /** Simplifying loses nothing: the entry read back is the entry written. */
  lemma SimplifyLossless(v: map<string, nat>)
    requires forall line | line in v :: |line| == 1
    ensures Expand(Simplify(v)) == map k | k in v :: v[k] as int
  {
    if |v| == 1 {
      var text := Simplify(v).text;
      var line :| line in v && text == line + Decimal(v[line]);
      hide Simplify, Expand, Decimal;
      SingleKey(v, line);
      SingleReads(line, v[line]);
    }
  }

  lemma SingleReads(line: string, n: nat)
    requires |line| == 1
    ensures Expand(Single(line + Decimal(n))) == map[line := n as int]
  {
    hide Decimal, ParseDecimal;
    var text := line + Decimal(n);
    assert text[..1] == line && text[1..] == Decimal(n);
    DecimalRoundTrip(n);
  }

  // ---- The whole index -------------------------------------------------------

  /** The tables as written. */
  datatype Built = Built(commits: map<string, Compact>, prs: map<string, Compact>)

  function SimplifyTable(m: Index): map<string, Compact> {
    map k | k in m :: Simplify(m[k])
  }

  /** What a reader of the written table finds. */
  function Lookup(table: map<string, Compact>, key: string, line: string): Option<int> {
    if key in table && line in Expand(table[key]) then Some(Expand(table[key])[line]) else None
  }

  ghost predicate ShortLines(m: Index) {
    forall k, line | k in m && line in m[k] :: |line| == 1
  }

  lemma {:induction false} CommitLines(m: Index, trail: seq<Found>, line: string)
    requires ShortLines(m) && |line| == 1
    ensures ShortLines(IndexCommits(m, trail, line))
  {
    if trail != [] { CommitLines(m, trail[..|trail| - 1], line); }
  }

  lemma {:induction false} PrLines(m: Index, trail: seq<Found>, bodies: Bodies, line: string)
    requires ShortLines(m) && |line| == 1
    ensures ShortLines(IndexPrs(m, trail, bodies, line))
  {
    hide PrOf;
    if trail != [] { PrLines(m, trail[..|trail| - 1], bodies, line); }
  }

  /** The written table reads as the table it was made from. */
  lemma LookupIs(m: Index, key: string, line: string)
    requires ShortLines(m)
    ensures Lookup(SimplifyTable(m), key, line) == AsInt(Get(m, key, line))
  {
    hide Simplify, Expand;
    if key in m { SimplifyLossless(m[key]); }
  }

  /** The entries of a table, in some order. */
  method ItemsOf(m: Index) returns (items: seq<Item>)
    ensures forall i, j | 0 <= i < j < |items| :: items[i].sha != items[j].sha
    ensures forall i | 0 <= i < |items| :: items[i].sha in m && items[i].data == m[items[i].sha]
    ensures forall k | k in m :: exists i :: 0 <= i < |items| && items[i].sha == k
  {
    items := [];
    var left := m.Keys;
    while left != {}
      invariant left <= m.Keys
      invariant forall i, j | 0 <= i < j < |items| :: items[i].sha != items[j].sha
      invariant forall i | 0 <= i < |items| :: items[i].sha in m && items[i].data == m[items[i].sha] && items[i].sha !in left
      invariant forall k | k in m && k !in left :: exists i :: 0 <= i < |items| && items[i].sha == k
      decreases |left|
    {
      ghost var before := items;
      var k :| k in left;
      items := items + [Item(k, m[k])];
      left := left - {k};
      assert items[|before|].sha == k;
      forall x | x in m && x !in left ensures exists i :: 0 <= i < |items| && items[i].sha == x {
        if x != k {
          var i :| 0 <= i < |before| && before[i].sha == x;
          assert items[i].sha == x;
        }
      }
    }
  }

  /** Two commits that some release reaches share their short name. */
  ghost predicate ShortNamesCollide(commits: set<string>) {
    exists c, d :: c in commits && d in commits && c != d && Short(c) == Short(d)
  }

  ghost predicate Lists(items: seq<Item>, m: Index) {
    && (forall i | 0 <= i < |items| :: items[i].sha in m && items[i].data == m[items[i].sha])
    && (forall k | k in m :: exists i :: 0 <= i < |items| && items[i].sha == k)
  }

  lemma CollideMeans(items: seq<Item>, m: Index)
    requires Lists(items, m)
    ensures Collide(items) <==> ShortNamesCollide(m.Keys)
  {
    hide Short;
    if c, d :| c in m.Keys && d in m.Keys && c != d && Short(c) == Short(d) {
      var i :| 0 <= i < |items| && items[i].sha == c;
      var j :| 0 <= j < |items| && items[j].sha == d;
      assert Short(items[i].sha) == Short(items[j].sha);
      if i < j { assert Collide(items); } else { assert Collide(items); }
    }
  }

  /** The table under short names holds the full table's data. */
  ghost predicate Shortens(table: Index, m: Index) {
    forall k | k in m :: Short(k) in table && table[Short(k)] == m[k]
  }

  /** Releases as the tag list has them, both lines with their commits recorded. */
  ghost predicate Given(releases: seq<Tag>, gateway: seq<Tag>, bodies: Bodies) {
    LineRecorded(bodies, releases) && LineRecorded(bodies, gateway)
  }

  ghost predicate Splittable(releases: seq<Tag>, gateway: seq<Tag>, bodies: Bodies) {
    LineSplits(bodies, releases) && LineSplits(bodies, gateway)
  }

  ghost predicate CleanInput(releases: seq<Tag>, gateway: seq<Tag>, bodies: Bodies) {
    LineClean(bodies, releases) && LineClean(bodies, gateway) && Ascending(releases) && Ascending(gateway)
  }

  /** Looking a commit up by its short name gives the first release of each line that
      reaches it, and no entry where none does. */
  ghost predicate CommitsReadBack(releases: seq<Tag>, gateway: seq<Tag>, b: Built) {
    forall c: string, i: nat | c in Seen(releases) + Seen(gateway) ::
      && (Lookup(b.commits, Short(c), "m") == Some(i) <==> Brings(releases, c, i))
      && (Lookup(b.commits, Short(c), "g") == Some(i) <==> Brings(gateway, c, i))
  }

  /** Looking a pull request up gives the least release index over its commits. */
  ghost predicate PrsReadBack(releases: seq<Tag>, gateway: seq<Tag>, bodies: Bodies, b: Built) {
    forall pr: string ::
      LeastOf(releases, bodies, pr, Lookup(b.prs, pr, "m")) && LeastOf(gateway, bodies, pr, Lookup(b.prs, pr, "g"))
  }

  /** The whole script, from the release lines to the written tables; nothing when it
      exits on a collision, which it does exactly when two reached commits share a
      short name. What is written reads back as the first releases and the least
      release indices, whatever the chunk size. */
  method BuildIndex(releases: seq<Tag>, gateway: seq<Tag>, bodies: Bodies, chunkSize: nat) returns (r: Option<Built>)
    requires chunkSize > 0 && Given(releases, gateway, bodies)
    ensures Splittable(releases, gateway, bodies) ==>
              (r.None? <==> ShortNamesCollide(Seen(releases) + Seen(gateway)))
    ensures r.Some? && Splittable(releases, gateway, bodies) ==> CommitsReadBack(releases, gateway, r.value)
    ensures r.Some? && CleanInput(releases, gateway, bodies) ==> PrsReadBack(releases, gateway, bodies, r.value)
  {
    hide LineSplits, LineClean, LineRecorded, Trail, IndexCommits, IndexPrs, Seen, Short, Simplify, SimplifyTable,
         ShortLines, CommitsReadBack, PrsReadBack, Collide, ShortNamesCollide, Ascending;
    var commitMap, prMap := ProcessTagLine(releases, bodies, "m", chunkSize, map[], map[]);
    commitMap, prMap := ProcessTagLine(gateway, bodies, "g", chunkSize, commitMap, prMap);
    var items := ItemsOf(commitMap);
    assert Lists(items, commitMap);
    CollideMeans(items, commitMap);
    var short := ShortenTable(items);
    assert Splittable(releases, gateway, bodies) ==> commitMap == BothLines(releases, gateway);
    KeysAreReached(releases, gateway);
    if short.None? {
      return None;
    }
    r := Some(Built(SimplifyTable(short.value), SimplifyTable(prMap)));
    assert Shortens(short.value, commitMap);
    if Splittable(releases, gateway, bodies) {
      BothLinesShort(releases, gateway);
      TableShort(items, short.value, commitMap);
      CommitsRead(releases, gateway, short.value, r.value);
    }
    if CleanInput(releases, gateway, bodies) { PrsRead(releases, gateway, bodies, r.value); }
  }

  lemma KeysAreReached(releases: seq<Tag>, gateway: seq<Tag>)
    ensures BothLines(releases, gateway).Keys == Seen(releases) + Seen(gateway)
  {
    hide BothLines, Seen;
    forall c ensures c in BothLines(releases, gateway) <==> c in Seen(releases) + Seen(gateway) {
      TableKeys(releases, gateway, c);
    }
  }

  lemma BothLinesShort(releases: seq<Tag>, gateway: seq<Tag>)
    ensures ShortLines(BothLines(releases, gateway))
  {
    CommitLines(map[], Trail(releases), "m");
    CommitLines(IndexCommits(map[], Trail(releases), "m"), Trail(gateway), "g");
  }

  lemma TableShort(items: seq<Item>, table: Index, m: Index)
    requires Lists(items, m) && ShortLines(m)
    requires forall s | s in table :: exists i :: 0 <= i < |items| && s == Short(items[i].sha)
    requires Shortens(table, m)
    ensures ShortLines(table)
  {
    hide Short;
  }

  lemma CommitsRead(releases: seq<Tag>, gateway: seq<Tag>, table: Index, b: Built)
    requires ShortLines(table) && Shortens(table, BothLines(releases, gateway)) && b.commits == SimplifyTable(table)
    ensures CommitsReadBack(releases, gateway, b)
  {
    hide BothLines, Seen, Short, SimplifyTable, Lookup, Brings;
    KeysAreReached(releases, gateway);
    forall c: string, i: nat | c in Seen(releases) + Seen(gateway)
      ensures Lookup(b.commits, Short(c), "m") == Some(i) <==> Brings(releases, c, i)
      ensures Lookup(b.commits, Short(c), "g") == Some(i) <==> Brings(gateway, c, i)
    {
      TwoLines(releases, gateway, c);
      LookupIs(table, Short(c), "m");
      LookupIs(table, Short(c), "g");
    }
  }

  lemma PrsRead(releases: seq<Tag>, gateway: seq<Tag>, bodies: Bodies, b: Built)
    requires Ascending(releases) && Ascending(gateway)
    requires b.prs == SimplifyTable(BothPrLines(releases, gateway, bodies))
    ensures PrsReadBack(releases, gateway, bodies, b)
  {
    hide SimplifyTable, Lookup, LeastOf, IndexPrs, Trail, Ascending;
    PrLines(map[], Trail(releases), bodies, "m");
    PrLines(IndexPrs(map[], Trail(releases), bodies, "m"), Trail(gateway), bodies, "g");
    forall pr: string
      ensures LeastOf(releases, bodies, pr, Lookup(b.prs, pr, "m")) && LeastOf(gateway, bodies, pr, Lookup(b.prs, pr, "g"))
    {
      TwoPrLines(releases, gateway, bodies, pr);
      LookupIs(BothPrLines(releases, gateway, bodies), pr, "m");
      LookupIs(BothPrLines(releases, gateway, bodies), pr, "g");
    }
  }
}
