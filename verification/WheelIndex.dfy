/** The package index of scripts/update_nightly_whl_index.py: each update reads the
    page back, puts its links first, drops later links to the same file and writes
    the page again. */
module WheelIndex {
  import opened Wrappers
  import opened Text

  const ANCHOR := "<a href="
  const NEWLINE := "\n"

  /** `<a href="url">name</a><br>` */
  function Link(url: string, name: string): string {
    ANCHOR + "\"" + url + "\">" + name + "</a><br>"
  }

  /** `{base_url}/{release_tag}/{filename}#sha256={hash}` */
  function WheelUrl(base: string, tag: string, file: string, sha: string): string {
    base + "/" + tag + "/" + file + "#sha256=" + sha
  }

  /** The address of a link: the text between its first two quotation marks. */
  function UrlOf(link: string): Option<string> {
    match First(link, "\"")
    case None => None
    case Some(i) =>
      match First(link[i + 1..], "\"")
      case None => None
      case Some(j) => Some(link[i + 1..][..j])
  }

  /** The file a link names: the text between a `>` and the next `<`, where it ends in
      .whl and `</a>` follows; the leftmost such place. */
  function NameAt(s: string, i: nat): Option<string>
    requires i < |s|
  {
    if s[i] != '>' then None
    else
      var name := UpToOpen(s[i + 1..]);
      if |name| >= 5 && name[|name| - 4..] == ".whl" && Begins(s[i + 1 + |name|..], "</a>") then Some(name) else None
  }

  /** The text before the first `<`. */
  function UpToOpen(s: string): (r: string)
    ensures r <= s
  {
    if s == [] || s[0] == '<' then [] else [s[0]] + UpToOpen(s[1..])
  }

  predicate Begins(s: string, p: string) { p <= s }

  function NameFrom(s: string, i: nat): Option<string>
    requires i <= |s|
    decreases |s| - i
  {
    if i == |s| then None
    else if NameAt(s, i).Some? then NameAt(s, i)
    else NameFrom(s, i + 1)
  }

  function FileOf(link: string): Option<string> { NameFrom(link, 0) }

  /** First link to each file, in order; text without a file name is dropped. */
  function Dedup(links: seq<string>, seen: set<string>): seq<string> {
    if links == [] then []
    else
      match FileOf(links[0])
      case None => Dedup(links[1..], seen)
      case Some(f) =>
        if f in seen then Dedup(links[1..], seen)
        else [links[0]] + Dedup(links[1..], seen + {f})
  }

  /** The loop with its set of file names. */
  method DedupLoop(links: seq<string>) returns (unique: seq<string>)
    ensures unique == Dedup(links, {})
  {
    unique := [];
    var seen: set<string> := {};
    for i := 0 to |links|
      invariant Dedup(links, {}) == unique + Dedup(links[i..], seen)
    {
      assert links[i..][0] == links[i] && links[i..][1..] == links[i + 1..];
      var f := FileOf(links[i]);
      if f.Some? && f.value !in seen {
        seen := seen + {f.value};
        unique := unique + [links[i]];
      }
    }
    assert links[|links|..] == [];
  }

  // ---- The page --------------------------------------------------------------

  function Page(title: string, links: seq<string>): string {
    Join(["<!DOCTYPE html>", title] + links + [""], NEWLINE)
  }

  function Anchors(lines: seq<string>): seq<string> {
    if lines == [] then []
    else (if Begins(lines[0], ANCHOR) then [lines[0]] else []) + Anchors(lines[1..])
  }

  function ReadPage(page: string): seq<string> { Anchors(Split(page, NEWLINE)) }

  /** One run of the script on the page, if there is one. */
  function Update(page: Option<string>, title: string, links: seq<string>): Option<string> {
    if links == [] then page
    else
      var existing := if page.Some? then ReadPage(page.value) else [];
      Some(Page(title, Dedup(links + existing, {})))
  }

  /** A line of the page that is a link to a file. */
  ghost predicate GoodLink(link: string) {
    Free(link, NEWLINE) && Begins(link, ANCHOR) && FileOf(link).Some?
  }

  ghost predicate GoodTitle(title: string) {
    Free(title, NEWLINE) && !Begins(title, ANCHOR)
  }

  ghost predicate AllGood(links: seq<string>) {
    forall i | 0 <= i < |links| :: GoodLink(links[i])
  }

  lemma NewlineNoBorder()
    ensures NoBorder(NEWLINE)
  {
  }

  lemma NoNewline(s: string)
    requires '\n' !in s
    ensures Free(s, NEWLINE)
  {
    forall i | 0 <= i ensures !Occurs(s, NEWLINE, i) {
      if Occurs(s, NEWLINE, i) { OccursChar(s, NEWLINE, i, i); }
    }
  }

  lemma {:induction false} AnchorsAppend(xs: seq<string>, ys: seq<string>)
    ensures Anchors(xs + ys) == Anchors(xs) + Anchors(ys)
  {
    if xs == [] {
      assert xs + ys == ys;
    } else {
      assert (xs + ys)[1..] == xs[1..] + ys;
      AnchorsAppend(xs[1..], ys);
    }
  }

  lemma {:induction false} AnchorsOfLinks(links: seq<string>)
    requires AllGood(links)
    ensures Anchors(links) == links
  {
    hide FileOf;
    if links != [] {
      AnchorsOfLinks(links[1..]);
      assert links == [links[0]] + links[1..];
    }
  }

  lemma HeadAnchors(title: string)
    requires GoodTitle(title)
    ensures Anchors(["<!DOCTYPE html>", title]) == []
  {
    var doctype := "<!DOCTYPE html>";
    assert doctype[1] != ANCHOR[1];
    assert !Begins(doctype, ANCHOR);
    assert [doctype, title][1..] == [title] && [title][1..] == [];
    assert Anchors([title]) == [];
    assert Anchors([doctype, title]) == [] + Anchors([doctype, title][1..]);
  }

  /** Reading the written page back gives exactly the written links. */
  lemma ReadBack(title: string, links: seq<string>)
    requires GoodTitle(title) && AllGood(links)
    ensures ReadPage(Page(title, links)) == links
  {
    hide FileOf, Anchors;
    var head := ["<!DOCTYPE html>", title];
    var parts := head + links + [""];
    NoNewline("<!DOCTYPE html>");
    NoNewline("");
    NewlineNoBorder();
    forall i | 0 <= i < |parts| ensures Free(parts[i], NEWLINE) {
      if 2 <= i < |parts| - 1 { assert parts[i] == links[i - 2]; }
    }
    SplitJoin(parts, NEWLINE);
    AnchorsAppend(head + links, [""]);
    AnchorsAppend(head, links);
    HeadAnchors(title);
    AnchorsOfLinks(links);
    BlankAnchors();
  }

  lemma BlankAnchors()
    ensures Anchors([""]) == []
  {
  }

  // ---- Links -----------------------------------------------------------------

  lemma {:induction false} UpToOpenAppend(name: string, rest: string)
    requires '<' !in name
    ensures UpToOpen(name + "<" + rest) == name
  {
    var s := name + "<" + rest;
    if name != [] {
      assert s[0] == name[0] && s[1..] == name[1..] + "<" + rest;
      UpToOpenAppend(name[1..], rest);
    }
  }

  lemma {:induction false} NameSkips(s: string, i: nat, j: nat)
    requires i <= j < |s| && (forall k | i <= k < j :: s[k] != '>') && NameAt(s, j).Some?
    ensures NameFrom(s, i) == NameAt(s, j)
    decreases j - i
  {
    if i < j { NameSkips(s, i + 1, j); }
  }

  /** The file named by a link is the one it was made for. */
  lemma LinkNames(url: string, name: string)
    requires '>' !in url && '<' !in name && |name| >= 5 && name[|name| - 4..] == ".whl"
    ensures FileOf(Link(url, name)) == Some(name)
  {
    var s := Link(url, name);
    var head := ANCHOR + "\"" + url + "\"";
    var j := |head|;
    assert s == head + ">" + name + "</a><br>";
    assert '>' !in ANCHOR;
    forall k | 0 <= k < j ensures s[k] != '>' { assert s[k] == head[k]; }
    assert s[j] == '>';
    assert s[j + 1..] == name + "<" + "/a><br>";
    UpToOpenAppend(name, "/a><br>");
    assert s[j + 1 + |name|..] == "</a><br>" && "</a><br>"[..4] == "</a>";
    NameSkips(s, 0, j);
  }

  lemma QuoteFree(s: string)
    requires '"' !in s
    ensures Free(s, "\"") && NoBorder("\"")
  {
    forall i | 0 <= i ensures !Occurs(s, "\"", i) {
      if Occurs(s, "\"", i) { OccursChar(s, "\"", i, i); }
    }
  }

  /** A link leads to the address it was made for. */
  lemma LinkCarriesUrl(url: string, name: string)
    requires '"' !in url
    ensures UrlOf(Link(url, name)) == Some(url)
  {
    hide First;
    var rest := url + "\"" + (">" + name + "</a><br>");
    var link := Link(url, name);
    assert link == ANCHOR + "\"" + rest;
    QuoteFree(ANCHOR);
    FirstAfter(ANCHOR, "\"", rest);
    assert link[|ANCHOR| + 1..] == rest;
    QuoteFree(url);
    FirstAfter(url, "\"", ">" + name + "</a><br>");
    assert rest[..|url|] == url;
  }

  /** The link of a wheel leads to its release and file, with its hash. */
  lemma WheelLink(base: string, tag: string, file: string, sha: string)
    requires '"' !in base && '"' !in tag && '"' !in file && '"' !in sha
    ensures UrlOf(Link(WheelUrl(base, tag, file, sha), file)) == Some(base + "/" + tag + "/" + file + "#sha256=" + sha)
  {
    hide UrlOf, Link;
    LinkCarriesUrl(WheelUrl(base, tag, file, sha), file);
  }

  /** `s` names file `f` at place `i`: a `>`, then `f`, a text without `<` that ends in .whl
      and is not that alone, then `</a>`. */
  ghost predicate NamesAt(s: string, i: nat, f: string) {
    && i < |s| && s[i] == '>' && Begins(s[i + 1..], f + "</a>")
    && '<' !in f && |f| > 4 && f[|f| - 4..] == ".whl"
  }

  lemma {:induction false} UpToOpenExact(s: string, f: string)
    ensures '<' !in UpToOpen(s)
    ensures '<' !in f && Begins(s, f + "<") ==> UpToOpen(s) == f
  {
    assert Begins(s, f + "<") ==> s != [] && s[0] == (f + "<")[0];
    if s != [] && s[0] != '<' {
      UpToOpenExact(s[1..], if f == [] then f else f[1..]);
      if '<' !in f && Begins(s, f + "<") {
        assert f == [f[0]] + f[1..];
        assert s[1..][..|f|] == s[..|f| + 1][1..] == (f + "<")[1..] == f[1..] + "<";
      }
    }
  }

  lemma NameAtExact(s: string, i: nat, f: string)
    requires i < |s|
    ensures NameAt(s, i) == Some(f) <==> NamesAt(s, i, f)
  {
    hide UpToOpen;
    var t := s[i + 1..];
    UpToOpenExact(t, f);
    var name := UpToOpen(t);
    assert s[i + 1 + |name|..] == t[|name|..];
    if NameAt(s, i) == Some(f) {
      assert t == f + t[|f|..];
      assert t[..|f| + 4] == f + t[|f|..][..4];
    }
    if NamesAt(s, i, f) {
      assert t[..|f| + 4] == f + "</a>";
      assert t[..|f| + 1] == t[..|f| + 4][..|f| + 1] == f + "<";
      assert t[|f|..][..4] == t[..|f| + 4][|f|..] == "</a>";
    }
  }

  ghost predicate NamesFirst(s: string, i: nat, f: string) {
    NamesAt(s, i, f) && forall j: nat, g | j < i :: !NamesAt(s, j, g)
  }

  lemma {:induction false} NameFromExact(s: string, i: nat, f: string)
    requires i <= |s| && forall j: nat, g | j < i :: !NamesAt(s, j, g)
    ensures NameFrom(s, i) == Some(f) <==> exists k: nat :: NamesFirst(s, k, f)
    decreases |s| - i
  {
    hide NameAt, NamesAt;
    if i == |s| {
      forall k: nat, g ensures !NamesAt(s, k, g) { if k >= |s| { NotPastEnd(s, k, g); } }
    } else {
      forall g ensures NameAt(s, i) == Some(g) <==> NamesAt(s, i, g) { NameAtExact(s, i, g); }
      if NameAt(s, i).Some? {
        var g := NameAt(s, i).value;
        assert NamesFirst(s, i, g);
        forall k: nat | NamesFirst(s, k, f) ensures k == i { assert k > i ==> !NamesAt(s, i, g); }
      } else {
        NameFromExact(s, i + 1, f);
      }
    }
  }

  lemma NotPastEnd(s: string, k: nat, g: string)
    requires k >= |s|
    ensures !NamesAt(s, k, g)
  {
  }

  /** The file of a link is the one it names first. */
  lemma FileOfExact(s: string, f: string)
    ensures FileOf(s) == Some(f) <==> exists k: nat :: NamesFirst(s, k, f)
  {
    NameFromExact(s, 0, f);
  }


  lemma LinkIsGood(url: string, name: string)
    requires '>' !in url && '\n' !in url && '<' !in name && '\n' !in name
    requires |name| >= 5 && name[|name| - 4..] == ".whl"
    ensures GoodLink(Link(url, name))
  {
    LinkNames(url, name);
    var s := Link(url, name);
    assert s == ANCHOR + ("\"" + url + "\">" + name + "</a><br>");
    assert '\n' !in ANCHOR && '\n' !in "\"" && '\n' !in "\">" && '\n' !in "</a><br>";
    assert '\n' !in s;
    NoNewline(s);
  }

  // ---- Deduplication ---------------------------------------------------------

  /** What is dropped once is dropped whatever was seen besides. */
  lemma {:induction false} DedupAbsorbs(links: seq<string>, inner: set<string>, outer: set<string>)
    requires inner <= outer
    ensures Dedup(Dedup(links, inner), outer) == Dedup(links, outer)
    decreases |links|
  {
    hide FileOf;
    if links != [] {
      var f := FileOf(links[0]);
      if f.None? || f.value in inner {
        DedupAbsorbs(links[1..], inner, outer);
      } else {
        var kept := Dedup(links, inner);
        assert kept[0] == links[0] && kept[1..] == Dedup(links[1..], inner + {f.value});
        DedupAbsorbs(links[1..], inner + {f.value}, if f.value in outer then outer else outer + {f.value});
      }
    }
  }

  /** Files named in `links`. */
  function Files(links: seq<string>): set<string> {
    if links == [] then {}
    else (if FileOf(links[0]).Some? then {FileOf(links[0]).value} else {}) + Files(links[1..])
  }

  lemma {:induction false} DedupAppend(xs: seq<string>, ys: seq<string>, seen: set<string>)
    ensures Dedup(xs + ys, seen) == Dedup(xs, seen) + Dedup(ys, seen + Files(xs))
    decreases |xs|
  {
    hide FileOf;
    if xs == [] {
      assert xs + ys == ys && seen + Files(xs) == seen;
    } else {
      assert (xs + ys)[0] == xs[0] && (xs + ys)[1..] == xs[1..] + ys;
      var f := FileOf(xs[0]);
      if f.None? || f.value in seen {
        DedupAppend(xs[1..], ys, seen);
        assert seen + Files(xs) == seen + Files(xs[1..]);
      } else {
        DedupAppend(xs[1..], ys, seen + {f.value});
        assert seen + Files(xs) == (seen + {f.value}) + Files(xs[1..]);
      }
    }
  }

  lemma DedupMerges(xs: seq<string>, ys: seq<string>)
    ensures Dedup(xs + Dedup(ys, {}), {}) == Dedup(xs + ys, {})
  {
    DedupAppend(xs, Dedup(ys, {}), {});
    DedupAppend(xs, ys, {});
    DedupAbsorbs(ys, {}, {} + Files(xs));
  }

  lemma {:induction false} DedupGood(links: seq<string>, seen: set<string>)
    requires AllGood(links)
    ensures AllGood(Dedup(links, seen))
    decreases |links|
  {
    hide FileOf;
    if links != [] {
      DedupGood(links[1..], seen);
      if FileOf(links[0]).Some? { DedupGood(links[1..], seen + {FileOf(links[0]).value}); }
    }
  }

  /** Each file once, nothing lost: a link is kept exactly when it is the first to
      its file. */
  lemma {:induction false} DedupExact(links: seq<string>, seen: set<string>)
    requires AllGood(links)
    ensures var r := Dedup(links, seen);
            && (forall i, j | 0 <= i < j < |r| :: FileOf(r[i]) != FileOf(r[j]))
            && (forall x | x in r :: FileOf(x).Some? && FileOf(x).value !in seen)
            && Files(r) == Files(links) - seen
    decreases |links|
  {
    hide FileOf;
    if links != [] {
      assert GoodLink(links[0]);
      var f := FileOf(links[0]).value;
      if f in seen {
        DedupExact(links[1..], seen);
      } else {
        var rest := Dedup(links[1..], seen + {f});
        DedupExact(links[1..], seen + {f});
        assert Dedup(links, seen) == [links[0]] + rest;
        assert ([links[0]] + rest)[1..] == rest;
      }
    }
  }

  /** The link kept for a file is the first one given. */
  lemma {:induction false} KeepsFirst(links: seq<string>, seen: set<string>, i: nat)
    requires i < |links| && FileOf(links[i]).Some? && FileOf(links[i]).value !in seen
    requires forall j | 0 <= j < i :: FileOf(links[j]) != FileOf(links[i])
    ensures links[i] in Dedup(links, seen)
    decreases |links|
  {
    hide FileOf;
    if i > 0 {
      KeepsFirst(links[1..], seen, i - 1);
      if FileOf(links[0]).Some? { KeepsFirst(links[1..], seen + {FileOf(links[0]).value}, i - 1); }
    }
  }

  // ---- Runs of updates -------------------------------------------------------

  function Run(title: string, updates: seq<seq<string>>): Option<string> {
    if updates == [] then None
    else Update(Run(title, updates[..|updates| - 1]), title, updates[|updates| - 1])
  }

  /** All links of all updates, newest update first. */
  function NewestFirst(updates: seq<seq<string>>): seq<string> {
    if updates == [] then [] else updates[|updates| - 1] + NewestFirst(updates[..|updates| - 1])
  }

  ghost predicate AllUpdatesGood(updates: seq<seq<string>>) {
    forall i | 0 <= i < |updates| :: AllGood(updates[i])
  }

  lemma {:induction false} NewestFirstGood(updates: seq<seq<string>>)
    requires AllUpdatesGood(updates)
    ensures AllGood(NewestFirst(updates))
  {
    hide GoodLink;
    if updates != [] { NewestFirstGood(updates[..|updates| - 1]); }
  }

  /** After any updates the page holds, newest update first, the first link to each
      file among all links ever added. */
  lemma {:induction false} RunIsDedup(title: string, updates: seq<seq<string>>)
    requires GoodTitle(title) && AllUpdatesGood(updates)
    ensures var all := NewestFirst(updates);
            Run(title, updates) == if all == [] then None else Some(Page(title, Dedup(all, {})))
  {
    hide GoodTitle, GoodLink, Page, ReadPage, Dedup;
    if updates != [] {
      var n := |updates| - 1;
      RunIsDedup(title, updates[..n]);
      var before := NewestFirst(updates[..n]);
      NewestFirstGood(updates[..n]);
      DedupGood(before, {});
      ReadBack(title, Dedup(before, {}));
      DedupMerges(updates[n], before);
      assert updates[n] == [] ==> updates[n] + before == before;
      assert before == [] ==> updates[n] + [] == updates[n];
    }
  }

  lemma {:induction false} AgainIsOnce(xs: seq<string>, ys: seq<string>)
    requires AllGood(xs)
    ensures Dedup(xs + (xs + ys), {}) == Dedup(xs + ys, {})
  {
    DedupAppend(xs, xs + ys, {});
    DedupAppend(xs, ys, {} + Files(xs));
    DedupAppend(xs, ys, {});
    SeenDropped(xs, {} + Files(xs));
    assert {} + Files(xs) + Files(xs) == {} + Files(xs);
  }

  lemma {:induction false} SeenDropped(xs: seq<string>, seen: set<string>)
    requires Files(xs) <= seen
    ensures Dedup(xs, seen) == []
  {
    hide FileOf;
    if xs != [] { SeenDropped(xs[1..], seen); }
  }

  /** Repeating the last update changes nothing. */
  lemma RepeatChangesNothing(title: string, updates: seq<seq<string>>)
    requires GoodTitle(title) && AllUpdatesGood(updates) && updates != []
    ensures Run(title, updates + [updates[|updates| - 1]]) == Run(title, updates)
  {
    hide GoodTitle, GoodLink, Page, ReadPage, Dedup, Run;
    var last := updates[|updates| - 1];
    var more := updates + [last];
    RunIsDedup(title, updates);
    RunIsDedup(title, more);
    assert more[..|updates|] == updates;
    AgainIsOnce(last, NewestFirst(updates[..|updates| - 1]));
  }
}
