/** The log of docs/release_lookup/generate_index.py: how git prints a chunk of
    commits in the requested format, and how the script takes it apart again. */
module GitLog {
  import opened Wrappers
  import opened Text

  datatype Commit = Commit(sha: string, body: string)

  /** What the script reads back of one commit. */
  datatype Record = Record(sha: string, message: string)

  const MARKER := "--END-COMMIT--"
  const SEPARATOR := "--END-COMMIT--\n"

  predicate IsHex(c: char) { '0' <= c <= '9' || 'a' <= c <= 'f' }

  /** Object names are hexadecimal. */
  ghost predicate Hex(sha: string) {
    sha != [] && forall i | 0 <= i < |sha| :: IsHex(sha[i])
  }

  /** No line of the message ends in the end marker. */
  ghost predicate Printable(c: Commit) {
    Free(c.body + "\n", SEPARATOR)
  }

  ghost predicate AllHex(cs: seq<Commit>) {
    forall i | 0 <= i < |cs| :: Hex(cs[i].sha)
  }

  ghost predicate AllPrintable(cs: seq<Commit>) {
    forall i | 0 <= i < |cs| :: Printable(cs[i])
  }

  function Entry(c: Commit): string { c.sha + "|" + c.body + "\n" }

  /** `git show -s --format=%H|%B%n--END-COMMIT--` */
  function PrintLog(cs: seq<Commit>): string {
    if cs == [] then "" else Entry(cs[0]) + SEPARATOR + PrintLog(cs[1..])
  }

  function ParseEntry(e: string): Option<Record> {
    if Strip(e) == "" then None
    else
      match First(e, "|")
      case None => None
      case Some(i) => Some(Record(Strip(e[..i]), Strip(e[i + 1..])))
  }

  function ParseEntries(es: seq<string>): seq<Record> {
    if es == [] then []
    else (if ParseEntry(es[0]).Some? then [ParseEntry(es[0]).value] else []) + ParseEntries(es[1..])
  }

  function ParseLog(raw: string): seq<Record> { ParseEntries(Split(raw, SEPARATOR)) }

  // ---- Round trip ------------------------------------------------------------

  /** The parts the stripped log splits into: the marker stays on the last one. */
  function Pieces(cs: seq<Commit>): (ps: seq<string>)
    requires cs != []
    ensures ps != [] && |ps| == |cs|
  {
    if |cs| == 1 then [Entry(cs[0]) + MARKER] else [Entry(cs[0])] + Pieces(cs[1..])
  }

  lemma SeparatorNoBorder()
    ensures NoBorder(SEPARATOR)
  {
    LastCharOnce(SEPARATOR);
  }

  /** A separator needs a newline fourteen places on. */
  lemma SeparatorEnds(s: string, i: nat)
    requires Occurs(s, SEPARATOR, i)
    ensures i + 14 < |s| && s[i] == '-' && s[i + 14] == '\n'
  {
    OccursChar(s, SEPARATOR, i, i);
    OccursChar(s, SEPARATOR, i, i + 14);
  }

  /** The newlines of an entry are in its message or right after it. */
  lemma NewlineInside(c: Commit, tail: string, k: nat)
    requires tail == "" || tail == MARKER
    requires k < |Entry(c) + tail| && (Entry(c) + tail)[k] == '\n'
    ensures k <= |c.sha| + 1 + |c.body|
  {
    assert '\n' !in tail;
  }

  lemma EntryParts(c: Commit, tail: string)
    ensures |Entry(c)| == |c.sha| + 1 + |c.body + "\n"|
    ensures (Entry(c) + tail)[..|Entry(c)|] == Entry(c) && Entry(c)[|c.sha| + 1..] == c.body + "\n"
    ensures Entry(c) + tail == c.sha + "|" + (c.body + "\n" + tail)
  {
  }

  /** Separators of an entry, with or without the marker behind it, are those of its
      message. */
  lemma SeparatorInEntry(c: Commit, tail: string, i: nat)
    requires Hex(c.sha) && (tail == "" || tail == MARKER)
    ensures Occurs(Entry(c) + tail, SEPARATOR, i) <==> i > |c.sha| && Occurs(c.body + "\n", SEPARATOR, i - |c.sha| - 1)
  {
    var s := Entry(c) + tail;
    var n := |c.sha| + 1;
    EntryParts(c, tail);
    if i >= n { OccursAfter(Entry(c), n, SEPARATOR, i - n); }
    OccursBefore(s, |Entry(c)|, SEPARATOR, i);
    if Occurs(s, SEPARATOR, i) {
      SeparatorEnds(s, i);
      NewlineInside(c, tail, i + 14);
      assert s[|c.sha|] == '|';
    }
  }

  /** An entry, with or without the marker behind it, contains no separator exactly
      when no line of its message ends in the marker. */
  lemma PieceFree(c: Commit, tail: string)
    requires Hex(c.sha) && (tail == "" || tail == MARKER)
    ensures Free(Entry(c) + tail, SEPARATOR) <==> Printable(c)
  {
    hide Occurs;
    forall i | 0 <= i
      ensures Occurs(Entry(c) + tail, SEPARATOR, i) <==> i > |c.sha| && Occurs(c.body + "\n", SEPARATOR, i - |c.sha| - 1)
    {
      SeparatorInEntry(c, tail, i);
    }
    if i :| 0 <= i && Occurs(c.body + "\n", SEPARATOR, i) {
      assert Occurs(Entry(c) + tail, SEPARATOR, i + |c.sha| + 1);
    }
  }

  lemma {:induction false} PiecesFree(cs: seq<Commit>)
    requires cs != [] && AllHex(cs) && AllPrintable(cs)
    ensures AllFree(Pieces(cs), SEPARATOR)
  {
    PieceFree(cs[0], "");
    assert Entry(cs[0]) + "" == Entry(cs[0]);
    if |cs| == 1 { PieceFree(cs[0], MARKER); } else { PiecesFree(cs[1..]); }
  }

  lemma {:induction false} PrintedPieces(cs: seq<Commit>)
    requires cs != []
    ensures PrintLog(cs) == Join(Pieces(cs), SEPARATOR) + "\n"
  {
    assert SEPARATOR == MARKER + "\n";
    if |cs| == 1 {
      assert PrintLog(cs[1..]) == "";
    } else {
      PrintedPieces(cs[1..]);
      assert Pieces(cs)[1..] == Pieces(cs[1..]);
    }
  }

  lemma {:induction false} JoinedEnds(cs: seq<Commit>)
    requires cs != [] && AllHex(cs)
    ensures var s := Join(Pieces(cs), SEPARATOR);
            s != [] && IsHex(s[0]) && s[|s| - 1] == '-'
  {
    if |cs| > 1 {
      JoinedEnds(cs[1..]);
      assert Pieces(cs)[1..] == Pieces(cs[1..]);
    }
  }

  lemma StrippedLog(cs: seq<Commit>)
    requires cs != [] && AllHex(cs)
    ensures Strip(PrintLog(cs)) == Join(Pieces(cs), SEPARATOR)
  {
    hide PrintLog, Pieces, Join, Strip;
    PrintedPieces(cs);
    JoinedEnds(cs);
    VisibleStrip(Join(Pieces(cs), SEPARATOR));
  }

  lemma VisibleStrip(s: string)
    requires s != [] && !IsSpace(s[0]) && !IsSpace(s[|s| - 1])
    ensures Strip(s + "\n") == s
  {
    assert (s + "\n")[0] == s[0];
    StripRightBlank(s, "\n");
  }

  /** The message read back for a commit in the middle or at the end of a chunk. */
  function Message(c: Commit, last: bool): string {
    Strip(c.body + "\n" + (if last then MARKER else ""))
  }

  lemma HexVisible(s: string, t: string)
    requires Hex(s)
    ensures Strip(s) == s && Strip(s + t) != ""
  {
    assert StripLeft(s + t) == s + t;
    assert (s + t)[0] == s[0];
    assert (s + t)[0..] == s + t;
  }

  lemma ParseText(sha: string, text: string)
    requires Hex(sha)
    ensures ParseEntry(sha + "|" + text) == Some(Record(sha, Strip(text)))
  {
    var e := sha + "|" + text;
    HexVisible(sha, "|" + text);
    assert e == sha + ("|" + text);
    forall i | 0 <= i ensures !Occurs(sha, "|", i) {
      if Occurs(sha, "|", i) { OccursChar(sha, "|", i, i); }
    }
    assert NoBorder("|");
    FirstAfter(sha, "|", text);
    assert e[..|sha|] == sha && e[|sha| + 1..] == text;
  }

  lemma ParsePiece(c: Commit, last: bool)
    requires Hex(c.sha)
    ensures ParseEntry(Entry(c) + (if last then MARKER else "")) == Some(Record(c.sha, Message(c, last)))
  {
    hide ParseEntry, Strip;
    var tail := if last then MARKER else "";
    EntryParts(c, tail);
    ParseText(c.sha, c.body + "\n" + tail);
  }

  /** What should be read back: every commit, once and in order, with its message. */
  function Expected(cs: seq<Commit>): seq<Record> {
    seq(|cs|, i requires 0 <= i < |cs| => Record(cs[i].sha, Message(cs[i], i == |cs| - 1)))
  }

  lemma ExpectedFirst(cs: seq<Commit>)
    requires cs != []
    ensures Expected(cs) == [Record(cs[0].sha, Message(cs[0], |cs| == 1))] + Expected(cs[1..])
  {
  }

  /** Splitting the stripped log gives every commit back, once and in order. */
  lemma {:induction false} LogRoundTrip(cs: seq<Commit>)
    requires cs != [] && AllHex(cs) && AllPrintable(cs)
    ensures ParseLog(Strip(PrintLog(cs))) == Expected(cs)
  {
    hide Strip, PrintLog, Printable, Hex;
    StrippedLog(cs);
    SeparatorNoBorder();
    PiecesFree(cs);
    SplitJoin(Pieces(cs), SEPARATOR);
    ParsePieces(cs);
  }

  lemma {:induction false} ParsePieces(cs: seq<Commit>)
    requires cs != [] && AllHex(cs)
    ensures ParseEntries(Pieces(cs)) == Expected(cs)
  {
    hide ParseEntry, Entry, Message;
    ParsePiece(cs[0], |cs| == 1);
    ExpectedFirst(cs);
    assert Entry(cs[0]) + "" == Entry(cs[0]);
    if |cs| > 1 {
      ParsePieces(cs[1..]);
      assert Pieces(cs)[1..] == Pieces(cs[1..]);
    } else {
      assert Pieces(cs)[1..] == [];
    }
  }

  // ---- A marker at the end of a line -----------------------------------------

  /** A visible text longer than another is not equal to it when both are stripped. */
  lemma StripLonger(u: string, x: string, v: string)
    requires x != [] && !IsSpace(x[0])
    ensures Strip(u + x + v) != Strip(u)
  {
    hide StripLeft, StripRight;
    StripLeftAppend(u, x + v);
    StripLeftAppend([], x + v);
    assert u + x + v == u + (x + v);
    var left := StripLeft(u + x + v);
    var n := |StripLeft(u)|;
    VisibleFirst(x + v);
    assert left == StripLeft(u) + (x + v);
    assert left[n] == x[0];
    StripRightReaches(left, n);
  }

  lemma StripRightReaches(s: string, n: nat)
    requires n < |s| && !IsSpace(s[n])
    ensures |StripRight(s)| > n
  {
    var r := StripRight(s);
    forall k | |r| <= k < |s| ensures IsSpace(s[k]) { assert s[k] == s[|r|..][k - |r|]; }
  }

  lemma VisibleFirst(s: string)
    requires s != [] && !IsSpace(s[0])
    ensures StripLeft(s) == s
  {
  }

  /** A separator inside the first entry cuts its message short. */
  lemma FirstIsCut(c: Commit, tail: string, after: string)
    requires Hex(c.sha) && !Printable(c) && (tail == "" || tail == MARKER)
    ensures var es := Split(Entry(c) + tail + after, SEPARATOR);
            ParseEntry(es[0]).Some? && ParseEntry(es[0]).value != Record(c.sha, Strip(c.body + "\n" + tail))
  {
    hide Strip, ParseEntry, First, Occurs;
    var text := c.body + "\n";
    var s := Entry(c) + tail + after;
    var n := |c.sha| + 1;
    var i :| 0 <= i && Occurs(text, SEPARATOR, i);
    SeparatorInEntry(c, "", n + i);
    assert Entry(c) + "" == Entry(c);
    OccursFits(Entry(c), SEPARATOR, n + i);
    assert s[..|Entry(c)|] == Entry(c);
    OccursBefore(s, |Entry(c)|, SEPARATOR, n + i);
    var r := First(s, SEPARATOR);
    var j := r.value;
    OccursBefore(s, |Entry(c)|, SEPARATOR, j);
    SeparatorInEntry(c, "", j);
    CutText(c, tail, after, j);
  }

  lemma CutText(c: Commit, tail: string, after: string, j: nat)
    requires Hex(c.sha) && j > |c.sha| && Occurs(c.body + "\n", SEPARATOR, j - |c.sha| - 1)
    ensures var s := Entry(c) + tail + after;
            && j <= |s| && ParseEntry(s[..j]).Some?
            && ParseEntry(s[..j]).value != Record(c.sha, Strip(c.body + "\n" + tail))
  {
    hide Strip, ParseEntry;
    var text := c.body + "\n";
    var k := j - |c.sha| - 1;
    var u := text[..k];
    EntryParts(c, tail);
    assert (Entry(c) + tail + after)[..j] == c.sha + "|" + u;
    ParseText(c.sha, u);
    assert text == u + SEPARATOR + text[k + 15..];
    assert text + tail == u + SEPARATOR + (text[k + 15..] + tail);
    StripLonger(u, SEPARATOR, text[k + 15..] + tail);
  }

  lemma FirstRecord(es: seq<string>, x: Record, rest: seq<Record>)
    requires es != [] && ParseEntry(es[0]).Some? && ParseEntry(es[0]).value != x
    ensures ParseEntries(es) != [x] + rest
  {
    assert ParseEntries(es)[0] == ParseEntry(es[0]).value;
  }

  lemma LaterRecords(e: string, x: Record, es: seq<string>, rest: seq<Record>)
    requires ParseEntry(e) == Some(x) && ParseEntries(es) != rest
    ensures ParseEntries([e] + es) != [x] + rest
  {
    assert ([e] + es)[1..] == es;
    assert ([x] + rest)[1..] == rest && ([x] + ParseEntries(es))[1..] == ParseEntries(es);
  }

  /** The first message with a marker at the end of a line spoils what is read. */
  lemma {:induction false} CutIsRead(cs: seq<Commit>)
    requires cs != [] && AllHex(cs) && !AllPrintable(cs)
    ensures ParseLog(Join(Pieces(cs), SEPARATOR)) != Expected(cs)
  {
    hide Hex, Printable, Message, Entry, ParseEntry, Split;
    var c := cs[0];
    ExpectedFirst(cs);
    assert Entry(c) + "" == Entry(c);
    if |cs| == 1 {
      assert Join(Pieces(cs), SEPARATOR) == Entry(c) + MARKER + "";
      FirstIsCut(c, MARKER, "");
      CutFirst(c, true, MARKER, "", Expected(cs[1..]));
    } else {
      var rest := Join(Pieces(cs[1..]), SEPARATOR);
      assert Pieces(cs)[1..] == Pieces(cs[1..]);
      if Printable(c) {
        PieceFree(c, "");
        SeparatorNoBorder();
        SplitFirst(Entry(c), SEPARATOR, rest);
        ParsePiece(c, false);
        var k :| 0 <= k < |cs| && !Printable(cs[k]);
        assert cs[1..][k - 1] == cs[k];
        CutIsRead(cs[1..]);
        LaterRecords(Entry(c), Record(c.sha, Message(c, false)), Split(rest, SEPARATOR), Expected(cs[1..]));
      } else {
        assert Join(Pieces(cs), SEPARATOR) == Entry(c) + "" + (SEPARATOR + rest);
        CutFirst(c, false, "", SEPARATOR + rest, Expected(cs[1..]));
      }
    }
  }

  lemma CutFirst(c: Commit, last: bool, tail: string, after: string, rest: seq<Record>)
    requires Hex(c.sha) && !Printable(c) && tail == (if last then MARKER else "")
    ensures ParseLog(Entry(c) + tail + after) != [Record(c.sha, Message(c, last))] + rest
  {
    hide Hex, Printable, Entry, ParseEntry, Split, Strip, ParseEntries;
    FirstIsCut(c, tail, after);
    FirstRecord(Split(Entry(c) + tail + after, SEPARATOR), Record(c.sha, Message(c, last)), rest);
  }

  /** The log is read back as it was written if and only if no line of a message ends
      in the end marker. */
  lemma LogExact(cs: seq<Commit>)
    requires cs != [] && AllHex(cs)
    ensures ParseLog(Strip(PrintLog(cs))) == Expected(cs) <==> AllPrintable(cs)
  {
    hide Strip, PrintLog, Hex, AllPrintable, ParseLog;
    if AllPrintable(cs) {
      LogRoundTrip(cs);
    } else {
      StrippedLog(cs);
      CutIsRead(cs);
    }
  }

  /** A mention inside a line does no harm, one that ends a line does. */
  lemma MarkerMentions()
    ensures Printable(Commit("ab", "use --END-COMMIT-- here"))
    ensures !Printable(Commit("ab", "a\n--END-COMMIT--\nb"))
  {
    var s := "use --END-COMMIT-- here\n";
    assert "use --END-COMMIT-- here" + "\n" == s;
    forall i | 0 <= i ensures !Occurs(s, SEPARATOR, i) {
      if Occurs(s, SEPARATOR, i) {
        SeparatorEnds(s, i);
        OccursChar(s, SEPARATOR, i, i + 1);
      }
    }
    var t := "a\n--END-COMMIT--\nb" + "\n";
    assert t[2..17] == SEPARATOR;
    assert Occurs(t, SEPARATOR, 2);
  }
}
