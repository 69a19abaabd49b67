/** The pull request number docs/release_lookup/generate_index.py reads from a message,
    and when the end marker left on a message changes it. */
module PullRequests {
  import opened Wrappers
  import opened Text
  import opened GitLog

  predicate IsDigit(c: char) { '0' <= c <= '9' }

  /** How many digits end `s`. */
  function DigitsAtEnd(s: string): (n: nat)
    ensures n <= |s|
  {
    if s != [] && IsDigit(s[|s| - 1]) then 1 + DigitsAtEnd(s[..|s| - 1]) else 0
  }

  /** The number in a line that ends in "(#number)". */
  function NumberAtEnd(line: string): Option<string> {
    if line == [] || line[|line| - 1] != ')' then None
    else
      var n := |line| - 1;
      var d := DigitsAtEnd(line[..n]);
      if d > 0 && n - d >= 2 && line[n - d - 2..n - d] == "(#" then Some(line[n - d..n]) else None
  }

  const MERGE := "Merge pull request #"

  function DigitsAtStart(s: string): (n: nat)
    ensures n <= |s|
  {
    if s != [] && IsDigit(s[0]) then 1 + DigitsAtStart(s[1..]) else 0
  }

  /** The number after the first "Merge pull request #" that a digit follows. */
  function NumberOfMerge(s: string): Option<string> {
    if |s| <= |MERGE| then None
    else if s[..|MERGE|] == MERGE && IsDigit(s[|MERGE|]) then
      Some(s[|MERGE|..|MERGE| + DigitsAtStart(s[|MERGE|..])])
    else NumberOfMerge(s[1..])
  }

  /** The text before the first newline. */
  function FirstLine(s: string): string {
    if s == [] || s[0] == '\n' then [] else [s[0]] + FirstLine(s[1..])
  }

  function ExtractPr(message: string): Option<string> {
    var n := NumberAtEnd(FirstLine(Strip(message)));
    if n.Some? then n else NumberOfMerge(message)
  }

  /** The visible message is one line, and something blank other than a newline
      follows it. */
  predicate TrailingBlank(body: string) {
    var visible := Strip(body);
    var left := StripLeft(body);
    visible != [] && '\n' !in visible && |left| > |visible| && left[|visible|] != '\n'
  }

  /** What follows the visible message when the end marker is left on it. */
  ghost predicate MarkerTail(x: string) {
    |x| >= 2 && IsSpace(x[0]) && (x[0] == ' ' ==> IsSpace(x[1])) && 'e' !in x
  }

  lemma {:induction false} DigitsAppend(s: string, x: string)
    requires x != [] && !IsDigit(x[0])
    ensures DigitsAtStart(s + x) == DigitsAtStart(s)
  {
    if s == [] {
      assert s + x == x;
    } else {
      assert (s + x)[0] == s[0] && (s + x)[1..] == s[1..] + x;
      DigitsAppend(s[1..], x);
    }
  }

  lemma {:induction false} NoMerge(s: string)
    requires 'e' !in s
    ensures NumberOfMerge(s) == None
  {
    if |s| > |MERGE| {
      assert s[..|MERGE|][1] == s[1] && MERGE[1] == 'e';
      NoMerge(s[1..]);
    }
  }

  /** A merge line does not reach into the tail. */
  lemma MergeStaysInside(m: string, x: string)
    requires MarkerTail(x) && |m + x| > |MERGE|
    requires (m + x)[..|MERGE|] == MERGE && IsDigit((m + x)[|MERGE|])
    ensures |m| > |MERGE|
  {
    var s := m + x;
    var n := |m|;
    assert forall k | 0 <= k < |MERGE| :: s[k] == s[..|MERGE|][k];
    assert n + 1 < |s| && s[n] == x[0] && s[n + 1] == x[1];
  }

  lemma {:induction false} MergeAppend(m: string, x: string)
    requires MarkerTail(x)
    ensures NumberOfMerge(m + x) == NumberOfMerge(m)
  {
    if m == [] {
      assert m + x == x;
      NoMerge(x);
    } else {
      var s := m + x;
      MergeAppend(m[1..], x);
      assert s[1..] == m[1..] + x;
      if |s| > |MERGE| && s[..|MERGE|] == MERGE && IsDigit(s[|MERGE|]) { MergeStaysInside(m, x); }
      if |m| > |MERGE| {
        LongMerge(m, x);
      } else {
        ShortMerge(m[1..]);
      }
    }
  }

  /** A message longer than the merge text begins with it, or not, with any tail. */
  lemma LongMerge(m: string, x: string)
    requires MarkerTail(x) && |m| > |MERGE|
    ensures var s := m + x;
            && s[..|MERGE|] == m[..|MERGE|] && s[|MERGE|] == m[|MERGE|]
            && var d := DigitsAtStart(m[|MERGE|..]);
            DigitsAtStart(s[|MERGE|..]) == d && s[|MERGE|..|MERGE| + d] == m[|MERGE|..|MERGE| + d]
  {
    var n := |MERGE|;
    hide MERGE;
    TakeAppend(m, x, n);
    DigitsAppend(m[n..], x);
    TakeAppend(m[n..], x, DigitsAtStart(m[n..]));
  }

  lemma TakeAppend(m: string, x: string, n: nat)
    requires n <= |m|
    ensures (m + x)[..n] == m[..n] && (m + x)[n..] == m[n..] + x
  {
  }

  lemma ShortMerge(m: string)
    requires |m| <= |MERGE|
    ensures NumberOfMerge(m) == None
  {
  }

  lemma HeadAndTail(m: string, x: string)
    requires m != []
    ensures (m + x)[0] == m[0] && (m + x)[1..] == m[1..] + x && m == [m[0]] + m[1..]
    ensures '\n' in m <==> m[0] == '\n' || '\n' in m[1..]
  {
  }

  lemma Regrouped(c: char, m: string, x: string)
    ensures [c] + (m + x) == [c] + m + x
  {
  }

  lemma {:induction false} FirstLineAppend(m: string, x: string)
    ensures '\n' in m ==> FirstLine(m + x) == FirstLine(m)
    ensures '\n' !in m ==> FirstLine(m + x) == m + FirstLine(x) && FirstLine(m) == m
  {
    if m == [] {
      assert m + x == x && m + FirstLine(x) == FirstLine(x);
    } else {
      HeadAndTail(m, x);
      FirstLineAppend(m[1..], x);
      Regrouped(m[0], m[1..], FirstLine(x));
    }
  }

  lemma {:induction false} FirstLineBlank(w: string, x: string)
    requires Blank(w)
    ensures Blank(FirstLine(w + "\n" + x))
    ensures FirstLine(w + "\n" + x) == [] <==> (w == [] || w[0] == '\n')
  {
    var s := w + "\n" + x;
    if w != [] {
      assert s[0] == w[0] && s[1..] == w[1..] + "\n" + x;
      FirstLineBlank(w[1..], x);
    }
  }

  lemma StripStripped(s: string)
    requires s != [] && !IsSpace(s[0]) && !IsSpace(s[|s| - 1])
    ensures Strip(s) == s
  {
  }

  ghost predicate PlainMark(k: string) {
    k != [] && !IsSpace(k[0]) && !IsSpace(k[|k| - 1]) && 'e' !in k
  }

  lemma MarkerIsPlain()
    ensures PlainMark(MARKER) && '\n' !in MARKER && MARKER[|MARKER| - 1] != ')'
  {
  }

  lemma BlankForms(body: string, k: string)
    requires StripLeft(body) == [] && PlainMark(k)
    ensures Strip(body + "\n") == "" && Strip(body + "\n" + k) == k
  {
    StripLeftAppend(body, "\n");
    StripLeftAppend(body + "\n", k);
    assert "\n"[1..] == "";
    assert StripLeft("\n") == "";
  }

  lemma VisiblePart(left: string)
    requires left != [] && !IsSpace(left[0])
    ensures var m := StripRight(left);
            m != [] && m <= left && Blank(left[|m|..]) && !IsSpace(m[0]) && !IsSpace(m[|m| - 1])
  {
    hide StripRight;
    assert left[0..] == left;
  }

  /** What stripping leaves of a text that says something, with and without a mark
      on the line behind it. */
  lemma VisibleForms(body: string, k: string)
    requires StripLeft(body) != [] && PlainMark(k)
    ensures var m := Strip(body);
            var left := StripLeft(body);
            && m != [] && m <= left && Blank(left[|m|..]) && !IsSpace(m[0]) && !IsSpace(m[|m| - 1])
            && Strip(body + "\n") == m && Strip(body + "\n" + k) == m + (left[|m|..] + "\n" + k)
  {
    hide StripLeft, StripRight, PlainMark, Blank;
    var left := StripLeft(body);
    VisiblePart(left);
    LeftForms(body, k);
    BareTail(left);
    SolidTail(left, |StripRight(left)|, k);
  }

  lemma LeftForms(body: string, k: string)
    requires StripLeft(body) != []
    ensures StripLeft(body + "\n") == StripLeft(body) + "\n"
    ensures StripLeft(body + "\n" + k) == StripLeft(body) + "\n" + k
  {
    hide StripLeft;
    StripLeftAppend(body, "\n");
    StripLeftAppend(body + "\n", k);
  }

  lemma BareTail(left: string)
    ensures StripRight(left + "\n") == StripRight(left)
  {
    NewlineIsBlank();
    StripRightBlank(left, "\n");
  }

  lemma NewlineIsBlank()
    ensures Blank("\n")
  {
  }

  lemma SolidTail(left: string, n: nat, k: string)
    requires PlainMark(k) && n <= |left|
    ensures StripRight(left + "\n" + k) == left[..n] + (left[n..] + "\n" + k)
  {
    hide StripRight;
    StripRightSolid(left + "\n" + k);
    Regroup(left, n, "\n", k);
  }

  lemma Regroup(s: string, n: nat, t: string, k: string)
    requires n <= |s|
    ensures s + t + k == s[..n] + (s[n..] + t + k)
  {
  }

  lemma TailOfMark(w: string, k: string)
    requires Blank(w) && PlainMark(k)
    ensures var x := w + "\n" + k;
            MarkerTail(x) && !IsSpace(x[|x| - 1])
  {
  }

  /** The two forms of the message of a commit that says something. */
  lemma MessageForms(c: Commit)
    requires StripLeft(c.body) != []
    ensures var m := Strip(c.body);
            var left := StripLeft(c.body);
            var x := left[|m|..] + "\n" + MARKER;
            && m != [] && m <= left && Blank(left[|m|..]) && !IsSpace(m[0]) && !IsSpace(m[|m| - 1])
            && Message(c, false) == m && Message(c, true) == m + x && MarkerTail(x) && !IsSpace(x[|x| - 1])
  {
    hide Strip, StripLeft, MarkerTail;
    MarkerIsPlain();
    VisibleForms(c.body, MARKER);
    TailOfMark(StripLeft(c.body)[|Strip(c.body)|..], MARKER);
    assert c.body + "\n" + "" == c.body + "\n";
  }

  /** The marker that stays on the last message of a chunk changes the pull request
      read from it exactly when the message is one line with blanks behind it, ends
      in "(#number)", and does not name the same merge. */
  lemma PrExact(c: Commit)
    ensures ExtractPr(Message(c, true)) == ExtractPr(Message(c, false)) <==>
            (TrailingBlank(c.body) ==>
               var n := NumberAtEnd(Strip(c.body)); n.None? || n == NumberOfMerge(Strip(c.body)))
  {
    hide NumberAtEnd, NumberOfMerge, Strip, Message, MarkerTail, StripLeft;
    if StripLeft(c.body) == [] {
      PrOfBlank(c);
    } else {
      PrOfVisible(c);
    }
  }

  lemma PrOfVisible(c: Commit)
    requires StripLeft(c.body) != []
    ensures var m := Strip(c.body);
            && ExtractPr(Message(c, false)) == (if NumberAtEnd(FirstLine(m)).Some? then NumberAtEnd(FirstLine(m)) else NumberOfMerge(m))
            && ExtractPr(Message(c, true)) ==
               (if !TrailingBlank(c.body) && NumberAtEnd(FirstLine(m)).Some? then NumberAtEnd(FirstLine(m)) else NumberOfMerge(m))
            && (TrailingBlank(c.body) ==> FirstLine(m) == m)
  {
    hide NumberOfMerge, Message, NumberAtEnd, Strip, StripLeft, FirstLine;
    MessageForms(c);
    var m := Strip(c.body);
    var left := StripLeft(c.body);
    var w := left[|m|..];
    var x := w + "\n" + MARKER;
    StripStripped(m);
    StripStripped(m + x);
    FirstLineAppend(m, x);
    FirstLineBlank(w, MARKER);
    MergeAppend(m, x);
    BlankEnd(m, FirstLine(x));
    assert w != [] ==> w[0] == left[|m|];
    assert m + [] == m;
  }

  /** A line that ends in a blank does not end in a number. */
  lemma BlankEnd(m: string, u: string)
    requires Blank(u)
    ensures u != [] ==> NumberAtEnd(m + u) == None
  {
    if u != [] { assert (m + u)[|m + u| - 1] == u[|u| - 1]; }
  }

  lemma BlankMessage(c: Commit)
    requires StripLeft(c.body) == []
    ensures Message(c, true) == MARKER && Message(c, false) == ""
  {
    hide Strip, StripLeft;
    MarkerIsPlain();
    BlankForms(c.body, MARKER);
    assert c.body + "\n" + "" == c.body + "\n";
  }

  /** A mark on one line that does not end in a parenthesis names no pull request. */
  lemma MarkHasNoNumber(k: string)
    requires PlainMark(k) && '\n' !in k && k[|k| - 1] != ')'
    ensures ExtractPr(k) == None
  {
    hide Strip, FirstLine, NumberOfMerge;
    StripStripped(k);
    FirstLineAppend(k, "");
    NoMerge(k);
  }

  lemma EmptyHasNoNumber()
    ensures ExtractPr("") == None
  {
    ShortMerge("");
  }

  lemma PrOfBlank(c: Commit)
    requires StripLeft(c.body) == []
    ensures ExtractPr(Message(c, true)) == ExtractPr(Message(c, false)) == None && !TrailingBlank(c.body)
  {
    hide Message, ExtractPr;
    BlankMessage(c);
    MarkerIsPlain();
    MarkHasNoNumber(MARKER);
    EmptyHasNoNumber();
  }

  /** One line, a pull request number, and a blank behind it: read at the end of a
      chunk the number is lost. */
  lemma LostPr()
    ensures var c := Commit("ab", "x(#1) ");
            ExtractPr(Message(c, false)) == Some("1") && ExtractPr(Message(c, true)) == None
  {
    var m := "x(#1)";
    StripLostPr(m);
    NumberInLostPr(m);
    hide NumberAtEnd, NumberOfMerge, ExtractPr, Message, Strip;
    FirstLineAppend(m, "");
    assert m + "" == m;
    hide FirstLine;
    ShortMerge(m);
    PrOfVisible(Commit("ab", "x(#1) "));
  }

  lemma StripLostPr(m: string)
    requires m == "x(#1)"
    ensures Strip("x(#1) ") == m && StripLeft("x(#1) ") == "x(#1) "
    ensures TrailingBlank("x(#1) ")
  {
    hide StripRight;
    assert "x(#1) " == m + " ";
    StripRightBlank(m, " ");
    StripRightSolid(m);
  }

  lemma NumberInLostPr(m: string)
    requires m == "x(#1)"
    ensures NumberAtEnd(m) == Some("1")
  {
    assert m[..4][..3] == m[..3] && DigitsAtEnd(m[..3]) == 0;
    assert DigitsAtEnd(m[..4]) == 1;
    assert m[1..3] == "(#" && m[3..4] == "1";
  }
}
