/** What the pull request number read from a message means, in terms of the message
    alone. */
module PullRequestReading {
  import opened Wrappers
  import opened Text
  import opened PullRequests

  ghost predicate AllDigits(d: string) {
    d != [] && forall i | 0 <= i < |d| :: IsDigit(d[i])
  }

  // ---- "(#number)" at the end of a line --------------------------------------

  ghost predicate EndsInNumber(line: string, d: string) {
    AllDigits(d) && exists pre :: line == pre + "(#" + d + ")"
  }

  lemma {:induction false} DigitsAtEndMeans(s: string)
    ensures var n := DigitsAtEnd(s);
            && (forall i | |s| - n <= i < |s| :: IsDigit(s[i]))
            && (n < |s| ==> !IsDigit(s[|s| - n - 1]))
  {
    if s != [] && IsDigit(s[|s| - 1]) { DigitsAtEndMeans(s[..|s| - 1]); }
  }

  lemma DigitsAtEndOf(x: string, d: string)
    requires x != [] && !IsDigit(x[|x| - 1]) && AllDigits(d)
    ensures DigitsAtEnd(x + d) == |d|
  {
    var s := x + d;
    DigitsAtEndMeans(s);
    var n := DigitsAtEnd(s);
    assert s[|x| - 1] == x[|x| - 1];
    assert forall i | |x| <= i < |s| :: s[i] == d[i - |x|];
  }

  lemma ReadAtEnd(line: string, d: string)
    requires NumberAtEnd(line) == Some(d)
    ensures EndsInNumber(line, d)
  {
    hide DigitsAtEnd;
    var n := |line| - 1;
    var k := DigitsAtEnd(line[..n]);
    DigitsAtEndMeans(line[..n]);
    forall i | 0 <= i < |d| ensures IsDigit(d[i]) { assert d[i] == line[..n][n - k + i]; }
    Reassembled(line, n, k);
    assert line == line[..n - k - 2] + "(#" + d + ")";
  }

  lemma EndIsRead(pre: string, d: string)
    requires AllDigits(d)
    ensures NumberAtEnd(pre + "(#" + d + ")") == Some(d)
  {
    hide DigitsAtEnd, AllDigits;
    var line := pre + "(#" + d + ")";
    var x := pre + "(#";
    var n := |line| - 1;
    assert line[..n] == x + d;
    DigitsAtEndOf(x, d);
    assert |d| > 0 by { DigitsAreSome(d); }
    assert line[n - |d| - 2..n - |d|] == "(#" && line[n - |d|..n] == d;
  }

  lemma DigitsAreSome(d: string)
    requires AllDigits(d)
    ensures |d| > 0
  {
  }

  /** The number at the end of a line is read whole, exactly when there is one. */
  lemma NumberAtEndExact(line: string, d: string)
    ensures NumberAtEnd(line) == Some(d) <==> EndsInNumber(line, d)
  {
    hide NumberAtEnd, AllDigits;
    if NumberAtEnd(line) == Some(d) { ReadAtEnd(line, d); }
    if EndsInNumber(line, d) {
      var pre :| line == pre + "(#" + d + ")";
      EndIsRead(pre, d);
    }
  }

  lemma Reassembled(line: string, n: nat, k: nat)
    requires |line| == n + 1 && n - k >= 2
    ensures line == line[..n - k - 2] + line[n - k - 2..n - k] + line[n - k..n] + [line[n]]
  {
  }

  // ---- "Merge pull request #number" ------------------------------------------

  ghost predicate MergeAt(s: string, i: nat) {
    i + |MERGE| < |s| && s[i..i + |MERGE|] == MERGE && IsDigit(s[i + |MERGE|])
  }

  /** `d` is the whole run of digits at place `k`. */
  ghost predicate RunOfDigits(s: string, k: nat, d: string) {
    && AllDigits(d) && k + |d| <= |s| && s[k..k + |d|] == d
    && (k + |d| < |s| ==> !IsDigit(s[k + |d|]))
  }

  ghost predicate FirstMerge(s: string, i: nat) {
    MergeAt(s, i) && forall j: nat | j < i :: !MergeAt(s, j)
  }

  /** `d` follows the first merge text that a digit follows. */
  ghost predicate MergesNumber(s: string, d: string) {
    exists i: nat :: FirstMerge(s, i) && RunOfDigits(s, i + |MERGE|, d)
  }

  lemma {:induction false} DigitsAtStartMeans(s: string)
    ensures var n := DigitsAtStart(s);
            && (forall i | 0 <= i < n :: IsDigit(s[i]))
            && (n < |s| ==> !IsDigit(s[n]))
  {
    if s != [] && IsDigit(s[0]) {
      DigitsAtStartMeans(s[1..]);
      var n := DigitsAtStart(s);
      forall i | 0 <= i < n ensures IsDigit(s[i]) { if i > 0 { assert s[i] == s[1..][i - 1]; } }
    }
  }

  lemma RunExact(s: string, k: nat, d: string)
    requires k < |s| && IsDigit(s[k])
    ensures RunOfDigits(s, k, d) <==> d == s[k..k + DigitsAtStart(s[k..])]
  {
    var t := s[k..];
    var n := DigitsAtStart(t);
    DigitsAtStartMeans(t);
    assert forall i | 0 <= i < |t| :: t[i] == s[k + i];
    if RunOfDigits(s, k, d) {
      assert forall i | 0 <= i < |d| :: t[i] == s[k..k + |d|][i];
      assert |d| == n;
    }
    if d == s[k..k + n] {
      assert forall i | 0 <= i < n :: d[i] == t[i];
    }
  }

  lemma MergeShift(s: string, i: nat)
    requires s != []
    ensures MergeAt(s[1..], i) <==> MergeAt(s, i + 1)
  {
    var m := |MERGE|;
    hide MERGE;
    if i + 1 + m < |s| { assert s[1..][i..i + m] == s[i + 1..i + 1 + m]; }
  }

  lemma RunShift(s: string, k: nat, d: string)
    requires s != []
    ensures RunOfDigits(s[1..], k, d) <==> RunOfDigits(s, k + 1, d)
  {
    if k + 1 + |d| <= |s| { assert s[1..][k..k + |d|] == s[k + 1..k + 1 + |d|]; }
  }

  lemma FirstMergeShift(s: string, i: nat)
    requires s != [] && !MergeAt(s, 0)
    ensures FirstMerge(s[1..], i) <==> FirstMerge(s, i + 1)
  {
    hide MergeAt;
    forall j: nat ensures MergeAt(s[1..], j) <==> MergeAt(s, j + 1) { MergeShift(s, j); }
    if FirstMerge(s[1..], i) {
      forall j: nat | j < i + 1 ensures !MergeAt(s, j) { if j > 0 { assert !MergeAt(s[1..], j - 1); } }
    }
  }

  lemma MergesShift(s: string, d: string)
    requires s != [] && !MergeAt(s, 0)
    ensures MergesNumber(s[1..], d) <==> MergesNumber(s, d)
  {
    var m := |MERGE|;
    hide FirstMerge, RunOfDigits, MergeAt, MERGE;
    if i: nat :| FirstMerge(s[1..], i) && RunOfDigits(s[1..], i + m, d) {
      FirstMergeShift(s, i);
      RunShift(s, i + m, d);
    }
    if i: nat :| FirstMerge(s, i) && RunOfDigits(s, i + m, d) {
      FirstIsMerge(s, i);
      FirstMergeShift(s, i - 1);
      RunShift(s, i - 1 + m, d);
    }
  }

  lemma FirstIsMerge(s: string, i: nat)
    requires FirstMerge(s, i)
    ensures MergeAt(s, i)
  {
  }

  /** The number of a merge is the whole run of digits behind the leftmost merge text that
      a digit follows. */
  lemma {:induction false} NumberOfMergeExact(s: string, d: string)
    ensures NumberOfMerge(s) == Some(d) <==> MergesNumber(s, d)
  {
    if |s| <= |MERGE| {
      assert forall i: nat :: !MergeAt(s, i);
    } else if s[..|MERGE|] == MERGE && IsDigit(s[|MERGE|]) {
      assert s[0..|MERGE|] == s[..|MERGE|];
      assert FirstMerge(s, 0);
      RunExact(s, |MERGE|, d);
      assert MergeAt(s, 0);
      forall i: nat | FirstMerge(s, i) ensures i == 0 {}
    } else {
      assert s[0..|MERGE|] == s[..|MERGE|];
      NumberOfMergeExact(s[1..], d);
      MergesShift(s, d);
    }
  }

  // ---- The message -----------------------------------------------------------

  /** `line` is the first line of `s`. */
  ghost predicate FirstLineIs(s: string, line: string) {
    '\n' !in line && (s == line || exists rest :: s == line + "\n" + rest)
  }

  lemma {:induction false} FirstLineMeans(s: string)
    ensures FirstLineIs(s, FirstLine(s))
  {
    if s != [] && s[0] != '\n' {
      FirstLineMeans(s[1..]);
      var line := FirstLine(s[1..]);
      if s[1..] == line {
        assert s == [s[0]] + line;
      } else {
        var rest :| s[1..] == line + "\n" + rest;
        assert s == [s[0]] + line + "\n" + rest;
      }
    } else if s != [] {
      assert s == [] + "\n" + s[1..];
    }
  }

  lemma FirstLineExact(s: string, line: string)
    ensures FirstLine(s) == line <==> FirstLineIs(s, line)
  {
    FirstLineMeans(s);
    if FirstLineIs(s, line) {
      if s == line {
        FirstLineAppend(line, "");
        assert line + "" == line;
      } else {
        var rest :| s == line + "\n" + rest;
        FirstLineAppend(line, "\n" + rest);
        assert line + ("\n" + rest) == s && ("\n" + rest)[0] == '\n';
        assert line + [] == line;
      }
    }
  }

  /** The message names pull request `d`: its first line ends in "(#d)", or ends in no
      such number and the message merges `d`. */
  ghost predicate NamesPr(message: string, d: string) {
    exists line :: FirstLineIs(Strip(message), line) &&
      (EndsInNumber(line, d) || ((forall e :: !EndsInNumber(line, e)) && MergesNumber(message, d)))
  }

  /** The number read from a message is the one it names. */
  lemma ExtractPrExact(message: string, d: string)
    ensures ExtractPr(message) == Some(d) <==> NamesPr(message, d)
  {
    hide Strip, FirstLine, NumberAtEnd, NumberOfMerge, FirstLineIs, EndsInNumber, MergesNumber;
    var s := Strip(message);
    var first := FirstLine(s);
    FirstLineExact(s, first);
    forall line | FirstLineIs(s, line) ensures line == first { FirstLineExact(s, line); }
    forall e ensures NumberAtEnd(first) == Some(e) <==> EndsInNumber(first, e) { NumberAtEndExact(first, e); }
    NumberOfMergeExact(message, d);
  }

  /** Whatever stands before it and in the lines after it, a number put at the end of the
      first line of a message is the number read. */
  lemma TitleRoundTrip(message: string, pre: string, d: string)
    requires AllDigits(d) && '\n' !in pre && FirstLineIs(Strip(message), pre + "(#" + d + ")")
    ensures ExtractPr(message) == Some(d)
  {
    hide Strip, FirstLineIs, ExtractPr;
    assert EndsInNumber(pre + "(#" + d + ")", d);
    ExtractPrExact(message, d);
  }

  /** A number of several digits in the title, and one of a merge. */
  lemma ReadingExamples()
    ensures ExtractPr("Fix cache (#123)") == Some("123")
    ensures NumberOfMerge("Merge pull request #42") == Some("42")
  {
    TitleExample("Fix cache (#123)");
    MergeExample("Merge pull request #42");
  }

  lemma TitleExample(m: string)
    requires m == "Fix cache (#123)"
    ensures ExtractPr(m) == Some("123")
  {
    StripStripped(m);
    assert m == "Fix cache " + "(#" + "123" + ")";
    assert AllDigits("123") && FirstLineIs(m, m);
    hide ExtractPr, Strip, FirstLineIs, AllDigits;
    TitleRoundTrip(m, "Fix cache ", "123");
  }

  /** The number behind the merge text a message begins with is the number of the merge. */
  lemma MergeRoundTrip(d: string, rest: string)
    requires AllDigits(d) && (rest != [] ==> !IsDigit(rest[0]))
    ensures NumberOfMerge(MERGE + d + rest) == Some(d)
  {
    var s := MERGE + d + rest;
    var n := |MERGE|;
    assert n + |d| <= |s| && s[0..n] == MERGE && s[n] == d[0] && s[n..n + |d|] == d;
    assert n + |d| < |s| ==> s[n + |d|] == rest[0];
    hide MERGE, NumberOfMerge;
    assert MergeAt(s, 0) && FirstMerge(s, 0) && RunOfDigits(s, n, d);
    NumberOfMergeExact(s, d);
  }

  lemma MergeExample(m: string)
    requires m == "Merge pull request #42"
    ensures NumberOfMerge(m) == Some("42")
  {
    hide NumberOfMerge;
    assert m == MERGE + "42" + "";
    MergeRoundTrip("42", "");
  }
}
