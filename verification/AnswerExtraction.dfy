/** Answer clean-up of benchmark/reasoning_benchmark/answer_extraction.py: the
    repair of \frac arguments and the extraction of boxed answers. */
module AnswerExtraction {
  import opened Wrappers
  import opened Text

  // ---- _fix_fracs ------------------------------------------------------------

  const FRAC := "\\frac"

  /** The repaired text after one \frac, or nothing when fewer than two characters
      follow it. */
  function FixPart(p: string): Option<string> {
    if |p| > 0 && p[0] == '{' then Some(p)
    else if |p| < 2 then None
    else if p[1] != '{' then Some("{" + [p[0]] + "}{" + [p[1]] + "}" + p[2..])
    else Some("{" + [p[0]] + "}" + [p[1]] + p[2..])
  }

  function FixParts(ps: seq<string>): (r: Option<seq<string>>)
    ensures r.Some? ==> |r.value| == |ps|
  {
    if ps == [] then Some([])
    else
      var first := FixPart(ps[0]);
      var rest := FixParts(ps[1..]);
      if first.None? || rest.None? then None else Some([first.value] + rest.value)
  }

  /** Bails out with the original text when any part cannot be repaired. */
  function FixFracs(s: string): string {
    var parts := Split(s, FRAC);
    var fixed := FixParts(parts[1..]);
    if fixed.None? then s else Join([parts[0]] + fixed.value, FRAC)
  }

  /** The loop with its accumulator. */
  method FixFracsLoop(text: string) returns (r: string)
    ensures r == FixFracs(text)
  {
    var substrs := Split(text, FRAC);
    var acc := substrs[0];
    ghost var head := substrs[0];
    ghost var done: seq<string> := [];
    var ps := substrs[1..];
    for i := 0 to |ps|
      invariant FixParts(ps).Some? <==> FixParts(ps[i..]).Some?
      invariant FixParts(ps).Some? ==> FixParts(ps).value == done + FixParts(ps[i..]).value
      invariant acc == Join([head] + done, FRAC)
    {
      assert ps[i..][1..] == ps[i + 1..];
      var fixed := FixPart(ps[i]);
      if fixed.None? {
        return text;
      }
      ghost var before := done;
      acc := acc + FRAC + fixed.value;
      done := done + [fixed.value];
      JoinAppend(head, before, fixed.value);
    }
    assert ps[|ps|..] == [] && done + [] == done;
    assert FixParts(ps) == Some(done);
    return acc;
  }

  lemma {:induction false} JoinAppend(head: string, ps: seq<string>, x: string)
    ensures Join([head] + (ps + [x]), FRAC) == Join([head] + ps, FRAC) + FRAC + x
    decreases |ps|
  {
    if ps == [] {
      assert ([head] + [x])[1..] == [x] && [head] + [] == [head];
    } else {
      JoinAppend(ps[0], ps[1..], x);
      assert ([head] + (ps + [x]))[1..] == [ps[0]] + (ps[1..] + [x]);
      assert ([head] + ps)[1..] == [ps[0]] + ps[1..];
    }
  }

  lemma FracNoBorder()
    ensures NoBorder(FRAC)
  {
    FirstCharOnce(FRAC);
  }

  /** Braces put around the first characters create no new \frac. */
  lemma BracesFree(a: char, rest: string)
    requires Free(rest, FRAC)
    ensures Free("{" + [a] + "}" + rest, FRAC)
  {
    var s := "{" + [a] + "}" + rest;
    forall i | 0 <= i ensures !Occurs(s, FRAC, i) {
      if i >= 3 {
        assert s[3..] == rest;
        OccursAfter(s, 3, FRAC, i - 3);
      } else if i + 5 <= |s| {
        assert s[i..i + 5][0] == s[i] && s[i..i + 5][1] == s[i + 1];
      }
    }
  }

  lemma FixPartFree(p: string)
    requires Free(p, FRAC) && FixPart(p).Some?
    ensures Free(FixPart(p).value, FRAC) && |FixPart(p).value| > 0 && FixPart(p).value[0] == '{'
  {
    if !(|p| > 0 && p[0] == '{') {
      FreeSuffix(p, FRAC, 2);
      FreeSuffix(p, FRAC, 1);
      if p[1] != '{' {
        BracesFree(p[1], p[2..]);
        BracesFree(p[0], "{" + [p[1]] + "}" + p[2..]);
        assert FixPart(p).value == "{" + [p[0]] + "}" + ("{" + [p[1]] + "}" + p[2..]);
      } else {
        BracesFree(p[0], p[1..]);
        assert FixPart(p).value == "{" + [p[0]] + "}" + p[1..];
      }
    }
  }

  /** Every part is free of \frac and begins with a brace. */
  ghost predicate Braced(ps: seq<string>) {
    AllFree(ps, FRAC) && forall i | 0 <= i < |ps| :: |ps[i]| > 0 && ps[i][0] == '{'
  }

  lemma {:induction false} FixPartsBraced(ps: seq<string>)
    requires AllFree(ps, FRAC) && FixParts(ps).Some?
    ensures Braced(FixParts(ps).value)
  {
    if ps != [] {
      FixPartFree(ps[0]);
      FixPartsBraced(ps[1..]);
    }
  }

  lemma {:induction false} BracedIsFixed(ps: seq<string>)
    requires Braced(ps)
    ensures FixParts(ps) == Some(ps)
  {
    if ps != [] {
      BracedIsFixed(ps[1..]);
      assert ps == [ps[0]] + ps[1..];
    }
  }

  /** What splits off a repaired text is the repaired parts. */
  lemma SplitFixed(s: string)
    requires FixParts(Split(s, FRAC)[1..]).Some?
    ensures var parts := Split(s, FRAC);
            var fixed := FixParts(parts[1..]).value;
            Braced(fixed) && Free(parts[0], FRAC) && Split(FixFracs(s), FRAC) == [parts[0]] + fixed
  {
    var parts := Split(s, FRAC);
    SplitFree(s, FRAC);
    FixPartsBraced(parts[1..]);
    FracNoBorder();
    SplitJoin([parts[0]] + FixParts(parts[1..]).value, FRAC);
  }

  /** Repairing twice is repairing once, for every text. */
  lemma FixFracsIdempotent(s: string)
    ensures FixFracs(FixFracs(s)) == FixFracs(s)
  {
    var parts := Split(s, FRAC);
    if FixParts(parts[1..]).Some? {
      SplitFixed(s);
      var fixed := FixParts(parts[1..]).value;
      BracedIsFixed(fixed);
      assert ([parts[0]] + fixed)[1..] == fixed;
    }
  }

  lemma {:induction false} JoinedBraces(head: string, ps: seq<string>, i: nat)
    requires Free(head, FRAC) && Braced(ps) && Occurs(Join([head] + ps, FRAC), FRAC, i)
    ensures var s := Join([head] + ps, FRAC); i + 5 < |s| && s[i + 5] == '{'
    decreases |ps|
  {
    FracNoBorder();
    assert ps == [] ==> [head] + ps == [head];
    if ps != [] {
      assert ([head] + ps)[1..] == ps && ps == [ps[0]] + ps[1..];
      var rest := Join(ps, FRAC);
      OccursIn(head, FRAC, rest, i);
      assert rest[0] == '{' by { assert |ps| > 1 ==> rest == ps[0] + (FRAC + Join(ps[1..], FRAC)); }
      if i != |head| {
        JoinedBraces(ps[0], ps[1..], i - |head| - 5);
      }
    }
  }

  /** Unless the repair bails out, every \frac of its result is followed by a brace. */
  lemma FracsAreBraced(s: string, i: nat)
    requires FixParts(Split(s, FRAC)[1..]).Some? && Occurs(FixFracs(s), FRAC, i)
    ensures i + 5 < |FixFracs(s)| && FixFracs(s)[i + 5] == '{'
  {
    SplitFixed(s);
    JoinedBraces(Split(s, FRAC)[0], FixParts(Split(s, FRAC)[1..]).value, i);
  }

  /** A text with its braces left out. */
  function NoBraces(s: string): string {
    if s == [] then []
    else (if s[0] == '{' || s[0] == '}' then [] else [s[0]]) + NoBraces(s[1..])
  }

  lemma {:induction false} NoBracesAppend(s: string, t: string)
    ensures NoBraces(s + t) == NoBraces(s) + NoBraces(t)
  {
    if s == [] {
      assert s + t == t;
    } else {
      assert (s + t)[0] == s[0] && (s + t)[1..] == s[1..] + t;
      NoBracesAppend(s[1..], t);
    }
  }

  lemma OneBrace(c: char)
    requires c == '{' || c == '}'
    ensures NoBraces([c]) == []
  {
  }

  /** Braces around a character add only braces. */
  lemma BracedChar(a: char, rest: string)
    ensures NoBraces("{" + [a] + "}" + rest) == NoBraces([a] + rest)
  {
    NoBracesAppend("{" + [a] + "}", rest);
    NoBracesAppend("{" + [a], "}");
    NoBracesAppend("{", [a]);
    NoBracesAppend([a], rest);
    OneBrace('{');
    OneBrace('}');
  }

  lemma FixPartText(p: string)
    requires FixPart(p).Some?
    ensures NoBraces(FixPart(p).value) == NoBraces(p)
  {
    if !(|p| > 0 && p[0] == '{') {
      var rest := p[2..];
      assert p == [p[0]] + p[1..] && p[1..] == [p[1]] + rest;
      if p[1] != '{' {
        BracedChar(p[1], rest);
        BracedChar(p[0], "{" + [p[1]] + "}" + rest);
        NoBracesAppend([p[0]], "{" + [p[1]] + "}" + rest);
        NoBracesAppend([p[0]], p[1..]);
        assert FixPart(p).value == "{" + [p[0]] + "}" + ("{" + [p[1]] + "}" + rest);
      } else {
        BracedChar(p[0], p[1..]);
        assert FixPart(p).value == "{" + [p[0]] + "}" + p[1..];
      }
    }
  }

  lemma {:induction false} FixPartsText(head: string, ps: seq<string>)
    requires FixParts(ps).Some?
    ensures NoBraces(Join([head] + FixParts(ps).value, FRAC)) == NoBraces(Join([head] + ps, FRAC))
    decreases |ps|
  {
    if ps == [] {
      assert FixParts(ps).value == ps;
    } else {
      var fs := FixParts(ps).value;
      FixPartText(ps[0]);
      FixPartsText(fs[0], ps[1..]);
      SwapHead(fs[0], ps[0], ps[1..]);
      assert fs == [fs[0]] + fs[1..] && ps == [ps[0]] + ps[1..];
      assert ([head] + fs)[1..] == fs && ([head] + ps)[1..] == ps;
      NoBracesAppend(head + FRAC, Join(fs, FRAC));
      NoBracesAppend(head + FRAC, Join(ps, FRAC));
    }
  }

  lemma SwapHead(f: string, p: string, rest: seq<string>)
    requires NoBraces(f) == NoBraces(p)
    ensures NoBraces(Join([f] + rest, FRAC)) == NoBraces(Join([p] + rest, FRAC))
  {
    if rest == [] {
      assert [f] + rest == [f] && [p] + rest == [p];
    } else {
      assert ([f] + rest)[1..] == rest && ([p] + rest)[1..] == rest;
      var tail := FRAC + Join(rest, FRAC);
      assert Join([f] + rest, FRAC) == f + tail && Join([p] + rest, FRAC) == p + tail;
      NoBracesAppend(f, tail);
      NoBracesAppend(p, tail);
    }
  }

  /** The repair changes nothing but braces, for every text. */
  lemma FixFracsKeepsText(s: string)
    ensures NoBraces(FixFracs(s)) == NoBraces(s)
  {
    var parts := Split(s, FRAC);
    JoinSplit(s, FRAC);
    if FixParts(parts[1..]).Some? {
      FixPartsText(parts[0], parts[1..]);
      assert [parts[0]] + parts[1..] == parts;
    }
  }

  // ---- extract_boxed_answers -------------------------------------------------

  const BOXED := "boxed{"

  /** Open minus closed braces. */
  function Depth(s: string): int {
    if s == [] then 0
    else Depth(s[..|s| - 1]) + (if s[|s| - 1] == '{' then 1 else if s[|s| - 1] == '}' then -1 else 0)
  }

  ghost predicate NeverNegative(s: string) {
    forall k | 0 <= k <= |s| :: Depth(s[..k]) >= 0
  }

  ghost predicate Balanced(s: string) {
    NeverNegative(s) && Depth(s) == 0
  }

  /** `s[i]` is the first closing brace without partner. */
  ghost predicate FirstUnmatched(s: string, i: nat) {
    i < |s| && s[i] == '}' && Balanced(s[..i])
  }

  /** Whether there is an unmatched closing brace, and where the first one is. */
  method ScanPiece(piece: string) returns (r: Option<nat>)
    ensures r.Some? ==> FirstUnmatched(piece, r.value)
    ensures r.None? <==> NeverNegative(piece)
  {
    var n := 0;
    for i := 0 to |piece|
      invariant n == Depth(piece[..i]) >= 0
      invariant forall k | 0 <= k <= i :: Depth(piece[..k]) >= 0
    {
      assert piece[..i + 1][..i] == piece[..i];
      if piece[i] == '{' {
        n := n + 1;
      } else if piece[i] == '}' {
        n := n - 1;
        if n < 0 {
          assert Depth(piece[..i + 1]) < 0;
          assert forall k | 0 <= k <= i :: piece[..i][..k] == piece[..k];
          return Some(i);
        }
      }
    }
    assert piece[..|piece|] == piece;
    return None;
  }

  lemma UnmatchedUnique(s: string, i: nat, j: nat)
    requires FirstUnmatched(s, i) && FirstUnmatched(s, j)
    ensures i == j
  {
    UnmatchedNegative(s, i);
    UnmatchedNegative(s, j);
    assert forall k | 0 <= k <= i :: s[..i][..k] == s[..k];
    assert forall k | 0 <= k <= j :: s[..j][..k] == s[..k];
  }

  lemma UnmatchedNegative(s: string, i: nat)
    requires FirstUnmatched(s, i)
    ensures Depth(s[..i + 1]) == -1
  {
    assert s[..i + 1][..i] == s[..i];
  }

  ghost predicate HasUnmatched(s: string) { exists i :: FirstUnmatched(s, i) }

  ghost function UnmatchedAt(s: string): (i: nat)
    requires HasUnmatched(s)
    ensures FirstUnmatched(s, i)
  {
    var i :| FirstUnmatched(s, i); i
  }

  /** The answer in a piece: the text before the first unmatched closing brace, that
      brace included when a percent sign follows. */
  ghost function Answer(piece: string): Option<string> {
    if !HasUnmatched(piece) then None
    else
      var i := UnmatchedAt(piece);
      if i + 1 < |piece| && piece[i + 1] == '%' then Some(piece[..i + 1]) else Some(piece[..i])
  }

  ghost function Answers(pieces: seq<string>): seq<string> {
    if pieces == [] then []
    else
      var n := |pieces| - 1;
      Answers(pieces[..n]) + (if Answer(pieces[n]).Some? then [Answer(pieces[n]).value] else [])
  }

  /** One answer per piece that has an unmatched closing brace, in order. */
  method ExtractBoxed(text: string) returns (answers: seq<string>)
    ensures answers == Answers(Split(text, BOXED)[1..])
  {
    var pieces := Split(text, BOXED)[1..];
    answers := [];
    for k := 0 to |pieces|
      invariant answers == Answers(pieces[..k])
    {
      assert pieces[..k + 1][..k] == pieces[..k];
      var piece := pieces[k];
      var r := ScanPiece(piece);
      if r.Some? {
        var i := r.value;
        UnmatchedUnique(piece, i, UnmatchedAt(piece));
        if i + 1 < |piece| && piece[i + 1] == '%' {
          answers := answers + [piece[..i + 1]];
        } else {
          answers := answers + [piece[..i]];
        }
      } else {
        NoUnmatched(piece);
      }
    }
    assert pieces[..|pieces|] == pieces;
  }

  lemma NoUnmatched(s: string)
    requires NeverNegative(s)
    ensures !HasUnmatched(s)
  {
    if i :| FirstUnmatched(s, i) {
      UnmatchedNegative(s, i);
    }
  }

  /** A piece yields an answer exactly when some prefix closes more than it opens. */
  lemma {:induction false} AnswerExact(piece: string)
    ensures Answer(piece).Some? <==> !NeverNegative(piece)
  {
    if NeverNegative(piece) {
      NoUnmatched(piece);
    } else {
      var k :| 0 <= k <= |piece| && Depth(piece[..k]) < 0;
      FindUnmatched(piece, k);
    }
  }

  lemma {:induction false} FindUnmatched(s: string, k: nat)
    requires k <= |s| && Depth(s[..k]) < 0
    ensures HasUnmatched(s)
    decreases k
  {
    if j :| 0 <= j < k && Depth(s[..j]) < 0 {
      FindUnmatched(s, j);
    } else {
      var p := s[..k - 1];
      assert s[..k][..k - 1] == p;
      forall j | 0 <= j <= |p| ensures Depth(p[..j]) >= 0 { assert p[..j] == s[..j]; }
      assert p[..|p|] == p;
      assert FirstUnmatched(s, k - 1);
    }
  }

  lemma BoxedNoBorder()
    ensures NoBorder(BOXED)
  {
    FirstCharOnce(BOXED);
  }

  /** The piece after the first marker, up to the next one. */
  lemma FirstPiece(prefix: string, rest: string)
    requires Free(prefix, BOXED)
    ensures Split(prefix + BOXED + rest, BOXED) == [prefix] + Split(rest, BOXED)
  {
    BoxedNoBorder();
    SplitFirst(prefix, BOXED, rest);
  }

  /** A marker found in `content + "}" + rest` lies in `rest`. */
  lemma MarkerInRest(content: string, rest: string, i: nat)
    requires Free(content, BOXED) && Occurs(content + "}" + rest, BOXED, i)
    ensures i > |content|
  {
    var s := content + "}" + rest;
    assert s[..|content|] == content;
    OccursBefore(s, |content|, BOXED, i);
    OccursChar(s, BOXED, i, |content|);
    assert '}' !in BOXED;
  }

  lemma PieceShape(content: string, rest: string)
    requires Free(content, BOXED)
    ensures var piece := Split(content + "}" + rest, BOXED)[0];
            && |piece| > |content| && piece[..|content|] == content && piece[|content|] == '}'
            && (|piece| > |content| + 1 ==> rest != [] && piece[|content| + 1] == rest[0])
  {
    var s := content + "}" + rest;
    var r := First(s, BOXED);
    if r.Some? { MarkerInRest(content, rest, r.value); }
    var piece := Split(s, BOXED)[0];
    assert piece == if r.Some? then s[..r.value] else s;
    assert piece[..|content|] == s[..|content|] == content;
  }

  lemma {:induction false} FirstAnswer(pieces: seq<string>)
    requires pieces != [] && Answer(pieces[0]).Some?
    ensures |Answers(pieces)| > 0 && Answers(pieces)[0] == Answer(pieces[0]).value
  {
    var n := |pieces| - 1;
    if n > 0 { FirstAnswer(pieces[..n]); }
    else { assert pieces[..0] == []; }
  }

  /** Round trip: a balanced text without marker, boxed after a prefix without
      marker and not followed by a percent sign, comes back as the first answer. */
  lemma BoxedRoundTrip(prefix: string, content: string, rest: string)
    requires Free(prefix, BOXED) && Free(content, BOXED) && Balanced(content)
    requires rest == [] || rest[0] != '%'
    ensures var answers := Answers(Split(prefix + BOXED + (content + "}" + rest), BOXED)[1..]);
            |answers| > 0 && answers[0] == content
  {
    var tail := content + "}" + rest;
    FirstPiece(prefix, tail);
    PieceShape(content, rest);
    var pieces := Split(tail, BOXED);
    var piece := pieces[0];
    assert FirstUnmatched(piece, |content|);
    UnmatchedUnique(piece, |content|, UnmatchedAt(piece));
    FirstAnswer(pieces);
    assert ([prefix] + pieces)[1..] == pieces;
  }
}
