/** What the repair of \frac gives: the arguments LaTeX reads after it stay the same, and
    each gets braces of its own. */
module FracArguments {
  import opened Wrappers
  import opened Text
  import opened AnswerExtraction

  /** An argument and the text behind it. */
  datatype Taken = Taken(arg: string, rest: string)

  datatype Args = Args(first: string, second: string, rest: string)

  /** The argument a text begins with: a single character, or the group up to the brace
      that closes it. A closing brace begins none. */
  ghost function Argument(s: string): Option<Taken> {
    if s == [] || s[0] == '}' then None
    else if s[0] != '{' then Some(Taken([s[0]], s[1..]))
    else if HasUnmatched(s[1..]) then
      var i := UnmatchedAt(s[1..]);
      Some(Taken(s[1..][..i], s[1..][i + 1..]))
    else None
  }

  ghost function TwoArguments(s: string): Option<Args> {
    match Argument(s)
    case None => None
    case Some(Taken(a, r)) =>
      match Argument(r)
      case None => None
      case Some(Taken(b, t)) => Some(Args(a, b, t))
  }

  /** A balanced text in braces is read as one argument. */
  lemma GroupArgument(a: string, rest: string)
    requires Balanced(a)
    ensures Argument("{" + a + "}" + rest) == Some(Taken(a, rest))
  {
    hide Depth;
    var s := "{" + a + "}" + rest;
    var t := a + "}" + rest;
    assert s[1..] == t && t[..|a|] == a && t[|a| + 1..] == rest;
    assert FirstUnmatched(t, |a|);
    UnmatchedUnique(t, |a|, UnmatchedAt(t));
  }

  /** A group that is read stands in its braces. */
  lemma GroupText(s: string)
    requires s != [] && s[0] == '{' && Argument(s).Some?
    ensures s == "{" + Argument(s).value.arg + "}" + Argument(s).value.rest
  {
    hide Depth, Balanced;
    var t := s[1..];
    var i := UnmatchedAt(t);
    assert t == t[..i] + [t[i]] + t[i + 1..];
    assert s == [s[0]] + t;
  }

  lemma ShortBalanced(c: char)
    requires c != '{' && c != '}'
    ensures Balanced([c]) && Balanced("")
  {
    assert [c][..0] == [] && [c][..1] == [c];
  }

  /** A part that begins without brace: its first character in braces, then the second in
      braces unless it opens a group. */
  lemma PartText(p: string)
    requires FixPart(p).Some? && !(|p| > 0 && p[0] == '{')
    ensures |p| >= 2
    ensures FixPart(p).value ==
            "{" + [p[0]] + "}" + (if p[1] == '{' then p[1..] else "{" + [p[1]] + "}" + p[2..])
  {
    assert p[1..] == [p[1]] + p[2..];
  }

  /** Two plain characters become two arguments. */
  lemma PlainPart(a: char, b: char, rest: string)
    requires a != '{' && a != '}' && b != '{' && b != '}'
    ensures var f := "{" + [a] + "}" + ("{" + [b] + "}" + rest);
            TwoArguments([a] + ([b] + rest)) == TwoArguments(f) == Some(Args([a], [b], rest))
  {
    hide Balanced, HasUnmatched, UnmatchedAt;
    ShortBalanced(a);
    ShortBalanced(b);
    GroupArgument([a], "{" + [b] + "}" + rest);
    GroupArgument([b], rest);
    var p := [a] + ([b] + rest);
    assert p[1..] == [b] + rest && ([b] + rest)[1..] == rest;
  }

  /** A character before a group becomes an argument, and the group stays one. */
  lemma GroupPart(a: char, tail: string)
    requires a != '{' && a != '}'
    ensures Argument("{" + [a] + "}" + tail) == Argument([a] + tail) == Some(Taken([a], tail))
    ensures TwoArguments("{" + [a] + "}" + tail) == TwoArguments([a] + tail)
  {
    hide Balanced, HasUnmatched, UnmatchedAt;
    ShortBalanced(a);
    GroupArgument([a], tail);
    assert ([a] + tail)[1..] == tail;
  }

  /** A closing brace in first place is no argument, before or after. */
  lemma ClosedPart(tail: string)
    ensures TwoArguments("}" + tail) == None && TwoArguments("{" + "}" + "}" + tail) == None
  {
    hide Balanced, HasUnmatched, UnmatchedAt;
    ShortBalanced('x');
    GroupArgument("", "}" + tail);
    assert "{" + "" + "}" + ("}" + tail) == "{" + "}" + "}" + tail;
    assert ("}" + tail)[0] == '}';
  }

  /** A closing brace in second place is no argument, but becomes an empty one. */
  lemma LonePart(a: char, rest: string)
    requires a != '{' && a != '}'
    ensures TwoArguments([a] + ("}" + rest)) == None
    ensures TwoArguments("{" + [a] + "}" + ("{" + "}" + "}" + rest)) == Some(Args([a], "", "}" + rest))
  {
    hide Balanced, HasUnmatched, UnmatchedAt;
    ShortBalanced(a);
    GroupArgument([a], "{" + "}" + "}" + rest);
    GroupArgument("", "}" + rest);
    assert "{" + "" + "}" + ("}" + rest) == "{" + "}" + "}" + rest;
    assert ([a] + ("}" + rest))[1..] == "}" + rest && ("}" + rest)[0] == '}';
  }

  /** The text a part is repaired to holds the same two arguments, each in braces of its
      own, and the same text behind them; the repair keeps what is read, nothing included,
      if and only if the second character is not a closing brace that ends an argument. */
  lemma PartArguments(p: string)
    requires FixPart(p).Some? && !(|p| > 0 && p[0] == '{')
    ensures |p| >= 2
    ensures var f := FixPart(p).value;
            && (TwoArguments(p).Some? ==>
                  && TwoArguments(f) == TwoArguments(p)
                  && var x := TwoArguments(p).value;
                     f == "{" + x.first + "}" + ("{" + x.second + "}" + x.rest))
            && (TwoArguments(f) == TwoArguments(p) <==> p[0] == '}' || p[1] != '}')
  {
    PartText(p);
    hide FixPart, Argument;
    var a, b, rest := p[0], p[1], p[2..];
    assert p == [a] + p[1..] && p[1..] == [b] + rest;
    if a == '}' {
      ClosedPart(p[1..]);
      ClosedPart("{" + [b] + "}" + rest);
      assert "{" + [a] + "}" == "{" + "}" + "}";
    } else if b == '{' {
      GroupPart(a, p[1..]);
      GroupSecond(a, p[1..]);
    } else if b == '}' {
      LonePart(a, rest);
      assert "{" + [b] + "}" == "{" + "}" + "}";
    } else {
      PlainPart(a, b, rest);
    }
  }

  lemma GroupSecond(a: char, tail: string)
    requires a != '{' && a != '}' && tail != [] && tail[0] == '{'
    ensures TwoArguments([a] + tail).Some? ==>
              var x := TwoArguments([a] + tail).value; x.first == [a] && tail == "{" + x.second + "}" + x.rest
  {
    GroupPart(a, tail);
    if Argument(tail).Some? { GroupText(tail); }
  }

  /** A repaired part against the part it was. */
  ghost predicate Repairs(p: string, f: string) {
    if |p| > 0 && p[0] == '{' then f == p
    else
      && |p| >= 2
      && f == "{" + [p[0]] + "}" + (if p[1] == '{' then p[1..] else "{" + [p[1]] + "}" + p[2..])
      && (TwoArguments(p).Some? ==>
            && TwoArguments(f) == TwoArguments(p)
            && var x := TwoArguments(p).value;
               f == "{" + x.first + "}" + ("{" + x.second + "}" + x.rest))
  }

  lemma {:induction false} PartsRepaired(ps: seq<string>, i: nat)
    requires FixParts(ps).Some? && i < |ps|
    ensures FixPart(ps[i]).Some? && FixParts(ps).value[i] == FixPart(ps[i]).value
  {
    if i > 0 { PartsRepaired(ps[1..], i - 1); }
  }

  lemma {:induction false} PartsFail(ps: seq<string>)
    ensures FixParts(ps).None? <==> exists i :: 0 <= i < |ps| && FixPart(ps[i]).None?
  {
    if ps != [] {
      PartsFail(ps[1..]);
      if i :| 0 <= i < |ps[1..]| && FixPart(ps[1..][i]).None? { assert FixPart(ps[i + 1]).None?; }
      if i :| 0 <= i < |ps| && FixPart(ps[i]).None? { if i > 0 { assert ps[1..][i - 1] == ps[i]; } }
    }
  }

  /** A part too short to repair. */
  predicate TooShort(p: string) {
    |p| < 2 && !(|p| > 0 && p[0] == '{')
  }

  /** The repair gives up, and returns the text as it was, exactly when fewer than two
      characters and no brace follow some \frac. */
  lemma BailsExactly(s: string)
    ensures FixParts(Split(s, FRAC)[1..]).None? <==>
            exists i :: 1 <= i < |Split(s, FRAC)| && TooShort(Split(s, FRAC)[i])
    ensures FixParts(Split(s, FRAC)[1..]).None? ==> FixFracs(s) == s
  {
    hide Split, Join;
    var parts := Split(s, FRAC);
    var ps := parts[1..];
    PartsFail(ps);
    if i :| 0 <= i < |ps| && FixPart(ps[i]).None? { assert TooShort(parts[i + 1]); }
    if i :| 1 <= i < |parts| && TooShort(parts[i]) { assert ps[i - 1] == parts[i] && FixPart(ps[i - 1]).None?; }
  }

  /** Otherwise the text before the first \frac is kept, and each piece between one \frac
      and the next is repaired as above. */
  lemma FracsRepaired(s: string)
    requires FixParts(Split(s, FRAC)[1..]).Some?
    ensures var before, after := Split(s, FRAC), Split(FixFracs(s), FRAC);
            && |after| == |before| && after[0] == before[0]
            && forall i | 1 <= i < |before| :: Repairs(before[i], after[i])
  {
    hide Split, FixFracs, Repairs;
    SplitFixed(s);
    var parts := Split(s, FRAC);
    var ps := parts[1..];
    forall i | 1 <= i < |parts| ensures Repairs(parts[i], Split(FixFracs(s), FRAC)[i]) {
      PartsRepaired(ps, i - 1);
      assert ps[i - 1] == parts[i];
      PartRepairs(parts[i]);
    }
  }

  lemma PartRepairs(p: string)
    requires FixPart(p).Some?
    ensures Repairs(p, FixPart(p).value)
  {
    if !(|p| > 0 && p[0] == '{') {
      PartText(p);
      hide FixPart, TwoArguments;
      PartArguments(p);
    }
  }

  /** A half, and a text where a closing brace ends the only argument. */
  lemma FracExamples()
    ensures FixFracs("\\frac12") == "\\frac{1}{2}"
    ensures FixPart("1}") == Some("{1}{}}")
    ensures TwoArguments("1}") == None && TwoArguments("{1}{}}") == Some(Args("1", "", "}"))
  {
    Half();
    hide TwoArguments, FixFracs;
    LonePart('1', "");
    assert ['1'] + ("}" + "") == "1}" && "{" + ['1'] + "}" + ("{" + "}" + "}" + "") == "{1}{}}";
    assert "}" + "" == "}" && "1}"[2..] == "";
    assert "{" + ['1'] + "}{" + ['}'] + "}" + "" == "{1}{}}";
  }

  /** One \frac between texts without any. */
  lemma OneFrac(head: string, p: string)
    requires Free(head, FRAC) && Free(p, FRAC) && FixPart(p).Some?
    ensures FixFracs(head + FRAC + p) == head + FRAC + FixPart(p).value
  {
    hide FixPart, Free;
    var s := head + FRAC + p;
    FracNoBorder();
    SplitFirst(head, FRAC, p);
    NoneIfFree(p, FRAC);
    var parts := Split(s, FRAC);
    assert parts[1..] == [p] && [p][1..] == [];
    var f := FixPart(p).value;
    assert [f] + [] == [f] && FixParts([p]) == Some([f]);
    var fixed := [head] + [f];
    assert |fixed| == 2 && fixed[0] == head && fixed[1..] == [f];
    assert parts[0] == head && Join(fixed, FRAC) == head + FRAC + Join([f], FRAC);
  }

  lemma Half()
    ensures FixFracs("\\frac12") == "\\frac{1}{2}"
  {
    forall i | 0 <= i ensures !Occurs("12", FRAC, i) && !Occurs("", FRAC, i) {}
    assert "12"[2..] == "" && "{" + ['1'] + "}{" + ['2'] + "}" + "" == "{1}{2}";
    assert FixPart("12") == Some("{1}{2}");
    hide FixFracs, FixPart;
    OneFrac("", "12");
    assert "" + FRAC + "12" == "\\frac12" && "" + FRAC + "{1}{2}" == "\\frac{1}{2}";
  }
}
