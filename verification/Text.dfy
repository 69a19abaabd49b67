/** Splitting and joining text as Python's str.split and str.join do. */
module Text {
  import opened Wrappers

  predicate Occurs(s: string, sep: string, i: nat) {
    i + |sep| <= |s| && s[i..i + |sep|] == sep
  }

  ghost predicate Free(s: string, sep: string) {
    forall i :: 0 <= i ==> !Occurs(s, sep, i)
  }

  lemma OccursAfter(s: string, n: nat, sep: string, i: nat)
    requires n <= |s|
    ensures Occurs(s[n..], sep, i) <==> Occurs(s, sep, n + i)
  {
    if n + i + |sep| <= |s| { assert s[n..][i..i + |sep|] == s[n + i..n + i + |sep|]; }
  }

  lemma OccursBefore(s: string, n: nat, sep: string, i: nat)
    requires n <= |s|
    ensures Occurs(s[..n], sep, i) <==> Occurs(s, sep, i) && i + |sep| <= n
  {
    if i + |sep| <= n { assert s[..n][i..i + |sep|] == s[i..i + |sep|]; }
  }

  lemma OccursChar(s: string, sep: string, i: nat, m: nat)
    requires Occurs(s, sep, i)
    ensures i <= m < i + |sep| ==> m < |s| && s[m] == sep[m - i]
  {
    if i <= m < i + |sep| { assert s[i..i + |sep|][m - i] == s[m]; }
  }

  /** Two occurrences that overlap give the separator a border. */
  lemma OverlapBorder(s: string, sep: string, i: nat, j: nat)
    requires Occurs(s, sep, i) && Occurs(s, sep, j)
    ensures i < j < i + |sep| ==> sep[j - i..] == sep[..|sep| - (j - i)]
  {
    if i < j < i + |sep| {
      var k := j - i;
      assert sep[k..] == s[i..i + |sep|][k..] == s[j..i + |sep|];
      assert sep[..|sep| - k] == s[j..j + |sep|][..|sep| - k] == s[j..i + |sep|];
    }
  }

  /** Place of the first occurrence. */
  function First(s: string, sep: string): (r: Option<nat>)
    requires sep != []
    ensures r.Some? ==> Occurs(s, sep, r.value) && forall i | 0 <= i < r.value :: !Occurs(s, sep, i)
    ensures r.None? <==> Free(s, sep)
  {
    if |s| < |sep| then None
    else if s[..|sep|] == sep then assert Occurs(s, sep, 0); Some(0)
    else
      var r := First(s[1..], sep);
      assert forall i | 0 < i :: Occurs(s, sep, i) <==> Occurs(s[1..], sep, i - 1) by {
        forall i | 0 < i ensures Occurs(s, sep, i) <==> Occurs(s[1..], sep, i - 1) {
          OccursAfter(s, 1, sep, i - 1);
        }
      }
      assert !Occurs(s, sep, 0);
      if r.None? then None else Some(r.value + 1)
  }

  function Split(s: string, sep: string): (parts: seq<string>)
    requires sep != []
    ensures parts != []
  {
    match First(s, sep)
    case None => [s]
    case Some(i) => [s[..i]] + Split(s[i + |sep|..], sep)
  }

  function Join(parts: seq<string>, sep: string): string
    requires parts != []
  {
    if |parts| == 1 then parts[0] else parts[0] + sep + Join(parts[1..], sep)
  }

  /** No proper end of `sep` is a beginning of it. */
  ghost predicate NoBorder(sep: string) {
    sep != [] && forall k | 0 < k < |sep| :: sep[k..] != sep[..|sep| - k]
  }

  ghost predicate AllFree(parts: seq<string>, sep: string) {
    forall i | 0 <= i < |parts| :: Free(parts[i], sep)
  }

  lemma {:induction false} JoinSplit(s: string, sep: string)
    requires sep != []
    ensures Join(Split(s, sep), sep) == s
    decreases |s|
  {
    var r := First(s, sep);
    if r.Some? {
      JoinSplit(s[r.value + |sep|..], sep);
      assert s == s[..r.value] + sep + s[r.value + |sep|..];
      assert Split(s, sep)[1..] == Split(s[r.value + |sep|..], sep);
    }
  }

  lemma {:induction false} SplitFree(s: string, sep: string)
    requires sep != []
    ensures AllFree(Split(s, sep), sep)
    decreases |s|
  {
    hide First, Occurs;
    var r := First(s, sep);
    if r.Some? {
      assert r.value + |sep| <= |s| by { OccursFits(s, sep, r.value); }
      SplitFree(s[r.value + |sep|..], sep);
      PrefixFree(s, sep, r.value);
    }
  }

  lemma OccursFits(s: string, sep: string, i: nat)
    requires Occurs(s, sep, i)
    ensures i + |sep| <= |s|
  {
  }

  lemma PrefixFree(s: string, sep: string, n: nat)
    requires sep != [] && n <= |s| && forall i | 0 <= i < n :: !Occurs(s, sep, i)
    ensures Free(s[..n], sep)
  {
    forall i | 0 <= i ensures !Occurs(s[..n], sep, i) { OccursBefore(s, n, sep, i); }
  }

  /** In `p + sep + rest`, with `p` free of a borderless `sep`, an occurrence is the
      one after `p` or lies in `rest`. */
  lemma OccursIn(p: string, sep: string, rest: string, i: nat)
    requires NoBorder(sep) && Free(p, sep) && Occurs(p + sep + rest, sep, i)
    ensures i == |p| || (i >= |p| + |sep| && Occurs(rest, sep, i - |p| - |sep|))
  {
    var s := p + sep + rest;
    assert s[..|p|] == p && s[|p| + |sep|..] == rest;
    assert s[|p|..|p| + |sep|] == sep;
    OccursBefore(s, |p|, sep, i);
    OverlapBorder(s, sep, i, |p|);
    OverlapBorder(s, sep, |p|, i);
    if i >= |p| + |sep| { OccursAfter(s, |p| + |sep|, sep, i - |p| - |sep|); }
  }

  lemma FirstAfter(p: string, sep: string, rest: string)
    requires NoBorder(sep) && Free(p, sep)
    ensures First(p + sep + rest, sep) == Some(|p|)
  {
    var s := p + sep + rest;
    assert s[|p|..|p| + |sep|] == sep;
    assert Occurs(s, sep, |p|);
    var r := First(s, sep);
    OccursIn(p, sep, rest, r.value);
  }

  /** Splitting undoes joining when no part contains the separator. */
  lemma {:induction false} SplitJoin(parts: seq<string>, sep: string)
    requires NoBorder(sep) && parts != [] && AllFree(parts, sep)
    ensures Split(Join(parts, sep), sep) == parts
    decreases |parts|
  {
    assert sep != [];
    hide First, Free, NoBorder;
    if |parts| > 1 {
      SplitJoin(parts[1..], sep);
      SplitFirst(parts[0], sep, Join(parts[1..], sep));
      assert parts == [parts[0]] + parts[1..];
    } else {
      NoneIfFree(parts[0], sep);
      assert parts == [parts[0]];
    }
  }

  lemma SplitFirst(p: string, sep: string, rest: string)
    requires NoBorder(sep) && Free(p, sep)
    ensures Split(p + sep + rest, sep) == [p] + Split(rest, sep)
  {
    assert sep != [];
    hide First, Free, NoBorder;
    FirstAfter(p, sep, rest);
    Around(p, sep, rest);
  }

  lemma Around(p: string, sep: string, rest: string)
    ensures (p + sep + rest)[..|p|] == p && (p + sep + rest)[|p| + |sep|..] == rest
  {
  }

  lemma NoneIfFree(s: string, sep: string)
    requires sep != [] && Free(s, sep)
    ensures First(s, sep).None?
  {
  }

  lemma FreeSuffix(s: string, sep: string, n: nat)
    requires Free(s, sep) && n <= |s|
    ensures Free(s[n..], sep)
  {
    forall i | 0 <= i ensures !Occurs(s[n..], sep, i) { OccursAfter(s, n, sep, i); }
  }

  /** A separator whose first character occurs nowhere else in it has no border. */
  lemma FirstCharOnce(sep: string)
    requires sep != [] && forall k | 0 < k < |sep| :: sep[k] != sep[0]
    ensures NoBorder(sep)
  {
    forall k | 0 < k < |sep| ensures sep[k..] != sep[..|sep| - k] {
      assert sep[k..][0] == sep[k] && sep[..|sep| - k][0] == sep[0];
    }
  }

  /** A separator whose last character occurs nowhere else in it has no border. */
  lemma LastCharOnce(sep: string)
    requires sep != [] && forall k | 0 <= k < |sep| - 1 :: sep[k] != sep[|sep| - 1]
    ensures NoBorder(sep)
  {
    forall k | 0 < k < |sep| ensures sep[k..] != sep[..|sep| - k] {
      var m := |sep| - k - 1;
      assert sep[k..][m] == sep[|sep| - 1] && sep[..|sep| - k][m] == sep[m];
    }
  }

  // ---- White space -----------------------------------------------------------

  /** White space as `str.strip` knows it. */
  predicate IsSpace(c: char) {
    || c == ' ' || '\t' <= c <= '\r' || '\U{1c}' <= c <= '\U{1f}' || c == '\U{85}' || c == '\U{a0}'
    || c == '\U{1680}' || '\U{2000}' <= c <= '\U{200a}' || c == '\U{2028}' || c == '\U{2029}'
    || c == '\U{202f}' || c == '\U{205f}' || c == '\U{3000}'
  }

  ghost predicate Blank(s: string) {
    forall i | 0 <= i < |s| :: IsSpace(s[i])
  }

  function StripLeft(s: string): (r: string)
    ensures r != [] ==> !IsSpace(r[0])
  {
    if s != [] && IsSpace(s[0]) then StripLeft(s[1..]) else s
  }

  function StripRight(s: string): (r: string)
    ensures r <= s && (r != [] ==> !IsSpace(r[|r| - 1])) && Blank(s[|r|..])
  {
    if s != [] && IsSpace(s[|s| - 1]) then
      var n := |s| - 1;
      var r := StripRight(s[..n]);
      assert s[|r|..] == s[..n][|r|..] + [s[n]];
      r
    else s
  }

  function Strip(s: string): string { StripRight(StripLeft(s)) }

  lemma {:induction false} StripLeftBlank(s: string)
    ensures |StripLeft(s)| <= |s| && s[|s| - |StripLeft(s)|..] == StripLeft(s) && Blank(s[..|s| - |StripLeft(s)|])
  {
    if s != [] && IsSpace(s[0]) {
      StripLeftBlank(s[1..]);
      var n := |s| - |StripLeft(s)|;
      assert s[n..] == s[1..][n - 1..];
      assert s[..n] == [s[0]] + s[1..][..n - 1];
    }
  }

  /** Stripping takes white space off both ends, all of it and nothing else. */
  lemma StripExact(s: string) returns (pre: string, post: string)
    ensures s == pre + Strip(s) + post && Blank(pre) && Blank(post)
    ensures Strip(s) != [] ==> !IsSpace(Strip(s)[0]) && !IsSpace(Strip(s)[|Strip(s)| - 1])
  {
    hide StripLeft, StripRight;
    StripLeftBlank(s);
    var left := StripLeft(s);
    pre := s[..|s| - |left|];
    post := left[|Strip(s)|..];
    assert s == pre + left && left == Strip(s) + post;
    if Strip(s) != [] { assert Strip(s)[0] == left[0]; }
  }

  lemma {:induction false} StripLeftAppend(s: string, t: string)
    ensures StripLeft(s) != [] ==> StripLeft(s + t) == StripLeft(s) + t
    ensures StripLeft(s) == [] ==> StripLeft(s + t) == StripLeft(t)
    ensures StripLeft(s) == [] ==> Blank(s)
  {
    if s == [] {
      assert s + t == t;
    } else {
      assert (s + t)[0] == s[0];
      if IsSpace(s[0]) {
        assert (s + t)[1..] == s[1..] + t;
        StripLeftAppend(s[1..], t);
      }
    }
  }

  /** Trailing white space is all that is removed behind a visible character. */
  lemma {:induction false} StripRightBlank(s: string, w: string)
    requires Blank(w)
    ensures StripRight(s + w) == StripRight(s)
    decreases |w|
  {
    if w == [] {
      assert s + w == s;
    } else {
      var n := |w| - 1;
      assert (s + w)[..|s| + n] == s + w[..n];
      StripRightBlank(s, w[..n]);
    }
  }

  lemma StripRightSolid(s: string)
    requires s != [] && !IsSpace(s[|s| - 1])
    ensures StripRight(s) == s
  {
  }
}
