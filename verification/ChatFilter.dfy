/** The cyclic dataset filter of benchmark/hicache/data_processing.py. */
module ChatFilter {
  import opened Wrappers
  import opened Sorting

  datatype Exchange = Exchange(prompt: string, completion: string)

  datatype Kept = Kept(prompt: string, promptLen: nat, outputLen: nat)

  /** Length bounds, each optional, and the output length to use instead of the
      completion's when it is given. */
  datatype Bounds = Bounds(
    minPrompt: Option<nat>, minOutput: Option<nat>, maxPrompt: Option<nat>, maxOutput: Option<nat>,
    fixedOutput: Option<nat>)
  {
    predicate Prunes(promptLen: nat, outputLen: nat) {
      || (minPrompt.Some? && promptLen < minPrompt.value)
      || (minOutput.Some? && outputLen < minOutput.value)
      || (maxPrompt.Some? && promptLen > maxPrompt.value)
      || (maxOutput.Some? && outputLen > maxOutput.value)
    }
  }

  /** The exchanges of one conversation within the bounds; `tokens` counts the
      tokens of a text. */
  function Keep(conv: seq<Exchange>, tokens: string -> nat, b: Bounds): (ks: seq<Kept>)
    ensures forall k | k in ks :: !b.Prunes(k.promptLen, k.outputLen)
  {
    if conv == [] then []
    else
      var n := |conv| - 1;
      var k := Measured(conv[n], tokens, b);
      Keep(conv[..n], tokens, b) + (if b.Prunes(k.promptLen, k.outputLen) then [] else [k])
  }

  /** An exchange with its lengths. */
  function Measured(x: Exchange, tokens: string -> nat, b: Bounds): Kept {
    Kept(x.prompt, tokens(x.prompt), if b.fixedOutput.Some? then b.fixedOutput.value else tokens(x.completion))
  }

  /** The lengths lie within all bounds that are given. */
  ghost predicate Within(b: Bounds, promptLen: nat, outputLen: nat) {
    && (forall lo | b.minPrompt == Some(lo) :: lo <= promptLen)
    && (forall hi | b.maxPrompt == Some(hi) :: promptLen <= hi)
    && (forall lo | b.minOutput == Some(lo) :: lo <= outputLen)
    && (forall hi | b.maxOutput == Some(hi) :: outputLen <= hi)
  }

  /** What is recorded of an exchange: its prompt, the tokens of the prompt, and the fixed
      output length or else the tokens of the completion. */
  ghost predicate Records(k: Kept, x: Exchange, tokens: string -> nat, b: Bounds) {
    && k.prompt == x.prompt && k.promptLen == tokens(x.prompt)
    && (b.fixedOutput.Some? ==> k.outputLen == b.fixedOutput.value)
    && (b.fixedOutput.None? ==> k.outputLen == tokens(x.completion))
  }

  ghost predicate Acceptable(x: Exchange, tokens: string -> nat, b: Bounds) {
    forall k | Records(k, x, tokens, b) :: Within(b, k.promptLen, k.outputLen)
  }

  /** The exchanges kept are the acceptable ones, in order and once each, as recorded. */
  lemma {:induction false} KeepExact(conv: seq<Exchange>, tokens: string -> nat, b: Bounds) returns (picks: seq<nat>)
    ensures |picks| == |Keep(conv, tokens, b)| && AscendingBelow(picks, |conv|)
    ensures forall k | 0 <= k < |picks| :: Records(Keep(conv, tokens, b)[k], conv[picks[k]], tokens, b)
    ensures forall i: nat | i < |conv| :: i in picks <==> Acceptable(conv[i], tokens, b)
  {
    if conv == [] {
      picks := [];
    } else {
      var n := |conv| - 1;
      picks := KeepExact(conv[..n], tokens, b);
      PushAscending(picks, n, n + 1);
      KeptExact(conv[n], tokens, b);
      hide Records, Acceptable;
      var k := Measured(conv[n], tokens, b);
      if !b.Prunes(k.promptLen, k.outputLen) { picks := picks + [n]; }
    }
  }

  lemma KeptExact(x: Exchange, tokens: string -> nat, b: Bounds)
    ensures var k := Measured(x, tokens, b);
            Records(k, x, tokens, b) && (Acceptable(x, tokens, b) <==> !b.Prunes(k.promptLen, k.outputLen))
  {
    var k := Measured(x, tokens, b);
    assert Records(k, x, tokens, b);
    assert forall j | Records(j, x, tokens, b) :: j == k;
  }

  /** The conversations that keep at least one exchange, in order. */
  function Filtered(data: seq<seq<Exchange>>, tokens: string -> nat, b: Bounds): (f: seq<seq<Kept>>)
    ensures |f| <= |data|
    ensures forall i | 0 <= i < |f| :: f[i] != [] && forall k | k in f[i] :: !b.Prunes(k.promptLen, k.outputLen)
  {
    if data == [] then []
    else
      var n := |data| - 1;
      var kept := Keep(data[n], tokens, b);
      Filtered(data[..n], tokens, b) + (if kept == [] then [] else [kept])
  }

  /** The filtered dataset has the conversations with something acceptable, in order and
      once each. */
  lemma {:induction false} FilteredExact(data: seq<seq<Exchange>>, tokens: string -> nat, b: Bounds)
    returns (picks: seq<nat>)
    ensures |picks| == |Filtered(data, tokens, b)| && AscendingBelow(picks, |data|)
    ensures forall k | 0 <= k < |picks| :: Filtered(data, tokens, b)[k] == Keep(data[picks[k]], tokens, b)
    ensures forall i: nat | i < |data| :: i in picks <==> exists x :: x in data[i] && Acceptable(x, tokens, b)
  {
    hide Keep, Acceptable;
    if data == [] {
      picks := [];
    } else {
      var n := |data| - 1;
      picks := FilteredExact(data[..n], tokens, b);
      PushAscending(picks, n, n + 1);
      KeepsSome(data[n], tokens, b);
      if Keep(data[n], tokens, b) != [] { picks := picks + [n]; }
    }
  }

  lemma KeepsSome(conv: seq<Exchange>, tokens: string -> nat, b: Bounds)
    ensures Keep(conv, tokens, b) != [] <==> exists x :: x in conv && Acceptable(x, tokens, b)
  {
    hide Keep, Acceptable, Records;
    var picks := KeepExact(conv, tokens, b);
    if Keep(conv, tokens, b) != [] { assert picks[0] in picks; assert conv[picks[0]] in conv; }
    if x :| x in conv && Acceptable(x, tokens, b) {
      var i :| 0 <= i < |conv| && conv[i] == x;
      assert i in picks;
    }
  }

  lemma DivUnique(a: nat, n: nat, q: nat, r: nat)
    requires n > 0 && a == q * n + r && r < n
    ensures a % n == r
  {
    var d := a / n - q;
    assert d * n == r - a % n;
    assert d >= 1 ==> d * n >= n;
    assert d <= -1 ==> d * n + n <= 0;
  }

  /** Whole rounds leave the place in the round unchanged. */
  lemma InRound(base: nat, n: nat, j: nat)
    requires n > 0 && base % n == 0 && j <= n
    ensures (base + j) % n == if j == n then 0 else j
  {
    var q := base / n;
    if j == n { DivUnique(base + j, n, q + 1, 0); } else { DivUnique(base + j, n, q, j); }
  }

  /** One exchange after another, pruning those outside the bounds. */
  method KeepLoop(conv: seq<Exchange>, tokens: string -> nat, b: Bounds) returns (processed: seq<Kept>)
    ensures processed == Keep(conv, tokens, b)
  {
    processed := [];
    for j := 0 to |conv|
      invariant processed == Keep(conv[..j], tokens, b)
    {
      assert conv[..j + 1][..j] == conv[..j];
      var promptLen := tokens(conv[j].prompt);
      var outputLen := if b.fixedOutput.None? then tokens(conv[j].completion) else b.fixedOutput.value;
      if b.Prunes(promptLen, outputLen) {
        continue;
      }
      processed := processed + [Kept(conv[j].prompt, promptLen, outputLen)];
    }
    assert conv[..|conv|] == conv;
  }

  ghost predicate Cycles(r: seq<seq<Kept>>, f: seq<seq<Kept>>) {
    r != [] ==> f != [] && forall k | 0 <= k < |r| :: r[k] == f[k % |f|]
  }

  /** Whole rounds so far. */
  ghost predicate Rounds(base: nat, f: seq<seq<Kept>>) {
    f != [] && base % |f| == 0
  }

  /** Appending the entry that is due keeps the cycle. */
  lemma CycleOn(r: seq<seq<Kept>>, f: seq<seq<Kept>>, base: nat, j: nat)
    requires Cycles(r, f) && Rounds(base, f) && |r| == base + j && j < |f|
    ensures Cycles(r + [f[j]], f)
  {
    InRound(base, |f|, j);
  }

  // ---- Passes over the dataset -----------------------------------------------

  function Min(a: int, b: int): int { if a < b then a else b }

  /** One pass of the loop over the dataset, starting with `r` collected: it stops as
      soon as there are enough. */
  function Pass(count: int, data: seq<seq<Exchange>>, tokens: string -> nat, b: Bounds, r: seq<seq<Kept>>): seq<seq<Kept>> {
    if data == [] then r
    else
      var n := |data| - 1;
      var before := Pass(count, data[..n], tokens, b, r);
      var kept := Keep(data[n], tokens, b);
      if |before| == count || kept == [] then before else before + [kept]
  }

  /** What is collected after `n` passes. */
  function AfterPasses(count: int, data: seq<seq<Exchange>>, tokens: string -> nat, b: Bounds, n: nat): seq<seq<Kept>> {
    if n == 0 then []
    else
      var r := AfterPasses(count, data, tokens, b, n - 1);
      if |r| < count then Pass(count, data, tokens, b, r) else r
  }

  /** A pass adds the filtered dataset, as much of it as is wanted. */
  lemma {:induction false} PassAdds(count: int, data: seq<seq<Exchange>>, tokens: string -> nat, b: Bounds, r: seq<seq<Kept>>)
    requires |r| <= count
    ensures var f := Filtered(data, tokens, b);
            Pass(count, data, tokens, b, r) == r + f[..Min(|f|, count - |r|)]
  {
    hide Keep;
    if data != [] {
      var n := |data| - 1;
      PassAdds(count, data[..n], tokens, b, r);
      var f := Filtered(data, tokens, b);
      var g := Filtered(data[..n], tokens, b);
      assert f[..Min(|g|, count - |r|)] == g[..Min(|g|, count - |r|)];
      if |g| < |f| && |g| < count - |r| { assert f[..|g| + 1] == g + [f[|g|]]; }
    }
  }

  lemma Times(n: int, m: int)
    ensures (n + 1) * m == n * m + m
    ensures n >= 0 && m >= 0 ==> n * m >= 0
  {
  }

  /** After `n` passes `n` rounds of the filtered dataset are collected, or the wanted
      count. */
  lemma {:induction false} PassesLength(count: nat, data: seq<seq<Exchange>>, tokens: string -> nat, b: Bounds, n: nat)
    ensures |AfterPasses(count, data, tokens, b, n)| == Min(count, n * |Filtered(data, tokens, b)|)
  {
    if n > 0 {
      hide Pass, Filtered;
      PassesLength(count, data, tokens, b, n - 1);
      var r := AfterPasses(count, data, tokens, b, n - 1);
      PassAdds(count, data, tokens, b, r);
      Times(n - 1, |Filtered(data, tokens, b)|);
    }
  }

  /** The loop ends exactly when some conversation is kept: a positive count is reached
      after some number of passes if and only if the filtered dataset is not empty. */
  lemma CountReached(count: nat, data: seq<seq<Exchange>>, tokens: string -> nat, b: Bounds)
    requires count > 0
    ensures (exists n: nat :: |AfterPasses(count, data, tokens, b, n)| == count) <==> Filtered(data, tokens, b) != []
  {
    hide AfterPasses, Filtered;
    var m := |Filtered(data, tokens, b)|;
    if m > 0 {
      PassesLength(count, data, tokens, b, count);
      Grows(count, m);
    } else {
      forall n: nat ensures |AfterPasses(count, data, tokens, b, n)| == 0 {
        PassesLength(count, data, tokens, b, n);
        assert n * m == 0;
      }
    }
  }

  lemma Grows(n: nat, m: nat)
    requires m >= 1
    ensures n * m >= n
  {
  }

  /** Appending the first entries of a further round keeps the cycle. */
  lemma {:induction false} CycleRound(r: seq<seq<Kept>>, f: seq<seq<Kept>>, j: nat)
    requires Cycles(r, f) && Rounds(|r|, f) && j <= |f|
    ensures Cycles(r + f[..j], f)
  {
    hide Cycles, Rounds;
    if j == 0 {
      assert r + f[..0] == r;
    } else {
      CycleRound(r, f, j - 1);
      CycleOn(r + f[..j - 1], f, |r|, j - 1);
      assert r + f[..j - 1] + [f[j - 1]] == r + f[..j];
    }
  }

  // ---- The script ------------------------------------------------------------

  /** One pass over the dataset. */
  method OnePass(count: int, data: seq<seq<Exchange>>, tokens: string -> nat, b: Bounds, before: seq<seq<Kept>>)
    returns (r: seq<seq<Kept>>)
    ensures r == Pass(count, data, tokens, b, before)
  {
    hide Keep;
    r := before;
    var i := 0;
    assert data[..0] == [];
    while i < |data| && |r| != count
      invariant i <= |data| && r == Pass(count, data[..i], tokens, b, before)
    {
      var processed := KeepLoop(data[i], tokens, b);
      assert data[..i + 1][..i] == data[..i];
      if processed != [] {
        r := r + [processed];
      }
      i := i + 1;
    }
    if i < |data| { PassStays(count, data, tokens, b, before, i); }
    assert data[..|data|] == data;
  }

  /** Once there are enough the rest of the dataset changes nothing. */
  lemma {:induction false} PassStays(count: int, data: seq<seq<Exchange>>, tokens: string -> nat, b: Bounds,
                                     r: seq<seq<Kept>>, i: nat)
    requires i <= |data| && |Pass(count, data[..i], tokens, b, r)| == count
    ensures Pass(count, data, tokens, b, r) == Pass(count, data[..i], tokens, b, r)
  {
    hide Keep;
    if i == |data| {
      assert data[..i] == data;
    } else {
      var n := |data| - 1;
      assert data[..n][..i] == data[..i];
      PassStays(count, data[..n], tokens, b, r, i);
    }
  }

  /** Goes round the dataset until enough conversations are collected: entry `k` of
      the result is entry `k mod |F|` of the filtered dataset F. The loop ends
      because some conversation is kept, or nothing is asked for. */
  method CommonFilterChat(count: int, data: seq<seq<Exchange>>, tokens: string -> nat, b: Bounds)
    returns (r: seq<seq<Kept>>)
    requires count <= 0 || Filtered(data, tokens, b) != []
    ensures |r| == if count > 0 then count else 0
    ensures Cycles(r, Filtered(data, tokens, b))
    ensures forall i | 0 <= i < |r| :: r[i] != [] && forall k | k in r[i] :: !b.Prunes(k.promptLen, k.outputLen)
  {
    r := [];
    ghost var f := Filtered(data, tokens, b);
    while |r| < count
      invariant (|r| <= count || r == []) && Cycles(r, f)
      invariant |r| < count ==> Rounds(|r|, f)
      decreases count - |r|
    {
      InRound(|r|, |f|, |f|);
      PassAdds(count, data, tokens, b, r);
      CycleRound(r, f, Min(|f|, count - |r|));
      r := OnePass(count, data, tokens, b, r);
    }
  }
}
