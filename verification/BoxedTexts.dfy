/** Round trip of boxed answers: every boxed text comes back, in order. */
module BoxedTexts {
  import opened Wrappers
  import opened Text
  import opened AnswerExtraction

  /** A boxed text and what follows it up to the next marker. */
  datatype Boxed = Boxed(content: string, after: string)

  ghost predicate Boxable(b: Boxed) {
    Balanced(b.content) && Free(b.content, BOXED) && Free(b.after, BOXED)
  }

  ghost predicate AllBoxable(bs: seq<Boxed>) {
    forall i | 0 <= i < |bs| :: Boxable(bs[i])
  }

  function Piece(b: Boxed): string { b.content + "}" + b.after }

  function Pieces(bs: seq<Boxed>): seq<string> {
    seq(|bs|, i requires 0 <= i < |bs| => Piece(bs[i]))
  }

  /** The whole text. */
  function Written(prefix: string, bs: seq<Boxed>): string {
    Join([prefix] + Pieces(bs), BOXED)
  }

  /** What comes back: the text, its closing brace included before a percent sign. */
  function Expected(b: Boxed): string {
    if b.after != [] && b.after[0] == '%' then b.content + "}" else b.content
  }

  lemma PieceFree(b: Boxed)
    requires Boxable(b)
    ensures Free(Piece(b), BOXED)
  {
    hide Balanced;
    var s := Piece(b);
    var n := |b.content| + 1;
    assert s[n..] == b.after;
    forall i | 0 <= i ensures !Occurs(s, BOXED, i) {
      if Occurs(s, BOXED, i) {
        MarkerInRest(b.content, b.after, i);
        OccursAfter(s, n, BOXED, i - n);
      }
    }
  }

  lemma PieceAnswer(b: Boxed)
    requires Boxable(b)
    ensures Answer(Piece(b)) == Some(Expected(b))
  {
    var s := Piece(b);
    var n := |b.content|;
    assert s[..n] == b.content && s[..n + 1] == b.content + "}";
    assert FirstUnmatched(s, n);
    hide Balanced;
    UnmatchedUnique(s, n, UnmatchedAt(s));
    if b.after != [] { assert s[n + 1] == b.after[0]; }
  }

  lemma {:induction false} PiecesAnswers(bs: seq<Boxed>)
    requires AllBoxable(bs)
    ensures Answers(Pieces(bs)) == seq(|bs|, i requires 0 <= i < |bs| => Expected(bs[i]))
  {
    hide Answer, Expected, Boxable;
    if bs != [] {
      var n := |bs| - 1;
      PiecesAnswers(bs[..n]);
      PieceAnswer(bs[n]);
      assert Pieces(bs)[..n] == Pieces(bs[..n]);
    }
  }

  /** However many texts are boxed, all come back in order: each balanced text without
      marker as it was, with its closing brace where a percent sign follows. */
  lemma AllBoxed(prefix: string, bs: seq<Boxed>)
    requires Free(prefix, BOXED) && AllBoxable(bs)
    ensures Answers(Split(Written(prefix, bs), BOXED)[1..]) == seq(|bs|, i requires 0 <= i < |bs| => Expected(bs[i]))
  {
    hide Answers, Expected, Free, Boxable, Split, Join, Piece;
    var parts := [prefix] + Pieces(bs);
    forall i | 0 <= i < |parts| ensures Free(parts[i], BOXED) { if i > 0 { PieceFree(bs[i - 1]); } }
    BoxedNoBorder();
    SplitJoin(parts, BOXED);
    assert parts[1..] == Pieces(bs);
    PiecesAnswers(bs);
  }

  /** Two boxed texts as they are written, and what comes back of them. */
  lemma BoxedExample()
    ensures Written("is \\", [Boxed("a{b}", " or \\"), Boxed("5", "%")]) == "is \\boxed{a{b}} or \\boxed{5}%"
    ensures Expected(Boxed("a{b}", " or \\")) == "a{b}" && Expected(Boxed("5", "%")) == "5}"
  {
    var bs := [Boxed("a{b}", " or \\"), Boxed("5", "%")];
    assert Pieces(bs) == [Piece(bs[0]), Piece(bs[1])];
    var parts := ["is \\"] + Pieces(bs);
    assert parts[1..] == [Piece(bs[0]), Piece(bs[1])] && parts[1..][1..] == [Piece(bs[1])];
    assert Join(parts[1..][1..], BOXED) == Piece(bs[1]);
    assert Join(parts[1..], BOXED) == Piece(bs[0]) + BOXED + Piece(bs[1]);
    assert Join(parts, BOXED) == "is \\" + BOXED + (Piece(bs[0]) + BOXED + Piece(bs[1]));
  }
}
