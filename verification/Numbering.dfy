/** Commutation at the sentence numbers that sessions lock and commit at. */
module Numbering {
  import opened Text
  import opened Sentences
  import opened Editing
  import opened Accounting
  import opened Splicing
  import opened Commutation
  import opened Shifting

  // ----- conflicts

  lemma {:induction false} NumbersConflict(t: string, i: nat, j: nat, u: seq<Update>) returns (v: seq<Update>)
    requires NoCarriageReturn(t) && i < j <= SentenceCount(t)
    requires WriteText(t, i, u).Success? && InsertedDelimiters(u) > 0
    ensures Conflicting(t, i, u, j, j, v)
  {
    var ps, y, e := CutBefore(t, j);
    v := ShiftedConflict(t, ps, y, e, i, j, u);
  }

  lemma {:induction false} OrderConflict(t: string, i: nat, j: nat, u: seq<Update>) returns (v: seq<Update>)
    requires NoCarriageReturn(t) && i < j <= SentenceCount(t) && WriteText(t, i, u).Success?
    requires InsertedDelimiters(u) > 0 || (!EndsInDelimiter(NewSentence(t, i, u)) && j == i + 1)
    ensures Conflicting(t, i, u, j, j, v)
  {
    if InsertedDelimiters(u) > 0 {
      v := NumbersConflict(t, i, j, u);
    } else {
      v := NeighboursConflict(t, i, j, j, u);
    }
  }

  // ----- the content a commit leaves

  /** The content after a commit: the new text, or the old one if the engine refuses. */
  function Committed(t: string, i: nat, u: seq<Update>): string {
    match WriteText(t, i, u)
    case Success(x) => x
    case Failure(_) => t
  }

  // ----- the two commits in either order

  /** Both orders of the two commits, each at the number that was locked, give the same outcome. */
  predicate CommutesAsNumbered(t: string, i: nat, u: seq<Update>, j: nat, v: seq<Update>) {
    Then(WriteText(t, i, u), j, v) == Then(WriteText(t, j, v), i, u)
  }

  ghost predicate CommutesAsNumberedWithAll(t: string, i: nat, u: seq<Update>, j: nat) {
    forall v :: CommutesAsNumbered(t, i, u, j, v)
  }

  /** Locking single sentences is justified exactly when the earlier edit inserts no delimiter and its sentence
      still ends in one, or at least leaves a sentence between the two. */
  lemma {:induction false} NumberedExactly(t: string, i: nat, j: nat, u: seq<Update>)
    requires NoCarriageReturn(t) && i < j <= SentenceCount(t) && WriteText(t, i, u).Success?
    ensures CommutesAsNumberedWithAll(t, i, u, j)
       <==> InsertedDelimiters(u) == 0 && (EndsInDelimiter(NewSentence(t, i, u)) || j > i + 1)
  {
    if InsertedDelimiters(u) > 0 {
      var v := NumbersConflict(t, i, j, u);
      assert !CommutesAsNumbered(t, i, u, j, v);
    } else {
      assert forall v :: CommutesAsNumbered(t, i, u, j, v) <==> Commutes(t, i, u, j, v);
      CommuteExactly(t, i, j, u);
    }
  }

  // ----- the contents two commits leave behind

  predicate SameEitherWay(t: string, i: nat, u: seq<Update>, j: nat, v: seq<Update>) {
    Committed(Committed(t, i, u), j, v) == Committed(Committed(t, j, v), i, u)
  }

  ghost predicate SameEitherWayForAll(t: string, i: nat, u: seq<Update>, j: nat) {
    forall v :: |v| <= MAX_UPDATES ==> SameEitherWay(t, i, u, j, v)
  }

  /** Two sessions that have both passed their checks leave the same content in either order of their commits, for
      every edit v the later sentence's session can have collected, under exactly the same condition. */
  lemma {:induction false} OrderExactly(t: string, i: nat, j: nat, u: seq<Update>)
    requires NoCarriageReturn(t) && i < j <= SentenceCount(t) && WriteText(t, i, u).Success?
    ensures SameEitherWayForAll(t, i, u, j)
       <==> InsertedDelimiters(u) == 0 && (EndsInDelimiter(NewSentence(t, i, u)) || j > i + 1)
  {
    NumberedExactly(t, i, j, u);
    if CommutesAsNumberedWithAll(t, i, u, j) {
      forall v ensures SameEitherWay(t, i, u, j, v) {
        CommutingLeaveSame(t, i, j, u, v);
      }
    } else {
      var v := OrderConflict(t, i, j, u);
      assert !SameEitherWay(t, i, u, j, v);
    }
  }

  lemma {:induction false} CommutingLeaveSame(t: string, i: nat, j: nat, u: seq<Update>, v: seq<Update>)
    requires NoCarriageReturn(t) && i < j <= SentenceCount(t) && WriteText(t, i, u).Success?
    requires CommutesAsNumbered(t, i, u, j, v)
    ensures SameEitherWay(t, i, u, j, v)
  {
    EarlierStillSucceeds(t, i, j, u, v);
  }

  /** A commit to a later sentence does not make an earlier edit fail. */
  lemma {:induction false} EarlierStillSucceeds(t: string, i: nat, j: nat, u: seq<Update>, v: seq<Update>)
    requires NoCarriageReturn(t) && i < j <= SentenceCount(t) && WriteText(t, i, u).Success?
    ensures WriteText(t, j, v).Success? ==> Then(WriteText(t, j, v), i, u).Success?
  {
    var ps, y, e := CutBefore(t, j);
    HeadWrite(ps, y, e, i, u);
    LaterThenEdit(ps, y, e, i, u, v);
    TrimmedSame(ps);
    ShiftWrite(ps, y, e, v);
  }

  /** A family of races: x, itself a sentence, put in front of the first sentence of "a b", and the word z in front of
      the second. With "a.", "b.", "x." and "z" the orders leave "x. z a. b." and "x. a. z b.". */
  lemma {:induction false} OrderExample(a: string, b: string, x: string, z: string)
    requires IsWord(a) && IsBody(a) && IsWord(b) && IsBody(b) && IsWord(x) && IsBody(x) && IsWord(z) && NoDelimiter(z)
    ensures var t, u, v := a + " " + b, [Update(0, x)], [Update(0, z)];
            && Committed(Committed(t, 0, u), 1, v) == x + " " + z + " " + a + " " + b
            && Committed(Committed(t, 1, v), 0, u) == x + " " + a + " " + z + " " + b
  {
    FrontOfFirst(a, b, x);
    FrontOfMiddle(x, a, b, z);
    FrontOfSecond(a, b, z);
    FrontOfThree(a, z, b, x);
  }

  // ----- the condition in terms of the updates

  /** The same theorem with a condition on the updates alone: no delimiter is inserted, and nothing is put behind the
      last word of the sentence unless another sentence lies between. */
  lemma {:induction false} OrderOnInputs(t: string, i: nat, j: nat, u: seq<Update>)
    requires NoCarriageReturn(t) && i < j <= SentenceCount(t) && WriteText(t, i, u).Success?
    ensures var s := Target(t, i).value;
            SameEitherWayForAll(t, i, u, j)
            <==> InsertedDelimiters(u) == 0 && (j > i + 1 || StaysInside(|Tokens(t[s.start..SpanEnd(s)])|, u))
  {
    OrderExactly(t, i, j, u);
    if InsertedDelimiters(u) == 0 {
      var d := DocumentOf(t);
      SpansRead(t, d);
      SpanText(t, d, i);
      assert IsPiece(d.pieces[i]);
      SentenceStays(d.pieces[i].body, u);
    }
  }
}
