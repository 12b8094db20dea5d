/** Edit locality and commutation: what lets two sentences of one file be edited independently. */
module Commutation {
  import opened Text
  import opened Sentences
  import opened Editing
  import opened Accounting
  import opened Splicing

  // ----- the theorem

  /** Editing i then the renumbered j gives what editing j then i gives. */
  predicate Commutes(t: string, i: nat, u: seq<Update>, j: nat, v: seq<Update>) {
    Then(WriteText(t, i, u), j + InsertedDelimiters(u), v) == Then(WriteText(t, j, v), i, u)
  }

  /** Two edits of different sentences give the same outcome in either order, the later sentence renumbered
      by the delimiters the earlier edit inserted, provided the earlier sentence still ends in a
      delimiter or the two are not neighbours. The later one may be the unfinished tail; either may fail. */
  lemma {:induction false} EditsCommute(t: string, i: nat, j: nat, u: seq<Update>, v: seq<Update>)
    requires NoCarriageReturn(t) && i < j <= SentenceCount(t)
    requires WriteText(t, i, u).Success? ==> EndsInDelimiter(NewSentence(t, i, u)) || j > i + 1
    ensures Commutes(t, i, u, j, v)
  {
    var ps, y, e := CutBefore(t, j);
    if WriteText(t, i, u).Success? {
      CommuteAround(ps, y, e, i, u, v);
    } else {
      HeadWrite(ps, y, e, i, u);
      LaterThenEdit(ps, y, e, i, u, v);
      WriteFailure(y, 0, v);
      WriteFailure(t, i, u);
    }
  }

  lemma {:induction false} CommuteAround(ps: seq<Piece>, y: string, e: Doc, i: nat, u: seq<Update>, v: seq<Update>)
    requires WellFormed(Doc(ps, "")) && i < |ps| && SoftEnd(ps) && Reads(y, e) && Inked(e)
    requires WriteText(RenderPieces(ps) + y, i, u).Success?
    requires EndsInDelimiter(NewSentence(RenderPieces(ps) + y, i, u)) || |ps| > i + 1
    ensures Commutes(RenderPieces(ps) + y, i, u, |ps|, v)
  {
    var x, written := EarlierFirst(ps, y, e, i, u, v);
    LaterFirst(ps, y, e, i, u, v, x, written);
  }

  lemma {:induction false} EarlierFirst(ps: seq<Piece>, y: string, e: Doc, i: nat, u: seq<Update>, v: seq<Update>)
    returns (x: string, written: Result<string>)
    requires WellFormed(Doc(ps, "")) && i < |ps| && SoftEnd(ps) && Reads(y, e) && Inked(e)
    requires WriteText(RenderPieces(ps) + y, i, u).Success?
    requires EndsInDelimiter(NewSentence(RenderPieces(ps) + y, i, u)) || |ps| > i + 1
    ensures WriteText(RenderPieces(ps), i, u) == Success(x) && written == WriteText(y, 0, v)
    ensures Then(WriteText(RenderPieces(ps) + y, i, u), |ps| + InsertedDelimiters(u), v) == PrependTo(x, written)
  {
    var r, dr;
    x, r, dr := EditBefore(RenderPieces(ps) + y, ps, y, e, i, u);
    EditThenLater(ps, y, e, i, r, dr, v);
    written := WriteText(y, 0, v);
  }

  lemma {:induction false} LaterFirst(ps: seq<Piece>, y: string, e: Doc, i: nat, u: seq<Update>, v: seq<Update>,
                                      x: string, written: Result<string>)
    requires WellFormed(Doc(ps, "")) && i < |ps| && SoftEnd(ps) && Reads(y, e) && Inked(e)
    requires WriteText(RenderPieces(ps), i, u) == Success(x) && written == WriteText(y, 0, v)
    ensures Then(WriteText(RenderPieces(ps) + y, |ps|, v), i, u) == PrependTo(x, written)
  {
    LaterThenEdit(ps, y, e, i, u, v);
  }

  lemma {:induction false} WriteFailure(t: string, i: nat, u: seq<Update>)
    ensures WriteText(t, i, u).Failure? ==> WriteText(t, i, u) == Failure(Invalid)
  {
  }

  // ----- the condition is exact

  /** Inserting a word at the front of the first sentence (or tail) always works and puts it first. */
  lemma {:induction false} FrontInsert(y: string, e: Doc, w: string)
    requires Reads(y, e) && IsWord(w)
    ensures WriteText(y, 0, [Update(0, w)]).Success?
    ensures var z := WriteText(y, 0, [Update(0, w)]).value; z != "" && z[0] == w[0]
  {
    var v := [Update(0, w)];
    var sentence := if e.pieces == [] then e.tail else e.pieces[0].body;
    var words := Tokens(sentence);
    TokensOfWord(w);
    assert v[1..] == [];
    assert InsertWords(words, 0, [w]) == [w] + words;
    assert ApplyAll(words, v) == Success([w] + words);
    JoinEdges([w] + words);
    assert RenderPieces([]) == "";
    if e.pieces == [] {
      WriteTail(y, e, v);
    } else {
      WriteAt(y, e, 0, v);
      assert e.pieces[..0] == [];
    }
  }

  /** An open sentence swallows what follows it: writing at the renumbered index reaches its own tail. */
  lemma {:induction false} OpenEdit(head: seq<Piece>, r: string, dr: Doc, b: string, v: seq<Update>)
    requires WellFormed(Doc(head, "")) && IsSentenceText(r, dr) && !Closed(dr) && NoCarriageReturn(r)
    ensures WriteText(RenderPieces(head) + r + b, |head| + |dr.pieces|, v)
         == PrependTo(RenderPieces(head) + RenderPieces(dr.pieces), WriteText(dr.tail + b, 0, v))
  {
    var qs, z := head + dr.pieces, dr.tail + b;
    OpenHead(head, r, dr);
    RenderConcat(head, dr.pieces);
    assert RenderPieces(head) + r + b == RenderPieces(qs) + z;
    var dz := ReadingOf(z);
    ShiftWrite(qs, z, dz, v);
  }

  lemma {:induction false} OpenHead(head: seq<Piece>, r: string, dr: Doc)
    requires WellFormed(Doc(head, "")) && IsSentenceText(r, dr) && NoCarriageReturn(r)
    ensures WellFormed(Doc(head + dr.pieces, "")) && Trimmed(head + dr.pieces) == head + dr.pieces
  {
    ConcatWellFormed(head, Doc(dr.pieces, ""));
    GapsSoft(r, dr, |dr.pieces|);
    assert dr.pieces[..|dr.pieces|] == dr.pieces;
    TrimmedSame(head + dr.pieces);
  }

  /** v puts one word in front of a sentence; it succeeds in both orders, at index j before the edit of i and at k
      after it, and the two texts differ. */
  ghost predicate Conflicting(t: string, i: nat, u: seq<Update>, j: nat, k: nat, v: seq<Update>) {
    IsFrontInsert(v) && Apart(Then(WriteText(t, i, u), k, v), Then(WriteText(t, j, v), i, u))
  }

  ghost predicate Apart(left: Result<string>, right: Result<string>) {
    exists x, y :: left == Success(x) && right == Success(y) && x != y
  }

  /** Neighbours do not commute when the earlier sentence no longer ends in a delimiter. */
  lemma {:induction false} NeighboursConflict(t: string, i: nat, j: nat, k: nat, u: seq<Update>)
    returns (v: seq<Update>)
    requires NoCarriageReturn(t) && j == i + 1 <= SentenceCount(t) && k == j + InsertedDelimiters(u)
    requires WriteText(t, i, u).Success? && !EndsInDelimiter(NewSentence(t, i, u))
    ensures Conflicting(t, i, u, j, k, v)
  {
    var ps, y, e, x, r, dr := CutEdit(t, i, j, u);
    v := ConflictOf(WriteText(t, i, u), t, j, k, ps, y, e, i, u, x, r, dr);
  }

  lemma {:induction false} ConflictOf(first: Result<string>, t: string, j: nat, k: nat, ps: seq<Piece>, y: string,
                                      e: Doc, i: nat, u: seq<Update>, x: string, r: string, dr: Doc)
    returns (v: seq<Update>)
    requires WellFormed(Doc(ps, "")) && |ps| == j == i + 1 && k == i + |dr.pieces|
    requires SoftEnd(ps) && Reads(y, e) && Inked(e)
    requires IsSentenceText(r, dr) && !Closed(dr) && NoCarriageReturn(r)
    requires x == RenderPieces(ps[..i]) + r + Behind(Doc(ps, ""), i) && WriteText(RenderPieces(ps), i, u) == Success(x)
    requires t == RenderPieces(ps) + y && first == Success(x + y) && first == WriteText(t, i, u)
    ensures Conflicting(t, i, u, j, k, v)
  {
    v := ConflictAround(first, t, j, k, ps, y, e, i, u, x, r, dr);
  }

  lemma {:induction false} ConflictAround(first: Result<string>, t: string, j: nat, k: nat, ps: seq<Piece>, y: string,
                                          e: Doc, i: nat, u: seq<Update>, x: string, r: string, dr: Doc)
    returns (v: seq<Update>)
    requires WellFormed(Doc(ps, "")) && |ps| == j == i + 1 && k == i + |dr.pieces|
    requires SoftEnd(ps) && Reads(y, e) && Inked(e)
    requires IsSentenceText(r, dr) && !Closed(dr) && NoCarriageReturn(r)
    requires x == RenderPieces(ps[..i]) + r + Behind(Doc(ps, ""), i) && WriteText(RenderPieces(ps), i, u) == Success(x)
    requires t == RenderPieces(ps) + y && first == Success(x + y)
    ensures IsFrontInsert(v) && Apart(Then(first, k, v), Then(WriteText(t, j, v), i, u))
  {
    var left, p;
    v, left, p := OpenThen(first, k, ps, y, i, r, dr, x);
    var right := FrontThenEdit(t, j, ps, y, e, i, u, x, v);
  }

  lemma {:induction false} OpenThen(first: Result<string>, k: nat, ps: seq<Piece>, y: string, i: nat, r: string,
                                    dr: Doc, x: string)
    returns (v: seq<Update>, left: string, p: nat)
    requires WellFormed(Doc(ps, "")) && |ps| == i + 1 && first == Success(x + y) && k == i + |dr.pieces|
    requires IsSentenceText(r, dr) && !Closed(dr) && NoCarriageReturn(r)
    requires x == RenderPieces(ps[..i]) + r + Behind(Doc(ps, ""), i)
    ensures IsFrontInsert(v) && Then(first, k, v) == Success(left)
    ensures p < |left| && p < |x| && left[p] != x[p]
  {
    v, left, p := OpenConflict(ps, y, i, r, dr, x);
  }

  /** One insertion of one word before the first. */
  ghost predicate IsFrontInsert(v: seq<Update>) {
    exists w :: IsWord(w) && v == [Update(0, w)]
  }

  lemma {:induction false} OpenConflict(ps: seq<Piece>, y: string, i: nat, r: string, dr: Doc, x: string)
    returns (v: seq<Update>, left: string, p: nat)
    requires WellFormed(Doc(ps, "")) && |ps| == i + 1
    requires IsSentenceText(r, dr) && !Closed(dr) && NoCarriageReturn(r)
    requires x == RenderPieces(ps[..i]) + r + Behind(Doc(ps, ""), i)
    ensures IsFrontInsert(v) && WriteText(x + y, i + |dr.pieces|, v) == Success(left)
    ensures p < |left| && p < |x| && left[p] != x[p]
  {
    var w := if dr.tail[0] == 'a' then "b" else "a";
    v := [Update(0, w)];
    var z := OpenFront(ps, y, i, r, dr, w);
    left := RenderPieces(ps[..i]) + RenderPieces(dr.pieces) + z;
    p := ConflictPoint(ps, i, r, dr, z);
  }

  lemma {:induction false} FrontThenEdit(t: string, j: nat, ps: seq<Piece>, y: string, e: Doc, i: nat,
                                         u: seq<Update>, x: string, v: seq<Update>)
    returns (right: string)
    requires t == RenderPieces(ps) + y && j == |ps|
    requires WellFormed(Doc(ps, "")) && i < |ps| && SoftEnd(ps) && Reads(y, e) && Inked(e)
    requires WriteText(RenderPieces(ps), i, u) == Success(x) && IsFrontInsert(v)
    ensures Then(WriteText(t, j, v), i, u) == Success(right)
    ensures |x| <= |right| && right[..|x|] == x
  {
    assert v == [Update(0, v[0].text)];
    FrontInsert(y, e, v[0].text);
    LaterThenEdit(ps, y, e, i, u, v);
    right := x + WriteText(y, 0, v).value;
  }

  lemma {:induction false} OpenFront(ps: seq<Piece>, y: string, i: nat, r: string, dr: Doc, w: string)
    returns (z: string)
    requires WellFormed(Doc(ps, "")) && |ps| == i + 1
    requires IsSentenceText(r, dr) && !Closed(dr) && NoCarriageReturn(r) && IsWord(w)
    ensures var x := RenderPieces(ps[..i]) + r + Behind(Doc(ps, ""), i);
            WriteText(x + y, i + |dr.pieces|, [Update(0, w)])
            == Success(RenderPieces(ps[..i]) + RenderPieces(dr.pieces) + z)
    ensures z != "" && z[0] == w[0]
  {
    var g, head, v := ps[i].gap, RenderPieces(ps[..i]), [Update(0, w)];
    assert Behind(Doc(ps, ""), i) == g by { assert ps[i + 1..] == []; }
    PrefixWellFormed(Doc(ps, ""), i);
    OpenEdit(ps[..i], r, dr, g + y, v);
    assert head + r + g + y == head + r + (g + y);
    var rest := dr.tail + (g + y);
    ParseSound(rest);
    FrontInsert(rest, Parse(rest), w);
    z := WriteText(rest, 0, v).value;
  }

  lemma {:induction false} ConflictPoint(ps: seq<Piece>, i: nat, r: string, dr: Doc, z: string) returns (p: nat)
    requires |ps| == i + 1 && Reads(r, dr) && dr.tail != "" && z != "" && z[0] != dr.tail[0]
    ensures var left := RenderPieces(ps[..i]) + RenderPieces(dr.pieces) + z;
            var x := RenderPieces(ps[..i]) + r + Behind(Doc(ps, ""), i);
            p < |left| && p < |x| && left[p] != x[p]
  {
    p := |RenderPieces(ps[..i])| + |RenderPieces(dr.pieces)|;
    assert r[|RenderPieces(dr.pieces)|] == dr.tail[0];
  }

  /** Every edit of the renumbered sentence j commutes with this edit of sentence i. */
  ghost predicate CommutesWithAll(t: string, i: nat, u: seq<Update>, j: nat) {
    forall v :: Commutes(t, i, u, j, v)
  }

  /** An edit of sentence i commutes with every edit of the later sentence, once that one is renumbered, exactly when
      the edited sentence still ends in a delimiter or the later one is not its right neighbour. */
  lemma {:induction false} CommuteExactly(t: string, i: nat, j: nat, u: seq<Update>)
    requires NoCarriageReturn(t) && i < j <= SentenceCount(t) && WriteText(t, i, u).Success?
    ensures CommutesWithAll(t, i, u, j) <==> EndsInDelimiter(NewSentence(t, i, u)) || j > i + 1
  {
    if EndsInDelimiter(NewSentence(t, i, u)) || j > i + 1 {
      AllCommute(t, i, j, u);
    } else {
      NotAllCommute(t, i, j, u);
    }
  }

  lemma {:induction false} NotAllCommute(t: string, i: nat, j: nat, u: seq<Update>)
    requires NoCarriageReturn(t) && j == i + 1 <= SentenceCount(t)
    requires WriteText(t, i, u).Success? && !EndsInDelimiter(NewSentence(t, i, u))
    ensures !CommutesWithAll(t, i, u, j)
  {
    var v := NeighboursConflict(t, i, j, j + InsertedDelimiters(u), u);
    assert !Commutes(t, i, u, j, v);
  }

  lemma {:induction false} AllCommute(t: string, i: nat, j: nat, u: seq<Update>)
    requires NoCarriageReturn(t) && i < j <= SentenceCount(t)
    requires WriteText(t, i, u).Success? ==> EndsInDelimiter(NewSentence(t, i, u)) || j > i + 1
    ensures CommutesWithAll(t, i, u, j)
  {
    forall v ensures Commutes(t, i, u, j, v) {
      EditsCommute(t, i, j, u, v);
    }
  }

  // ----- locality

  lemma {:induction false} TrimmedSpans(ps: seq<Piece>)
    requires WellFormed(Doc(ps, ""))
    ensures WellFormed(Doc(Trimmed(ps), "")) && SpansFrom(Trimmed(ps), 0) == SpansFrom(ps, 0)
  {
    if ps != [] {
      var last := ps[|ps| - 1];
      var init := ps[..|ps| - 1];
      var q := Piece(last.body, last.gap[..SoftSkip(last.gap, 0)]);
      assert ps == init + [last];
      assert IsPiece(last);
      PrefixWellFormed(Doc(ps, ""), |ps| - 1);
      ConcatWellFormed(init, Doc([q], ""));
      SpansConcat(init, [last], 0);
      SpansConcat(init, [q], 0);
    }
  }

  /** A text that starts with the pieces ps has their spans first. */
  lemma {:induction false} LeadingSpans(ps: seq<Piece>, z: string)
    requires WellFormed(Doc(ps, "")) && (ps != [] ==> StartsInk(z))
    ensures |Spans(RenderPieces(ps) + z)| >= |ps|
    ensures Spans(RenderPieces(ps) + z)[..|ps|] == SpansFrom(ps, 0)
  {
    ParseSound(z);
    var e := Parse(z);
    ReadsAfter(ps, z, e);
    SpansRead(RenderPieces(ps) + z, Doc(ps + e.pieces, e.tail));
    SpansConcat(ps, e.pieces, 0);
  }

  /** Spans before the edited sentence keep their place, whatever the edit. */
  lemma {:induction false} EarlierSpansStay(t: string, i: nat, u: seq<Update>)
    requires WriteText(t, i, u).Success?
    ensures i <= |Spans(t)| && i <= |Spans(WriteText(t, i, u).value)|
    ensures Spans(WriteText(t, i, u).value)[..i] == Spans(t)[..i]
  {
    var d := DocumentOf(t);
    SpansRead(t, d);
    if i < |Spans(t)| {
      EarlierThanSentence(t, d, i, u);
    } else {
      EarlierThanTail(t, d, u);
    }
  }

  lemma {:induction false} EarlierThanSentence(t: string, d: Doc, i: nat, u: seq<Update>)
    requires Reads(t, d) && i < |d.pieces| && WriteText(t, i, u).Success?
    ensures var spans := Spans(WriteText(t, i, u).value);
            |spans| >= i && spans[..i] == SpansFrom(d.pieces, 0)[..i]
  {
    var head, body, behind := d.pieces[..i], d.pieces[i].body, Behind(d, i);
    WriteAt(t, d, i, u);
    assert IsPiece(d.pieces[i]);
    var r, dr := RewrittenSentence(body, u);
    PrefixWellFormed(d, i);
    LeadingSpans(head, r + behind);
    assert RenderPieces(head) + (r + behind) == RenderPieces(head) + r + behind;
    assert d.pieces == head + d.pieces[i..];
    SpansConcat(head, d.pieces[i..], 0);
  }

  lemma {:induction false} EarlierThanTail(t: string, d: Doc, u: seq<Update>)
    requires Reads(t, d) && WriteText(t, |d.pieces|, u).Success?
    ensures var spans := Spans(WriteText(t, |d.pieces|, u).value);
            |spans| >= |d.pieces| && spans[..|d.pieces|] == SpansFrom(d.pieces, 0)
  {
    WriteTail(t, d, u);
    TrimmedSpans(d.pieces);
    var ws := ApplyAll(Tokens(d.tail), u).value;
    JoinEdges(ws);
    LeadingSpans(Trimmed(d.pieces), Join(ws));
    assert RenderPieces(Trimmed(d.pieces)) + Join(ws) + "" == RenderPieces(Trimmed(d.pieces)) + Join(ws);
  }

  /** If the rewritten sentence still ends in a delimiter, every later sentence reappears verbatim, its number
      raised by the inserted delimiters; gaps and the unfinished tail stay too. */
  lemma {:induction false} LaterSentencesStay(t: string, d: Doc, i: nat, u: seq<Update>, d': Doc)
    requires Reads(t, d) && i < |d.pieces|
    requires WriteText(t, i, u).Success? && EndsInDelimiter(NewSentence(t, i, u))
    requires Reads(WriteText(t, i, u).value, d')
    ensures |d'.pieces| == |d.pieces| + InsertedDelimiters(u) && d'.tail == d.tail
    ensures forall m :: i < m < |d.pieces| ==> d'.pieces[m + InsertedDelimiters(u)] == d.pieces[m]
    ensures d'.pieces[i + InsertedDelimiters(u)].gap == d.pieces[i].gap
  {
    var qs, e, z := LaterDoc(t, d, i, u);
    ReadsUnique(z, d', e);
    LaterPieces(d.pieces, i, qs, InsertedDelimiters(u));
  }

  lemma {:induction false} LaterDoc(t: string, d: Doc, i: nat, u: seq<Update>)
    returns (qs: seq<Piece>, d': Doc, z: string)
    requires Reads(t, d) && i < |d.pieces|
    requires WriteText(t, i, u).Success? && EndsInDelimiter(NewSentence(t, i, u))
    ensures WriteText(t, i, u) == Success(z) && Reads(z, d') && d' == Doc(qs + d.pieces[i + 1..], d.tail)
    ensures |qs| == i + 1 + InsertedDelimiters(u) && qs[i + InsertedDelimiters(u)].gap == d.pieces[i].gap
  {
    var y, e := CutAt(t, d, i + 1);
    qs, z := EditedInFront(t, d.pieces[..i + 1], y, e, i, u);
    d' := Doc(qs + e.pieces, e.tail);
  }

  lemma {:induction false} LaterPieces(ps: seq<Piece>, i: nat, qs: seq<Piece>, n: nat)
    requires i < |ps| && |qs| == i + 1 + n && qs[i + n].gap == ps[i].gap
    ensures var all := qs + ps[i + 1..];
            && |all| == |ps| + n && all[i + n].gap == ps[i].gap
            && forall m :: i < m < |ps| ==> all[m + n] == ps[m]
  {
  }

  lemma {:induction false} EditedInFront(t: string, ps: seq<Piece>, y: string, e: Doc, i: nat, u: seq<Update>)
    returns (qs: seq<Piece>, z: string)
    requires WellFormed(Doc(ps, "")) && |ps| == i + 1 && Reads(y, e) && Inked(e) && t == RenderPieces(ps) + y
    requires WriteText(t, i, u).Success? && EndsInDelimiter(NewSentence(t, i, u))
    ensures WriteText(t, i, u) == Success(z) && Reads(z, Doc(qs + e.pieces, e.tail))
    ensures |qs| == i + 1 + InsertedDelimiters(u) && qs[i + InsertedDelimiters(u)].gap == ps[i].gap
  {
    var x, r, dr := EditBefore(t, ps, y, e, i, u);
    z := x + y;
    qs := EditedPieces(ps, y, e, i, r, dr, x, z);
  }

  lemma {:induction false} EditedPieces(ps: seq<Piece>, y: string, e: Doc, i: nat, r: string, dr: Doc, x: string,
                                        z: string)
    returns (qs: seq<Piece>)
    requires WellFormed(Doc(ps, "")) && |ps| == i + 1 && IsSentenceText(r, dr) && Closed(dr) && Reads(y, e) && Inked(e)
    requires x == RenderPieces(ps[..i]) + r + Behind(Doc(ps, ""), i) && z == x + y
    ensures Reads(z, Doc(qs + e.pieces, e.tail))
    ensures |qs| == i + |dr.pieces| && qs[|qs| - 1].gap == ps[i].gap
  {
    qs := Edited(ps, i, dr);
    EditedReads(ps, i, r, dr);
    assert RenderPieces(qs) + "" == RenderPieces(qs);
    ReadsAfter(qs, y, e);
  }
}
