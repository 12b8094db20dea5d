/** The proofs behind the theorems about numbers: what an edit that inserts delimiters, or puts words behind the last
    one, does to the sentences after it, and what a word put in front of a sentence does. A conflict is shown at one
    position of the two texts. */
module Shifting {
  import opened Text
  import opened Sentences
  import opened Editing
  import opened Accounting
  import opened Splicing
  import opened Commutation

  // ----- the last word

  /** No update puts words behind the last word present at that moment. */
  predicate StaysInside(count: nat, u: seq<Update>)
    decreases |u|
  {
    u == [] ||
    ((Tokens(u[0].text) == [] || u[0].index < count) && StaysInside(count + |Tokens(u[0].text)|, u[1..]))
  }

  lemma {:induction false} SentenceStays(body: string, u: seq<Update>)
    requires IsBody(body) && ApplyAll(Tokens(body), u).Success? && InsertedDelimiters(u) == 0
    ensures EndsInDelimiter(Join(ApplyAll(Tokens(body), u).value)) <==> StaysInside(|Tokens(body)|, u)
  {
    TokensLast(body);
    LastStays(Tokens(body), u);
    JoinEdges(ApplyAll(Tokens(body), u).value);
  }

  predicate LastEnds(words: seq<string>) {
    words != [] && EndsInDelimiter(words[|words| - 1])
  }

  lemma {:induction false} LastStays(words: seq<string>, u: seq<Update>)
    requires words != [] && ApplyAll(words, u).Success? && InsertedDelimiters(u) == 0
    ensures LastEnds(ApplyAll(words, u).value) <==> LastEnds(words) && StaysInside(|words|, u)
    decreases |u|
  {
    if u != [] {
      var tokens := Tokens(u[0].text);
      TokensWithout(u[0].text);
      LastStays(InsertWords(words, u[0].index, tokens), u[1..]);
    }
  }

  lemma {:induction false} TokensWithout(s: string)
    requires DelimiterCount(s) == 0
    ensures !LastEnds(Tokens(s))
    decreases |s|
  {
    if s != "" && !IsBlank(s[0]) {
      var n := WordLength(s);
      assert s == s[..n - 1] + [s[n - 1]] + s[n..];
      DelimiterCountConcat(s[..n - 1] + [s[n - 1]], s[n..]);
      DelimiterCountConcat(s[..n - 1], [s[n - 1]]);
      TokensWithout(s[n..]);
    } else if s != "" {
      TokensWithout(s[1..]);
    }
  }

  lemma {:induction false} TokensLast(s: string)
    requires s != "" && !IsBlank(s[|s| - 1])
    ensures var ws := Tokens(s); ws != [] && ws[|ws| - 1][|ws[|ws| - 1]| - 1] == s[|s| - 1]
    decreases |s|
  {
    if IsBlank(s[0]) {
      TokensLast(s[1..]);
    } else if WordLength(s) < |s| {
      TokensLast(s[WordLength(s)..]);
    }
  }

  // ----- the text after an edit that inserts delimiters

  /** After an edit of sentence i in ps the text has InsertedDelimiters(u) more pieces within the part x that ps
      became; z is what follows them. */
  lemma {:induction false} MorePieces(ps: seq<Piece>, y: string, e: Doc, i: nat, u: seq<Update>)
    returns (x: string, qs: seq<Piece>, z: string, ez: Doc)
    requires WellFormed(Doc(ps, "")) && i < |ps| && Reads(y, e) && Inked(e)
    requires WriteText(RenderPieces(ps) + y, i, u).Success?
    ensures WriteText(RenderPieces(ps), i, u) == Success(x)
    ensures WriteText(RenderPieces(ps) + y, i, u) == Success(x + y)
    ensures WellFormed(Doc(qs, "")) && Reads(z, ez) && Inked(ez) && |qs| == |ps| + InsertedDelimiters(u)
    ensures x + y == RenderPieces(qs) + z && |RenderPieces(qs)| <= |x|
  {
    var r, dr;
    x, r, dr := EditBefore(RenderPieces(ps) + y, ps, y, e, i, u);
    if Closed(dr) || i + 1 < |ps| {
      qs := ClosedPieces(ps, i, r, dr, x);
      z, ez := y, e;
    } else {
      qs, z, ez := OpenNeighbour(ps, y, i, r, dr, x);
    }
  }

  lemma {:induction false} ClosedPieces(ps: seq<Piece>, i: nat, r: string, dr: Doc, x: string) returns (qs: seq<Piece>)
    requires WellFormed(Doc(ps, "")) && i < |ps| && IsSentenceText(r, dr) && (Closed(dr) || i + 1 < |ps|)
    requires x == RenderPieces(ps[..i]) + r + Behind(Doc(ps, ""), i)
    ensures WellFormed(Doc(qs, "")) && x == RenderPieces(qs) && |qs| == |ps| + |dr.pieces| - 1
  {
    qs := Edited(ps, i, dr);
    EditedReads(ps, i, r, dr);
    assert RenderPieces(qs) + "" == RenderPieces(qs);
  }

  lemma {:induction false} OpenNeighbour(ps: seq<Piece>, y: string, i: nat, r: string, dr: Doc, x: string)
    returns (qs: seq<Piece>, z: string, ez: Doc)
    requires WellFormed(Doc(ps, "")) && |ps| == i + 1 && IsSentenceText(r, dr) && !Closed(dr) && NoCarriageReturn(r)
    requires x == RenderPieces(ps[..i]) + r + Behind(Doc(ps, ""), i)
    ensures WellFormed(Doc(qs, "")) && Reads(z, ez) && Inked(ez) && |qs| == i + |dr.pieces|
    ensures x + y == RenderPieces(qs) + z && |RenderPieces(qs)| <= |x|
  {
    var head, behind := ps[..i], Behind(Doc(ps, ""), i);
    PrefixWellFormed(Doc(ps, ""), i);
    OpenHead(head, r, dr);
    RenderConcat(head, dr.pieces);
    qs, z := head + dr.pieces, dr.tail + behind + y;
    ez := ReadingOf(z);
    assert x + y == RenderPieces(qs) + z;
  }

  // ----- a word put in front of a sentence inside that part

  /** Where piece j starts. */
  lemma {:induction false} PieceStart(qs: seq<Piece>, z: string, ez: Doc, j: nat) returns (p: nat)
    requires WellFormed(Doc(qs, "")) && j < |qs| && Reads(z, ez) && Inked(ez)
    ensures p == |RenderPieces(qs[..j])| < |RenderPieces(qs)|
  {
    p := |RenderPieces(qs[..j])|;
    assert qs == qs[..j] + qs[j..];
    RenderConcat(qs[..j], qs[j..]);
    assert IsPiece(qs[j]);
    assert qs[j..][0] == qs[j];
  }

  lemma {:induction false} FrontOfPiece(qs: seq<Piece>, z: string, ez: Doc, j: nat, w: string) returns (left: string)
    requires WellFormed(Doc(qs, "")) && j < |qs| && Reads(z, ez) && Inked(ez) && IsWord(w)
    ensures WriteText(RenderPieces(qs) + z, j, [Update(0, w)]) == Success(left)
    ensures var p := |RenderPieces(qs[..j])|; p < |left| && left[p] == w[0]
  {
    var d := Doc(qs + ez.pieces, ez.tail);
    ReadsAfter(qs, z, ez);
    FrontWord(RenderPieces(qs) + z, d, j, w);
    assert d.pieces[..j] == qs[..j] && d.pieces[j] == qs[j];
    var words := [w] + Tokens(qs[j].body);
    JoinEdges(words);
    left := RenderPieces(qs[..j]) + Join(words) + Behind(d, j);
  }

  /** One word inserted in front of sentence j. */
  lemma {:induction false} FrontWord(t: string, d: Doc, j: nat, w: string)
    requires Reads(t, d) && j < |d.pieces| && IsWord(w)
    ensures WriteText(t, j, [Update(0, w)])
         == Success(RenderPieces(d.pieces[..j]) + Join([w] + Tokens(d.pieces[j].body)) + Behind(d, j))
  {
    var v, words := [Update(0, w)], Tokens(d.pieces[j].body);
    WriteAt(t, d, j, v);
    TokensOfWord(w);
    assert v[1..] == [];
    assert InsertWords(words, 0, [w]) == [w] + words;
    assert ApplyAll(words, v) == Success([w] + words);
  }

  // ----- inserted delimiters always conflict with some later edit

  lemma {:induction false} ShiftedConflict(t: string, ps: seq<Piece>, y: string, e: Doc, i: nat, j: nat,
                                           u: seq<Update>)
    returns (v: seq<Update>)
    requires WellFormed(Doc(ps, "")) && i < |ps| == j && SoftEnd(ps) && Reads(y, e) && Inked(e)
    requires t == RenderPieces(ps) + y && WriteText(t, i, u).Success? && InsertedDelimiters(u) > 0
    ensures Conflicting(t, i, u, j, j, v)
  {
    var x, qs, z, ez := MorePieces(ps, y, e, i, u);
    v := ShiftedOf(WriteText(t, i, u), t, j, ps, y, e, i, u, x, qs, z, ez);
  }

  lemma {:induction false} ShiftedOf(first: Result<string>, t: string, j: nat, ps: seq<Piece>, y: string, e: Doc,
                                     i: nat, u: seq<Update>, x: string, qs: seq<Piece>, z: string, ez: Doc)
    returns (v: seq<Update>)
    requires WellFormed(Doc(ps, "")) && i < |ps| == j && SoftEnd(ps) && Reads(y, e) && Inked(e)
    requires t == RenderPieces(ps) + y && WriteText(RenderPieces(ps), i, u) == Success(x) && first == Success(x + y)
    requires WellFormed(Doc(qs, "")) && j < |qs| && Reads(z, ez) && Inked(ez)
    requires x + y == RenderPieces(qs) + z && |RenderPieces(qs)| <= |x|
    ensures IsFrontInsert(v) && Apart(Then(first, j, v), Then(WriteText(t, j, v), i, u))
  {
    var left, p;
    v, left, p := OtherFront(x, qs, z, ez, j);
    var right := FrontThenEdit(t, j, ps, y, e, i, u, x, v);
  }

  lemma {:induction false} OtherFront(x: string, qs: seq<Piece>, z: string, ez: Doc, j: nat)
    returns (v: seq<Update>, left: string, p: nat)
    requires WellFormed(Doc(qs, "")) && j < |qs| && Reads(z, ez) && Inked(ez) && |RenderPieces(qs)| <= |x|
    ensures IsFrontInsert(v) && WriteText(RenderPieces(qs) + z, j, v) == Success(left)
    ensures p < |left| && p < |x| && left[p] != x[p]
  {
    p := PieceStart(qs, z, ez, j);
    var w := if x[p] == 'a' then "b" else "a";
    v := [Update(0, w)];
    left := FrontOfPiece(qs, z, ez, j, w);
  }

  // ----- the family

  lemma {:induction false} FrontOfFirst(a: string, b: string, x: string)
    requires IsWord(a) && IsBody(a) && IsBody(b) && StartsInk(b) && IsWord(x)
    ensures WriteText(a + " " + b, 0, [Update(0, x)]) == Success(x + " " + a + " " + b)
  {
    var t := FrontOfWord(a + " " + b, [], Piece(a, " "), [Piece(b, "")], [Update(0, x)]);
    assert t == x + " " + a + " " + b;
  }

  lemma {:induction false} FrontOfThree(a: string, b: string, c: string, x: string)
    requires IsWord(a) && IsBody(a) && IsBody(b + " " + c) && StartsInk(b + " " + c) && IsWord(x)
    ensures WriteText(a + " " + b + " " + c, 0, [Update(0, x)]) == Success(x + " " + a + " " + b + " " + c)
  {
    FrontOfFirst(a, b + " " + c, x);
    assert a + " " + (b + " " + c) == a + " " + b + " " + c;
    assert x + " " + a + " " + (b + " " + c) == x + " " + a + " " + b + " " + c;
  }

  lemma {:induction false} FrontOfMiddle(a: string, b: string, c: string, x: string)
    requires IsBody(a) && IsWord(b) && IsBody(b) && IsBody(c) && StartsInk(c) && IsWord(x)
    ensures WriteText(a + " " + b + " " + c, 1, [Update(0, x)]) == Success(a + " " + x + " " + b + " " + c)
  {
    var before, after := [Piece(a, " ")], [Piece(c, "")];
    var t := FrontOfWord(a + " " + b + " " + c, before, Piece(b, " "), after, [Update(0, x)]);
    assert Short(before) == a + " " && Short(after) == c;
    assert t == a + " " + x + " " + b + " " + c;
  }

  lemma {:induction false} FrontOfSecond(a: string, b: string, x: string)
    requires IsBody(a) && IsWord(b) && IsBody(b) && IsWord(x)
    ensures WriteText(a + " " + b, 1, [Update(0, x)]) == Success(a + " " + x + " " + b)
  {
    var before := [Piece(a, " ")];
    var t := FrontOfWord(a + " " + b, before, Piece(b, ""), [], [Update(0, x)]);
    assert Short(before) == a + " " && Short([]) == "";
    assert t == a + " " + x + " " + b;
  }

  lemma {:induction false} FrontOfWord(t: string, before: seq<Piece>, p: Piece, after: seq<Piece>, v: seq<Update>)
    returns (r: string)
    requires |before| <= 1 && |after| <= 1 && IsWord(p.body) && IsFrontInsert(v)
    requires WellFormed(Doc(before, "")) && WellFormed(Doc(after, "")) && Inked(Doc(after, "")) && IsPiece(p)
    requires before != [] ==> StartsInk(p.body)
    requires t == Short(before) + p.body + p.gap + Short(after)
    ensures r == Short(before) + (v[0].text + " " + p.body) + (p.gap + Short(after))
    ensures WriteText(t, |before|, v) == Success(r)
  {
    var d, w := Doc(before + [p] + after, ""), v[0].text;
    assert v == [Update(0, w)];
    RenderShort(before);
    RenderShort(after);
    ReadsAround(before, p, after);
    FrontWord(t, d, |before|, w);
    TokensOfWord(p.body);
    assert d.pieces[..|before|] == before && d.pieces[|before| + 1..] == after && d.pieces[|before|] == p;
    assert Behind(d, |before|) == p.gap + Short(after);
    r := Short(before) + (w + " " + p.body) + (p.gap + Short(after));
  }

  function Short(ps: seq<Piece>): string
    requires |ps| <= 1
  {
    if ps == [] then "" else ps[0].body + ps[0].gap
  }

  lemma {:induction false} RenderShort(ps: seq<Piece>)
    requires |ps| <= 1
    ensures RenderPieces(ps) == Short(ps)
  {
    assert ps != [] ==> ps[1..] == [] && RenderPieces(ps[1..]) == "";
  }
}
