/** A text cut in two between sentences: an edit in one part does not see the other, and what the rewritten sentence
    and its neighbours look like afterwards. These are the proofs that the commutation theorems and their numbered
    forms share; nothing here is about two edits. */
module Splicing {
  import opened Text
  import opened Sentences
  import opened Editing
  import opened Accounting

  // ----- what the rewritten sentence looks like

  /** The new text of the sentence, as a word list that reads as dr. */
  predicate IsSentenceText(r: string, dr: Doc) {
    && r != "" && !IsBlank(r[0]) && !IsBlank(r[|r| - 1])
    && Reads(r, dr) && Inked(dr) && dr.pieces != []
  }

  /** It still ends a sentence. */
  predicate Closed(dr: Doc) {
    dr.tail == ""
  }

  predicate EndsInDelimiter(r: string) {
    r != "" && IsDelimiter(r[|r| - 1])
  }

  lemma {:induction false} ClosedIsDelimiter(r: string, dr: Doc)
    requires IsSentenceText(r, dr)
    ensures Closed(dr) <==> EndsInDelimiter(r)
    ensures Closed(dr) ==> dr.pieces[|dr.pieces| - 1].gap == ""
  {
    var last := |dr.pieces| - 1;
    LastSpan(r, dr);
    var p := dr.pieces[last];
    if dr.tail != "" {
      assert r[|r| - 1] == dr.tail[|dr.tail| - 1];
    } else {
      assert r == RenderPieces(dr.pieces[..last]) + p.body + p.gap;
    }
  }

  // ----- text that follows a sentence

  /** The pieces of r, then gap g, then the pieces rest. */
  function Follow(dr: Doc, g: string, rest: seq<Piece>): seq<Piece>
    requires dr.pieces != [] && (Closed(dr) || rest != [])
  {
    if Closed(dr) then
      var last := |dr.pieces| - 1;
      dr.pieces[..last] + [Piece(dr.pieces[last].body, g)] + rest
    else
      dr.pieces + [Piece(dr.tail + g + rest[0].body, rest[0].gap)] + rest[1..]
  }

  /** Well-formed pieces around a new one. */
  lemma {:induction false} ReadsAround(init: seq<Piece>, q: Piece, more: seq<Piece>)
    requires WellFormed(Doc(init, "")) && IsPiece(q) && (init != [] ==> StartsInk(q.body))
    requires WellFormed(Doc(more, "")) && Inked(Doc(more, ""))
    ensures Reads(RenderPieces(init) + q.body + q.gap + RenderPieces(more), Doc(init + [q] + more, ""))
  {
    assert init + ([q] + more) == init + [q] + more;
    ConcatWellFormed([q], Doc(more, ""));
    ConcatWellFormed(init, Doc([q] + more, ""));
    RenderAround(init, q, more);
  }

  lemma {:induction false} RenderAround(init: seq<Piece>, q: Piece, more: seq<Piece>)
    ensures Render(Doc(init + [q] + more, "")) == RenderPieces(init) + q.body + q.gap + RenderPieces(more)
  {
    assert init + [q] + more == init + ([q] + more);
    RenderConcat(init, [q] + more);
    RenderCons(q, more);
    Regroup(RenderPieces(init), "", "", q.body, q.gap, RenderPieces(more));
  }

  lemma {:induction false} FollowClosed(r: string, dr: Doc, g: string, rest: seq<Piece>)
    requires IsSentenceText(r, dr) && Closed(dr) && AllBlank(g)
    requires WellFormed(Doc(rest, "")) && Inked(Doc(rest, ""))
    ensures Reads(r + g + RenderPieces(rest), Doc(Follow(dr, g, rest), ""))
  {
    ClosedIsDelimiter(r, dr);
    var last := |dr.pieces| - 1;
    LastSpan(r, dr);
    assert r == RenderPieces(dr.pieces[..last]) + dr.pieces[last].body;
    PrefixWellFormed(dr, last);
    ReadsAround(dr.pieces[..last], Piece(dr.pieces[last].body, g), rest);
  }

  lemma {:induction false} FollowOpen(r: string, dr: Doc, g: string, rest: seq<Piece>)
    requires IsSentenceText(r, dr) && !Closed(dr) && AllBlank(g)
    requires rest != [] && WellFormed(Doc(rest, "")) && Inked(Doc(rest, ""))
    ensures Reads(r + g + RenderPieces(rest), Doc(Follow(dr, g, rest), ""))
  {
    ReadsAround(dr.pieces, Piece(dr.tail + g + rest[0].body, rest[0].gap), rest[1..]);
    Regroup(RenderPieces(dr.pieces), dr.tail, g, rest[0].body, rest[0].gap, RenderPieces(rest[1..]));
  }

  lemma {:induction false} Regroup(a: string, b: string, c: string, d: string, e: string, f: string)
    ensures a + (b + c + d) + e + f == (a + b) + c + (d + e + f)
  {
  }

  /** The first piece still starts with the first character of r. */
  lemma {:induction false} FollowInked(r: string, dr: Doc, g: string, rest: seq<Piece>)
    requires IsSentenceText(r, dr) && (Closed(dr) || rest != [])
    ensures Inked(Doc(Follow(dr, g, rest), ""))
  {
  }

  lemma {:induction false} PrefixWellFormed(d: Doc, k: nat)
    requires WellFormed(d) && k <= |d.pieces|
    ensures WellFormed(Doc(d.pieces[..k], ""))
  {
    var ps := d.pieces[..k];
    assert forall m :: 0 <= m < k ==> ps[m] == d.pieces[m];
  }

  lemma {:induction false} SuffixWellFormed(d: Doc, k: nat)
    requires WellFormed(d) && k <= |d.pieces|
    ensures WellFormed(Doc(d.pieces[k..], d.tail))
    ensures k > 0 ==> Inked(Doc(d.pieces[k..], d.tail))
  {
    var ps := d.pieces[k..];
    assert forall m :: 0 <= m < |ps| ==> ps[m] == d.pieces[m + k];
  }

  // ----- writes inside one part of the text do not see the other part

  function AppendTo(r: Result<string>, y: string): Result<string> {
    match r
    case Failure(e) => Failure(e)
    case Success(x) => Success(x + y)
  }

  function PrependTo(x: string, r: Result<string>): Result<string> {
    match r
    case Failure(e) => Failure(e)
    case Success(y) => Success(x + y)
  }

  /** A write to a sentence of the first part. */
  lemma {:induction false} HeadWrite(ps: seq<Piece>, y: string, e: Doc, i: nat, u: seq<Update>)
    requires WellFormed(Doc(ps, "")) && i < |ps|
    requires Reads(y, e) && Inked(e)
    ensures WriteText(RenderPieces(ps) + y, i, u) == AppendTo(WriteText(RenderPieces(ps), i, u), y)
  {
    if u != [] {
      var x, d, whole := RenderPieces(ps), Doc(ps, ""), Doc(ps + e.pieces, e.tail);
      ReadsAfter(ps, y, e);
      assert x + "" == x;
      WriteAt(x, d, i, u);
      WriteAt(x + y, whole, i, u);
      BehindConcat(ps, e, i);
      SplicedAppend(RenderPieces(ps[..i]), ps[i].body, Behind(d, i), y, u);
    }
  }

  lemma {:induction false} BehindConcat(ps: seq<Piece>, e: Doc, i: nat)
    requires i < |ps|
    ensures var whole := Doc(ps + e.pieces, e.tail);
            whole.pieces[..i] == ps[..i] && Behind(whole, i) == Behind(Doc(ps, ""), i) + Render(e)
  {
    var whole := Doc(ps + e.pieces, e.tail);
    assert whole.pieces[i + 1..] == ps[i + 1..] + e.pieces;
    RenderConcat(ps[i + 1..], e.pieces);
  }

  lemma {:induction false} SplicedAppend(a: string, s: string, b: string, c: string, u: seq<Update>)
    ensures Spliced(a, s, b + c, u) == AppendTo(Spliced(a, s, b, u), c)
  {
    var ws := ApplyAll(Tokens(s), u);
    if ws.Success? {
      assert a + Join(ws.value) + (b + c) == a + Join(ws.value) + b + c;
    }
  }

  lemma {:induction false} SplicedPrepend(a: string, b: string, s: string, c: string, u: seq<Update>)
    ensures Spliced(a + b, s, c, u) == PrependTo(a, Spliced(b, s, c, u))
  {
    var ws := ApplyAll(Tokens(s), u);
    if ws.Success? {
      assert a + b + Join(ws.value) + c == a + (b + Join(ws.value) + c);
    }
  }

  /** The first sentence, or the unfinished tail, of the second part. */
  lemma {:induction false} ShiftWrite(ps: seq<Piece>, y: string, e: Doc, v: seq<Update>)
    requires WellFormed(Doc(ps, "")) && Trimmed(ps) == ps
    requires Reads(y, e) && Inked(e)
    ensures WriteText(RenderPieces(ps) + y, |ps|, v) == PrependTo(RenderPieces(ps), WriteText(y, 0, v))
  {
    if v != [] {
      var x, whole := RenderPieces(ps), Doc(ps + e.pieces, e.tail);
      ReadsAfter(ps, y, e);
      assert x + "" == x && RenderPieces([]) == "";
      if e.pieces == [] {
        assert whole.pieces == ps;
        WriteTail(x + y, whole, v);
        WriteTail(y, e, v);
        SplicedPrepend(x, "", e.tail, "", v);
      } else {
        WriteAt(x + y, whole, |ps|, v);
        WriteAt(y, e, 0, v);
        assert whole.pieces[..|ps|] == ps && whole.pieces[|ps| + 1..] == e.pieces[1..] && e.pieces[..0] == [];
        SplicedPrepend(x, "", e.pieces[0].body, Behind(e, 0), v);
      }
    }
  }

  /** What a write makes of an inked text is inked. */
  lemma {:induction false} WriteInked(y: string, e: Doc, v: seq<Update>)
    requires Reads(y, e) && Inked(e) && WriteText(y, 0, v).Success?
    ensures StartsInk(WriteText(y, 0, v).value)
  {
    var sentence := if e.pieces == [] then e.tail else e.pieces[0].body;
    assert RenderPieces([]) == "";
    if e.pieces == [] {
      WriteTail(y, e, v);
    } else {
      WriteAt(y, e, 0, v);
      assert e.pieces[..0] == [];
      assert IsPiece(e.pieces[0]);
      InkedHasWords(sentence);
    }
    var ws := ApplyAll(Tokens(sentence), v).value;
    ApplyKeeps(Tokens(sentence), v);
    JoinEdges(ws);
  }

  // ----- the rewritten sentence in its place

  /** Sentence i of ps rewritten to r, read as dr: the pieces up to the end of ps. */
  function Edited(ps: seq<Piece>, i: nat, dr: Doc): seq<Piece>
    requires i < |ps| && dr.pieces != [] && (Closed(dr) || i + 1 < |ps|)
  {
    ps[..i] + Follow(dr, ps[i].gap, ps[i + 1..])
  }

  lemma {:induction false} EditedReads(ps: seq<Piece>, i: nat, r: string, dr: Doc)
    requires WellFormed(Doc(ps, "")) && i < |ps|
    requires IsSentenceText(r, dr) && (Closed(dr) || i + 1 < |ps|)
    ensures Reads(RenderPieces(ps[..i]) + r + (ps[i].gap + RenderPieces(ps[i + 1..]) + ""), Doc(Edited(ps, i, dr), ""))
    ensures |Edited(ps, i, dr)| == |ps| + |dr.pieces| - 1
  {
    var g, rest := ps[i].gap, ps[i + 1..];
    PrefixWellFormed(Doc(ps, ""), i);
    SuffixWellFormed(Doc(ps, ""), i + 1);
    assert IsPiece(ps[i]);
    if Closed(dr) {
      FollowClosed(r, dr, g, rest);
    } else {
      FollowOpen(r, dr, g, rest);
    }
    FollowInked(r, dr, g, rest);
    ReadsAfter(ps[..i], r + g + RenderPieces(rest), Doc(Follow(dr, g, rest), ""));
    assert RenderPieces(ps[..i]) + (r + g + RenderPieces(rest))
        == RenderPieces(ps[..i]) + r + (g + RenderPieces(rest) + "");
  }

  /** The new sentence is a printed word list with at least one delimiter. */
  lemma {:induction false} RewrittenSentence(body: string, u: seq<Update>) returns (r: string, dr: Doc)
    requires IsBody(body) && ApplyAll(Tokens(body), u).Success?
    ensures r == Join(ApplyAll(Tokens(body), u).value)
    ensures IsSentenceText(r, dr) && |dr.pieces| == DelimiterCount(r) && NoCarriageReturn(r)
    ensures Closed(dr) <==> EndsInDelimiter(r)
  {
    r := PrintedSentence(body, u);
    dr := ReadingOf(r);
    ClosedIsDelimiter(r, dr);
  }

  lemma {:induction false} PrintedSentence(body: string, u: seq<Update>) returns (r: string)
    requires IsBody(body) && ApplyAll(Tokens(body), u).Success?
    ensures r == Join(ApplyAll(Tokens(body), u).value) && NoCarriageReturn(r)
    ensures r != "" && !IsBlank(r[0]) && !IsBlank(r[|r| - 1]) && DelimiterCount(r) > 0
  {
    var ws := ApplyAll(Tokens(body), u).value;
    r := Join(ws);
    SentenceKeeps(body, u);
    BodyDelimiterCount(body);
    InkedHasWords(body);
    ApplyKeeps(Tokens(body), u);
    JoinEdges(ws);
    JoinPlain(ws);
  }

  lemma {:induction false} ReadingOf(r: string) returns (dr: Doc)
    requires StartsInk(r)
    ensures Reads(r, dr) && Inked(dr) && |dr.pieces| == DelimiterCount(r)
  {
    dr := Parse(r);
    ParseSound(r);
    SpansRead(r, dr);
    SentenceCountIsDelimiters(r);
  }

  // ----- gaps without carriage returns

  lemma {:induction false} SoftSkipAll(g: string, k: nat)
    requires k <= |g| && AllBlank(g) && NoCarriageReturn(g)
    ensures SoftSkip(g, k) == |g|
    decreases |g| - k
  {
    if k < |g| {
      assert IsBlank(g[k]);
      SoftSkipAll(g, k + 1);
    }
  }

  predicate SoftEnd(ps: seq<Piece>) {
    ps != [] ==> AllBlank(ps[|ps| - 1].gap) && NoCarriageReturn(ps[|ps| - 1].gap)
  }

  lemma {:induction false} TrimmedSame(ps: seq<Piece>)
    requires SoftEnd(ps)
    ensures Trimmed(ps) == ps
  {
    if ps != [] {
      var last := ps[|ps| - 1];
      SoftSkipAll(last.gap, 0);
      assert last.gap[..|last.gap|] == last.gap;
      assert ps == ps[..|ps| - 1] + [last];
    }
  }

  lemma {:induction false} GapsSoft(t: string, d: Doc, k: nat)
    requires Reads(t, d) && NoCarriageReturn(t) && k <= |d.pieces|
    ensures SoftEnd(d.pieces[..k])
  {
    if k > 0 {
      var p := d.pieces[k - 1];
      RenderAt(d, k - 1);
      assert IsPiece(p);
      MiddleSoft(t, RenderPieces(d.pieces[..k - 1]), p.body, p.gap, RenderPieces(d.pieces[k - 1 + 1..]), d.tail);
    }
  }

  lemma {:induction false} MiddleSoft(t: string, a: string, b: string, g: string, c: string, d: string)
    requires t == a + b + (g + c + d) && NoCarriageReturn(t)
    ensures NoCarriageReturn(g)
  {
    assert forall m :: 0 <= m < |g| ==> t[|a + b| + m] == g[m];
  }

  lemma {:induction false} EditedSoft(ps: seq<Piece>, i: nat, dr: Doc)
    requires SoftEnd(ps) && i < |ps| && dr.pieces != [] && (Closed(dr) || i + 1 < |ps|)
    ensures SoftEnd(Edited(ps, i, dr))
  {
    var rest := ps[i + 1..];
    assert rest != [] ==> rest[|rest| - 1] == ps[|ps| - 1];
  }


  function Then(r: Result<string>, i: nat, u: seq<Update>): Result<string> {
    match r
    case Failure(e) => Failure(e)
    case Success(t) => WriteText(t, i, u)
  }

  /** The new text of sentence i. */
  function NewSentence(t: string, i: nat, u: seq<Update>): string
    requires WriteText(t, i, u).Success?
  {
    var s := Target(t, i).value;
    Join(ApplyAll(Tokens(t[s.start..SpanEnd(s)]), u).value)
  }

  /** The two texts around the cut before sentence j. */
  lemma {:induction false} CutAt(t: string, d: Doc, j: nat) returns (y: string, e: Doc)
    requires Reads(t, d) && 0 < j <= |d.pieces|
    ensures e == Doc(d.pieces[j..], d.tail) && Reads(y, e) && Inked(e)
    ensures WellFormed(Doc(d.pieces[..j], "")) && t == RenderPieces(d.pieces[..j]) + y
  {
    e := Doc(d.pieces[j..], d.tail);
    y := Render(e);
    PrefixWellFormed(d, j);
    assert d.pieces == d.pieces[..j] + d.pieces[j..];
    RenderConcat(d.pieces[..j], d.pieces[j..]);
  }

  /** The same for any text without carriage returns. */
  lemma {:induction false} CutBefore(t: string, j: nat) returns (ps: seq<Piece>, y: string, e: Doc)
    requires NoCarriageReturn(t) && 0 < j <= SentenceCount(t)
    ensures WellFormed(Doc(ps, "")) && |ps| == j && SoftEnd(ps) && Reads(y, e) && Inked(e) && t == RenderPieces(ps) + y
  {
    var d := DocumentOf(t);
    ps := d.pieces[..j];
    y, e := CutAt(t, d, j);
    GapsSoft(t, d, j);
  }

  /** A successful write to sentence i < j, seen in the part before j. */
  lemma {:induction false} EditBefore(t: string, ps: seq<Piece>, y: string, e: Doc, i: nat, u: seq<Update>)
    returns (x: string, r: string, dr: Doc)
    requires WellFormed(Doc(ps, "")) && i < |ps| && Reads(y, e) && Inked(e)
    requires t == RenderPieces(ps) + y && WriteText(t, i, u).Success?
    ensures IsSentenceText(r, dr) && (Closed(dr) <==> EndsInDelimiter(r)) && NoCarriageReturn(r)
    ensures r == NewSentence(t, i, u)
    ensures |dr.pieces| == 1 + InsertedDelimiters(u)
    ensures x == RenderPieces(ps[..i]) + r + Behind(Doc(ps, ""), i)
    ensures WriteText(RenderPieces(ps), i, u) == Success(x)
    ensures WriteText(t, i, u) == Success(x + y)
  {
    HeadWrite(ps, y, e, i, u);
    assert RenderPieces(ps) + "" == RenderPieces(ps);
    WriteAt(RenderPieces(ps), Doc(ps, ""), i, u);
    assert IsPiece(ps[i]);
    r, dr := RewrittenSentence(ps[i].body, u);
    x := RenderPieces(ps[..i]) + r + Behind(Doc(ps, ""), i);
    SentenceKeeps(ps[i].body, u);
    BodyDelimiterCount(ps[i].body);
    TargetIsBody(ps, y, e, i);
  }

  /** Both together. */
  lemma {:induction false} CutEdit(t: string, i: nat, j: nat, u: seq<Update>)
    returns (ps: seq<Piece>, y: string, e: Doc, x: string, r: string, dr: Doc)
    requires NoCarriageReturn(t) && i < j <= SentenceCount(t) && WriteText(t, i, u).Success?
    ensures WellFormed(Doc(ps, "")) && |ps| == j && SoftEnd(ps) && Reads(y, e) && Inked(e) && t == RenderPieces(ps) + y
    ensures IsSentenceText(r, dr) && NoCarriageReturn(r) && |dr.pieces| == 1 + InsertedDelimiters(u)
    ensures Closed(dr) <==> EndsInDelimiter(NewSentence(t, i, u))
    ensures x == RenderPieces(ps[..i]) + r + Behind(Doc(ps, ""), i)
    ensures WriteText(RenderPieces(ps), i, u) == Success(x) && WriteText(t, i, u) == Success(x + y)
  {
    ps, y, e := CutBefore(t, j);
    x, r, dr := EditBefore(t, ps, y, e, i, u);
  }

  lemma {:induction false} TargetIsBody(ps: seq<Piece>, y: string, e: Doc, i: nat)
    requires WellFormed(Doc(ps, "")) && i < |ps| && Reads(y, e) && Inked(e)
    ensures var t := RenderPieces(ps) + y;
            Target(t, i).Some? && t[Target(t, i).value.start..SpanEnd(Target(t, i).value)] == ps[i].body
  {
    var t, whole := RenderPieces(ps) + y, Doc(ps + e.pieces, e.tail);
    ReadsAfter(ps, y, e);
    SpansRead(t, whole);
    SpanText(t, whole, i);
  }

  /** The same, followed by a write to what comes after. */
  lemma {:induction false} EditThenLater(ps: seq<Piece>, y: string, e: Doc, i: nat, r: string, dr: Doc, v: seq<Update>)
    requires WellFormed(Doc(ps, "")) && i < |ps| && SoftEnd(ps) && Reads(y, e) && Inked(e)
    requires IsSentenceText(r, dr) && (Closed(dr) || i + 1 < |ps|)
    ensures var x := RenderPieces(ps[..i]) + r + Behind(Doc(ps, ""), i);
            WriteText(x + y, |ps| + |dr.pieces| - 1, v) == PrependTo(x, WriteText(y, 0, v))
  {
    var qs := Edited(ps, i, dr);
    EditedReads(ps, i, r, dr);
    EditedSoft(ps, i, dr);
    TrimmedSame(qs);
    assert RenderPieces(qs) + "" == RenderPieces(qs);
    ShiftWrite(qs, y, e, v);
  }

  /** The later edit first, then one in the part before it. */
  lemma {:induction false} LaterThenEdit(ps: seq<Piece>, y: string, e: Doc, i: nat, u: seq<Update>, v: seq<Update>)
    requires WellFormed(Doc(ps, "")) && i < |ps| && SoftEnd(ps) && Reads(y, e) && Inked(e)
    ensures Then(WriteText(RenderPieces(ps) + y, |ps|, v), i, u)
         == match WriteText(y, 0, v)
            case Failure(c) => Failure(c)
            case Success(y') => AppendTo(WriteText(RenderPieces(ps), i, u), y')
  {
    TrimmedSame(ps);
    ShiftWrite(ps, y, e, v);
    if WriteText(y, 0, v).Success? {
      var y' := WriteText(y, 0, v).value;
      WriteInked(y, e, v);
      ParseSound(y');
      HeadWrite(ps, y', Parse(y'), i, u);
    }
  }
}
