/** How a text is cut into sentences: reference parse, printer, and the span loop. */
module Sentences {
  import opened Text

  /** One finished sentence and the white space that follows it. */
  datatype Piece = Piece(body: string, gap: string)

  /** A whole text: finished sentences, then an unfinished tail. */
  datatype Doc = Doc(pieces: seq<Piece>, tail: string)

  datatype Span = Span(start: nat, length: nat)

  // ----- scanning

  function FirstDelimiter(s: string): (n: nat)
    ensures n <= |s|
    ensures forall k :: 0 <= k < n ==> !IsDelimiter(s[k])
    ensures n < |s| ==> IsDelimiter(s[n])
  {
    if s == "" || IsDelimiter(s[0]) then 0 else 1 + FirstDelimiter(s[1..])
  }

  function BlankPrefix(s: string): (n: nat)
    ensures n <= |s|
    ensures forall k :: 0 <= k < n ==> IsBlank(s[k])
    ensures n < |s| ==> !IsBlank(s[n])
  {
    if s == "" || !IsBlank(s[0]) then 0 else 1 + BlankPrefix(s[1..])
  }

  /** Reference parse: sentence, gap, sentence, gap, ..., tail. */
  function Parse(t: string): Doc
    decreases |t|
  {
    var k := FirstDelimiter(t);
    if k == |t| then Doc([], t)
    else
      var after := t[k + 1..];
      var g := BlankPrefix(after);
      var rest := Parse(after[g..]);
      Doc([Piece(t[..k + 1], after[..g])] + rest.pieces, rest.tail)
  }

  function RenderPieces(ps: seq<Piece>): string {
    if ps == [] then "" else ps[0].body + ps[0].gap + RenderPieces(ps[1..])
  }

  function Render(d: Doc): string {
    RenderPieces(d.pieces) + d.tail
  }

  // ----- well-formed documents

  predicate NoDelimiter(s: string) {
    forall k :: 0 <= k < |s| ==> !IsDelimiter(s[k])
  }

  predicate AllBlank(s: string) {
    forall k :: 0 <= k < |s| ==> IsBlank(s[k])
  }

  predicate StartsInk(s: string) {
    s != "" ==> !IsBlank(s[0])
  }

  /** A body holds exactly one delimiter, as its last character. */
  predicate IsBody(b: string) {
    b != "" && IsDelimiter(b[|b| - 1]) && NoDelimiter(b[..|b| - 1])
  }

  predicate IsPiece(p: Piece) {
    IsBody(p.body) && AllBlank(p.gap)
  }

  /** Pieces are maximal: whatever follows a gap starts with a non-blank character. */
  predicate WellFormed(d: Doc) {
    && (forall k :: 0 <= k < |d.pieces| ==> IsPiece(d.pieces[k]))
    && (forall k :: 1 <= k < |d.pieces| ==> StartsInk(d.pieces[k].body))
    && NoDelimiter(d.tail)
    && (d.pieces != [] ==> StartsInk(d.tail))
  }

  /** The first thing in the document is not white space. */
  predicate Inked(d: Doc) {
    if d.pieces == [] then StartsInk(d.tail) else StartsInk(d.pieces[0].body)
  }

  /** d is a well-formed reading of t. */
  predicate Reads(t: string, d: Doc) {
    WellFormed(d) && Render(d) == t
  }

  lemma {:induction false} DelimiterScan(s: string, n: nat)
    requires n <= |s| && (forall k :: 0 <= k < n ==> !IsDelimiter(s[k])) && (n < |s| ==> IsDelimiter(s[n]))
    ensures FirstDelimiter(s) == n
  {
  }

  lemma {:induction false} BlankScan(s: string, n: nat)
    requires n <= |s| && (forall k :: 0 <= k < n ==> IsBlank(s[k])) && (n < |s| ==> !IsBlank(s[n]))
    ensures BlankPrefix(s) == n
  {
  }

  /** One step of the parse, read forwards. */
  lemma {:induction false} ParseCons(p: Piece, y: string)
    requires IsPiece(p) && StartsInk(y)
    ensures Parse(p.body + p.gap + y) == Doc([p] + Parse(y).pieces, Parse(y).tail)
  {
    var t, after := p.body + p.gap + y, p.gap + y;
    FirstEnds(p.body, after);
    assert t == p.body + after;
    assert t[..|p.body|] == p.body && t[|p.body|..] == after;
    BlankScan(after, |p.gap|);
    assert after[|p.gap|..] == y && after[..|p.gap|] == p.gap;
  }

  lemma {:induction false} FirstEnds(body: string, after: string)
    requires IsBody(body)
    ensures FirstDelimiter(body + after) == |body| - 1
  {
    var t, k := body + after, |body| - 1;
    assert forall m :: 0 <= m < k ==> t[m] == body[..k][m];
    DelimiterScan(t, k);
  }

  /** One step of the parse, read backwards: a text with a delimiter splits off its first piece. */
  lemma {:induction false} ParseStep(t: string) returns (p: Piece, y: string)
    requires FirstDelimiter(t) < |t|
    ensures t == p.body + p.gap + y && IsPiece(p) && StartsInk(y)
    ensures |y| < |t|
    ensures StartsInk(t) ==> StartsInk(p.body)
  {
    var k := FirstDelimiter(t);
    var after := t[k + 1..];
    var next := k + 1 + BlankPrefix(after);
    assert forall m :: k < m < |t| ==> t[m] == after[m - k - 1];
    PieceAt(t, 0, k, next);
    p, y := Piece(t[0..k + 1], t[k + 1..next]), t[next..];
  }

  lemma {:induction false} ConcatWellFormed(ps: seq<Piece>, d: Doc)
    requires WellFormed(Doc(ps, "")) && WellFormed(d)
    requires ps != [] ==> Inked(d)
    ensures WellFormed(Doc(ps + d.pieces, d.tail))
  {
    var qs := ps + d.pieces;
    forall k | 1 <= k < |qs| ensures StartsInk(qs[k].body) {
      if k > |ps| {
        assert StartsInk(d.pieces[k - |ps|].body);
      }
    }
  }

  lemma {:induction false} ConsReads(p: Piece, y: string, d: Doc)
    requires IsPiece(p) && Reads(y, d) && Inked(d)
    ensures Reads(p.body + p.gap + y, Doc([p] + d.pieces, d.tail))
  {
    ConcatWellFormed([p], d);
    RenderCons(p, d.pieces);
    assert p.body + p.gap + RenderPieces(d.pieces) + d.tail == p.body + p.gap + (RenderPieces(d.pieces) + d.tail);
  }

  /** Parsing loses nothing and always yields a well-formed document. */
  lemma {:induction false} ParseSound(t: string)
    ensures Reads(t, Parse(t))
    ensures StartsInk(t) ==> Inked(Parse(t))
    decreases |t|
  {
    if FirstDelimiter(t) < |t| {
      var p, y := ParseStep(t);
      ParseSound(y);
      ConsReads(p, y, Parse(y));
      ParseCons(p, y);
    } else {
      assert Render(Doc([], t)) == t;
    }
  }

  /** The parse is the only well-formed reading of a text. */
  lemma {:induction false} ParseUnique(d: Doc)
    requires WellFormed(d)
    ensures Parse(Render(d)) == d
    ensures Inked(d) ==> StartsInk(Render(d))
    decreases |d.pieces|
  {
    if d.pieces == [] {
      assert Render(d) == d.tail;
      DelimiterScan(d.tail, |d.tail|);
    } else {
      var p, rest := d.pieces[0], Doc(d.pieces[1..], d.tail);
      ParseUnique(rest);
      RenderFirst(d);
      assert IsPiece(p);
      ParseCons(p, Render(rest));
      assert d.pieces == [p] + rest.pieces;
    }
  }

  lemma {:induction false} RenderFirst(d: Doc)
    requires d.pieces != []
    ensures Render(d) == d.pieces[0].body + d.pieces[0].gap + Render(Doc(d.pieces[1..], d.tail))
  {
  }

  lemma {:induction false} ReadsUnique(t: string, d: Doc, e: Doc)
    requires Reads(t, d) && Reads(t, e)
    ensures d == e
  {
    ParseUnique(d);
    ParseUnique(e);
  }

  // ----- rendering pieces

  lemma {:induction false} RenderCons(p: Piece, ps: seq<Piece>)
    ensures RenderPieces([p] + ps) == p.body + p.gap + RenderPieces(ps)
  {
    assert ([p] + ps)[1..] == ps;
  }

  lemma {:induction false} RenderConcat(a: seq<Piece>, b: seq<Piece>)
    ensures RenderPieces(a + b) == RenderPieces(a) + RenderPieces(b)
    decreases |a|
  {
    if a == [] {
      assert a + b == b;
    } else {
      assert (a + b)[1..] == a[1..] + b;
      RenderConcat(a[1..], b);
    }
  }

  /** Splitting a document at piece i. */
  lemma {:induction false} RenderAt(d: Doc, i: nat)
    requires i < |d.pieces|
    ensures Render(d) == RenderPieces(d.pieces[..i]) + d.pieces[i].body
                         + (d.pieces[i].gap + RenderPieces(d.pieces[i + 1..]) + d.tail)
  {
    assert d.pieces == d.pieces[..i] + d.pieces[i..];
    RenderConcat(d.pieces[..i], d.pieces[i..]);
    assert d.pieces[i..][1..] == d.pieces[i + 1..];
  }

  /** Text put after a stretch of pieces is read on its own. */
  lemma {:induction false} ReadsAfter(ps: seq<Piece>, y: string, d: Doc)
    requires WellFormed(Doc(ps, "")) && Reads(y, d)
    requires ps != [] ==> Inked(d)
    ensures Reads(RenderPieces(ps) + y, Doc(ps + d.pieces, d.tail))
  {
    ConcatWellFormed(ps, d);
    RenderConcat(ps, d.pieces);
    assert RenderPieces(ps) + RenderPieces(d.pieces) + d.tail == RenderPieces(ps) + (RenderPieces(d.pieces) + d.tail);
  }

  // ----- sentences and spans

  function SpansFrom(ps: seq<Piece>, base: nat): (r: seq<Span>)
    ensures |r| == |ps|
  {
    if ps == [] then []
    else [Span(base, |ps[0].body|)] + SpansFrom(ps[1..], base + |ps[0].body| + |ps[0].gap|)
  }

  /** The spans a left-to-right scan finds. */
  function Spans(t: string): seq<Span> {
    RestSpans(t, 0, 0)
  }

  function SentenceCount(t: string): nat {
    |Spans(t)|
  }

  lemma {:induction false} SpanAt(ps: seq<Piece>, base: nat, k: nat)
    requires k < |ps|
    ensures SpansFrom(ps, base)[k] == Span(base + |RenderPieces(ps[..k])|, |ps[k].body|)
    decreases |ps|
  {
    if k > 0 {
      SpanAt(ps[1..], base + |ps[0].body| + |ps[0].gap|, k - 1);
      assert ps[..k][1..] == ps[1..][..k - 1];
    }
  }

  lemma {:induction false} SpansConcat(a: seq<Piece>, b: seq<Piece>, base: nat)
    ensures SpansFrom(a + b, base) == SpansFrom(a, base) + SpansFrom(b, base + |RenderPieces(a)|)
    decreases |a|
  {
    if a == [] {
      assert a + b == b;
    } else {
      assert (a + b)[1..] == a[1..] + b;
      SpansConcat(a[1..], b, base + |a[0].body| + |a[0].gap|);
    }
  }

  /** What the span loop still has to emit when it stands at i inside a sentence begun at start. */
  function RestSpans(text: string, start: nat, i: nat): seq<Span>
    requires start <= i <= |text|
    decreases |text| - i
  {
    if i == |text| then []
    else if IsDelimiter(text[i]) then
      var next := i + 1 + BlankPrefix(text[i + 1..]);
      [Span(start, i + 1 - start)] + RestSpans(text, next, next)
    else RestSpans(text, start, i + 1)
  }

  /** The span loop, which moves its own loop variable past the gap after each sentence. */
  method ComputeSpans(text: string) returns (spans: seq<Span>)
    ensures spans == Spans(text)
    ensures CutsIntoSentences(text, spans) && |spans| == DelimiterCount(text)
  {
    spans := [];
    var start := 0;
    var i := 0;
    while i < |text|
      invariant 0 <= start <= i <= |text|
      invariant spans + RestSpans(text, start, i) == Spans(text)
      decreases |text| - i
    {
      var c := text[i];
      if c == '.' || c == '!' || c == '?' {
        var end := i + 1;
        spans := spans + [Span(start, end - start)];
        start := SkipBlanks(text, end);
        i := if start != 0 then start - 1 else 0;
      }
      i := i + 1;
    }
    SpanCharacterisation(text);
  }

  lemma {:induction false} ScanIsParse(text: string)
    ensures Spans(text) == SpansFrom(Parse(text).pieces, 0)
  {
    ParseSound(text);
    SpansRead(text, Parse(text));
  }

  lemma {:induction false} SpansInside(text: string, start: nat, i: nat)
    requires start <= i <= |text|
    ensures forall k :: 0 <= k < |RestSpans(text, start, i)| ==> SpanEnd(RestSpans(text, start, i)[k]) <= |text|
    decreases |text| - i
  {
    if i < |text| {
      if IsDelimiter(text[i]) {
        var next := i + 1 + BlankPrefix(text[i + 1..]);
        SpansInside(text, next, next);
      } else {
        SpansInside(text, start, i + 1);
      }
    }
  }

  lemma {:induction false} SpansRead(t: string, d: Doc)
    requires Reads(t, d)
    ensures Spans(t) == SpansFrom(d.pieces, 0)
  {
    assert t[0..] == t;
    ScanFrom(t, 0, 0, d);
  }

  lemma {:induction false} DocumentOf(t: string) returns (d: Doc)
    ensures Reads(t, d) && |d.pieces| == SentenceCount(t)
  {
    d := Parse(t);
    ParseSound(t);
    SpansRead(t, d);
  }

  lemma {:induction false} ScanFrom(text: string, start: nat, i: nat, d: Doc)
    requires start <= i <= |text| && Reads(text[start..], d)
    requires forall k :: start <= k < i ==> !IsDelimiter(text[k])
    ensures RestSpans(text, start, i) == SpansFrom(d.pieces, start)
    decreases |text| - i
  {
    if i == |text| {
      NoMoreSentences(text, start, d);
    } else if IsDelimiter(text[i]) {
      var next := i + 1 + BlankPrefix(text[i + 1..]);
      var rest := OneSentence(text, start, i, next, d);
      ScanFrom(text, next, next, rest);
    } else {
      ScanFrom(text, start, i + 1, d);
    }
  }

  method SkipBlanks(text: string, from: nat) returns (start: nat)
    requires from <= |text|
    ensures start == from + BlankPrefix(text[from..])
  {
    start := from;
    while start < |text| && (text[start] == ' ' || text[start] == '\n' || text[start] == '\r' || text[start] == '\t')
      invariant from <= start <= |text|
      invariant forall k :: from <= k < start ==> IsBlank(text[k])
    {
      start := start + 1;
    }
    BlankScan(text[from..], start - from);
  }

  lemma {:induction false} OneSentence(text: string, from: nat, i: nat, next: nat, d: Doc) returns (rest: Doc)
    requires from <= i < next <= |text| && Reads(text[from..], d)
    requires (forall k :: from <= k < i ==> !IsDelimiter(text[k])) && IsDelimiter(text[i])
    requires next == i + 1 + BlankPrefix(text[i + 1..])
    ensures Reads(text[next..], rest)
    ensures SpansFrom(d.pieces, from) == [Span(from, i + 1 - from)] + SpansFrom(rest.pieces, next)
  {
    var p := Piece(text[from..i + 1], text[i + 1..next]);
    PieceAt(text, from, i, next);
    rest := ParsedTail(text[next..]);
    assert text[from..] == p.body + p.gap + text[next..];
    FirstPiece(text[from..], d, p, text[next..], rest);
    SpansCons(p, rest.pieces, from);
  }

  lemma {:induction false} ParsedTail(y: string) returns (d: Doc)
    requires StartsInk(y)
    ensures Reads(y, d) && Inked(d)
  {
    ParseSound(y);
    d := Parse(y);
  }

  lemma {:induction false} FirstPiece(t: string, d: Doc, p: Piece, y: string, rest: Doc)
    requires Reads(t, d) && IsPiece(p) && t == p.body + p.gap + y
    requires Reads(y, rest) && Inked(rest)
    ensures d == Doc([p] + rest.pieces, rest.tail)
  {
    ConsReads(p, y, rest);
    ReadsUnique(t, d, Doc([p] + rest.pieces, rest.tail));
  }

  lemma {:induction false} SpansCons(p: Piece, ps: seq<Piece>, base: nat)
    ensures SpansFrom([p] + ps, base) == [Span(base, |p.body|)] + SpansFrom(ps, base + |p.body| + |p.gap|)
  {
    assert ([p] + ps)[1..] == ps;
  }

  lemma {:induction false} PieceAt(text: string, from: nat, i: nat, next: nat)
    requires from <= i < next <= |text|
    requires (forall k :: from <= k < i ==> !IsDelimiter(text[k])) && IsDelimiter(text[i])
    requires forall k :: i < k < next ==> IsBlank(text[k])
    ensures IsPiece(Piece(text[from..i + 1], text[i + 1..next]))
  {
    var body, gap := text[from..i + 1], text[i + 1..next];
    var front := body[..|body| - 1];
    assert body[|body| - 1] == text[i];
    forall k | 0 <= k < |front| ensures !IsDelimiter(front[k]) {
      assert front[k] == text[from + k];
    }
    forall k | 0 <= k < |gap| ensures IsBlank(gap[k]) {
      assert gap[k] == text[i + 1 + k];
    }
  }

  lemma {:induction false} NoMoreSentences(text: string, from: nat, d: Doc)
    requires from <= |text| && forall k :: from <= k < |text| ==> !IsDelimiter(text[k])
    requires Reads(text[from..], d)
    ensures d.pieces == []
  {
    assert Render(Doc([], text[from..])) == text[from..];
    ReadsUnique(text[from..], d, Doc([], text[from..]));
  }

  /** Number of delimiters in a string. */
  function DelimiterCount(s: string): nat {
    if s == "" then 0 else (if IsDelimiter(s[0]) then 1 else 0) + DelimiterCount(s[1..])
  }

  lemma {:induction false} DelimiterCountConcat(a: string, b: string)
    ensures DelimiterCount(a + b) == DelimiterCount(a) + DelimiterCount(b)
    decreases |a|
  {
    if a == "" {
      assert a + b == b;
    } else {
      assert (a + b)[1..] == a[1..] + b;
      DelimiterCountConcat(a[1..], b);
    }
  }

  lemma {:induction false} NoDelimiterCount(s: string)
    requires NoDelimiter(s)
    ensures DelimiterCount(s) == 0
    decreases |s|
  {
    if s != "" {
      NoDelimiterCount(s[1..]);
    }
  }

  lemma {:induction false} BodyDelimiterCount(b: string)
    requires IsBody(b)
    ensures DelimiterCount(b) == 1
  {
    var n := |b| - 1;
    assert b == b[..n] + [b[n]];
    DelimiterCountConcat(b[..n], [b[n]]);
    NoDelimiterCount(b[..n]);
    assert [b[n]][1..] == "";
  }

  lemma {:induction false} PiecesDelimiterCount(ps: seq<Piece>)
    requires forall k :: 0 <= k < |ps| ==> IsPiece(ps[k])
    ensures DelimiterCount(RenderPieces(ps)) == |ps|
    decreases |ps|
  {
    if ps != [] {
      PiecesDelimiterCount(ps[1..]);
      BodyDelimiterCount(ps[0].body);
      NoDelimiterCount(ps[0].gap);
      DelimiterCountConcat(ps[0].body, ps[0].gap);
      DelimiterCountConcat(ps[0].body + ps[0].gap, RenderPieces(ps[1..]));
    }
  }

  /** The number of sentences is the number of delimiters. */
  lemma {:induction false} SentenceCountIsDelimiters(t: string)
    ensures SentenceCount(t) == DelimiterCount(t)
  {
    ParseSound(t);
    var d := Parse(t);
    SpansRead(t, d);
    PiecesDelimiterCount(d.pieces);
    NoDelimiterCount(d.tail);
    DelimiterCountConcat(RenderPieces(d.pieces), d.tail);
  }

  /** Where span k of t begins and ends. */
  function SpanEnd(s: Span): nat { s.start + s.length }

  /** What the spans of any text look like: ordered, disjoint, each ending in its only delimiter,
      nothing but white space between two of them, and no delimiter after the last. */
  ghost predicate CutsIntoSentences(t: string, spans: seq<Span>) {
    && (forall k :: 0 <= k < |spans| ==> SpanEnd(spans[k]) <= |t| && IsBody(t[spans[k].start..SpanEnd(spans[k])]))
    && (forall k :: 0 <= k < |spans| - 1 ==>
          SpanEnd(spans[k]) <= spans[k + 1].start && AllBlank(t[SpanEnd(spans[k])..spans[k + 1].start]))
    && (forall k :: 1 <= k < |spans| ==> StartsInk(t[spans[k].start..SpanEnd(spans[k])]))
    && (spans != [] ==> spans[0].start == 0)
    && NoDelimiter(t[if spans == [] then 0 else SpanEnd(spans[|spans| - 1])..])
  }

  /** Span k of a document read as d. */
  lemma {:induction false} SpanText(t: string, d: Doc, k: nat)
    requires Reads(t, d) && k < |d.pieces|
    ensures var s := SpansFrom(d.pieces, 0)[k];
            && s.start == |RenderPieces(d.pieces[..k])|
            && SpanEnd(s) <= |t| && t[s.start..SpanEnd(s)] == d.pieces[k].body
            && t[SpanEnd(s)..] == d.pieces[k].gap + RenderPieces(d.pieces[k + 1..]) + d.tail
  {
    RenderAt(d, k);
    SpanAt(d.pieces, 0, k);
  }

  lemma {:induction false} SpanCharacterisation(t: string)
    ensures CutsIntoSentences(t, Spans(t))
    ensures |Spans(t)| == DelimiterCount(t)
  {
    SentenceCountIsDelimiters(t);
    ParseSound(t);
    ScanIsParse(t);
    SpansCut(t, Parse(t));
  }

  lemma {:induction false} SpansCut(t: string, d: Doc)
    requires Reads(t, d)
    ensures CutsIntoSentences(t, SpansFrom(d.pieces, 0))
  {
    var spans := SpansFrom(d.pieces, 0);
    forall k | 0 <= k < |spans|
      ensures SpanEnd(spans[k]) <= |t| && IsBody(t[spans[k].start..SpanEnd(spans[k])])
      ensures k > 0 ==> StartsInk(t[spans[k].start..SpanEnd(spans[k])])
    {
      SpanText(t, d, k);
      assert IsPiece(d.pieces[k]);
    }
    forall k | 0 <= k < |spans| - 1
      ensures SpanEnd(spans[k]) <= spans[k + 1].start && AllBlank(t[SpanEnd(spans[k])..spans[k + 1].start])
    {
      GapBetween(t, d, k);
    }
    AfterLastSpan(t, d);
  }

  lemma {:induction false} GapBetween(t: string, d: Doc, k: nat)
    requires Reads(t, d) && k + 1 < |d.pieces|
    ensures var a, b := SpansFrom(d.pieces, 0)[k], SpansFrom(d.pieces, 0)[k + 1];
            SpanEnd(a) <= b.start <= |t| && AllBlank(t[SpanEnd(a)..b.start])
  {
    SpanText(t, d, k);
    SpanText(t, d, k + 1);
    NextStart(d.pieces, k);
    assert IsPiece(d.pieces[k]);
    var e := SpanEnd(SpansFrom(d.pieces, 0)[k]);
    assert forall m :: 0 <= m < |d.pieces[k].gap| ==> t[e..][m] == d.pieces[k].gap[m];
  }

  lemma {:induction false} AfterLastSpan(t: string, d: Doc)
    requires Reads(t, d)
    ensures var spans := SpansFrom(d.pieces, 0);
            && (spans != [] ==> spans[0].start == 0 && SpanEnd(spans[|spans| - 1]) <= |t|)
            && NoDelimiter(t[if spans == [] then 0 else SpanEnd(spans[|spans| - 1])..])
  {
    if d.pieces == [] {
      assert t[0..] == d.tail;
    } else {
      var last := |d.pieces| - 1;
      SpanText(t, d, last);
      assert d.pieces[last + 1..] == [];
      assert IsPiece(d.pieces[last]);
      BlankHasNoDelimiter(d.pieces[last].gap, d.tail);
      assert d.pieces[last].gap + RenderPieces([]) + d.tail == d.pieces[last].gap + d.tail;
    }
  }

  lemma {:induction false} BlankHasNoDelimiter(g: string, s: string)
    requires AllBlank(g) && NoDelimiter(s)
    ensures NoDelimiter(g + s)
  {
  }

  lemma {:induction false} NextStart(ps: seq<Piece>, k: nat)
    requires k + 1 < |ps|
    ensures |RenderPieces(ps[..k + 1])| == |RenderPieces(ps[..k])| + |ps[k].body| + |ps[k].gap|
  {
    assert ps[..k + 1] == ps[..k] + [ps[k]];
    RenderConcat(ps[..k], [ps[k]]);
    assert [ps[k]][1..] == [];
  }
}
