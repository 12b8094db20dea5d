/** The word-level edit of one sentence and its splice back into the text. */
module Editing {
  import opened Text
  import opened Sentences

  datatype ErrorCode = NotFound | Invalid | AlreadyExists

  datatype Result<+T> = Success(value: T) | Failure(code: ErrorCode)

  /** Insert the tokens of text before word number index. */
  datatype Update = Update(index: nat, text: string)

  /** The most updates one session collects. */
  const MAX_UPDATES := 256

  function InsertWords(words: seq<string>, index: nat, tokens: seq<string>): seq<string>
    requires index <= |words|
  {
    words[..index] + tokens + words[index..]
  }

  /** The updates in order, each index checked against the words present at that moment. */
  function ApplyAll(words: seq<string>, updates: seq<Update>): (r: Result<seq<string>>)
    ensures AllWords(words) && r.Success? ==> AllWords(r.value)
    ensures r.Failure? ==> r.code == Invalid
    decreases |updates|
  {
    if updates == [] then Success(words)
    else if updates[0].index > |words| then Failure(Invalid)
    else ApplyAll(InsertWords(words, updates[0].index, Tokens(updates[0].text)), updates[1..])
  }

  method ApplyUpdates(words: seq<string>, updates: seq<Update>) returns (r: Result<seq<string>>)
    ensures r == ApplyAll(words, updates)
  {
    var current := words;
    for i := 0 to |updates|
      invariant ApplyAll(current, updates[i..]) == ApplyAll(words, updates)
    {
      assert updates[i..][1..] == updates[i + 1..];
      var upd := updates[i];
      if upd.index > |current| {
        return Failure(Invalid);
      }
      var tokens := TokenizeWords(upd.text);
      assert tokens == [] ==> InsertWords(current, upd.index, tokens) == current;
      if tokens != [] {
        current := current[..upd.index] + tokens + current[upd.index..];
      }
    }
    return Success(current);
  }

  // ----- which part of the text an edit replaces

  /** Position after the spaces, tabs and newlines at from; a carriage return stops the skip. */
  function SoftSkip(t: string, from: nat): (r: nat)
    requires from <= |t|
    ensures from <= r <= |t|
    decreases |t| - from
  {
    if from < |t| && (t[from] == ' ' || t[from] == '\t' || t[from] == '\n') then SoftSkip(t, from + 1) else from
  }

  /** The span sentence number i stands for: a finished sentence, or the unfinished text after the last one. */
  function Target(t: string, i: nat): (r: Option<Span>)
    ensures r.Some? ==> SpanEnd(r.value) <= |t|
  {
    SpansInside(t, 0, 0);
    var spans := Spans(t);
    var n := |spans|;
    if n == 0 && i == 0 then Some(Span(0, |t|))
    else if i == n && |t| > 0 then
      var start := SoftSkip(t, SpanEnd(spans[n - 1]));
      Some(Span(start, |t| - start))
    else if i >= n then None
    else Some(spans[i])
  }

  /** The sentence between before and after, tokenised, updated and printed again. */
  function Spliced(before: string, sentence: string, after: string, updates: seq<Update>): Result<string> {
    match ApplyAll(Tokens(sentence), updates)
    case Failure(e) => Failure(e)
    case Success(ws) => Success(before + Join(ws) + after)
  }

  /** The text after a WRITE of updates to sentence i. */
  function WriteText(t: string, i: nat, updates: seq<Update>): Result<string> {
    if updates == [] || Target(t, i).None? then Failure(Invalid)
    else
      var s := Target(t, i).value;
      Spliced(t[..s.start], t[s.start..SpanEnd(s)], t[SpanEnd(s)..], updates)
  }

  method FindTarget(t: string, i: nat) returns (r: Option<Span>)
    ensures r == Target(t, i)
  {
    var spans := ComputeSpans(t);
    var n := |spans|;
    if n == 0 && i == 0 {
      return Some(Span(0, |t|));
    } else if i == n && |t| > 0 {
      var start := SpanEnd(spans[n - 1]);
      while start < |t| && (t[start] == ' ' || t[start] == '\t' || t[start] == '\n')
        invariant SpanEnd(spans[n - 1]) <= start <= |t|
        invariant SoftSkip(t, start) == SoftSkip(t, SpanEnd(spans[n - 1]))
      {
        start := start + 1;
      }
      return Some(Span(start, |t| - start));
    } else if i >= n {
      return None;
    } else {
      return Some(spans[i]);
    }
  }

  /** Find the sentence, tokenise it, apply the updates, join and splice. */
  method RewriteSentence(t: string, i: nat, updates: seq<Update>) returns (r: Result<string>)
    ensures r == WriteText(t, i, updates)
  {
    if updates == [] {
      return Failure(Invalid);
    }
    var target := FindTarget(t, i);
    if target.None? {
      return Failure(Invalid);
    }
    var span := target.value;
    var words := TokenizeWords(t[span.start..SpanEnd(span)]);
    var applied := ApplyUpdates(words, updates);
    if applied.Failure? {
      return Failure(applied.code);
    }
    var replacement := JoinWords(applied.value);
    return Success(t[..span.start] + replacement + t[SpanEnd(span)..]);
  }

  // ----- the same, over a document

  /** Everything after the body of piece i. */
  function Behind(d: Doc, i: nat): string
    requires i < |d.pieces|
  {
    d.pieces[i].gap + RenderPieces(d.pieces[i + 1..]) + d.tail
  }

  lemma {:induction false} WriteAt(t: string, d: Doc, i: nat, updates: seq<Update>)
    requires Reads(t, d) && i < |d.pieces| && updates != []
    ensures WriteText(t, i, updates)
         == Spliced(RenderPieces(d.pieces[..i]), d.pieces[i].body, Behind(d, i), updates)
  {
    SpansRead(t, d);
    SpanText(t, d, i);
    RenderAt(d, i);
    assert t[..|RenderPieces(d.pieces[..i])|] == RenderPieces(d.pieces[..i]);
  }

  /** The pieces with the last gap cut before its first carriage return. */
  function Trimmed(ps: seq<Piece>): seq<Piece> {
    if ps == [] then []
    else
      var last := ps[|ps| - 1];
      ps[..|ps| - 1] + [Piece(last.body, last.gap[..SoftSkip(last.gap, 0)])]
  }

  lemma {:induction false} SoftSkipIs(t: string, from: nat, gap: string, tail: string, k: nat)
    requires k <= |gap| && from + k <= |t| && t[from..] == gap + tail
    requires AllBlank(gap) && StartsInk(tail)
    ensures SoftSkip(t, from + k) == from + SoftSkip(gap, k)
    decreases |gap| - k
  {
    assert from + k < |t| ==> t[from + k] == t[from..][k];
    if k < |gap| {
      assert t[from + k] == gap[k];
      if gap[k] == ' ' || gap[k] == '\t' || gap[k] == '\n' {
        SoftSkipIs(t, from, gap, tail, k + 1);
      }
    } else if tail != "" {
      assert t[from + k] == tail[0];
    }
  }

  lemma {:induction false} WriteTail(t: string, d: Doc, updates: seq<Update>)
    requires Reads(t, d) && updates != []
    ensures WriteText(t, |d.pieces|, updates) == Spliced(RenderPieces(Trimmed(d.pieces)), d.tail, "", updates)
  {
    if d.pieces == [] {
      SpansRead(t, d);
      WriteWhole(t, updates);
      assert t == d.tail;
    } else {
      TailTarget(t, d);
      WriteToEnd(t, |d.pieces|, updates);
      var start := Target(t, |d.pieces|).value.start;
      SplicedSameWords(t[..start], t[start..], d.tail, "", updates);
    }
  }

  lemma {:induction false} WriteWhole(t: string, updates: seq<Update>)
    requires updates != [] && Spans(t) == []
    ensures WriteText(t, 0, updates) == Spliced("", t, "", updates)
  {
    assert t[0..|t|] == t && t[|t|..] == "" && t[..0] == "";
  }

  lemma {:induction false} WriteToEnd(t: string, i: nat, updates: seq<Update>)
    requires updates != []
    requires Target(t, i).Some? && SpanEnd(Target(t, i).value) == |t|
    ensures WriteText(t, i, updates)
         == Spliced(t[..Target(t, i).value.start], t[Target(t, i).value.start..], "", updates)
  {
    var start := Target(t, i).value.start;
    assert t[start..|t|] == t[start..] && t[|t|..] == "";
  }

  lemma {:induction false} SplicedSameWords(before: string, s: string, s': string, after: string, updates: seq<Update>)
    requires Tokens(s) == Tokens(s')
    ensures Spliced(before, s, after, updates) == Spliced(before, s', after, updates)
  {
  }

  lemma {:induction false} TailTarget(t: string, d: Doc)
    requires Reads(t, d) && d.pieces != []
    ensures var target := Target(t, |d.pieces|);
            && target.Some? && SpanEnd(target.value) == |t|
            && t[..target.value.start] == RenderPieces(Trimmed(d.pieces))
            && Tokens(t[target.value.start..]) == Tokens(d.tail)
  {
    var p := d.pieces[|d.pieces| - 1];
    var head := RenderPieces(d.pieces[..|d.pieces| - 1]);
    LastSpan(t, d);
    SplitAtKept(t, head + p.body, p.gap, d.tail);
    var start := |head + p.body| + SoftSkip(p.gap, 0);
    assert Target(t, |d.pieces|) == Some(Span(start, |t| - start));
    RenderTrimmed(d.pieces);
  }

  lemma {:induction false} LastSpan(t: string, d: Doc)
    requires Reads(t, d) && d.pieces != []
    ensures var p := d.pieces[|d.pieces| - 1];
            && |Spans(t)| == |d.pieces|
            && IsPiece(p) && t == RenderPieces(d.pieces[..|d.pieces| - 1]) + p.body + (p.gap + d.tail)
            && SpanEnd(Spans(t)[|d.pieces| - 1]) == |RenderPieces(d.pieces[..|d.pieces| - 1]) + p.body|
  {
    var last := |d.pieces| - 1;
    SpansRead(t, d);
    SpanText(t, d, last);
    RenderAt(d, last);
    assert d.pieces[last + 1..] == [];
    assert d.pieces[last].gap + RenderPieces([]) + d.tail == d.pieces[last].gap + d.tail;
  }

  lemma {:induction false} SplitAtKept(t: string, head: string, gap: string, tail: string)
    requires t == head + (gap + tail) && AllBlank(gap) && StartsInk(tail)
    ensures var kept := SoftSkip(gap, 0);
            && SoftSkip(t, |head|) == |head| + kept
            && t[..|head| + kept] == head + gap[..kept]
            && Tokens(t[|head| + kept..]) == Tokens(tail)
  {
    var kept := SoftSkip(gap, 0);
    assert t[|head|..] == gap + tail;
    SoftSkipIs(t, |head|, gap, tail, 0);
    assert t[|head| + kept..] == gap[kept..] + tail;
    BlankThenTokens(gap[kept..], tail);
  }

  lemma {:induction false} RenderTrimmed(ps: seq<Piece>)
    requires ps != []
    ensures var p := ps[|ps| - 1];
            RenderPieces(Trimmed(ps)) == RenderPieces(ps[..|ps| - 1]) + p.body + p.gap[..SoftSkip(p.gap, 0)]
  {
    var p := ps[|ps| - 1];
    var q := Piece(p.body, p.gap[..SoftSkip(p.gap, 0)]);
    RenderConcat(ps[..|ps| - 1], [q]);
    RenderCons(q, []);
  }

  lemma {:induction false} BlankThenTokens(g: string, s: string)
    requires AllBlank(g)
    ensures Tokens(g + s) == Tokens(s)
  {
    TokensSkipBlanks(g + s, |g|);
    assert (g + s)[|g|..] == s;
  }
}
