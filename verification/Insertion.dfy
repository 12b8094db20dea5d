/** Where every word of a sentence stands after a WRITE. */
module Insertion {
  import opened Text
  import opened Sentences
  import opened Editing
  import opened Accounting
  import opened Splicing
  import Commutation
  import opened Shifting

  // ----- one update, and a list of them

  /** One update succeeds exactly when its index is at most the word count; then the old words stand before and behind
      the inserted ones, cut at that index. */
  lemma {:induction false} OneUpdate(words: seq<string>, u: Update)
    ensures ApplyAll(words, [u]).Success? <==> u.index <= |words|
    ensures ApplyAll(words, [u]).Success? ==>
              var after, tokens := ApplyAll(words, [u]).value, Tokens(u.text);
              && |after| == |words| + |tokens|
              && (forall p :: 0 <= p < u.index ==> after[p] == words[p])
              && (forall m :: 0 <= m < |tokens| ==> after[u.index + m] == tokens[m])
              && (forall p :: u.index <= p < |words| ==> after[p + |tokens|] == words[p])
  {
    assert [u][1..] == [];
  }

  /** Applying a list of updates is applying a first part of it, then the rest to what that leaves. */
  lemma {:induction false} UpdatesInTurn(words: seq<string>, first: seq<Update>, rest: seq<Update>)
    ensures ApplyAll(words, first + rest)
         == match ApplyAll(words, first)
            case Failure(e) => Failure(e)
            case Success(between) => ApplyAll(between, rest)
    decreases |first|
  {
    if first == [] {
      assert first + rest == rest;
    } else {
      assert (first + rest)[1..] == first[1..] + rest;
      if first[0].index <= |words| {
        UpdatesInTurn(InsertWords(words, first[0].index, Tokens(first[0].text)), first[1..], rest);
      }
    }
  }

  // ----- the place of every word

  /** Where the word at position p stands after the updates: each one at or before it moves it back by its length. */
  function Place(p: nat, updates: seq<Update>): nat
    decreases |updates|
  {
    if updates == [] then p
    else Place(if updates[0].index <= p then p + |Tokens(updates[0].text)| else p, updates[1..])
  }

  lemma {:induction false} PlaceRises(p: nat, q: nat, updates: seq<Update>)
    requires p < q
    ensures p <= Place(p, updates) < Place(q, updates)
    decreases |updates|
  {
    if updates != [] {
      var n := |Tokens(updates[0].text)|;
      PlaceRises(if updates[0].index <= p then p + n else p, if updates[0].index <= q then q + n else q, updates[1..]);
    }
  }

  predicate StandsAt(words: seq<string>, place: nat, w: string) {
    place < |words| && words[place] == w
  }

  /** Every word that was there stands at its place. */
  lemma {:induction false} OldWordStands(words: seq<string>, updates: seq<Update>, p: nat)
    requires ApplyAll(words, updates).Success? && p < |words|
    ensures StandsAt(ApplyAll(words, updates).value, Place(p, updates), words[p])
    decreases |updates|
  {
    if updates != [] {
      var u := updates[0];
      var q := PlaceAfterOne(words, u, p);
      OldWordStands(InsertWords(words, u.index, Tokens(u.text)), updates[1..], q);
    }
  }

  lemma {:induction false} PlaceAfterOne(words: seq<string>, u: Update, p: nat) returns (q: nat)
    requires u.index <= |words| && p < |words|
    ensures q == if u.index <= p then p + |Tokens(u.text)| else p
    ensures StandsAt(InsertWords(words, u.index, Tokens(u.text)), q, words[p])
  {
    q := if u.index <= p then p + |Tokens(u.text)| else p;
  }

  /** Where word m of update k stands: it is put at that update's index plus m, and the later updates move it. */
  function NewPlace(updates: seq<Update>, k: nat, m: nat): nat
    requires k < |updates|
  {
    Place(updates[k].index + m, updates[k + 1..])
  }

  lemma {:induction false} NewWordStands(words: seq<string>, updates: seq<Update>, k: nat, m: nat)
    requires ApplyAll(words, updates).Success? && k < |updates| && m < |Tokens(updates[k].text)|
    ensures StandsAt(ApplyAll(words, updates).value, NewPlace(updates, k, m), Tokens(updates[k].text)[m])
  {
    var u, rest := updates[k], updates[k + 1..];
    assert updates == updates[..k] + ([u] + rest);
    UpdatesInTurn(words, updates[..k], [u] + rest);
    var between := ApplyAll(words, updates[..k]).value;
    UpdatesInTurn(between, [u], rest);
    OneUpdate(between, u);
    OldWordStands(ApplyAll(between, [u]).value, rest, u.index + m);
  }

  /** Together: the old words stand at their places in their old order, the words of every update at theirs, and there
      are no others. */
  lemma {:induction false} WordsStand(words: seq<string>, updates: seq<Update>)
    requires ApplyAll(words, updates).Success?
    ensures EachStands(words, updates, ApplyAll(words, updates).value)
  {
    var after := ApplyAll(words, updates).value;
    ApplyKeeps(words, updates);
    forall p | 0 <= p < |words| ensures StandsAt(after, Place(p, updates), words[p]) {
      OldWordStands(words, updates, p);
    }
    forall p, q | 0 <= p < q ensures Place(p, updates) < Place(q, updates) {
      PlaceRises(p, q, updates);
    }
    forall k, m | 0 <= k < |updates| && 0 <= m < |Tokens(updates[k].text)|
      ensures StandsAt(after, NewPlace(updates, k, m), Tokens(updates[k].text)[m])
    {
      NewWordStands(words, updates, k, m);
    }
  }

  ghost predicate EachStands(words: seq<string>, updates: seq<Update>, after: seq<string>) {
    && |after| == |words| + InsertedWords(updates)
    && (forall p :: 0 <= p < |words| ==> StandsAt(after, Place(p, updates), words[p]))
    && (forall p, q :: 0 <= p < q ==> Place(p, updates) < Place(q, updates))
    && (forall k, m :: 0 <= k < |updates| && 0 <= m < |Tokens(updates[k].text)| ==>
          StandsAt(after, NewPlace(updates, k, m), Tokens(updates[k].text)[m]))
  }

  // ----- which writes succeed

  /** The words an update list for sentence i is applied to. */
  function WordsAt(t: string, i: nat): seq<string>
    requires Target(t, i).Some?
  {
    var s := Target(t, i).value;
    Tokens(t[s.start..SpanEnd(s)])
  }

  lemma {:induction false} TargetExactly(t: string, i: nat)
    ensures Target(t, i).Some? <==> i <= SentenceCount(t)
  {
    SentenceCountIsDelimiters(t);
  }

  /** A WRITE succeeds exactly when there are updates, the number is at most one past the last sentence, and every
      index is at most the words in that sentence plus those inserted before. */
  lemma {:induction false} WriteSucceedsExactly(t: string, i: nat, updates: seq<Update>)
    ensures WriteText(t, i, updates).Success? <==>
              && updates != [] && i <= SentenceCount(t) && Target(t, i).Some?
              && forall k :: 0 <= k < |updates| ==> updates[k].index <= |WordsAt(t, i)| + InsertedWords(updates[..k])
    ensures WriteText(t, i, updates).Failure? ==> WriteText(t, i, updates) == Failure(Invalid)
  {
    TargetExactly(t, i);
    if Target(t, i).Some? {
      AcceptedExactly(WordsAt(t, i), updates);
    }
  }

  // ----- the words in the new text

  /** The new text, around the target of the write: nothing else changes, and the words there are the old ones with the
      updates applied, each at its place. */
  lemma {:induction false} WrittenWords(t: string, i: nat, updates: seq<Update>)
    requires WriteText(t, i, updates).Success?
    ensures var t', s := WriteText(t, i, updates).value, Target(t, i).value;
            var end := |t'| - (|t| - SpanEnd(s));
            && s.start <= end <= |t'| && t'[..s.start] == t[..s.start] && t'[end..] == t[SpanEnd(s)..]
            && EachStands(WordsAt(t, i), updates, Tokens(t'[s.start..end]))
  {
    var s, words := Target(t, i).value, ApplyAll(WordsAt(t, i), updates).value;
    var a, r, c := t[..s.start], Join(words), t[SpanEnd(s)..];
    assert WriteText(t, i, updates).value == a + r + c;
    assert (a + r + c)[|a|..|a + r|] == r && (a + r + c)[|a + r|..] == c;
    TokensOfJoin(words);
    WordsStand(WordsAt(t, i), updates);
  }

  /** The new sentence is one sentence still, or still unfinished. */
  predicate StaysOne(r: string) {
    NoDelimiter(r) || IsBody(r)
  }

  /** Reading the same sentence number again finds those words exactly when the new sentence holds no delimiter but,
      possibly, its last character. */
  lemma {:induction false} ReadBackExactly(t: string, i: nat, updates: seq<Update>)
    requires WriteText(t, i, updates).Success?
    ensures var t' := WriteText(t, i, updates).value;
            && Target(t', i).Some?
            && (WordsAt(t', i) == ApplyAll(WordsAt(t, i), updates).value <==> StaysOne(NewSentence(t, i, updates)))
            && (StaysOne(NewSentence(t, i, updates)) ==> EachStands(WordsAt(t, i), updates, WordsAt(t', i)))
  {
    var head, rest := NewShape(t, i, updates);
    WordsStand(WordsAt(t, i), updates);
    ReadNew(WriteText(t, i, updates).value, head, ApplyAll(WordsAt(t, i), updates).value, rest);
  }

  lemma {:induction false} ReadNew(t: string, head: seq<Piece>, words: seq<string>, rest: string)
    requires AllWords(words) && WellFormed(Doc(head, "")) && t == RenderPieces(head) + Join(words) + rest
    requires NoDelimiter(Join(words)) ==> rest == ""
    ensures Target(t, |head|).Some?
    ensures WordsAt(t, |head|) == words <==> StaysOne(Join(words))
  {
    var r := Join(words);
    JoinEdges(words);
    TokensOfJoin(words);
    assert t == RenderPieces(head) + (r + rest);
    ReadAfter(head, r + rest);
    FirstOf(r, rest);
  }

  /** The text after a write: pieces, the new sentence, and what follows it. */
  lemma {:induction false} NewShape(t: string, i: nat, updates: seq<Update>) returns (head: seq<Piece>, rest: string)
    requires WriteText(t, i, updates).Success?
    ensures var r := NewSentence(t, i, updates);
            && WriteText(t, i, updates).value == RenderPieces(head) + r + rest
            && WellFormed(Doc(head, "")) && |head| == i
            && (NoDelimiter(r) ==> rest == "")
  {
    var d := DocumentOf(t);
    TargetExactly(t, i);
    if i < |d.pieces| {
      WriteAt(t, d, i, updates);
      PrefixWellFormed(d, i);
      head, rest := d.pieces[..i], Behind(d, i);
      SentenceIsBody(t, d, i);
      assert IsPiece(d.pieces[i]);
      var r := PrintedSentence(d.pieces[i].body, updates);
      assert NoDelimiter(r) ==> DelimiterCount(r) == 0 by {
        if NoDelimiter(r) { NoDelimiterCount(r); }
      }
    } else {
      head, rest := Trimmed(d.pieces), "";
      TailWords(t, d);
      WriteTail(t, d, updates);
      PrefixWellFormed(d, i);
      assert d.pieces[..i] == d.pieces;
      Commutation.TrimmedSpans(d.pieces);
    }
  }

  lemma {:induction false} SentenceIsBody(t: string, d: Doc, i: nat)
    requires Reads(t, d) && i < |d.pieces|
    ensures Target(t, i).Some? && WordsAt(t, i) == Tokens(d.pieces[i].body)
  {
    SpansRead(t, d);
    SpanText(t, d, i);
  }

  /** For a finished sentence that condition is on the updates: no delimiter inserted, nothing put behind the last
      word. */
  lemma {:induction false} StaysOneOnInputs(t: string, i: nat, updates: seq<Update>)
    requires WriteText(t, i, updates).Success? && i < SentenceCount(t)
    ensures StaysOne(NewSentence(t, i, updates))
       <==> InsertedDelimiters(updates) == 0 && StaysInside(|WordsAt(t, i)|, updates)
  {
    var d := DocumentOf(t);
    SentenceIsBody(t, d, i);
    assert IsPiece(d.pieces[i]);
    var body := d.pieces[i].body;
    var r := PrintedSentence(body, updates);
    SentenceKeeps(body, updates);
    BodyDelimiterCount(body);
    BodyExactly(r);
    if InsertedDelimiters(updates) == 0 {
      SentenceStays(body, updates);
    }
  }

  lemma {:induction false} BodyExactly(r: string)
    requires DelimiterCount(r) > 0
    ensures StaysOne(r) <==> DelimiterCount(r) == 1 && EndsInDelimiter(r)
  {
    if NoDelimiter(r) {
      NoDelimiterCount(r);
    } else if IsBody(r) {
      BodyDelimiterCount(r);
    } else if EndsInDelimiter(r) {
      var n := |r| - 1;
      assert r == r[..n] + [r[n]];
      DelimiterCountConcat(r[..n], [r[n]]);
      var k :| 0 <= k < n && IsDelimiter(r[..n][k]);
      OneDelimiter(r[..n], k);
    }
  }

  lemma {:induction false} OneDelimiter(s: string, k: nat)
    requires k < |s| && IsDelimiter(s[k])
    ensures DelimiterCount(s) > 0
    decreases k
  {
    if k > 0 {
      OneDelimiter(s[1..], k - 1);
    }
  }

  lemma {:induction false} TailWords(t: string, d: Doc)
    requires Reads(t, d)
    ensures Target(t, |d.pieces|).Some? && WordsAt(t, |d.pieces|) == Tokens(d.tail)
  {
    if d.pieces == [] {
      SpansRead(t, d);
      assert t == d.tail && t[0..|t|] == t;
    } else {
      TailTarget(t, d);
      var start := Target(t, |d.pieces|).value.start;
      assert t[start..|t|] == t[start..];
    }
  }

  /** The text up to its first delimiter, or all of it. */
  function FirstSentence(z: string): string {
    if FirstDelimiter(z) < |z| then z[..FirstDelimiter(z) + 1] else z
  }

  /** The sentence behind a stretch of pieces. */
  lemma {:induction false} ReadAfter(head: seq<Piece>, z: string)
    requires WellFormed(Doc(head, "")) && StartsInk(z)
    ensures var t := RenderPieces(head) + z;
            Target(t, |head|).Some? && WordsAt(t, |head|) == Tokens(FirstSentence(z))
  {
    var t, e := RenderPieces(head) + z, Parse(z);
    ParseSound(z);
    ReadsAfter(head, z, e);
    var d := Doc(head + e.pieces, e.tail);
    if FirstDelimiter(z) < |z| {
      assert d.pieces[|head|] == e.pieces[0];
      SentenceIsBody(t, d, |head|);
    } else {
      assert d.pieces == head;
      TailWords(t, d);
    }
  }

  lemma {:induction false} FirstOf(r: string, rest: string)
    requires r != "" ==> !IsBlank(r[|r| - 1])
    requires NoDelimiter(r) ==> rest == ""
    ensures Tokens(FirstSentence(r + rest)) == Tokens(r) <==> StaysOne(r)
  {
    if NoDelimiter(r) {
      assert r + rest == r;
      DelimiterScan(r, |r|);
    } else {
      var k := FirstDelimiter(r);
      DelimiterScan(r + rest, k);
      var b, z := r[..k + 1], r[k + 1..];
      assert FirstSentence(r + rest) == b && r == b + z;
      if z == "" {
        assert r[..|r| - 1] == r[..k];
        assert IsBody(r);
      } else {
        assert !IsBody(r) by {
          assert r[..|r| - 1][k] == r[k];
        }
        MoreInk(b, z);
      }
    }
  }

  lemma {:induction false} MoreInk(b: string, z: string)
    requires z != "" && !IsBlank(z[|z| - 1])
    ensures Tokens(b) != Tokens(b + z)
  {
    var n := |z| - 1;
    assert z == z[..n] + [z[n]];
    InkConcat(z[..n], [z[n]]);
    InkOfWord([z[n]]);
    InkConcat(b, z);
    InkOfTokens(b);
    InkOfTokens(b + z);
  }
}
