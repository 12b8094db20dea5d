/** What a write conserves and what it adds: ink, delimiters, words. */
module Accounting {
  import opened Text
  import opened Sentences
  import opened Editing

  /** The text without its white space. */
  function Ink(s: string): string {
    if s == "" then "" else (if IsBlank(s[0]) then "" else [s[0]]) + Ink(s[1..])
  }

  function Flatten(ws: seq<string>): string {
    if ws == [] then "" else ws[0] + Flatten(ws[1..])
  }

  lemma {:induction false} InkConcat(a: string, b: string)
    ensures Ink(a + b) == Ink(a) + Ink(b)
    decreases |a|
  {
    if a == "" {
      assert a + b == b;
    } else {
      assert (a + b)[1..] == a[1..] + b;
      InkConcat(a[1..], b);
    }
  }

  lemma {:induction false} InkOfWord(w: string)
    requires forall k :: 0 <= k < |w| ==> !IsBlank(w[k])
    ensures Ink(w) == w
    decreases |w|
  {
    if w != "" {
      InkOfWord(w[1..]);
    }
  }

  lemma {:induction false} InkOfBlank(g: string)
    requires AllBlank(g)
    ensures Ink(g) == ""
    decreases |g|
  {
    if g != "" {
      InkOfBlank(g[1..]);
    }
  }

  lemma {:induction false} FlattenConcat(a: seq<string>, b: seq<string>)
    ensures Flatten(a + b) == Flatten(a) + Flatten(b)
    decreases |a|
  {
    if a == [] {
      assert a + b == b;
    } else {
      assert (a + b)[1..] == a[1..] + b;
      FlattenConcat(a[1..], b);
    }
  }

  lemma {:induction false} InkOfTokens(s: string)
    ensures Flatten(Tokens(s)) == Ink(s)
    decreases |s|
  {
    if s != "" {
      if IsBlank(s[0]) {
        InkOfTokens(s[1..]);
      } else {
        var n := WordLength(s);
        InkOfTokens(s[n..]);
        assert s == s[..n] + s[n..];
        InkConcat(s[..n], s[n..]);
        InkOfWord(s[..n]);
        FlattenConcat([s[..n]], Tokens(s[n..]));
        assert [s[..n]][1..] == [];
      }
    }
  }

  lemma {:induction false} InkOfJoin(ws: seq<string>)
    requires AllWords(ws)
    ensures Ink(Join(ws)) == Flatten(ws)
  {
    TokensOfJoin(ws);
    InkOfTokens(Join(ws));
  }

  lemma {:induction false} InkDelimiters(s: string)
    ensures DelimiterCount(Ink(s)) == DelimiterCount(s)
    decreases |s|
  {
    if s != "" {
      InkDelimiters(s[1..]);
      if IsBlank(s[0]) {
        assert Ink(s) == Ink(s[1..]);
      } else {
        assert Ink(s)[1..] == Ink(s[1..]);
      }
    }
  }

  // ----- sub-sequences

  /** a can be had from b by leaving characters out. */
  predicate IsSubsequence(a: string, b: string) {
    a == "" || (b != "" && ((a[0] == b[0] && IsSubsequence(a[1..], b[1..])) || IsSubsequence(a, b[1..])))
  }

  lemma {:induction false} SubsequenceSelf(a: string)
    ensures IsSubsequence(a, a)
    decreases |a|
  {
    if a != "" {
      SubsequenceSelf(a[1..]);
    }
  }

  lemma {:induction false} SubsequenceConcat(a: string, b: string, c: string, d: string)
    requires IsSubsequence(a, b) && IsSubsequence(c, d)
    ensures IsSubsequence(a + c, b + d)
    decreases |b|
  {
    if b == "" {
      assert a + c == c && b + d == d;
    } else {
      assert (b + d)[1..] == b[1..] + d;
      if a != "" && a[0] == b[0] && IsSubsequence(a[1..], b[1..]) {
        assert (a + c)[1..] == a[1..] + c;
        SubsequenceConcat(a[1..], b[1..], c, d);
      } else {
        SubsequenceConcat(a, b[1..], c, d);
      }
    }
  }

  lemma {:induction false} SubsequenceTransitive(a: string, b: string, c: string)
    requires IsSubsequence(a, b) && IsSubsequence(b, c)
    ensures IsSubsequence(a, c)
    decreases |c|
  {
    if a != "" {
      if b[0] == c[0] && IsSubsequence(b[1..], c[1..]) {
        if a[0] == b[0] && IsSubsequence(a[1..], b[1..]) {
          SubsequenceTransitive(a[1..], b[1..], c[1..]);
        } else {
          SubsequenceTransitive(a, b[1..], c[1..]);
        }
      } else {
        SubsequenceTransitive(a, b, c[1..]);
      }
    }
  }

  // ----- the updates

  function InsertedDelimiters(updates: seq<Update>): nat {
    if updates == [] then 0 else DelimiterCount(updates[0].text) + InsertedDelimiters(updates[1..])
  }

  function InsertedWords(updates: seq<Update>): nat {
    if updates == [] then 0 else |Tokens(updates[0].text)| + InsertedWords(updates[1..])
  }

  lemma {:induction false} InsertFlattens(words: seq<string>, index: nat, tokens: seq<string>)
    requires index <= |words|
    ensures Flatten(InsertWords(words, index, tokens))
         == Flatten(words[..index]) + Flatten(tokens) + Flatten(words[index..])
    ensures Flatten(words) == Flatten(words[..index]) + Flatten(words[index..])
  {
    FlattenConcat(words[..index] + tokens, words[index..]);
    FlattenConcat(words[..index], tokens);
    FlattenConcat(words[..index], words[index..]);
    assert words[..index] + words[index..] == words;
  }

  lemma {:induction false} InsertKeeps(words: seq<string>, u: Update)
    requires u.index <= |words|
    ensures var after := Flatten(InsertWords(words, u.index, Tokens(u.text)));
            && IsSubsequence(Flatten(words), after)
            && DelimiterCount(after) == DelimiterCount(Flatten(words)) + DelimiterCount(u.text)
  {
    var a, t, b := Flatten(words[..u.index]), Flatten(Tokens(u.text)), Flatten(words[u.index..]);
    InsertFlattens(words, u.index, Tokens(u.text));
    SubsequenceSelf(a);
    SubsequenceSelf(b);
    SubsequenceConcat(a, a, "", t);
    assert a + "" == a;
    SubsequenceConcat(a, a + t, b, b);
    DelimiterCountConcat(a, b);
    DelimiterCountConcat(a, t);
    DelimiterCountConcat(a + t, b);
    InkOfTokens(u.text);
    InkDelimiters(u.text);
  }

  /** The updates keep every old character in order and add exactly the inserted ones. */
  lemma {:induction false} ApplyKeeps(words: seq<string>, updates: seq<Update>)
    requires ApplyAll(words, updates).Success?
    ensures var after := ApplyAll(words, updates).value;
            && IsSubsequence(Flatten(words), Flatten(after))
            && DelimiterCount(Flatten(after)) == DelimiterCount(Flatten(words)) + InsertedDelimiters(updates)
            && |after| == |words| + InsertedWords(updates)
    decreases |updates|
  {
    if updates == [] {
      SubsequenceSelf(Flatten(words));
    } else {
      var next := InsertWords(words, updates[0].index, Tokens(updates[0].text));
      InsertKeeps(words, updates[0]);
      ApplyKeeps(next, updates[1..]);
      SubsequenceTransitive(Flatten(words), Flatten(next), Flatten(ApplyAll(words, updates).value));
    }
  }

  /** Which indices are accepted: each at most the count left by the updates before it. */
  lemma {:induction false} AcceptedExactly(words: seq<string>, updates: seq<Update>)
    ensures ApplyAll(words, updates).Success?
       <==> forall k :: 0 <= k < |updates| ==> updates[k].index <= |words| + InsertedWords(updates[..k])
    decreases |updates|
  {
    if updates != [] {
      assert updates[..0] == [];
      if updates[0].index <= |words| {
        var next := InsertWords(words, updates[0].index, Tokens(updates[0].text));
        var rest := updates[1..];
        AcceptedExactly(next, rest);
        forall k | 0 < k < |updates|
          ensures |words| + InsertedWords(updates[..k]) == |next| + InsertedWords(rest[..k - 1])
        {
          assert updates[..k][1..] == rest[..k - 1];
        }
        assert forall k :: 0 < k < |updates| ==> updates[k] == rest[k - 1];
        assert forall k :: 0 <= k < |rest| ==> rest[k] == updates[k + 1];
        if forall k :: 0 <= k < |updates| ==> updates[k].index <= |words| + InsertedWords(updates[..k]) {
          forall k | 0 <= k < |rest| ensures rest[k].index <= |next| + InsertedWords(rest[..k]) {
            assert updates[k + 1].index <= |words| + InsertedWords(updates[..k + 1]);
          }
        }
      } else {
        assert updates[0].index > |words| + InsertedWords(updates[..0]);
      }
    }
  }

  // ----- a whole write

  /** The rewritten sentence, given the old one. */
  lemma {:induction false} SentenceKeeps(sentence: string, updates: seq<Update>)
    requires ApplyAll(Tokens(sentence), updates).Success?
    ensures var r := Join(ApplyAll(Tokens(sentence), updates).value);
            && IsSubsequence(Ink(sentence), Ink(r))
            && DelimiterCount(r) == DelimiterCount(sentence) + InsertedDelimiters(updates)
            && |Tokens(r)| == |Tokens(sentence)| + InsertedWords(updates)
  {
    var words := Tokens(sentence);
    var after := ApplyAll(words, updates).value;
    ApplyKeeps(words, updates);
    InkOfTokens(sentence);
    InkDelimiters(sentence);
    InkOfJoin(after);
    InkDelimiters(Join(after));
    TokensOfJoin(after);
  }

  lemma {:induction false} Sandwich(a: string, b: string, b': string, c: string)
    requires IsSubsequence(Ink(b), Ink(b'))
    ensures IsSubsequence(Ink(a + b + c), Ink(a + b' + c))
    ensures DelimiterCount(a + b' + c) - DelimiterCount(a + b + c) == DelimiterCount(b') - DelimiterCount(b)
  {
    InkConcat(a + b, c);
    InkConcat(a, b);
    InkConcat(a + b', c);
    InkConcat(a, b');
    SubsequenceSelf(Ink(a));
    SubsequenceSelf(Ink(c));
    SubsequenceConcat(Ink(a), Ink(a), Ink(b), Ink(b'));
    SubsequenceConcat(Ink(a) + Ink(b), Ink(a) + Ink(b'), Ink(c), Ink(c));
    DelimiterCountConcat(a + b, c);
    DelimiterCountConcat(a, b);
    DelimiterCountConcat(a + b', c);
    DelimiterCountConcat(a, b');
  }

  /** Conservation: a committed write keeps every old non-blank character, in order, and raises the
      sentence count by exactly the delimiters in the inserted text. */
  lemma {:induction false} WriteConserves(t: string, i: nat, updates: seq<Update>)
    requires WriteText(t, i, updates).Success?
    ensures IsSubsequence(Ink(t), Ink(WriteText(t, i, updates).value))
    ensures SentenceCount(WriteText(t, i, updates).value) == SentenceCount(t) + InsertedDelimiters(updates)
  {
    var s := Target(t, i).value;
    var a, b, c := t[..s.start], t[s.start..SpanEnd(s)], t[SpanEnd(s)..];
    var r := Join(ApplyAll(Tokens(b), updates).value);
    assert t == a + b + c;
    SentenceKeeps(b, updates);
    Sandwich(a, b, r, c);
    SentenceCountIsDelimiters(t);
    SentenceCountIsDelimiters(a + r + c);
  }

  // ----- words

  /** The edit puts its words right behind a delimiter: the target starts where a sentence ended,
      the target itself is empty or starts with white space, and the new sentence is not empty. */
  predicate GluesToPrevious(t: string, s: Span, words: seq<string>)
    requires SpanEnd(s) <= |t|
  {
    && s.start > 0 && !IsBlank(t[s.start - 1])
    && (s.start == |t| || IsBlank(t[s.start]))
    && words != []
  }

  /** Replacing b by r, when both ends of b and r agree on white space at the right seam. */
  lemma {:induction false} WordsAround(a: string, b: string, r: string, c: string)
    requires c == "" || (b != "" && r != "" && !IsBlank(b[|b| - 1]) && !IsBlank(r[|r| - 1]))
    ensures |Tokens(a + r + c)| - |Tokens(a + b + c)| == |Tokens(a + r)| - |Tokens(a + b)|
  {
    if c == "" {
      assert a + r + c == a + r && a + b + c == a + b;
    } else {
      WordCountConcat(a + r, c);
      WordCountConcat(a + b, c);
    }
  }

  /** Replacing b by r behind a. */
  lemma {:induction false} WordsBehind(a: string, b: string, words: seq<string>)
    requires AllWords(words) && (Tokens(b) != [] ==> words != [])
    ensures var glue := a != "" && !IsBlank(a[|a| - 1]) && (b == "" || IsBlank(b[0])) && words != [];
            |Tokens(a + Join(words))| - |Tokens(a + b)| == |words| - |Tokens(b)| - (if glue then 1 else 0)
  {
    JoinEdges(words);
    TokensOfJoin(words);
    WordCountConcat(a, Join(words));
    WordCountConcat(a, b);
  }

  /** What is known of the target of a write. */
  lemma {:induction false} TargetShape(t: string, i: nat)
    requires Target(t, i).Some?
    ensures var s := Target(t, i).value;
            if i < SentenceCount(t) then
              IsBody(t[s.start..SpanEnd(s)]) && (s.start > 0 ==> !IsBlank(t[s.start]))
            else SpanEnd(s) == |t|
  {
    SpanCharacterisation(t);
    SentenceCountIsDelimiters(t);
    var s := Target(t, i).value;
    if i < SentenceCount(t) {
      assert IsBody(t[s.start..SpanEnd(s)]);
      assert i > 0 ==> StartsInk(t[s.start..SpanEnd(s)]);
    }
  }

  lemma {:induction false} TargetRightSeam(t: string, i: nat)
    requires Target(t, i).Some?
    ensures var s := Target(t, i).value;
            var b := t[s.start..SpanEnd(s)];
            SpanEnd(s) == |t| || (b != "" && !IsBlank(b[|b| - 1]) && Tokens(b) != [])
  {
    TargetShape(t, i);
    var s := Target(t, i).value;
    if i < SentenceCount(t) {
      InkedHasWords(t[s.start..SpanEnd(s)]);
    }
  }

  /** The word count rises by the number of inserted tokens, one less exactly when the new words are
      glued to the delimiter before them. No assumption on the text. */
  lemma {:induction false} WriteWordCount(t: string, i: nat, updates: seq<Update>)
    requires WriteText(t, i, updates).Success?
    ensures var s := Target(t, i).value;
            var words := ApplyAll(Tokens(t[s.start..SpanEnd(s)]), updates).value;
            |Tokens(WriteText(t, i, updates).value)|
            == |Tokens(t)| + InsertedWords(updates) - (if GluesToPrevious(t, s, words) then 1 else 0)
  {
    var s := Target(t, i).value;
    var a, b, c := t[..s.start], t[s.start..SpanEnd(s)], t[SpanEnd(s)..];
    var words := ApplyAll(Tokens(b), updates).value;
    ApplyKeeps(Tokens(b), updates);
    TargetRightSeam(t, i);
    assert t == a + b + c;
    WordsDelta(a, b, c, words);
    assert (a == "" <==> s.start == 0) && (s.start > 0 ==> a[|a| - 1] == t[s.start - 1]);
    assert b != "" ==> b[0] == t[s.start];
    assert b == "" ==> s.start == |t|;
  }

  lemma {:induction false} WordsDelta(a: string, b: string, c: string, words: seq<string>)
    requires AllWords(words) && (Tokens(b) != [] ==> words != [])
    requires c == "" || (b != "" && words != [] && !IsBlank(b[|b| - 1]))
    ensures var glue := a != "" && !IsBlank(a[|a| - 1]) && (b == "" || IsBlank(b[0])) && words != [];
            |Tokens(a + Join(words) + c)| - |Tokens(a + b + c)| == |words| - |Tokens(b)| - (if glue then 1 else 0)
  {
    JoinEdges(words);
    WordsBehind(a, b, words);
    WordsAround(a, b, Join(words), c);
  }

  lemma {:induction false} InkedHasWords(b: string)
    requires b != "" && !IsBlank(b[|b| - 1])
    ensures Tokens(b) != []
  {
    var n := |b| - 1;
    assert b == b[..n] + [b[n]];
    TokensOfWord([b[n]]);
    WordCountConcat(b[..n], [b[n]]);
    if b[..n] != "" && !IsBlank(b[n - 1]) {
      assert b[..n][|b[..n]| - 1] == b[n - 1];
      InkedHasWords(b[..n]);
    }
  }

  predicate NoCarriageReturn(t: string) {
    forall k :: 0 <= k < |t| ==> t[k] != '\r'
  }

  /** Without carriage returns the glue case is: writing tokens to the empty tail of a text whose last
      character is a delimiter. */
  lemma {:induction false} GlueWithoutCarriageReturn(t: string, i: nat, updates: seq<Update>)
    requires WriteText(t, i, updates).Success? && NoCarriageReturn(t)
    ensures var s := Target(t, i).value;
            var words := ApplyAll(Tokens(t[s.start..SpanEnd(s)]), updates).value;
            GluesToPrevious(t, s, words)
            <==> i == SentenceCount(t) && t != "" && IsDelimiter(t[|t| - 1]) && InsertedWords(updates) > 0
  {
    var s := Target(t, i).value;
    var b := t[s.start..SpanEnd(s)];
    ApplyKeeps(Tokens(b), updates);
    TargetShape(t, i);
    SentenceCountIsDelimiters(t);
    SpanCharacterisation(t);
    if i < SentenceCount(t) {
      assert b[0] == t[s.start];
    } else if i == SentenceCount(t) {
      TailShape(t);
      if t != "" && IsDelimiter(t[|t| - 1]) {
        assert b == "";
      }
    }
  }

  lemma {:induction false} TailShape(t: string)
    requires NoCarriageReturn(t)
    ensures var n := SentenceCount(t);
            Target(t, n).Some? &&
            var start := Target(t, n).value.start;
            && SpanEnd(Target(t, n).value) == |t|
            && (start > 0 ==> start == |t| || !IsBlank(t[start]))
            && (start > 0 && start == |t| && !IsBlank(t[start - 1]) ==> IsDelimiter(t[|t| - 1]))
            && (t != "" && IsDelimiter(t[|t| - 1]) ==> start == |t|)
  {
    SpanCharacterisation(t);
    SentenceCountIsDelimiters(t);
    var spans := Spans(t);
    var n := |spans|;
    if n > 0 {
      var e := SpanEnd(spans[n - 1]);
      var body := t[spans[n - 1].start..e];
      assert IsBody(body) && body[|body| - 1] == t[e - 1];
      SoftSkipStops(t, e);
      assert e < |t| ==> t[|t| - 1] == t[e..][|t| - 1 - e];
    } else if t != "" {
      assert t[0..][|t| - 1] == t[|t| - 1];
    }
  }

  lemma {:induction false} SoftSkipStops(t: string, from: nat)
    requires NoCarriageReturn(t) && from <= |t|
    ensures SoftSkip(t, from) < |t| ==> !IsBlank(t[SoftSkip(t, from)])
    ensures SoftSkip(t, from) > from ==> IsBlank(t[SoftSkip(t, from) - 1])
    decreases |t| - from
  {
    if from < |t| && (t[from] == ' ' || t[from] == '\t' || t[from] == '\n') {
      SoftSkipStops(t, from + 1);
    }
  }

  // ----- white space

  /** Spaces are the only white space. */
  predicate Plain(t: string) {
    forall k :: 0 <= k < |t| && IsBlank(t[k]) ==> t[k] == ' '
  }

  lemma {:induction false} JoinPlain(ws: seq<string>)
    requires AllWords(ws)
    ensures Plain(Join(ws))
    decreases |ws|
  {
    if |ws| > 1 {
      JoinPlain(ws[1..]);
    }
  }

  /** Writes never bring in any white space but single spaces. */
  lemma {:induction false} WriteKeepsPlain(t: string, i: nat, updates: seq<Update>)
    requires Plain(t) && WriteText(t, i, updates).Success?
    ensures Plain(WriteText(t, i, updates).value)
  {
    var s := Target(t, i).value;
    JoinPlain(ApplyAll(Tokens(t[s.start..SpanEnd(s)]), updates).value);
  }
}
