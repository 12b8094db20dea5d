/** Characters, words and the word-level loops of the storage engine. */
module Text {

  datatype Option<+T> = None | Some(value: T)

  /** The three characters that end a sentence. */
  predicate IsDelimiter(c: char) {
    c == '.' || c == '!' || c == '?'
  }

  /** White space as the engine sees it. */
  predicate IsBlank(c: char) {
    c == ' ' || c == '\n' || c == '\r' || c == '\t'
  }

  /** A token: non-empty and free of white space. */
  predicate IsWord(w: string) {
    w != "" && forall k :: 0 <= k < |w| ==> !IsBlank(w[k])
  }

  predicate AllWords(ws: seq<string>) {
    forall k :: 0 <= k < |ws| ==> IsWord(ws[k])
  }

  /** Length of the longest prefix free of white space. */
  function WordLength(s: string): (n: nat)
    ensures n <= |s|
    ensures forall k :: 0 <= k < n ==> !IsBlank(s[k])
    ensures n < |s| ==> IsBlank(s[n])
  {
    if s == "" || IsBlank(s[0]) then 0 else 1 + WordLength(s[1..])
  }

  /** Reference tokeniser: the maximal runs of non-blank characters, left to right. */
  function Tokens(s: string): (ws: seq<string>)
    ensures AllWords(ws)
  {
    if s == "" then []
    else if IsBlank(s[0]) then Tokens(s[1..])
    else
      var n := WordLength(s);
      [s[..n]] + Tokens(s[n..])
  }

  /** Words separated by single spaces. */
  function Join(ws: seq<string>): string {
    if |ws| == 0 then ""
    else if |ws| == 1 then ws[0]
    else ws[0] + " " + Join(ws[1..])
  }

  // ----- how words behave under concatenation

  /** No word runs across the seam between a and b. */
  predicate CleanSeam(a: string, b: string) {
    a == "" || b == "" || IsBlank(a[|a| - 1]) || IsBlank(b[0])
  }

  lemma {:induction false} WordLengthConcat(a: string, b: string)
    ensures WordLength(a) < |a| ==> WordLength(a + b) == WordLength(a)
    ensures WordLength(a) == |a| ==> WordLength(a + b) == |a| + WordLength(b)
    decreases |a|
  {
    if a == "" {
      assert a + b == b;
    } else {
      assert (a + b)[1..] == a[1..] + b;
      WordLengthConcat(a[1..], b);
    }
  }

  lemma {:induction false} TokensConcat(a: string, b: string)
    requires CleanSeam(a, b)
    ensures Tokens(a + b) == Tokens(a) + Tokens(b)
    decreases |a|
  {
    if a == "" {
      assert a + b == b;
    } else if b == "" {
      assert a + b == a;
    } else if IsBlank(a[0]) {
      assert (a + b)[1..] == a[1..] + b;
      TokensConcat(a[1..], b);
    } else {
      var n := WordLength(a);
      WordLengthConcat(a, b);
      assert (a + b)[n..] == a[n..] + b;
      assert (a + b)[..n] == a[..n];
      assert n == |a| ==> WordLength(b) == 0;
      TokensConcat(a[n..], b);
    }
  }

  lemma {:induction false} TokensMerge(a: string, b: string)
    requires !CleanSeam(a, b)
    ensures |Tokens(a + b)| == |Tokens(a)| + |Tokens(b)| - 1
    decreases |a|
  {
    if IsBlank(a[0]) {
      assert (a + b)[1..] == a[1..] + b;
      TokensMerge(a[1..], b);
    } else {
      var n := WordLength(a);
      WordLengthConcat(a, b);
      if n < |a| {
        assert (a + b)[n..] == a[n..] + b;
        TokensMerge(a[n..], b);
      } else {
        WordRunsOn(a, b);
      }
    }
  }

  lemma {:induction false} WordRunsOn(a: string, b: string)
    requires IsWord(a) && b != "" && !IsBlank(b[0]) && WordLength(a + b) == |a| + WordLength(b)
    ensures |Tokens(a + b)| == |Tokens(b)| && |Tokens(a)| == 1
  {
    var m := WordLength(b);
    assert (a + b)[|a| + m..] == b[m..];
    TokensOfWord(a);
  }

  /** The word count of a concatenation: one less exactly when a word runs across the seam. */
  lemma {:induction false} WordCountConcat(a: string, b: string)
    ensures |Tokens(a + b)| == |Tokens(a)| + |Tokens(b)| - (if CleanSeam(a, b) then 0 else 1)
  {
    if CleanSeam(a, b) {
      TokensConcat(a, b);
    } else {
      TokensMerge(a, b);
    }
  }

  lemma {:induction false} TokensOfWord(w: string)
    requires IsWord(w)
    ensures Tokens(w) == [w]
  {
    WordLengthConcat(w, "");
    assert w + "" == w;
    assert w[|w|..] == "";
  }

  // ----- the printer and the parser

  /** Tokenising what Join printed gives the words back. */
  lemma {:induction false} TokensOfJoin(ws: seq<string>)
    requires AllWords(ws)
    ensures Tokens(Join(ws)) == ws
    decreases |ws|
  {
    if |ws| == 1 {
      TokensOfWord(ws[0]);
    } else if |ws| > 1 {
      var rest := Join(ws[1..]);
      TokensOfJoin(ws[1..]);
      assert Join(ws) == (ws[0] + " ") + rest;
      TokensConcat(ws[0] + " ", rest);
      TokensConcat(ws[0], " ");
      TokensOfWord(ws[0]);
      assert Tokens(" ") == [];
    }
  }

  /** Reprinting is idempotent, whatever the original spacing was. */
  lemma {:induction false} ReprintIdempotent(s: string)
    ensures Join(Tokens(Join(Tokens(s)))) == Join(Tokens(s))
  {
    TokensOfJoin(Tokens(s));
  }

  lemma {:induction false} JoinConcat(a: seq<string>, b: seq<string>)
    requires a != [] && b != []
    ensures Join(a + b) == Join(a) + " " + Join(b)
    decreases |a|
  {
    if |a| == 1 {
      assert (a + b)[1..] == b;
    } else {
      assert (a + b)[1..] == a[1..] + b;
      JoinConcat(a[1..], b);
    }
  }

  /** A printed word list starts and ends with a non-blank character. */
  lemma {:induction false} JoinEdges(ws: seq<string>)
    requires AllWords(ws)
    ensures ws == [] <==> Join(ws) == ""
    ensures ws != [] ==> Join(ws)[0] == ws[0][0] && !IsBlank(Join(ws)[0])
    ensures ws != [] ==> Join(ws)[|Join(ws)| - 1] == ws[|ws| - 1][|ws[|ws| - 1]| - 1]
    ensures ws != [] ==> !IsBlank(Join(ws)[|Join(ws)| - 1])
    decreases |ws|
  {
    if |ws| > 1 {
      JoinEdges(ws[1..]);
    }
  }

  // ----- the engine's loops

  /** The text with CR, LF and TAB turned into spaces. */
  function Normalised(s: string): (r: string)
    ensures |r| == |s|
    ensures forall k :: 0 <= k < |s| ==>
              r[k] == if s[k] == '\r' || s[k] == '\n' || s[k] == '\t' then ' ' else s[k]
  {
    seq(|s|, k requires 0 <= k < |s| =>
      if s[k] == '\r' || s[k] == '\n' || s[k] == '\t' then ' ' else s[k])
  }

  method NormaliseInlineWhitespace(text: array<char>)
    modifies text
    ensures text[..] == Normalised(old(text[..]))
  {
    for p := 0 to text.Length
      invariant forall k :: 0 <= k < p ==> text[k] == Normalised(old(text[..]))[k]
      invariant forall k :: p <= k < text.Length ==> text[k] == old(text[k])
    {
      if text[p] == '\r' || text[p] == '\n' || text[p] == '\t' {
        text[p] := ' ';
      }
    }
  }

  lemma {:induction false} TokensOfNormalised(s: string)
    ensures Tokens(Normalised(s)) == Tokens(s)
    decreases |s|
  {
    if s != "" {
      var r := Normalised(s);
      if IsBlank(s[0]) {
        assert r[1..] == Normalised(s[1..]);
        TokensOfNormalised(s[1..]);
      } else {
        var n := WordLength(s);
        WordLengthIs(r, n);
        assert r[..n] == s[..n];
        assert r[n..] == Normalised(s[n..]);
        TokensOfNormalised(s[n..]);
      }
    }
  }

  lemma {:induction false} WordLengthIs(s: string, n: nat)
    requires n <= |s|
    requires forall k :: 0 <= k < n ==> !IsBlank(s[k])
    requires n < |s| ==> IsBlank(s[n])
    ensures WordLength(s) == n
  {
  }

  lemma {:induction false} TokensSkipBlanks(s: string, n: nat)
    requires n <= |s| && forall k :: 0 <= k < n ==> IsBlank(s[k])
    ensures Tokens(s) == Tokens(s[n..])
    decreases n
  {
    if n > 0 {
      TokensSkipBlanks(s[1..], n - 1);
      assert s[1..][n - 1..] == s[n..];
    } else {
      assert s[n..] == s;
    }
  }

  /** The first token of a text that starts with one. */
  lemma {:induction false} FirstToken(s: string, n: nat)
    requires 0 < n <= |s|
    requires forall k :: 0 <= k < n ==> !IsBlank(s[k])
    requires n < |s| ==> IsBlank(s[n])
    ensures Tokens(s) == [s[..n]] + Tokens(s[n..])
  {
    WordLengthIs(s, n);
  }

  /** strtok_r with the single separator ' ': the next token is copy[start..end]. */
  method NextToken(copy: string, pos: nat) returns (start: nat, end: nat)
    requires pos <= |copy|
    ensures pos <= start <= end <= |copy|
    ensures forall k :: pos <= k < start ==> copy[k] == ' '
    ensures forall k :: start <= k < end ==> copy[k] != ' '
    ensures end < |copy| ==> copy[end] == ' '
    ensures start == end ==> end == |copy|
  {
    start := pos;
    while start < |copy| && copy[start] == ' '
      invariant pos <= start <= |copy|
      invariant forall k :: pos <= k < start ==> copy[k] == ' '
    {
      start := start + 1;
    }
    end := start;
    while end < |copy| && copy[end] != ' '
      invariant start <= end <= |copy|
      invariant forall k :: start <= k < end ==> copy[k] != ' '
    {
      end := end + 1;
    }
  }

  lemma {:induction false} TokensAtNext(copy: string, pos: nat, start: nat, end: nat)
    requires pos <= start <= end <= |copy|
    requires forall k :: 0 <= k < |copy| && IsBlank(copy[k]) ==> copy[k] == ' '
    requires forall k :: pos <= k < start ==> copy[k] == ' '
    requires forall k :: start <= k < end ==> copy[k] != ' '
    requires end < |copy| ==> copy[end] == ' '
    requires start == end ==> end == |copy|
    ensures Tokens(copy[pos..]) == (if start < end then [copy[start..end]] else []) + Tokens(copy[end..])
  {
    TokensSkipBlanks(copy[pos..], start - pos);
    var rest := copy[start..];
    assert copy[pos..][start - pos..] == rest;
    if start < end {
      FirstToken(rest, end - start);
      assert rest[end - start..] == copy[end..] && rest[..end - start] == copy[start..end];
    }
  }

  /** The strtok_r loop over a normalised copy. */
  method SplitAtSpaces(copy: string) returns (words: seq<string>)
    requires forall k :: 0 <= k < |copy| && IsBlank(copy[k]) ==> copy[k] == ' '
    ensures words == Tokens(copy)
  {
    words := [];
    var start, pos := NextToken(copy, 0);
    TokensAtNext(copy, 0, start, pos);
    assert copy[0..] == copy;
    ghost var rest := Tokens(copy[pos..]);
    while start < pos
      invariant start <= pos <= |copy|
      invariant rest == Tokens(copy[pos..])
      invariant words + (if start < pos then [copy[start..pos]] else []) + rest == Tokens(copy)
      invariant start == pos ==> pos == |copy|
      decreases |copy| - start
    {
      words := words + [copy[start..pos]];
      ghost var from := pos;
      start, pos := NextToken(copy, pos);
      TokensAtNext(copy, from, start, pos);
      rest := Tokens(copy[pos..]);
    }
  }

  /** Normalise a private copy, then cut it at spaces as strtok_r does. */
  method TokenizeWords(sentence: string) returns (words: seq<string>)
    ensures words == Tokens(sentence)
  {
    var buffer := new char[|sentence|](k requires 0 <= k < |sentence| => sentence[k]);
    assert buffer[..] == sentence;
    NormaliseInlineWhitespace(buffer);
    TokensOfNormalised(sentence);
    words := SplitAtSpaces(buffer[..]);
  }

  /** One pass with an "inside a word" flag. */
  method CountWords(text: string) returns (count: nat)
    ensures count == |Tokens(text)|
  {
    count := 0;
    var inWord := false;
    for p := 0 to |text|
      invariant count == |Tokens(text[..p])|
      invariant inWord <==> p > 0 && !IsBlank(text[p - 1])
    {
      assert text[..p + 1] == text[..p] + [text[p]];
      WordCountConcat(text[..p], [text[p]]);
      if text[p] == ' ' || text[p] == '\n' || text[p] == '\t' || text[p] == '\r' {
        assert Tokens([text[p]]) == [];
        inWord := false;
      } else {
        TokensOfWord([text[p]]);
        if !inWord {
          inWord := true;
          count := count + 1;
        }
      }
    }
    assert text[..|text|] == text;
  }

  method JoinWords(words: seq<string>) returns (result: string)
    ensures result == Join(words)
  {
    result := "";
    for i := 0 to |words|
      invariant result == Join(words[..i]) + (if 0 < i < |words| then " " else "")
    {
      assert words[..i + 1] == words[..i] + [words[i]];
      if i > 0 {
        JoinConcat(words[..i], [words[i]]);
      }
      result := result + words[i];
      if i + 1 < |words| {
        result := result + " ";
      }
    }
    assert words[..|words|] == words;
  }
}
