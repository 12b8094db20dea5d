/** The reported word count and the client's copy of it. */
module ClientMirror {
  import opened Text
  import opened Sentences
  import opened Editing
  import opened Accounting

  // ----- the server's own sentence scanner

  /** What the scanner returns when it stands at pos, inside a sentence begun at start, with k sentences to go. */
  function Scan(t: string, start: nat, pos: nat, k: nat): string
    requires start <= pos <= |t|
    decreases |t| - pos
  {
    if pos == |t| then (if k == 0 then t[start..] else "")
    else if !IsDelimiter(t[pos]) then Scan(t, start, pos + 1, k)
    else if k == 0 then t[start..pos + 1]
    else
      var next := SoftSkip(t, pos + 1);
      Scan(t, next, next, k - 1)
  }

  const SENTENCE_BUFFER := 512

  function Clipped(s: string): string {
    if |s| > SENTENCE_BUFFER - 1 then s[..SENTENCE_BUFFER - 1] else s
  }

  method ScanSentence(content: string, sentence: nat) returns (text: string)
    ensures text == Clipped(Scan(content, 0, 0, sentence))
  {
    var current := 0;
    var pos := 0;
    var start := 0;
    while pos < |content|
      invariant 0 <= start <= pos <= |content| && 0 <= current <= sentence
      invariant Scan(content, start, pos, sentence - current) == Scan(content, 0, 0, sentence)
      decreases |content| - pos
    {
      if content[pos] == '.' || content[pos] == '!' || content[pos] == '?' {
        if current == sentence {
          var len := pos - start + 1;
          if len > SENTENCE_BUFFER - 1 {
            len := SENTENCE_BUFFER - 1;
          }
          assert content[start..pos + 1][..len] == content[start..start + len];
          return content[start..start + len];
        }
        current := current + 1;
        pos := SkipSoft(content, pos + 1);
        start := pos;
      } else {
        pos := pos + 1;
      }
    }
    text := "";
    if current == sentence && start < |content| {
      var len := |content| - start;
      if len > SENTENCE_BUFFER - 1 {
        len := SENTENCE_BUFFER - 1;
      }
      assert content[start..][..len] == content[start..start + len];
      text := content[start..start + len];
    }
  }

  method SkipSoft(t: string, from: nat) returns (pos: nat)
    requires from <= |t|
    ensures pos == SoftSkip(t, from)
  {
    pos := from;
    while pos < |t| && (t[pos] == ' ' || t[pos] == '\t' || t[pos] == '\n')
      invariant from <= pos <= |t|
      invariant SoftSkip(t, pos) == SoftSkip(t, from)
    {
      pos := pos + 1;
    }
  }

  // ----- counting with the separators space, tab and newline

  /** A carriage return is ink for strtok(" \t\n"). */
  function ReturnsInked(s: string): (r: string)
    ensures |r| == |s| && forall k :: 0 <= k < |s| ==> r[k] == if s[k] == '\r' then 'r' else s[k]
  {
    seq(|s|, k requires 0 <= k < |s| => if s[k] == '\r' then 'r' else s[k])
  }

  function SoftWordCount(s: string): nat {
    |Tokens(ReturnsInked(s))|
  }

  lemma {:induction false} SoftWordsWithoutReturns(s: string)
    requires NoCarriageReturn(s)
    ensures SoftWordCount(s) == |Tokens(s)|
  {
    assert ReturnsInked(s) == s;
  }

  predicate IsSoft(c: char) {
    c == ' ' || c == '\t' || c == '\n'
  }

  /** strtok in a loop, counting. */
  method CountSoftWords(text: string) returns (count: nat)
    ensures count == SoftWordCount(text)
  {
    ghost var ink := ReturnsInked(text);
    count := 0;
    var pos := 0;
    assert ink[0..] == ink;
    while pos < |text|
      invariant pos <= |text|
      invariant count + |Tokens(ink[pos..])| == |Tokens(ink)|
    {
      var start, end := NextSoftToken(text, pos);
      NextSoftWord(ink, pos, start, end);
      if start < end {
        count := count + 1;
      }
      pos := end;
    }
  }

  method NextSoftToken(text: string, pos: nat) returns (start: nat, end: nat)
    requires pos < |text|
    ensures pos <= start <= end <= |text| && pos < end
    ensures forall k :: pos <= k < start ==> IsSoft(text[k])
    ensures forall k :: start <= k < end ==> !IsSoft(text[k])
    ensures end < |text| ==> IsSoft(text[end])
    ensures start == end ==> end == |text|
  {
    start := pos;
    while start < |text| && (text[start] == ' ' || text[start] == '\t' || text[start] == '\n')
      invariant pos <= start <= |text|
      invariant forall k :: pos <= k < start ==> IsSoft(text[k])
    {
      start := start + 1;
    }
    end := start;
    while end < |text| && !(text[end] == ' ' || text[end] == '\t' || text[end] == '\n')
      invariant start <= end <= |text|
      invariant forall k :: start <= k < end ==> !IsSoft(text[k])
    {
      end := end + 1;
    }
  }

  lemma {:induction false} NextSoftWord(ink: string, pos: nat, start: nat, end: nat)
    requires pos <= start <= end <= |ink|
    requires forall k :: pos <= k < start ==> IsBlank(ink[k])
    requires forall k :: start <= k < end ==> !IsBlank(ink[k])
    requires end < |ink| ==> IsBlank(ink[end])
    ensures |Tokens(ink[pos..])| == |Tokens(ink[end..])| + (if start < end then 1 else 0)
  {
    BlanksThen(ink, pos, start);
    if start < end {
      FirstToken(ink[start..], end - start);
      assert ink[start..][end - start..] == ink[end..];
    }
  }

  lemma {:induction false} BlanksThen(ink: string, pos: nat, start: nat)
    requires pos <= start <= |ink| && forall k :: pos <= k < start ==> IsBlank(ink[k])
    ensures Tokens(ink[pos..]) == Tokens(ink[start..])
  {
    TokensSkipBlanks(ink[pos..], start - pos);
    assert ink[pos..][start - pos..] == ink[start..];
  }

  // ----- the scanner finds the engine's sentence

  lemma {:induction false} ScanPastBlanks(t: string, start: nat, pos: nat, next: nat, k: nat)
    requires start <= pos <= next <= |t|
    requires forall m :: pos <= m < next ==> !IsDelimiter(t[m])
    ensures Scan(t, start, pos, k) == Scan(t, start, next, k)
    decreases next - pos
  {
    if pos < next {
      ScanPastBlanks(t, start, pos + 1, next, k);
    }
  }

  /** The scanner's text for sentence k, from the engine's spans: it starts after the soft white space only. */
  function Seen(t: string, q: nat, spans: seq<Span>, k: nat): string
    requires q <= |t| && k <= |spans| && Inside(t, spans)
  {
    var from := if k == 0 then q else SoftSkip(t, SpanEnd(spans[k - 1]));
    var end := if k == |spans| then |t| else SpanEnd(spans[k]);
    if from <= end then t[from..end] else ""
  }

  lemma {:induction false} SoftSkipBound(t: string, from: nat, end: nat)
    requires from <= end <= |t| && (end < |t| ==> !IsBlank(t[end]))
    ensures SoftSkip(t, from) <= end
    decreases end - from
  {
    if from < end {
      SoftSkipBound(t, from + 1, end);
    }
  }

  predicate Inside(t: string, spans: seq<Span>) {
    forall m :: 0 <= m < |spans| ==> SpanEnd(spans[m]) <= |t|
  }

  lemma {:induction false} SeenLater(t: string, q: nat, first: Span, rest: seq<Span>, k: nat)
    requires q <= |t| && Inside(t, rest) && SpanEnd(first) <= |t| && 0 < k <= |rest| + 1
    ensures Inside(t, [first] + rest)
    ensures Seen(t, q, [first] + rest, k) == Seen(t, SoftSkip(t, SpanEnd(first)), rest, k - 1)
  {
    var all := [first] + rest;
    assert forall m :: 0 < m < |all| ==> all[m] == rest[m - 1];
  }

  lemma {:induction false} ScanSeesSpans(t: string, q: nat, s: nat, i: nat, k: nat)
    requires q <= s <= i <= |t| && k <= |RestSpans(t, s, i)|
    ensures Inside(t, RestSpans(t, s, i))
    ensures Scan(t, q, i, k) == Seen(t, q, RestSpans(t, s, i), k)
    decreases |t| - i
  {
    SpansInside(t, s, i);
    if i < |t| && !IsDelimiter(t[i]) {
      ScanSeesSpans(t, q, s, i + 1, k);
    } else if k > 0 {
      ScanNextSentence(t, q, s, i, k);
      var next := i + 1 + BlankPrefix(t[i + 1..]);
      ScanSeesSpans(t, SoftSkip(t, i + 1), next, next, k - 1);
      SeenLater(t, q, Span(s, i + 1 - s), RestSpans(t, next, next), k);
    } else {
      ScanSeesFirst(t, q, s, i);
    }
  }

  lemma {:induction false} ScanSeesFirst(t: string, q: nat, s: nat, i: nat)
    requires q <= s <= i <= |t| && (i < |t| ==> IsDelimiter(t[i])) && Inside(t, RestSpans(t, s, i))
    ensures Scan(t, q, i, 0) == Seen(t, q, RestSpans(t, s, i), 0)
  {
    if i < |t| {
      assert SpanEnd(RestSpans(t, s, i)[0]) == i + 1;
    }
  }

  lemma {:induction false} ScanNextSentence(t: string, q: nat, s: nat, i: nat, k: nat)
    requires q <= s <= i < |t| && IsDelimiter(t[i]) && k > 0
    ensures var next := i + 1 + BlankPrefix(t[i + 1..]);
            && SoftSkip(t, i + 1) <= next
            && Scan(t, q, i, k) == Scan(t, SoftSkip(t, i + 1), next, k - 1)
            && RestSpans(t, s, i) == [Span(s, i + 1 - s)] + RestSpans(t, next, next)
  {
    var next := i + 1 + BlankPrefix(t[i + 1..]);
    BlanksAfter(t, i + 1);
    SoftSkipBound(t, i + 1, next);
    ScanPastBlanks(t, SoftSkip(t, i + 1), SoftSkip(t, i + 1), next, k - 1);
  }

  lemma {:induction false} BlanksAfter(t: string, i: nat)
    requires i <= |t|
    ensures var next := i + BlankPrefix(t[i..]);
            && (forall m :: i <= m < next ==> !IsDelimiter(t[m]))
            && (next < |t| ==> !IsBlank(t[next]))
  {
    var after := t[i..];
    assert forall m :: i <= m < |t| ==> t[m] == after[m - i];
  }

  /** Without a carriage return in the text it reports on, the scanner reports exactly the engine's target. */
  lemma {:induction false} ScanIsTarget(t: string, i: nat)
    requires i <= SentenceCount(t) && NoCarriageReturn(Scan(t, 0, 0, i))
    ensures Target(t, i).Some? || t == ""
    ensures Target(t, i).Some? ==> var s := Target(t, i).value; Scan(t, 0, 0, i) == t[s.start..SpanEnd(s)]
  {
    SpansInside(t, 0, 0);
    SpanCharacterisation(t);
    ScanSeesSpans(t, 0, 0, 0, i);
    var spans := Spans(t);
    if 0 < i < |spans| {
      SoftSkipToSentence(t, spans, i);
    } else if i == |spans| {
      assert t[0..|t|] == t;
    }
  }

  lemma {:induction false} SoftSkipToSentence(t: string, spans: seq<Span>, i: nat)
    requires CutsIntoSentences(t, spans) && 0 < i < |spans|
    requires NoCarriageReturn(Seen(t, 0, spans, i))
    ensures SoftSkip(t, SpanEnd(spans[i - 1])) == spans[i].start
  {
    var e, p := SpanEnd(spans[i - 1]), spans[i].start;
    assert AllBlank(t[e..p]);
    assert StartsInk(t[p..SpanEnd(spans[i])]) && IsBody(t[p..SpanEnd(spans[i])]);
    assert t[p] == t[p..SpanEnd(spans[i])][0];
    SoftSkipBound(t, e, p);
    var q := SoftSkip(t, e);
    SoftSkipEnds(t, e);
    assert forall m :: e <= m < p ==> t[m] == t[e..p][m - e];
    assert Seen(t, 0, spans, i)[0] == t[q];
  }

  lemma {:induction false} SoftSkipEnds(t: string, from: nat)
    requires from <= |t|
    ensures SoftSkip(t, from) < |t| ==> !IsSoft(t[SoftSkip(t, from)])
    decreases |t| - from
  {
    if from < |t| && IsSoft(t[from]) {
      SoftSkipEnds(t, from + 1);
    }
  }

  /** The word count in the lock acknowledgement. */
  method ReportedWordCount(content: string, sentence: nat) returns (count: nat)
    ensures count == SoftWordCount(Clipped(Scan(content, 0, 0, sentence)))
  {
    var text := ScanSentence(content, sentence);
    count := CountSoftWords(text);
  }

  /** The reported count is the number of words the engine will find in that sentence. */
  lemma {:induction false} ReportIsExact(t: string, i: nat)
    requires Target(t, i).Some? && i <= SentenceCount(t)
    requires NoCarriageReturn(Scan(t, 0, 0, i)) && |Scan(t, 0, 0, i)| < SENTENCE_BUFFER
    ensures var s := Target(t, i).value;
            SoftWordCount(Clipped(Scan(t, 0, 0, i))) == |Tokens(t[s.start..SpanEnd(s)])|
  {
    ScanIsTarget(t, i);
    SoftWordsWithoutReturns(Scan(t, 0, 0, i));
  }

  // ----- the client loop

  /** The updates a client holding this count sends on; the others are refused on the spot. */
  function Accepted(count: nat, typed: seq<Update>): seq<Update>
    decreases |typed|
  {
    if typed == [] then []
    else if typed[0].index > count then Accepted(count, typed[1..])
    else [typed[0]] + Accepted(count + SoftWordCount(typed[0].text), typed[1..])
  }

  /** The client's count after those lines. */
  function RunningCount(count: nat, typed: seq<Update>): nat
    decreases |typed|
  {
    if typed == [] then count
    else if typed[0].index > count then RunningCount(count, typed[1..])
    else RunningCount(count + SoftWordCount(typed[0].text), typed[1..])
  }

  method CollectUpdates(wordCount: nat, typed: seq<Update>) returns (sent: seq<Update>, current: nat)
    ensures sent == Accepted(wordCount, typed)
    ensures current == RunningCount(wordCount, typed)
  {
    sent, current := [], wordCount;
    for i := 0 to |typed|
      invariant sent + Accepted(current, typed[i..]) == Accepted(wordCount, typed)
      invariant RunningCount(current, typed[i..]) == RunningCount(wordCount, typed)
    {
      assert typed[i..][1..] == typed[i + 1..];
      var line := typed[i];
      if line.index <= current {
        sent := sent + [line];
        var added := CountSoftWords(line.text);
        current := current + added;
      }
    }
  }

  /** The text up to its first quote. */
  function UpToQuote(s: string): string {
    if s == "" || s[0] == '"' then "" else [s[0]] + UpToQuote(s[1..])
  }

  /** What the server keeps of the updates on the wire. */
  function Received(sent: seq<Update>): (r: seq<Update>)
    ensures |r| == if |sent| > MAX_UPDATES then MAX_UPDATES else |sent|
  {
    var n := if |sent| > MAX_UPDATES then MAX_UPDATES else |sent|;
    seq(n, k requires 0 <= k < n => Update(sent[k].index, Clipped(UpToQuote(sent[k].text))))
  }

  predicate FitsTheWire(u: Update) {
    && NoCarriageReturn(u.text) && |u.text| < SENTENCE_BUFFER
    && forall k :: 0 <= k < |u.text| ==> u.text[k] != '"'
  }

  lemma {:induction false} NoQuote(s: string)
    requires forall k :: 0 <= k < |s| ==> s[k] != '"'
    ensures UpToQuote(s) == s
    decreases |s|
  {
    if s != "" {
      NoQuote(s[1..]);
    }
  }

  lemma {:induction false} ReceivedIsSent(sent: seq<Update>)
    requires |sent| <= MAX_UPDATES && forall k :: 0 <= k < |sent| ==> FitsTheWire(sent[k])
    ensures Received(sent) == sent
  {
    forall k | 0 <= k < |sent| ensures Received(sent)[k] == sent[k] {
      assert FitsTheWire(sent[k]);
      NoQuote(sent[k].text);
    }
  }

  /** What the client sent applies, and the client's count is the engine's; one more update applies exactly when
      its index is within that count. */
  lemma {:induction false} MirrorIsExact(words: seq<string>, typed: seq<Update>, next: Update)
    requires forall u :: u in Accepted(|words|, typed) ==> NoCarriageReturn(u.text)
    ensures var sent := Accepted(|words|, typed);
            && ApplyAll(words, sent).Success?
            && |ApplyAll(words, sent).value| == RunningCount(|words|, typed)
            && (ApplyAll(words, sent + [next]).Success? <==> next.index <= RunningCount(|words|, typed))
    decreases |typed|
  {
    if typed == [] {
      assert [] + [next] == [next] && [next][1..] == [];
    } else {
      var u, rest := typed[0], typed[1..];
      if u.index > |words| {
        MirrorIsExact(words, rest, next);
      } else {
        assert Accepted(|words|, typed) == [u] + Accepted(|words| + SoftWordCount(u.text), rest);
        assert u in Accepted(|words|, typed);
        SoftWordsWithoutReturns(u.text);
        var more := InsertWords(words, u.index, Tokens(u.text));
        MirrorIsExact(more, rest, next);
        assert [u] + Accepted(|more|, rest) + [next] == [u] + (Accepted(|more|, rest) + [next]);
      }
    }
  }

  /** The client sends a further line exactly when the engine, given what was sent before, accepts it too. */
  lemma {:induction false} SentExactly(words: seq<string>, typed: seq<Update>, next: Update)
    requires forall u :: u in Accepted(|words|, typed) ==> NoCarriageReturn(u.text)
    ensures var sent := Accepted(|words|, typed);
            Accepted(|words|, typed + [next])
            == if ApplyAll(words, sent + [next]).Success? then sent + [next] else sent
  {
    MirrorIsExact(words, typed, next);
    OneMoreLine(|words|, typed, next);
  }

  lemma {:induction false} OneMoreLine(count: nat, typed: seq<Update>, next: Update)
    ensures Accepted(count, typed + [next])
         == Accepted(count, typed) + (if next.index <= RunningCount(count, typed) then [next] else [])
    decreases |typed|
  {
    if typed == [] {
      assert [] + [next] == [next] && [next][1..] == [];
    } else {
      assert (typed + [next])[1..] == typed[1..] + [next];
      OneMoreLine(if typed[0].index > count then count else count + SoftWordCount(typed[0].text), typed[1..], next);
    }
  }

  /** End to end: if the sentence is the same at grant and commit, fits the scanner's buffer and holds no carriage
      return, and every line the client sends fits the wire, then the commit of what it sent succeeds whatever else was
      typed, and the client would accept a further line exactly when the server would. */
  lemma {:induction false} PredictionIsExact(t: string, i: nat, typed: seq<Update>, next: Update)
    requires Target(t, i).Some? && i <= SentenceCount(t)
    requires NoCarriageReturn(Scan(t, 0, 0, i)) && |Scan(t, 0, 0, i)| < SENTENCE_BUFFER
    requires var sent := Accepted(SoftWordCount(Clipped(Scan(t, 0, 0, i))), typed);
             |sent| < MAX_UPDATES && forall u :: u in sent ==> FitsTheWire(u)
    requires FitsTheWire(next)
    ensures var reported := SoftWordCount(Clipped(Scan(t, 0, 0, i)));
            var sent := Accepted(reported, typed);
            && (sent != [] ==> WriteText(t, i, Received(sent)).Success?)
            && Accepted(reported, typed + [next])
               == if WriteText(t, i, Received(sent + [next])).Success? then sent + [next] else sent
  {
    var s := Target(t, i).value;
    var words := Tokens(t[s.start..SpanEnd(s)]);
    ReportIsExact(t, i);
    var sent := Accepted(|words|, typed);
    ReceivedIsSent(sent);
    ReceivedIsSent(sent + [next]);
    MirrorIsExact(words, typed, next);
    SentExactly(words, typed, next);
  }
}
