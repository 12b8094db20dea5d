/** The folder listing: written by the name server into a fixed buffer, read back by the client. The strings are a
    subset of the ones of section 7 of RFC 8259. */
module Listing {
  const SIZE := 16384
  const NAME_LIMIT := 255

  const QUOTE := '\"'
  const BACKSLASH := '\\'

  // ----- the text of a listing

  predicate IsEscaped(ch: char) {
    ch == QUOTE || ch == BACKSLASH || ch == '\n' || ch == '\r' || ch == '\t'
  }

  /** The character after the backslash; the client takes it literally. */
  function UnescapedChar(ch: char): char {
    if ch == '\n' then 'n' else if ch == '\r' then 'r' else if ch == '\t' then 't' else ch
  }

  function Escape(ch: char): string {
    if IsEscaped(ch) then [BACKSLASH, UnescapedChar(ch)] else [ch]
  }

  function Escaped(value: string): string {
    if value == [] then [] else Escape(value[0]) + Escaped(value[1..])
  }

  function Literal(value: string): string {
    [QUOTE] + Escaped(value) + [QUOTE]
  }

  /** A literal, and a comma in front of it unless it starts the list. */
  function Item(name: string, start: bool): string {
    (if start then [] else [',']) + Literal(name)
  }

  function Items(names: seq<string>, start: bool): string
    decreases |names|
  {
    if names == [] then [] else Item(names[0], start) + Items(names[1..], false)
  }

  function Pattern(field: string): string {
    [QUOTE] + field + [QUOTE, ':', '[']
  }

  const FILES := "files"
  const FOLDERS := "folders"

  function Head(): string {
    "{" + Pattern(FILES)
  }

  function Middle(): string {
    "]," + Pattern(FOLDERS)
  }

  /** The listing, were the buffer large enough. */
  function Response(files: seq<string>, folders: seq<string>): string {
    Head() + Items(files, true) + Middle() + Items(folders, true) + "]}"
  }

  // ----- the encoder

  /** As much of the escaped value as is written from offset on into a buffer of length n. */
  function EscapedUpTo(value: string, offset: nat, n: nat): (r: string)
    ensures offset < n ==> offset + |r| < n
    decreases |value|
  {
    if value == [] || offset + 2 >= n then []
    else Escape(value[0]) + EscapedUpTo(value[1..], offset + |Escape(value[0])|, n)
  }

  /** What is appended at offset: nothing, or an opening quote, what fits, and a closing quote if that fits. */
  function LiteralUpTo(value: string, offset: nat, n: nat): string {
    if offset + 2 >= n then []
    else
      var text := [QUOTE] + EscapedUpTo(value, offset + 1, n);
      if offset + |text| < n - 1 then text + [QUOTE] else text
  }

  /** A literal that leaves room for three more characters is written whole. */
  lemma {:induction false} EscapedFits(value: string, offset: nat, n: nat)
    requires offset + |Escaped(value)| + 3 <= n
    ensures EscapedUpTo(value, offset, n) == Escaped(value)
    decreases |value|
  {
    if value != [] {
      EscapedFits(value[1..], offset + |Escape(value[0])|, n);
    }
  }

  lemma {:induction false} LiteralFits(value: string, offset: nat, n: nat)
    requires offset + |Literal(value)| + 3 <= n
    ensures LiteralUpTo(value, offset, n) == Literal(value)
  {
    EscapedFits(value, offset + 1, n);
  }

  /** Write the characters of a short text at an offset. */
  method Put(buf: array<char>, offset: nat, text: string) returns (end: nat)
    requires offset + |text| <= buf.Length
    modifies buf
    ensures end == offset + |text| && buf[..end] == old(buf[..offset]) + text
  {
    end := offset;
    for i := 0 to |text|
      invariant end == offset + i && buf[..end] == old(buf[..offset]) + text[..i]
    {
      buf[end] := text[i];
      end := end + 1;
    }
  }

  /** One string, escaped, as far as it fits; room for a terminator is kept. */
  method AppendLiteral(buf: array<char>, offset: nat, value: string) returns (end: nat)
    requires offset <= buf.Length
    modifies buf
    ensures offset <= end <= buf.Length && (offset < buf.Length ==> end < buf.Length)
    ensures buf[..end] == old(buf[..offset]) + LiteralUpTo(value, offset, buf.Length)
  {
    end := offset;
    if offset + 2 >= buf.Length {
      return;
    }
    ghost var before, n := buf[..offset], buf.Length;
    ghost var text := [QUOTE] + EscapedUpTo(value, offset + 1, n);
    end := Put(buf, end, [QUOTE]);
    end := AppendEscaped(buf, end, value);
    assert buf[..end] == before + text;
    assert |before + text| == offset + |text|;
    if end < buf.Length - 1 {
      end := Put(buf, end, [QUOTE]);
      assert buf[..end] == before + (text + [QUOTE]);
    }
    buf[end] := '\0';
  }

  /** The loop over the characters. */
  method AppendEscaped(buf: array<char>, offset: nat, value: string) returns (end: nat)
    requires offset < buf.Length
    modifies buf
    ensures offset <= end < buf.Length
    ensures buf[..end] == old(buf[..offset]) + EscapedUpTo(value, offset, buf.Length)
  {
    end := offset;
    ghost var all := buf[..offset] + EscapedUpTo(value, offset, buf.Length);
    var p := 0;
    assert value[0..] == value;
    while p < |value| && end < buf.Length - 2
      invariant p <= |value| && offset <= end < buf.Length
      invariant buf[..end] + EscapedUpTo(value[p..], end, buf.Length) == all
    {
      assert value[p..][1..] == value[p + 1..];
      ghost var before := buf[..end];
      assert before + EscapedUpTo(value[p..], end, buf.Length)
          == (before + Escape(value[p])) + EscapedUpTo(value[p + 1..], end + |Escape(value[p])|, buf.Length);
      end := Put(buf, end, Escape(value[p]));
      p := p + 1;
    }
    assert EscapedUpTo(value[p..], end, buf.Length) == [];
  }

  // ----- the decoder

  /** The characters up to the closing quote, a backslash standing for the character after it; what follows. */
  function ReadName(s: string): (r: (string, string))
    ensures |r.1| <= |s|
    decreases |s|
  {
    if s == [] then ([], [])
    else if s[0] == QUOTE then ([], s[1..])
    else if s[0] == BACKSLASH && |s| > 1 then
      var (name, rest) := ReadName(s[2..]);
      ([s[1]] + name, rest)
    else
      var (name, rest) := ReadName(s[1..]);
      ([s[0]] + name, rest)
  }

  /** Between start and ptr the characters read are those of the name. */
  ghost predicate ReadSoFar(json: string, start: nat, read: string, ptr: nat)
    requires start <= |json| && ptr <= |json|
  {
    var all, more := ReadName(json[start..]), ReadName(json[ptr..]);
    all.0 == read + more.0 && all.1 == more.1
  }

  lemma {:induction false} ReadNext(json: string, start: nat, read: string, ptr: nat)
    requires start <= ptr < |json| && json[ptr] != QUOTE && ReadSoFar(json, start, read, ptr)
    ensures var p := if json[ptr] == BACKSLASH && ptr + 1 < |json| then ptr + 1 else ptr;
            ReadSoFar(json, start, read + [json[p]], p + 1)
  {
    var here := json[ptr..];
    assert here[1..] == json[ptr + 1..];
    assert ptr + 1 < |json| ==> here[2..] == json[ptr + 2..];
  }

  function Clip(name: string): string {
    if |name| > NAME_LIMIT then name[..NAME_LIMIT] else name
  }

  /** The names up to the closing bracket; empty ones are not shown. */
  function ReadItems(s: string): seq<string>
    decreases |s|
  {
    if s == [] || s[0] == ']' then []
    else if s[0] == QUOTE then
      var (name, rest) := ReadName(s[1..]);
      (if name == [] then [] else [Clip(name)]) + ReadItems(rest)
    else ReadItems(s[1..])
  }

  predicate OccursAt(s: string, pattern: string, i: nat) {
    i + |pattern| <= |s| && s[i..i + |pattern|] == pattern
  }

  /** The first occurrence from i on, or the length of s. */
  function IndexOf(s: string, pattern: string, i: nat): (k: nat)
    requires i <= |s|
    ensures k <= |s| && (k < |s| ==> k + |pattern| <= |s|)
    decreases |s| - i
  {
    if i + |pattern| > |s| then |s| else if OccursAt(s, pattern, i) then i
    else if i == |s| then i else IndexOf(s, pattern, i + 1)
  }

  /** What the client shows of a section. */
  function Shown(json: string, field: string): seq<string> {
    var k := IndexOf(json, Pattern(field), 0);
    if k == |json| then [] else ReadItems(json[k + |Pattern(field)|..])
  }

  method FindPattern(s: string, pattern: string) returns (k: nat)
    ensures k == IndexOf(s, pattern, 0)
  {
    k := 0;
    while k + |pattern| <= |s|
      invariant k <= |s| && IndexOf(s, pattern, 0) == IndexOf(s, pattern, k)
    {
      if s[k..k + |pattern|] == pattern || k == |s| {
        return;
      }
      k := k + 1;
    }
    k := |s|;
  }

  /** The inner loop: the characters of one name, into a buffer of 256. */
  method ReadChars(json: string, start: nat) returns (name: string, ptr: nat, ghost read: string)
    requires start <= |json|
    ensures start <= ptr <= |json| && (ptr < |json| ==> json[ptr] == QUOTE)
    ensures ReadName(json[start..]).0 == read && name == Clip(read)
    ensures ReadName(json[start..]).1 == if ptr < |json| then json[ptr + 1..] else []
  {
    name, ptr := [], start;
    read := [];
    while ptr < |json| && json[ptr] != QUOTE
      invariant start <= ptr <= |json|
      invariant name == Clip(read) && ReadSoFar(json, start, read, ptr)
    {
      ReadNext(json, start, read, ptr);
      var ch := json[ptr];
      if ch == BACKSLASH && ptr + 1 < |json| {
        ptr := ptr + 1;
        ch := json[ptr];
      }
      if |name| < NAME_LIMIT {
        name := name + [ch];
      }
      ptr, read := ptr + 1, read + [ch];
    }
  }

  /** One name and the closing quote. */
  method ReadNameAt(json: string, start: nat) returns (name: string, shown: bool, ptr: nat)
    requires start <= |json|
    ensures start <= ptr <= |json| && json[ptr..] == ReadName(json[start..]).1
    ensures name == Clip(ReadName(json[start..]).0) && (shown <==> ReadName(json[start..]).0 != [])
  {
    ghost var read;
    name, ptr, read := ReadChars(json, start);
    shown := |name| > 0;
    if ptr < |json| && json[ptr] == QUOTE {
      ptr := ptr + 1;
    }
  }

  /** The outer loop. */
  method ReadItemsAt(json: string, start: nat) returns (names: seq<string>)
    requires start <= |json|
    ensures names == ReadItems(json[start..])
  {
    names := [];
    var ptr := start;
    while ptr < |json| && json[ptr] != ']'
      invariant ptr <= |json|
      invariant names + ReadItems(json[ptr..]) == ReadItems(json[start..])
      decreases |json| - ptr
    {
      ghost var here := json[ptr..];
      assert here[1..] == json[ptr + 1..];
      if json[ptr] == QUOTE {
        var name, shown;
        name, shown, ptr := ReadNameAt(json, ptr + 1);
        if shown {
          names := names + [name];
        }
      } else {
        ptr := ptr + 1;
      }
    }
  }

  method ShowSection(json: string, field: string) returns (names: seq<string>)
    ensures names == Shown(json, field)
  {
    var k := FindPattern(json, Pattern(field));
    if k == |json| {
      return [];
    }
    names := ReadItemsAt(json, k + |Pattern(field)|);
  }

  // ----- reading back one name

  /** A name as it comes back: newline, carriage return and tab turn into letters. */
  function Unescaped(name: string): (r: string)
    ensures |r| == |name| && forall i :: 0 <= i < |r| ==> r[i] == UnescapedChar(name[i])
  {
    if name == [] then [] else [UnescapedChar(name[0])] + Unescaped(name[1..])
  }

  lemma {:induction false} ReadEscaped(name: string, rest: string)
    ensures ReadName(Escaped(name) + [QUOTE] + rest) == (Unescaped(name), rest)
    decreases |name|
  {
    var s := Escaped(name) + [QUOTE] + rest;
    if name == [] {
      assert s == [QUOTE] + rest;
    } else {
      var e := Escape(name[0]);
      var more := Escaped(name[1..]) + [QUOTE] + rest;
      ReadEscaped(name[1..], rest);
      assert s == e + more;
      assert s[|e|..] == more;
    }
  }

  // ----- reading back a list

  function Returned(names: seq<string>): seq<string>
    decreases |names|
  {
    if names == [] then []
    else (if names[0] == [] then [] else [Clip(Unescaped(names[0]))]) + Returned(names[1..])
  }

  lemma {:induction false} ReadOne(name: string, more: string)
    ensures ReadItems(Literal(name) + more) == (if name == [] then [] else [Clip(Unescaped(name))]) + ReadItems(more)
  {
    var here := Literal(name) + more;
    assert here[1..] == Escaped(name) + [QUOTE] + more;
    ReadEscaped(name, more);
  }

  lemma {:induction false} ReadBack(names: seq<string>, start: bool, rest: string)
    ensures ReadItems(Items(names, start) + "]" + rest) == Returned(names)
    decreases |names|
  {
    if names == [] {
      assert (Items(names, start) + "]" + rest)[0] == ']';
    } else {
      var more := Items(names[1..], false) + "]" + rest;
      var here := Literal(names[0]) + more;
      assert Items(names, start) + "]" + rest == (if start then [] else [',']) + here;
      ReadComma(here, start);
      ReadOne(names[0], more);
      ReadBack(names[1..], false, rest);
    }
  }

  lemma {:induction false} ReadComma(here: string, start: bool)
    ensures ReadItems((if start then [] else [',']) + here) == ReadItems(here)
  {
    assert start ==> [] + here == here;
    assert ([','] + here)[1..] == here;
  }

  // ----- header text inside names is harmless

  /** A quote has a neighbour that the second quote of a header does not have. */
  predicate SafeAt(t: string, q: nat)
    requires q < |t|
  {
    t[q] == QUOTE ==> (q > 0 && t[q - 1] != 's') || (q + 1 < |t| && t[q + 1] != ':')
  }

  ghost predicate SafeQuotes(t: string) {
    forall q :: 0 <= q < |t| ==> SafeAt(t, q)
  }

  /** A neighbour found in a part of the text is a neighbour in the text. */
  lemma {:induction false} SafeInside(t: string, i: nat, part: string, q: nat)
    requires i + |part| <= |t| && t[i..i + |part|] == part && q < |part| && SafeAt(part, q)
    ensures SafeAt(t, i + q)
  {
    assert t[i + q] == part[q];
    assert q > 0 ==> t[i + q - 1] == part[q - 1];
    assert q + 1 < |part| ==> t[i + q + 1] == part[q + 1];
  }

  lemma {:induction false} SafeConcat(a: string, b: string)
    requires SafeQuotes(a) && SafeQuotes(b)
    ensures SafeQuotes(a + b)
  {
    assert (a + b)[0..|a|] == a && (a + b)[|a|..|a| + |b|] == b;
    forall q | 0 <= q < |a + b| ensures SafeAt(a + b, q) {
      if q < |a| {
        SafeInside(a + b, 0, a, q);
      } else {
        SafeInside(a + b, |a|, b, q - |a|);
      }
    }
  }

  /** Two safe texts that share one character. */
  lemma {:induction false} SafeOverlap(a: string, b: string)
    requires b != [] && SafeQuotes(a + [b[0]]) && SafeQuotes(b)
    ensures SafeQuotes(a + b)
  {
    assert (a + b)[0..|a| + 1] == a + [b[0]] && (a + b)[|a|..|a| + |b|] == b;
    forall q | 0 <= q < |a + b| ensures SafeAt(a + b, q) {
      if q < |a| {
        SafeInside(a + b, 0, a + [b[0]], q);
      } else {
        SafeInside(a + b, |a|, b, q - |a|);
      }
    }
  }

  lemma {:induction false} EscapedSafe(value: string)
    ensures SafeQuotes(Escaped(value))
    decreases |value|
  {
    if value != [] {
      EscapedSafe(value[1..]);
      SafeConcat(Escape(value[0]), Escaped(value[1..]));
    }
  }

  lemma {:induction false} LiteralSafe(before: char, value: string, after: string)
    requires before != 's' && before != QUOTE && after != [] && after[0] != ':' && after[0] != QUOTE
    requires SafeQuotes(after)
    ensures SafeQuotes([before] + Literal(value) + after)
  {
    EscapedSafe(value);
    SafeConcat([before, QUOTE], Escaped(value));
    SafeConcat([before, QUOTE] + Escaped(value), [QUOTE, after[0]]);
    var a := [before] + Literal(value);
    assert a + [after[0]] == [before, QUOTE] + Escaped(value) + [QUOTE, after[0]];
    SafeOverlap(a, after);
  }

  lemma {:induction false} RestSafe(names: seq<string>)
    ensures var t := Items(names, false) + "]"; SafeQuotes(t) && t[0] in {',', ']'}
    decreases |names|
  {
    if names != [] {
      RestSafe(names[1..]);
      var after := Items(names[1..], false) + "]";
      LiteralSafe(',', names[0], after);
      assert Items(names, false) + "]" == [','] + Literal(names[0]) + after;
    }
  }

  lemma {:induction false} ListSafe(names: seq<string>)
    ensures SafeQuotes("[" + Items(names, true) + "]")
  {
    if names != [] {
      RestSafe(names[1..]);
      var after := Items(names[1..], false) + "]";
      LiteralSafe('[', names[0], after);
      assert "[" + Items(names, true) + "]" == ['['] + Literal(names[0]) + after;
    }
  }

  // ----- where the sections start

  lemma {:induction false} IndexOfIs(s: string, pattern: string, i: nat, k: nat)
    requires i <= k < |s| && OccursAt(s, pattern, k) && forall j :: i <= j < k ==> !OccursAt(s, pattern, j)
    ensures IndexOf(s, pattern, i) == k
    decreases k - i
  {
    if i < k {
      IndexOfIs(s, pattern, i + 1, k);
    }
  }

  lemma {:induction false} IndexOfNone(s: string, pattern: string, i: nat)
    requires i <= |s| && pattern != [] && forall j :: i <= j < |s| ==> !OccursAt(s, pattern, j)
    ensures IndexOf(s, pattern, i) == |s|
    decreases |s| - i
  {
    if i + |pattern| <= |s| {
      IndexOfNone(s, pattern, i + 1);
    }
  }

  lemma {:induction false} FilesFound(rest: string)
    ensures IndexOf(Head() + rest, Pattern(FILES), 0) == 1
  {
    var s := Head() + rest;
    assert s[1..1 + |Pattern(FILES)|] == Pattern(FILES);
    assert !OccursAt(s, Pattern(FILES), 0) by {
      assert s[0..|Pattern(FILES)|][0] == '{' && Pattern(FILES)[0] == QUOTE;
    }
    IndexOfIs(s, Pattern(FILES), 0, 1);
  }

  /** An occurrence of the header has its second quote between an s and a colon. */
  lemma {:induction false} SecondQuote(s: string, i: nat)
    requires OccursAt(s, Pattern(FOLDERS), i)
    ensures s[i + 7] == 's' && s[i + 8] == QUOTE && s[i + 9] == ':'
  {
    var p := Pattern(FOLDERS);
    assert s[i + 7] == p[7] && s[i + 8] == p[8] && s[i + 9] == p[9];
  }

  /** No header before the real one. */
  lemma {:induction false} NoHeaderBefore(list: string, after: string, i: nat)
    requires SafeQuotes(list) && list != []
    requires i < 10 + |list|
    ensures !OccursAt("{\"files\":" + list + "," + Pattern(FOLDERS) + after, Pattern(FOLDERS), i)
  {
    var s := "{\"files\":" + list + "," + Pattern(FOLDERS) + after;
    if OccursAt(s, Pattern(FOLDERS), i) {
      SecondQuote(s, i);
      NoQuoteBetween(list, after, i + 8);
    }
  }

  lemma {:induction false} NoQuoteBetween(list: string, after: string, q: nat)
    requires SafeQuotes(list) && 8 <= q < 18 + |list|
    ensures var s := "{\"files\":" + list + "," + Pattern(FOLDERS) + after;
            q + 1 < |s| && !(s[q - 1] == 's' && s[q] == QUOTE && s[q + 1] == ':')
  {
    var h := "{\"files\":";
    var p := "," + Pattern(FOLDERS);
    var s := h + list + p + after;
    assert s == "{\"files\":" + list + "," + Pattern(FOLDERS) + after;
    if q < 9 {
      assert s[q] == h[q];
    } else if q < 9 + |list| {
      assert SafeAt(list, q - 9) && s[q] == list[q - 9];
      assert q > 9 ==> s[q - 1] == list[q - 10];
      assert q + 1 < 9 + |list| ==> s[q + 1] == list[q - 8];
    } else {
      var r := q - 9 - |list|;
      assert s[q] == p[r] && s[q + 1] == p[r + 1];
    }
  }

  /** The first occurrence of the second header is the real one, whatever the names contain. */
  lemma {:induction false} FoldersFound(files: seq<string>, after: string)
    ensures IndexOf(Head() + Items(files, true) + Middle() + after, Pattern(FOLDERS), 0)
         == |Head() + Items(files, true)| + 2
  {
    var s, p, k := Head() + Items(files, true) + Middle() + after, Pattern(FOLDERS), |Head() + Items(files, true)| + 2;
    assert s[k..k + |p|] == p;
    forall i | 0 <= i < k ensures !OccursAt(s, p, i) {
      NoneBefore(files, after, i);
    }
    IndexOfIs(s, p, 0, k);
  }

  lemma {:induction false} NoneBefore(files: seq<string>, after: string, i: nat)
    requires i < |Head() + Items(files, true)| + 2
    ensures !OccursAt(Head() + Items(files, true) + Middle() + after, Pattern(FOLDERS), i)
  {
    var list := "[" + Items(files, true) + "]";
    ListSafe(files);
    assert Head() + Items(files, true) + Middle() + after == "{\"files\":" + list + "," + Pattern(FOLDERS) + after;
    NoHeaderBefore(list, after, i);
  }

  // ----- what the client shows

  lemma {:induction false} ShowsFiles(files: seq<string>, rest: string)
    ensures Shown(Head() + Items(files, true) + "]" + rest, FILES) == Returned(files)
  {
    var s, more := Head() + Items(files, true) + "]" + rest, Items(files, true) + "]" + rest;
    assert s == Head() + more;
    FilesFound(more);
    assert s[1 + |Pattern(FILES)|..] == more;
    ReadBack(files, true, rest);
  }

  lemma {:induction false} ShowsFolders(files: seq<string>, after: string)
    ensures Shown(Head() + Items(files, true) + Middle() + after, FOLDERS) == ReadItems(after)
  {
    var s, k := Head() + Items(files, true) + Middle() + after, |Head() + Items(files, true)| + 2;
    FoldersFound(files, after);
    assert s[k + |Pattern(FOLDERS)|..] == after;
  }

  /** A listing that ends inside the second header has no folders. */
  lemma {:induction false} ShowsNone(files: seq<string>, n: nat)
    requires n < |Middle()|
    ensures Shown(Head() + Items(files, true) + Middle()[..n], FOLDERS) == []
  {
    var s, p := Head() + Items(files, true) + Middle()[..n], Pattern(FOLDERS);
    var whole := Head() + Items(files, true) + Middle() + "";
    assert whole[..|s|] == s;
    forall i | 0 <= i < |s| ensures !OccursAt(s, p, i) {
      if OccursAt(s, p, i) {
        assert whole[i..i + |p|] == s[i..i + |p|];
        NoneBefore(files, "", i);
      }
    }
    IndexOfNone(s, p, 0);
  }

  // ----- the round trip

  /** Names that survive: not empty, not too long, free of newline, carriage return and tab. */
  predicate Showable(name: string) {
    0 < |name| <= NAME_LIMIT && forall i :: 0 <= i < |name| ==> name[i] !in {'\n', '\r', '\t'}
  }

  predicate AllShowable(names: seq<string>) {
    forall i :: 0 <= i < |names| ==> Showable(names[i])
  }

  lemma {:induction false} NameReturns(name: string)
    ensures name != [] && Clip(Unescaped(name)) == name <==> Showable(name)
  {
    if name != [] && Clip(Unescaped(name)) == name {
      forall i | 0 <= i < |name| ensures name[i] !in {'\n', '\r', '\t'} {
        assert Unescaped(name)[i] == UnescapedChar(name[i]);
      }
    }
    if Showable(name) {
      assert Unescaped(name) == name;
    }
  }

  lemma {:induction false} ReturnedLength(names: seq<string>)
    ensures |Returned(names)| <= |names|
    decreases |names|
  {
    if names != [] {
      ReturnedLength(names[1..]);
    }
  }

  lemma {:induction false} NamesReturn(names: seq<string>)
    ensures Returned(names) == names <==> AllShowable(names)
    decreases |names|
  {
    if names != [] {
      var first, rest := names[0], names[1..];
      NamesReturn(rest);
      NameReturns(first);
      ReturnedLength(rest);
      assert names == [first] + rest;
      assert AllShowable(names) <==> Showable(first) && AllShowable(rest);
      if first != [] {
        assert Returned(names)[0] == Clip(Unescaped(first)) && Returned(names)[1..] == Returned(rest);
      }
    }
  }
}
