/** The folder listing in its buffer: what is written when the listing does not fit, when the writer stays inside the
    buffer, and exactly when the client shows the lists the server had. */
module ListingBuffer {
  import opened Listing

  // ----- what is written into a buffer of length n

  function Comma(start: bool): string {
    if start then [] else [',']
  }

  /** One item from offset on, as far as it fits. */
  function ItemUpTo(name: string, start: bool, offset: nat, n: nat): string {
    Comma(start) + LiteralUpTo(name, offset + |Comma(start)|, n)
  }

  /** The loop over the names stops when fewer than three characters are left. */
  function ItemsUpTo(names: seq<string>, start: bool, offset: nat, n: nat): (r: string)
    ensures offset < n ==> offset + |r| < n
    decreases |names|
  {
    if names == [] || offset + 2 >= n then []
    else
      var item := ItemUpTo(names[0], start, offset, n);
      item + ItemsUpTo(names[1..], false, offset + |item|, n)
  }

  /** What snprintf writes at offset, its terminator not counted. */
  function FormatUpTo(text: string, offset: nat, n: nat): string {
    if offset + |text| < n then text else if offset < n then text[..n - 1 - offset] else []
  }

  /** Where the folders start: snprintf's full length is added to the offset, written or not. */
  function FoldersOffset(files: seq<string>, n: nat): nat {
    |Head()| + |ItemsUpTo(files, true, |Head()|, n)| + |Middle()|
  }

  /** The offset is still within the buffer, so the room computed from it does not wrap. */
  predicate InBounds(files: seq<string>, n: nat) {
    FoldersOffset(files, n) <= n
  }

  /** Folder items and the closing brackets, from offset on. */
  function FoldersText(folders: seq<string>, start: bool, offset: nat, n: nat): string {
    var items := ItemsUpTo(folders, start, offset, n);
    items + FormatUpTo("]}", offset + |items|, n)
  }

  /** The first header, the files and the second header. */
  function Opened(files: seq<string>, n: nat): string {
    var items := ItemsUpTo(files, true, |Head()|, n);
    Head() + items + FormatUpTo(Middle(), |Head()| + |items|, n)
  }

  /** The text that is sent. */
  function Sent(files: seq<string>, folders: seq<string>, n: nat): string {
    Opened(files, n) + FoldersText(folders, true, FoldersOffset(files, n), n)
  }

  // ----- the writer

  method AppendItem(buf: array<char>, offset: nat, name: string, start: bool) returns (end: nat)
    requires offset + 2 < buf.Length
    modifies buf
    ensures offset <= end < buf.Length
    ensures buf[..end] == old(buf[..offset]) + ItemUpTo(name, start, offset, buf.Length)
  {
    ghost var before := buf[..offset];
    end := AppendComma(buf, offset, start);
    Associate(before, Comma(start), LiteralUpTo(name, end, buf.Length));
    end := AppendLiteral(buf, end, name);
  }

  method AppendComma(buf: array<char>, offset: nat, start: bool) returns (end: nat)
    requires offset < buf.Length
    modifies buf
    ensures end == offset + |Comma(start)| && buf[..end] == old(buf[..offset]) + Comma(start)
  {
    end := offset;
    if !start {
      end := Put(buf, end, ",");
    }
  }

  method AppendItems(buf: array<char>, offset: nat, names: seq<string>) returns (end: nat, ghost items: string)
    requires offset <= buf.Length
    modifies buf
    ensures items == ItemsUpTo(names, true, offset, buf.Length)
    ensures end == offset + |items| <= buf.Length && buf[..end] == old(buf[..offset]) + items
  {
    ghost var before := buf[..offset];
    end := AppendEach(buf, offset, names);
    items := OntoIs(before, names, true, offset, buf.Length);
  }

  method AppendEach(buf: array<char>, offset: nat, names: seq<string>) returns (end: nat)
    requires offset <= buf.Length
    modifies buf
    ensures offset <= end <= buf.Length && buf[..end] == ItemsOnto(old(buf[..offset]), names, true, buf.Length)
  {
    end := offset;
    var i := 0;
    assert names[0..] == names;
    while i < |names| && end + 2 < buf.Length
      invariant i <= |names| && offset <= end <= buf.Length
      invariant ItemsOnto(buf[..end], names[i..], i == 0, buf.Length)
             == ItemsOnto(old(buf[..offset]), names, true, buf.Length)
    {
      OntoNext(buf[..end], names, i, buf.Length);
      end := AppendItem(buf, end, names[i], i == 0);
      i := i + 1;
    }
    OntoDone(buf[..end], names[i..], i == 0, buf.Length);
  }

  /** The same loop on values: text is what the buffer holds so far. */
  function ItemsOnto(text: string, names: seq<string>, start: bool, n: nat): string
    decreases |names|
  {
    if names == [] || |text| + 2 >= n then text
    else ItemsOnto(text + ItemUpTo(names[0], start, |text|, n), names[1..], false, n)
  }

  lemma {:induction false} OntoDone(text: string, names: seq<string>, start: bool, n: nat)
    requires names == [] || |text| + 2 >= n
    ensures ItemsOnto(text, names, start, n) == text
  {
  }

  lemma {:induction false} OntoNext(text: string, names: seq<string>, i: nat, n: nat)
    requires i < |names| && |text| + 2 < n
    ensures ItemsOnto(text, names[i..], i == 0, n)
         == ItemsOnto(text + ItemUpTo(names[i], i == 0, |text|, n), names[i + 1..], false, n)
  {
    assert names[i..][0] == names[i] && names[i..][1..] == names[i + 1..];
  }

  lemma {:induction false} OntoIs(text: string, names: seq<string>, start: bool, offset: nat, n: nat)
    returns (items: string)
    requires offset == |text|
    ensures items == ItemsUpTo(names, start, offset, n) && ItemsOnto(text, names, start, n) == text + items
    decreases |names|
  {
    items := ItemsUpTo(names, start, offset, n);
    if names != [] && offset + 2 < n {
      var item, more := NextItem(text, names, start, offset, n);
      more := OntoIs(text + item, names[1..], false, offset + |item|, n);
    }
  }

  lemma {:induction false} NextItem(before: string, names: seq<string>, start: bool, offset: nat, n: nat)
    returns (item: string, more: string)
    requires names != [] && offset + 2 < n && |before| == offset
    ensures item == ItemUpTo(names[0], start, offset, n)
    ensures more == ItemsUpTo(names[1..], false, offset + |item|, n)
    ensures before + ItemsUpTo(names, start, offset, n) == (before + item) + more && |before + item| == offset + |item|
  {
    item, more := FirstItem(names, start, offset, n);
    Append(before, ItemsUpTo(names, start, offset, n), item, more);
  }

  lemma {:induction false} FirstItem(names: seq<string>, start: bool, offset: nat, n: nat)
    returns (item: string, more: string)
    requires names != [] && offset + 2 < n
    ensures item == ItemUpTo(names[0], start, offset, n)
    ensures more == ItemsUpTo(names[1..], false, offset + |item|, n)
    ensures ItemsUpTo(names, start, offset, n) == item + more
  {
    item := ItemUpTo(names[0], start, offset, n);
    more := ItemsUpTo(names[1..], false, offset + |item|, n);
  }

  lemma {:induction false} Append(before: string, whole: string, item: string, more: string)
    requires whole == item + more
    ensures before + whole == (before + item) + more && |before + item| == |before| + |item|
  {
    Associate(before, item, more);
  }

  lemma {:induction false} Associate(a: string, b: string, c: string)
    ensures a + (b + c) == (a + b) + c && |a + b| == |a| + |b|
  {
  }

  /** snprintf: writes what fits and returns the length of the whole text. */
  method Format(buf: array<char>, offset: nat, text: string) returns (length: nat, end: nat, ghost part: string)
    requires offset <= buf.Length
    modifies buf
    ensures part == FormatUpTo(text, offset, buf.Length) && length == |text|
    ensures end == offset + |part| <= buf.Length && buf[..end] == old(buf[..offset]) + part
  {
    length, end, part := |text|, offset, FormatUpTo(text, offset, buf.Length);
    if offset < buf.Length {
      end := Put(buf, offset, FormatUpTo(text, offset, buf.Length));
      buf[end] := '\0';
    }
  }

  /** The response buffer and the length of the text in it; false when the offset has left the buffer. */
  method BuildResponse(files: seq<string>, folders: seq<string>) returns (buf: array<char>, end: nat, ok: bool)
    ensures fresh(buf) && buf.Length == SIZE && end <= SIZE
    ensures ok == InBounds(files, SIZE)
    ensures ok ==> buf[..end] == Sent(files, folders, SIZE)
  {
    buf := new char[SIZE];
    var offset := WriteFiles(buf, files);
    ok := offset <= SIZE;
    end := offset;
    if offset < SIZE {
      end := WriteFolders(buf, offset, folders);
    } else if offset == SIZE {
      end := SIZE - 1;
    } else {
      end := 0;
    }
    assert offset == SIZE ==> FoldersText(folders, true, offset, SIZE) == [];
  }

  /** The first header, the files and the second header. */
  method WriteFiles(buf: array<char>, files: seq<string>) returns (offset: nat)
    requires buf.Length == SIZE
    modifies buf
    ensures offset == FoldersOffset(files, SIZE)
    ensures |Opened(files, SIZE)| == (if offset < SIZE then offset else SIZE - 1)
    ensures buf[..|Opened(files, SIZE)|] == Opened(files, SIZE)
  {
    ghost var items, middle := OpenedIs(files, SIZE);
    offset, items, middle := WriteAround(buf, Head(), files, Middle());
  }

  method WriteAround(buf: array<char>, head: string, files: seq<string>, middle: string)
    returns (offset: nat, ghost items: string, ghost part: string)
    requires |head| <= buf.Length
    modifies buf
    ensures items == ItemsUpTo(files, true, |head|, buf.Length)
    ensures part == FormatUpTo(middle, |head| + |items|, buf.Length) && offset == |head| + |items| + |middle|
    ensures |head| + |items| + |part| <= buf.Length && buf[..|head| + |items| + |part|] == head + items + part
  {
    offset, items := WriteHead(buf, head, files);
    var length, end;
    length, end, part := Format(buf, offset, middle);
    offset := offset + length;
  }

  method WriteHead(buf: array<char>, head: string, files: seq<string>) returns (offset: nat, ghost items: string)
    requires |head| <= buf.Length
    modifies buf
    ensures items == ItemsUpTo(files, true, |head|, buf.Length)
    ensures offset == |head| + |items| <= buf.Length && buf[..offset] == head + items
  {
    offset := Put(buf, 0, head);
    assert buf[..offset] == head;
    offset, items := AppendItems(buf, offset, files);
  }

  lemma {:induction false} OpenedIs(files: seq<string>, n: nat) returns (items: string, middle: string)
    requires |Head()| < n
    ensures items == ItemsUpTo(files, true, |Head()|, n) && |Head()| + |items| < n
    ensures middle == FormatUpTo(Middle(), |Head()| + |items|, n)
    ensures Opened(files, n) == Head() + items + middle && FoldersOffset(files, n) == |Head()| + |items| + |Middle()|
    ensures |Opened(files, n)| == |Head()| + |items| + |middle|
    ensures |Opened(files, n)| == if FoldersOffset(files, n) < n then FoldersOffset(files, n) else n - 1
  {
    items := ItemsUpTo(files, true, |Head()|, n);
    middle := FormatUpTo(Middle(), |Head()| + |items|, n);
  }

  method WriteFolders(buf: array<char>, offset: nat, folders: seq<string>) returns (end: nat)
    requires offset < buf.Length
    modifies buf
    ensures end <= buf.Length && buf[..end] == old(buf[..offset]) + FoldersText(folders, true, offset, buf.Length)
  {
    ghost var before := buf[..offset];
    ghost var items;
    var last;
    last, items := AppendItems(buf, offset, folders);
    ghost var part;
    var length;
    length, end, part := Format(buf, last, "]}");
    Associate(before, items, part);
  }

  // ----- whole, or the buffer is full

  lemma {:induction false} EscapedWholeOrFull(value: string, offset: nat, n: nat)
    ensures var text := EscapedUpTo(value, offset, n);
            text == Escaped(value) || (offset + |text| + 2 >= n && offset + |Escaped(value)| + 2 > n)
    decreases |value|
  {
    if value != [] {
      assert |Escaped(value)| == |Escape(value[0])| + |Escaped(value[1..])|;
      EscapedWholeOrFull(value[1..], offset + |Escape(value[0])|, n);
    }
  }

  lemma {:induction false} ItemWholeOrFull(name: string, start: bool, offset: nat, n: nat)
    ensures var item := ItemUpTo(name, start, offset, n);
            item == Item(name, start) || (offset + |item| + 2 >= n && offset + |Item(name, start)| >= n)
  {
    EscapedWholeOrFull(name, offset + |Comma(start)| + 1, n);
  }

  lemma {:induction false} ItemsWholeOrFull(names: seq<string>, start: bool, offset: nat, n: nat)
    ensures var items := ItemsUpTo(names, start, offset, n);
            items == Items(names, start) || (offset + |items| + 2 >= n && offset + |Items(names, start)| >= n)
    decreases |names|
  {
    if names != [] {
      ItemsLength(names, start);
      if offset + 2 < n {
        var item, more := FirstItem(names, start, offset, n);
        ItemWholeOrFull(names[0], start, offset, n);
        ItemsWholeOrFull(names[1..], false, offset + |item|, n);
      }
    }
  }

  lemma {:induction false} ItemsLength(names: seq<string>, start: bool)
    requires names != []
    ensures |Item(names[0], start)| >= 2
    ensures |Items(names, start)| == |Item(names[0], start)| + |Items(names[1..], false)|
  {
  }

  /** Names of at least 255 characters take at least 258 each, quotes and comma included. */
  lemma {:induction false} ItemsAtLeast(names: seq<string>, start: bool)
    requires forall name :: name in names ==> |name| >= NAME_LIMIT
    ensures |Items(names, start)| + (if start then 1 else 0) >= |names| * 258
    decreases |names|
  {
    if names != [] {
      assert names[0] in names && forall name :: name in names[1..] ==> name in names;
      EscapedAtLeast(names[0]);
      ItemsLength(names, start);
      ItemsAtLeast(names[1..], false);
    }
  }

  lemma {:induction false} EscapedAtLeast(value: string)
    ensures |Escaped(value)| >= |value|
    decreases |value|
  {
    if value != [] {
      EscapedAtLeast(value[1..]);
    }
  }

  // ----- a name that is cut

  /** A body and the closing quote, as far as they fit. */
  function CutText(value: string, offset: nat, n: nat): string {
    var text := EscapedUpTo(value, offset, n);
    if offset + |text| < n - 1 then text + [QUOTE] else text
  }

  /** The body is complete and ends with the last character before the terminator, so that only the quote is lost. */
  predicate OnlyQuoteLost(name: string, offset: nat, n: nat) {
    offset + |Escaped(name)| == n - 1 && (name != [] ==> |Escape(name[|name| - 1])| == 2)
  }

  lemma {:induction false} ReadEscape(ch: char, more: string)
    ensures ReadName(Escape(ch) + more).0 == [UnescapedChar(ch)] + ReadName(more).0
    ensures ReadName(Escape(ch) + more).1 == ReadName(more).1
  {
    assert (Escape(ch) + more)[|Escape(ch)|..] == more;
  }

  /** A name that does not fit comes back shorter, unless only its quote is lost. */
  lemma {:induction false} CutName(name: string, offset: nat, n: nat)
    requires offset < n <= offset + |Escaped(name)| + 1
    ensures var text := CutText(name, offset, n);
            var read := ReadName(text);
            && offset + |text| == n - 1 && read.1 == []
            && |read.0| <= |name| && (|read.0| == |name| <==> OnlyQuoteLost(name, offset, n))
            && (|read.0| == |name| ==> read.0 == Unescaped(name))
    decreases |name|
  {
    if name != [] && offset + 2 < n {
      var e, rest := Escape(name[0]), name[1..];
      CutName(rest, offset + |e|, n);
      CutFirst(name, offset, n);
      ReadEscape(name[0], CutText(rest, offset + |e|, n));
    } else {
      assert EscapedUpTo(name, offset, n) == [];
      assert name != [] ==> |Escaped(name)| >= |Escape(name[0])|;
    }
  }

  lemma {:induction false} CutFirst(name: string, offset: nat, n: nat)
    requires name != [] && offset + 2 < n
    ensures var next := offset + |Escape(name[0])|;
            && CutText(name, offset, n) == Escape(name[0]) + CutText(name[1..], next, n)
            && (OnlyQuoteLost(name, offset, n) <==> OnlyQuoteLost(name[1..], next, n))
  {
    var e, rest := Escape(name[0]), name[1..];
    assert |Escaped(name)| == |e| + |Escaped(rest)|;
    assert rest != [] ==> rest[|rest| - 1] == name[|name| - 1];
    assert rest == [] ==> Escaped(rest) == [];
    Associate(e, EscapedUpTo(rest, offset + |e|, n), [QUOTE]);
  }

  /** What is shown of an item that does not fit: the name itself only if just its quote is lost. */
  lemma {:induction false} CutItem(name: string, start: bool, offset: nat, n: nat)
    returns (item: string, shown: seq<string>)
    requires offset + 2 < n <= offset + |Item(name, start)|
    ensures item == ItemUpTo(name, start, offset, n)
    ensures shown == ReadItems(item + FormatUpTo("]}", offset + |item|, n))
    ensures offset + |item| + 2 >= n && |shown| <= 1
    ensures shown == [name] <==> Showable(name) && offset + |Item(name, start)| == n && EndsEscaped(name)
  {
    var q := offset + |Comma(start)|;
    if q + 2 >= n {
      item, shown := Comma(start), [];
      ReadComma(FormatUpTo("]}", q, n), start);
    } else {
      item, shown := CutInside(name, start, offset, n);
    }
  }

  lemma {:induction false} CutInside(name: string, start: bool, offset: nat, n: nat)
    returns (item: string, shown: seq<string>)
    requires offset + |Comma(start)| + 2 < n <= offset + |Item(name, start)|
    ensures item == ItemUpTo(name, start, offset, n) && offset + |item| == n - 1
    ensures shown == ReadItems(item + FormatUpTo("]}", offset + |item|, n)) && |shown| <= 1
    ensures shown == [name] <==> Showable(name) && OnlyQuoteLost(name, offset + |Comma(start)| + 1, n)
  {
    var q := offset + |Comma(start)| + 1;
    CutName(name, q, n);
    var text := CutText(name, q, n);
    item := CutLiteral(name, start, offset, n, text);
    assert FormatUpTo("]}", n - 1, n) == [] && item + [] == item;
    shown := ReadCut(name, text, start, OnlyQuoteLost(name, q, n));
  }

  lemma {:induction false} CutLiteral(name: string, start: bool, offset: nat, n: nat, text: string)
    returns (item: string)
    requires offset + |Comma(start)| + 2 < n && text == CutText(name, offset + |Comma(start)| + 1, n)
    ensures item == ItemUpTo(name, start, offset, n) && item == Comma(start) + ([QUOTE] + text)
  {
    var literal := [QUOTE] + text;
    item := Comma(start) + literal;
  }

  lemma {:induction false} ReadCut(name: string, text: string, start: bool, whole: bool) returns (shown: seq<string>)
    requires ReadName(text).1 == [] && |ReadName(text).0| <= |name| && (|ReadName(text).0| == |name| <==> whole)
    requires whole ==> ReadName(text).0 == Unescaped(name)
    ensures shown == ReadItems(Comma(start) + ([QUOTE] + text)) && |shown| <= 1
    ensures shown == [name] <==> Showable(name) && whole
  {
    var literal := [QUOTE] + text;
    assert literal[1..] == text;
    ReadComma(literal, start);
    ShownCut(name, ReadName(text).0, whole);
    shown := ReadItems(literal);
  }

  predicate EndsEscaped(name: string) {
    name != [] && name[|name| - 1] in {QUOTE, BACKSLASH}
  }

  lemma {:induction false} ShownCut(name: string, read: string, whole: bool)
    requires |read| <= |name| && (|read| == |name| <==> whole) && (whole ==> read == Unescaped(name))
    ensures (if read == [] then [] else [Clip(read)]) == [name] <==> Showable(name) && whole
  {
    NameReturns(name);
    if !whole {
      assert |Clip(read)| < |name|;
    }
  }

  // ----- the folders section

  /** The list comes back: it fits, or only the closing quote of its last name is lost. */
  predicate Recovered(names: seq<string>, start: bool, offset: nat, n: nat) {
    names == [] || offset + |Items(names, start)| < n
    || (offset + |Items(names, start)| == n && EndsEscaped(names[|names| - 1]))
  }

  lemma {:induction false} NoRoom(names: seq<string>, start: bool, offset: nat, n: nat)
    requires names != [] && offset + 2 >= n
    ensures !(AllShowable(names) && Recovered(names, start, offset, n))
  {
    if AllShowable(names) {
      assert Showable(names[0]) && |Escape(names[0][0])| >= 1;
      assert |Escaped(names[0])| >= 1;
      assert |Items(names, start)| >= |Item(names[0], start)| >= 3;
    }
  }

  lemma {:induction false} FirstWhole(names: seq<string>, start: bool, offset: nat, n: nat, later: seq<string>)
    returns (shown: seq<string>)
    requires names != [] && offset + 2 < n && offset + |Item(names[0], start)| < n && |later| <= |names[1..]|
    requires later == ReadItems(FoldersText(names[1..], false, offset + |Item(names[0], start)|, n))
    requires later == names[1..]
        <==> AllShowable(names[1..]) && Recovered(names[1..], false, offset + |Item(names[0], start)|, n)
    ensures shown == ReadItems(FoldersText(names, start, offset, n)) && |shown| <= |names|
    ensures shown == names <==> AllShowable(names) && Recovered(names, start, offset, n)
  {
    var more := ClosedFirst(names, start, offset, n);
    shown := ReadItem(names[0], start, more);
    WholeExactly(names, start, offset, n, later, shown);
  }

  lemma {:induction false} WholeExactly(names: seq<string>, start: bool, offset: nat, n: nat, later: seq<string>,
                                        shown: seq<string>)
    requires names != [] && offset + |Item(names[0], start)| < n && |later| <= |names[1..]|
    requires later == names[1..]
        <==> AllShowable(names[1..]) && Recovered(names[1..], false, offset + |Item(names[0], start)|, n)
    requires shown == (if names[0] == [] then [] else [Clip(Unescaped(names[0]))]) + later
    ensures |shown| <= |names| && (shown == names <==> AllShowable(names) && Recovered(names, start, offset, n))
  {
    FirstShown(names[0], names[1..], later);
    RecoveredFirst(names, start, offset, n);
    assert names == [names[0]] + names[1..];
  }

  lemma {:induction false} ClosedFirst(names: seq<string>, start: bool, offset: nat, n: nat) returns (more: string)
    requires names != [] && offset + 2 < n && offset + |Item(names[0], start)| < n
    ensures more == FoldersText(names[1..], false, offset + |Item(names[0], start)|, n)
    ensures FoldersText(names, start, offset, n) == Item(names[0], start) + more
  {
    ItemWholeOrFull(names[0], start, offset, n);
    var item, items := FirstItem(names, start, offset, n);
    var brackets := FormatUpTo("]}", offset + |item| + |items|, n);
    Associate(item, items, brackets);
    more := items + brackets;
  }

  lemma {:induction false} RecoveredFirst(names: seq<string>, start: bool, offset: nat, n: nat)
    requires names != [] && offset + |Item(names[0], start)| < n
    ensures Recovered(names, start, offset, n)
       <==> Recovered(names[1..], false, offset + |Item(names[0], start)|, n)
  {
    var rest := names[1..];
    ItemsLength(names, start);
    assert rest != [] ==> rest[|rest| - 1] == names[|names| - 1];
  }

  lemma {:induction false} ReadItem(name: string, start: bool, more: string) returns (shown: seq<string>)
    ensures shown == ReadItems(Item(name, start) + more)
    ensures shown == (if name == [] then [] else [Clip(Unescaped(name))]) + ReadItems(more)
  {
    Associate(Comma(start), Literal(name), more);
    ReadComma(Literal(name) + more, start);
    ReadOne(name, more);
    shown := ReadItems(Literal(name) + more);
  }

  lemma {:induction false} FirstShown(name: string, rest: seq<string>, shown: seq<string>)
    requires |shown| <= |rest|
    ensures (if name == [] then [] else [Clip(Unescaped(name))]) + shown == [name] + rest
       <==> Showable(name) && shown == rest
  {
    NameReturns(name);
    var first := if name == [] then [] else [Clip(Unescaped(name))];
    if first + shown == [name] + rest {
      assert |first + shown| == 1 + |rest|;
      assert (first + shown)[0] == name && (first + shown)[1..] == shown && ([name] + rest)[1..] == rest;
    }
  }

  lemma {:induction false} FirstCut(names: seq<string>, start: bool, offset: nat, n: nat)
    returns (shown: seq<string>)
    requires names != [] && offset + 2 < n <= offset + |Item(names[0], start)|
    ensures shown == ReadItems(FoldersText(names, start, offset, n)) && |shown| <= |names|
    ensures shown == names <==> AllShowable(names) && Recovered(names, start, offset, n)
  {
    var cut;
    cut, shown := CutItem(names[0], start, offset, n);
    var item, more := FirstItem(names, start, offset, n);
    assert more == [] && item + [] == item;
    CutExactly(names, start, offset, n, shown);
  }

  lemma {:induction false} CutExactly(names: seq<string>, start: bool, offset: nat, n: nat, shown: seq<string>)
    requires names != [] && n <= offset + |Item(names[0], start)| && |shown| <= 1
    requires shown == [names[0]]
        <==> Showable(names[0]) && offset + |Item(names[0], start)| == n && EndsEscaped(names[0])
    ensures shown == names <==> AllShowable(names) && Recovered(names, start, offset, n)
  {
    ItemsLength(names, start);
    if |names| > 1 {
      ItemsLength(names[1..], false);
    } else {
      assert names == [names[0]] && Items(names[1..], false) == [];
    }
  }
}
