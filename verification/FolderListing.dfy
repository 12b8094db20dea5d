/** The folder listing from the name server's lists to the client's: the theorems. */
module FolderListing {
  import opened Listing
  import opened ListingBuffer

  // ----- a listing that is not cut

  /** What the client shows of a whole listing, for any names at all. */
  lemma {:induction false} ShownIs(files: seq<string>, folders: seq<string>)
    ensures Shown(Response(files, folders), FILES) == Returned(files)
    ensures Shown(Response(files, folders), FOLDERS) == Returned(folders)
  {
    var after := Items(folders, true) + "]" + "}";
    var rest := Middle()[1..] + after;
    assert Response(files, folders) == Head() + Items(files, true) + "]" + rest;
    ShowsFiles(files, rest);
    assert Response(files, folders) == Head() + Items(files, true) + Middle() + after;
    ShowsFolders(files, after);
    ReadBack(folders, true, "}");
  }

  /** A whole listing comes back unchanged exactly when every name is showable, whatever quotes, backslashes, brackets
      or header texts the names hold. */
  lemma {:induction false} RoundTripExactly(files: seq<string>, folders: seq<string>)
    ensures (Shown(Response(files, folders), FILES) == files && Shown(Response(files, folders), FOLDERS) == folders)
       <==> (AllShowable(files) && AllShowable(folders))
  {
    ShownIs(files, folders);
    NamesReturn(files);
    NamesReturn(folders);
  }

  // ----- the parts of a listing that may be cut

  /** The writer stays inside the buffer if and only if files and headers fit it; then all files are written. */
  lemma {:induction false} InBoundsExactly(files: seq<string>, n: nat)
    ensures InBounds(files, n) <==> |Head()| + |Items(files, true)| + |Middle()| <= n
    ensures InBounds(files, n) ==> ItemsUpTo(files, true, |Head()|, n) == Items(files, true)
  {
    assert |Middle()| > 2;
    ItemsWholeOrFull(files, true, |Head()|, n);
  }

  lemma {:induction false} ClosedExactly(names: seq<string>, start: bool, offset: nat, n: nat)
    returns (shown: seq<string>)
    requires offset < n
    ensures shown == ReadItems(FoldersText(names, start, offset, n)) && |shown| <= |names|
    ensures shown == names <==> AllShowable(names) && Recovered(names, start, offset, n)
    decreases |names|
  {
    if names == [] || offset + 2 >= n {
      shown := [];
      assert [] + FormatUpTo("]}", offset, n) == FormatUpTo("]}", offset, n);
      if names != [] {
        NoRoom(names, start, offset, n);
      }
    } else if offset + |Item(names[0], start)| < n {
      shown := ClosedExactly(names[1..], false, offset + |Item(names[0], start)|, n);
      shown := FirstWhole(names, start, offset, n, shown);
    } else {
      shown := FirstCut(names, start, offset, n);
    }
  }

  // ----- the whole listing

  /** The client shows exactly the lists the server had if and only if every name is showable and the folders fit, or
      only the closing quote of the last one is lost. */
  lemma {:induction false} SentExactly(files: seq<string>, folders: seq<string>, n: nat)
    requires InBounds(files, n)
    ensures var text := Sent(files, folders, n);
            (Shown(text, FILES) == files && Shown(text, FOLDERS) == folders) <==>
              && AllShowable(files) && AllShowable(folders)
              && Recovered(folders, true, |Head()| + |Items(files, true)| + |Middle()|, n)
  {
    InBoundsExactly(files, n);
    NamesReturn(files);
    var offset := |Head()| + |Items(files, true)| + |Middle()|;
    if offset < n {
      HeaderWhole(files, folders, n);
      var shown := ClosedExactly(folders, true, offset, n);
    } else {
      HeaderCut(files, folders, n);
      NothingAtEnd(folders, n);
    }
  }

  lemma {:induction false} NothingAtEnd(folders: seq<string>, n: nat)
    ensures folders == [] <==> AllShowable(folders) && Recovered(folders, true, n, n)
  {
    if folders != [] {
      NoRoom(folders, true, n, n);
    }
  }

  lemma {:induction false} HeaderWhole(files: seq<string>, folders: seq<string>, n: nat)
    requires ItemsUpTo(files, true, |Head()|, n) == Items(files, true)
    requires |Head()| + |Items(files, true)| + |Middle()| < n
    ensures Shown(Sent(files, folders, n), FILES) == Returned(files)
    ensures Shown(Sent(files, folders, n), FOLDERS)
         == ReadItems(FoldersText(folders, true, |Head()| + |Items(files, true)| + |Middle()|, n))
  {
    var after := FoldersText(folders, true, |Head()| + |Items(files, true)| + |Middle()|, n);
    var text := Head() + Items(files, true) + Middle() + after;
    assert Sent(files, folders, n) == text;
    BracketFirst(Head() + Items(files, true), Middle(), after);
    ShowsFiles(files, Middle()[1..] + after);
    ShowsFolders(files, after);
  }

  lemma {:induction false} BracketFirst(a: string, b: string, c: string)
    requires b != [] && b[0] == ']'
    ensures a + b + c == a + "]" + (b[1..] + c)
  {
    assert b == "]" + b[1..];
  }

  lemma {:induction false} HeaderCut(files: seq<string>, folders: seq<string>, n: nat)
    requires ItemsUpTo(files, true, |Head()|, n) == Items(files, true)
    requires |Head()| + |Items(files, true)| + |Middle()| == n
    ensures Shown(Sent(files, folders, n), FILES) == Returned(files)
    ensures Shown(Sent(files, folders, n), FOLDERS) == []
  {
    var part := Middle()[..|Middle()| - 1];
    var text := Head() + Items(files, true) + part;
    assert FoldersText(folders, true, n, n) == [];
    assert Sent(files, folders, n) == text;
    assert text == Head() + Items(files, true) + "]" + part[1..];
    ShowsFiles(files, part[1..]);
    ShowsNone(files, |Middle()| - 1);
  }

  /** From the name server's two lists to the client's. */
  method ListFolder(files: seq<string>, folders: seq<string>)
    returns (ok: bool, shownFiles: seq<string>, shownFolders: seq<string>)
    ensures ok <==> |Head()| + |Items(files, true)| + |Middle()| <= SIZE
    ensures ok ==> ((shownFiles == files && shownFolders == folders) <==>
                      && AllShowable(files) && AllShowable(folders)
                      && Recovered(folders, true, |Head()| + |Items(files, true)| + |Middle()|, SIZE))
    ensures |Response(files, folders)| < SIZE ==>
              ok && shownFiles == Returned(files) && shownFolders == Returned(folders)
  {
    var buf, end;
    buf, end, ok := BuildResponse(files, folders);
    InBoundsExactly(files, SIZE);
    shownFiles, shownFolders := [], [];
    if ok {
      var text := buf[..end];
      shownFiles := ShowSection(text, FILES);
      shownFolders := ShowSection(text, FOLDERS);
      SentExactly(files, folders, SIZE);
    }
    if |Response(files, folders)| < SIZE {
      SentWhole(files, folders, SIZE);
      ShownIs(files, folders);
    }
  }

  /** A listing shorter than the buffer is sent whole. */
  lemma {:induction false} SentWhole(files: seq<string>, folders: seq<string>, n: nat)
    requires |Response(files, folders)| < n
    ensures InBounds(files, n) && Sent(files, folders, n) == Response(files, folders)
  {
    InBoundsExactly(files, n);
    ItemsWholeOrFull(folders, true, FoldersOffset(files, n), n);
  }

  /** A folder of sixty-four files with names of 255 letters leaves the buffer. */
  lemma {:induction false} BufferLeft(files: seq<string>)
    requires |files| >= 64 && forall name :: name in files ==> |name| >= NAME_LIMIT
    ensures !InBounds(files, SIZE)
  {
    InBoundsExactly(files, SIZE);
    ItemsAtLeast(files, true);
  }
}
