# Docs++ verification

A Dafny model of Docs++, a document store made of a name server, storage servers and clients, with proofs of what its
parts promise each other. The model has five parts.

**Editing engine.** `Text` tokenises and joins words, `Sentences` cuts a text into sentences (a loop that rewrites its own
index, proved against a parser and printer that are inverse to each other), `Editing` writes word insertions into one
sentence or into the unfinished tail. `Insertion` says where every word stands afterwards, `Accounting` what a write
conserves. `Commutation` proves when two edits of one file commute up to renumbering, `Numbering` when they commute at
the sentence numbers the server commits at, which is what locking single sentences relies on; `Splicing` and `Shifting`
hold the lemmas behind them. `Paths` and `Engine` add the disk, the undo slot and the checkpoints, `ResolvedPaths` what
`..` in a name does to them; `History` proves statements about whole runs, `Effects` what each operation leaves as later
answers show it.

**Write sessions.** `LockTable` is the linked list of locked sentences, `WriteProtocol` the transition system whose events
are the sections a storage server runs under a mutex, `CommitRace` what happens between a commit's version check and its
write.

**Index and cache.** `FileIndex` is the 256-way trie, `LruCache` the doubly linked list, `NameServer` the handlers that use
both, `MovePath` the key MOVE builds.

**Placement, access and listing.** `Placement` is the round robin of CREATE, `Access` the access list and the request
workflow, whose state between commands is the text of the request file. `RequestFile` and `AccessFile` are the two file
formats, over the line reader of `Lines`. `Listing` is the folder listing with its encoder and decoder, `ListingBuffer`
the fixed response buffer, `FolderListing` what holds end to end.

**Client.** `ClientMirror` is the client's prediction of which word indices the engine will accept.

Loops, objects and buffers of the program are methods, classes and arrays here; each is proved against a function, and
the theorems are about that function. `dafny verify dfyconfig.toml` checks everything.

Findings, each stated as an equivalence or with its counterexample:

- A session commits at the sentence number it locked. Committing an edit of sentence i and any edit of a later sentence
  j in either order leaves the same text, for all edits of j, exactly when the edit of i inserts no delimiter and either
  leaves its sentence ended by one or j is not its right neighbour (`Numbering.OrderExactly`). The design text promises
  concurrent writes to different sentences without this condition (README.md:37). With "a. b.", "x." put in front of
  sentence 0 and "z" in front of sentence 1, the two orders leave "x. z a. b." and "x. a. z b."
  (`Numbering.OrderExample`). In terms of the updates alone: no inserted text holds a delimiter, and for neighbours no
  update puts words behind the last word (`Numbering.OrderOnInputs`). Up to renumbering j, the delimiters the edit
  inserts do not matter (`Commutation.CommuteExactly`).
- The version check of a commit and its write are separate steps. A session that has passed its check always writes, and
  edits the text it then finds; that text is newer than the version it was granted exactly when the file was stamped
  late, or removed until late, in between (`CommitRace.CheckedExactly`). Two sessions can both be in that window from
  the initial state on (`CommitRace.RaceReaches`), and when the condition above fails the order of their commits decides
  the content (`CommitRace.RaceDiffers`).
- Restarts change an answer exactly when some DELETE that would find its file loaded without them does not find it
  loaded with them (`History.RestartsSeenExactly`).
- The requests that the name server finds in its file are the ones not yet answered, for every user, exactly when every
  accepted request came from a keepable name, one of 1 to 127 characters without bar and newline
  (`Access.PendingExactly`, `RequestFile.RoundTripExactly`). A read request of a user named "bob|write|5" is loaded as a write request of bob: the
  owner's approval of it is accepted although bob never asked, and a second request leaves bob with two
  (`Access.ForgedApproval`).
- Saving and loading an access list keeps all answers exactly when every name written for an entry has 1 to 127
  characters without colon and newline (`AccessFile.ReloadExactly`).
- Content, undo and checkpoint files stay apart after the file system has resolved their paths when no part of a name is
  empty, "." or ".." (`ResolvedPaths.ResolvedApart`). The engine accepts other names: the content path of
  "../checkpoints/a/t.chk" is checkpoint t of a (`ResolvedPaths.DotDotReaches`).
- MOVE onto an existing file loses a file (`NameServer.RenameExactly`).
- When the placement counter wraps, both copies may land on one server, for three, five or fifteen servers
  (`Placement.DistinctExactly`), and balance is lost unless the number of servers divides 2^32
  (`Placement.BalancedExactly`).
- The offset of the folder listing stays inside its 16384-character buffer exactly when the files and both headers fit
  it (`FolderListing.InBoundsExactly`); sixty-four names of 255 characters leave it (`FolderListing.BufferLeft`). When
  it stays inside, the client shows the two lists unchanged exactly when all names are non-empty, at most 255 characters
  long and free of newline, carriage return and tab, and the folders fit too: all their literals are written, or only
  the quote that closes the last one is lost, which happens when its name ends in a quote or a backslash
  (`FolderListing.SentExactly`). In particular a listing shorter than the buffer is subject to the condition on names
  only (`FolderListing.ListFolder`).

## Model

| member | source | states |
|---|---|---|
| `Text.NormaliseInlineWhitespace` | storage_server/src/storage_engine.c:218-227 | the array is rewritten in place, blanks to spaces and nothing else |
| `Text.TokensOfNormalised` | storage_server/src/storage_engine.c:218-227 | normalising never changes the words of a text |
| `Text.TokenizeWords` | storage_server/src/storage_engine.c:740-781 | copy, normalise and split return exactly the maximal runs of non-blank characters |
| `Text.CountWords` | storage_server/src/storage_engine.c:347-362 | the in-word flag loop counts exactly the words the tokeniser returns |
| `Text.JoinWords` | storage_server/src/storage_engine.c:862-888 | the copy loop produces the words with single spaces between them |
| `Text.TokensOfJoin` | storage_server/src/storage_engine.c:740-888 | tokenising a join of non-empty blank-free words returns those words |
| `Text.ReprintIdempotent` | storage_server/src/storage_engine.c:740-888 | tokenise-then-join applied twice is the same as once |
| `Text.WordCountConcat` | storage_server/src/storage_engine.c:347-362 | word counts add over concatenation, less one exactly when the seam is inside a word |
| `Sentences.ComputeSpans` | storage_server/src/storage_engine.c:302-345 | the scan terminates, equals the span list of the parsed document, and cuts the text into sentences, one per delimiter |
| `Sentences.SpanCharacterisation` | storage_server/src/storage_engine.c:312-344 | spans are ordered and disjoint, each ends in its only delimiter, only white space lies between, no delimiter follows the last |
| `Sentences.SentenceCountIsDelimiters` | storage_server/src/storage_engine.c:302-345 | the number of sentences is the number of delimiter characters |
| `Sentences.ParseSound` | storage_server/src/storage_engine.c:302-345 | every text is the print of a well-formed document |
| `Sentences.ParseUnique` | storage_server/src/storage_engine.c:302-345 | parsing the print of any well-formed document gives that document back |
| `Sentences.ReadsUnique` | storage_server/src/storage_engine.c:302-345 | a text has only one reading as pieces and tail |
| `Sentences.SpansRead` | storage_server/src/storage_engine.c:302-345 | the scanner's spans are the positions of the document's pieces |
| `Sentences.SpanText` | storage_server/src/storage_engine.c:302-345 | where span k starts, that it covers exactly piece k, and what follows it |
| `Editing.ApplyUpdates` | storage_server/src/storage_engine.c:793-860 | the loop is the left fold of the insertions, failing at the first index beyond the count at that moment; `Insertion` says where every word ends up |
| `Editing.FindTarget` | storage_server/src/storage_engine.c:993-1041 | the span an index names: a sentence, the whole text, the tail after the last sentence, or none |
| `Editing.RewriteSentence` | storage_server/src/storage_engine.c:967-1101 | target, tokenise, apply, join and splice together compute the write function, with its error cases |
| `Editing.WriteAt` | storage_server/src/storage_engine.c:993-1101 | a write to sentence i replaces body i of the document and leaves every other character alone |
| `Editing.WriteTail` | storage_server/src/storage_engine.c:1008-1041 | a write one past the last sentence replaces the tail's words; everything before it stays, the last gap up to its first carriage return |
| `Insertion.OneUpdate` | storage_server/src/storage_engine.c:793-860 | one update succeeds exactly when its index is at most the word count; then the words before the index and behind it stay, with the tokens of the text between them |
| `Insertion.UpdatesInTurn` | storage_server/src/storage_engine.c:793-860 | a list of updates is any first part of it followed by the rest |
| `Insertion.WordsStand` | storage_server/src/storage_engine.c:850-855 | after any list of updates every old word and every inserted word stands at a position computed from the indices alone, the old ones in their old order, and there are no others |
| `Insertion.WriteSucceedsExactly` | storage_server/src/storage_engine.c:967-1080 | a write succeeds if and only if there are updates, the sentence number is at most one past the last, and each index is at most the words there at that moment |
| `Insertion.WrittenWords` | storage_server/src/storage_engine.c:1043-1101 | in the new text everything before and behind the target is the old text, and the words between are the old ones and the inserted ones, each at its position |
| `Insertion.ReadBackExactly` | storage_server/src/storage_engine.c:993-1101 | the same sentence number read again has exactly those words if and only if the new sentence holds no delimiter except possibly its last character |
| `Insertion.StaysOneOnInputs` | storage_server/src/storage_engine.c:793-860 | for a finished sentence that condition read off the updates |
| `Accounting.AcceptedExactly` | storage_server/src/storage_engine.c:796-854 | a list of updates is accepted if and only if each index is at most the words there plus the words inserted before it |
| `Accounting.ApplyKeeps` | storage_server/src/storage_engine.c:793-860 | insertions keep the old words' characters in order and raise word and delimiter counts by exactly what is inserted |
| `Accounting.SentenceKeeps` | storage_server/src/storage_engine.c:1043-1080 | the same after tokenising and joining the sentence |
| `Accounting.WriteConserves` | storage_server/src/storage_engine.c:967-1119 | old non-blank characters stay as a subsequence; the sentence count rises by exactly the inserted delimiters |
| `Accounting.WriteWordCount` | storage_server/src/storage_engine.c:416-426 | the word count rises by the inserted words, one less exactly when the new text is glued to the previous delimiter |
| `Accounting.GlueWithoutCarriageReturn` | storage_server/src/storage_engine.c:1008-1029 | without carriage returns, gluing happens if and only if words go into an empty tail directly behind a delimiter |
| `Accounting.WriteKeepsPlain` | storage_server/src/storage_engine.c:706-738 | content whose only white space is the space keeps that property under writes |
| `Commutation.EditsCommute` | storage_server/src/storage_engine.c:967-1119 | edits of sentences i < j give the same bytes or the same failure in both orders, j renumbered; j may be the tail |
| `Commutation.CommuteExactly` | storage_server/src/storage_engine.c:967-1119 | an edit of i commutes with all edits of j, j renumbered after it, if and only if the new sentence ends in a delimiter or j is not its neighbour |
| `Commutation.NeighboursConflict` | storage_server/src/storage_engine.c:967-1119 | otherwise a conflicting edit of the right neighbour is constructed that succeeds in both orders |
| `Numbering.NumberedExactly` | storage_server/src/main.c:434-436 | at the numbers that were locked, an edit of i commutes with all edits of j if and only if it inserts no delimiter and its new sentence ends in one or j is not its neighbour |
| `Numbering.OrderExactly` | storage_server/src/main.c:432-452 | the two orders of the commits, refused ones included, leave the same content for all edits of j under exactly that condition |
| `Numbering.OrderOnInputs` | storage_server/src/storage_engine.c:793-860 | the same condition read off the updates: no delimiter inserted, and for neighbours every update with words has an index below the word count at that moment |
| `Numbering.NumbersConflict` | storage_server/src/main.c:434-436 | an edit of i that inserts a delimiter conflicts with some edit of every later sentence |
| `Numbering.EarlierStillSucceeds` | storage_server/src/storage_engine.c:967-1119 | a commit to a later sentence never makes an earlier edit fail |
| `Numbering.OrderExample` | storage_server/src/main.c:434-436 | a family of races with both resulting texts |
| `Commutation.EarlierSpansStay` | storage_server/src/storage_engine.c:706-738 | after any write to sentence i all earlier spans keep start and length |
| `Commutation.LaterSentencesStay` | storage_server/src/storage_engine.c:706-738 | if the new sentence ends in a delimiter, later sentences, gaps and the tail reappear verbatim, renumbered by the inserted delimiters |
| `Paths.CheckTag` | storage_server/src/storage_engine.c:203-216 | a tag is valid if and only if it is non-empty and made of letters, digits, hyphen and underscore |
| `Paths.KindsDiffer` | common/src/persistence.c:104-160 | content, undo and checkpoint files never share a path |
| `Paths.NamesDiffer` | common/src/persistence.c:104-126 | equal content or undo paths come from equal names |
| `Paths.CheckpointsDiffer` | common/src/persistence.c:140-160 | for valid tags, equal checkpoint paths come from equal names and tags |
| `ResolvedPaths.ResolvedApart` | common/src/persistence.c:104-160 | for names whose parts are neither empty nor "." nor "..", resolved content, undo and checkpoint paths never coincide, and each belongs to one name and tag |
| `ResolvedPaths.DotDotReaches` | common/src/persistence.c:104-160 | a content path that starts with ".." reaches every checkpoint and every undo file |
| `Engine.StorageEngine.MeasuredFile` | storage_server/src/storage_engine.c:416-426 | the three counters are those of the content |
| `Engine.StorageEngine.GetOrLoadFile` | storage_server/src/storage_engine.c:619-704 | an unknown name loads from disk, a missing content file as empty, a missing undo file as no snapshot |
| `Engine.StorageEngine.CreateFile` | storage_server/src/storage_engine.c:890-915 | a name with content is refused; otherwise the content file is written, the undo slot kept |
| `Engine.StorageEngine.DeleteFile` | storage_server/src/storage_engine.c:917-949 | a file that is not loaded is not found; otherwise it leaves memory and disk |
| `Engine.StorageEngine.ReadFile` | storage_server/src/storage_engine.c:951-965 | returns the current content, loading the file |
| `Engine.StorageEngine.FileInfo` | storage_server/src/storage_engine.c:1171-1194 | returns the counters, loading the file |
| `Engine.StorageEngine.WriteSentence` | storage_server/src/storage_engine.c:967-1119 | memory and disk hold the written text and the old content as snapshot, or nothing changes |
| `Engine.StorageEngine.UndoLast` | storage_server/src/storage_engine.c:1142-1169 | content and snapshot are exchanged in memory and on disk; without a snapshot it fails |
| `Engine.StorageEngine.SaveCheckpoint` | storage_server/src/storage_engine.c:1497-1533 | bad tag, existing tag and success, each with its whole new state |
| `Engine.StorageEngine.ShowCheckpoint` | storage_server/src/storage_engine.c:1604-1622 | returns the stored bytes or the error, changing nothing |
| `Engine.StorageEngine.RevertCheckpoint` | storage_server/src/storage_engine.c:1624-1671 | the stored bytes become the content and the old content the snapshot |
| `Engine.StorageEngine.ImportContent` | storage_server/src/storage_engine.c:1673-1710 | the content is replaced, the undo slot is not touched |
| `History.RunCoherent` | storage_server/src/storage_engine.c:499-521 | in every state of every run, each loaded file is what loading it from disk would give |
| `History.RestartsSeenExactly` | storage_server/src/storage_engine.c:619-704 | restarts inserted anywhere in any run change no answer if and only if every DELETE that finds its file loaded without them finds it loaded with them; then no byte on disk differs |
| `History.RestartsInvisible` | storage_server/src/storage_engine.c:619-637 | so a run without DELETE never sees a restart |
| `History.DeleteSeesRestart` | storage_server/src/storage_engine.c:917-949 | a restart right before DELETE of a loaded file changes an answer, and a read of the file in between hides it again |
| `History.UndoRestores` | storage_server/src/storage_engine.c:731-735 | after a successful write or revert, whatever happens to other files, undo brings back the exact prior bytes |
| `History.UndoTwice` | storage_server/src/storage_engine.c:1142-1169 | two undos give back content, snapshot and counters |
| `History.FailureKeeps` | storage_server/src/storage_engine.c:967-1171 | a failed operation changes neither the disk nor what any name stands for |
| `History.CheckpointIsImmutable` | storage_server/src/storage_engine.c:1497-1671 | after CHECKPOINT, in every later state, viewing and reverting give the saved bytes and the tag cannot be reused |
| `Effects.InfoCountsShown` | storage_server/src/storage_engine.c:416-426 | INFO always counts the words, characters and sentences of what READ shows |
| `Effects.OthersStay` | storage_server/src/storage_engine.c:890-1710 | over whole runs, whatever is done to other files changes no answer of READ, INFO and UNDO for a file |
| `Effects.WriteExactly` | storage_server/src/storage_engine.c:967-1119 | WRITE is done if and only if there are updates and the edit of what READ shows succeeds at that sentence; then READ shows the edited text, INFO counts it and UNDO leads back, also after restarts; a refused WRITE changes no answer |
| `Effects.CreateExactly` | storage_server/src/storage_engine.c:890-915 | CREATE is done if and only if READ shows nothing, and changes no answer about the file |
| `Effects.DeleteExactly` | storage_server/src/storage_engine.c:917-949 | DELETE is done if and only if the file is loaded; then READ shows nothing and UNDO fails, also after restarts |
| `Effects.ImportExactly` | storage_server/src/storage_engine.c:1673-1714 | after IMPORT, READ shows the imported text, and UNDO answers and leads to the same text as without the import |
| `Effects.CheckpointExactly` | storage_server/src/storage_engine.c:1497-1671 | for a valid tag either nothing is saved, and CHECKPOINT saves what READ shows, or a text is saved, CHECKPOINT fails and REVERT makes READ show it |
| `Effects.SavedStays` | storage_server/src/storage_engine.c:1604-1622 | only the CHECKPOINT of that very file and tag changes what VIEWCHECKPOINT answers |
| `History.RunPlain` | storage_server/src/storage_engine.c:706-738 | content built without imports never contains white space other than spaces, over every run |
| `LockTable.SentenceLocks.IsSentenceLocked` | storage_server/src/main.c:225-235 | true exactly when the list has an entry for the sentence |
| `LockTable.SentenceLocks.Find` | storage_server/src/main.c:225-235 | the walk along the links stops at the first node for the sentence |
| `LockTable.SentenceLocks.AddSentenceLock` | storage_server/src/main.c:237-250 | the linked list stays well formed; its version is found from now on, other sentences' versions stay, and keys stay distinct if the sentence was free |
| `LockTable.SentenceLocks.RemoveSentenceLock` | storage_server/src/main.c:252-264 | the first node for the sentence is unlinked, the others keep their order |
| `LockTable.SentenceLocks.GetLockedVersion` | storage_server/src/main.c:266-281 | the version in the first entry for the sentence, if any |
| `LockTable.FoundExactly` | storage_server/src/main.c:225-235 | the scan finds a lock if and only if some entry is for the sentence |
| `LockTable.WithoutIsExact` | storage_server/src/main.c:252-264 | with distinct keys, removal takes out exactly the entry of that sentence |
| `LockTable.WithoutKeepsOthers` | storage_server/src/main.c:252-281 | removal changes no other sentence's recorded version |
| `WriteProtocol.NextInv` | storage_server/src/main.c:283-485 | every event keeps locks and sessions in one-to-one correspondence, the counters equal to the handlers in flight, and each version read back its own |
| `WriteProtocol.RunInv` | storage_server/src/main.c:283-485 | the same over every interleaving, and no file is ever stamped in the future |
| `WriteProtocol.LockSafety` | storage_server/src/main.c:311-333 | in every reachable state no two sessions hold one sentence, entries and holders are equally many, and the writer counter is exact and positive before each decrement |
| `WriteProtocol.ReleaseIsExact` | storage_server/src/main.c:465-477 | whichever way a session ends, exactly its own lock entry goes |
| `WriteProtocol.OwnVersion` | storage_server/src/main.c:416-424 | the version looked up at commit is the one the session was granted with |
| `WriteProtocol.CollectsInOrder` | storage_server/src/main.c:405-459 | over every interleaving a session stays what it was granted as, with the first 256 updates received, in order |
| `WriteProtocol.FirstCommitterWins` | storage_server/src/main.c:416-436 | a session whose file got a later stamp before its check never commits, whatever happens afterwards |
| `CommitRace.CheckPasses` | storage_server/src/main.c:416-430 | a session that passes its check has its file loaded with a stamp no later than the granted version |
| `CommitRace.LateExactly` | storage_server/src/storage_engine.c:1103-1103 | over every run, a file's stamp passes a version if and only if some event stamps it later, or it is removed and stays away past that time |
| `CommitRace.CheckedExactly` | storage_server/src/main.c:419-436 | after the check, whatever others do, the session writes and edits the text it finds; exactly when that text is newer than its version; the checked text itself if nobody wrote or removed it |
| `CommitRace.RaceReaches` | storage_server/src/main.c:283-436 | from the initial state two sessions on any two sentences, with any updates, can both be past their checks before either writes |
| `CommitRace.RaceRuns` | storage_server/src/main.c:432-452 | then both commits go ahead, the second editing the text the first left; the resulting content |
| `CommitRace.RaceDiffers` | storage_server/src/main.c:416-452 | when the condition of `Numbering.OrderExactly` fails, a run from the initial state leads into a race whose two orders leave different contents |
| `ClientMirror.ScanSentence` | storage_server/src/main.c:342-378 | the server's second scanner returns sentence k by its own skipping rule, clipped to its buffer |
| `ClientMirror.ReportedWordCount` | storage_server/src/main.c:342-396 | the count sent to the client is the number of words of that sentence |
| `ClientMirror.ScanIsTarget` | storage_server/src/main.c:342-378 | without carriage returns in it, the second scanner's sentence is the engine's target |
| `ClientMirror.ReportIsExact` | storage_server/src/main.c:342-396 | then, below 512 bytes, the reported count is the engine's word count |
| `ClientMirror.CollectUpdates` | client/src/commands.c:882-925 | the loop sends exactly the updates its running count allows |
| `ClientMirror.MirrorIsExact` | client/src/commands.c:882-925 | the running count always equals the engine's word count, so an index is accepted here exactly when it is there |
| `ClientMirror.SentExactly` | client/src/commands.c:882-925 | a further line is sent if and only if the engine, given what was sent before, accepts it too |
| `ClientMirror.PredictionIsExact` | client/src/commands.c:882-925 | from reported count to commit: everything sent is accepted, and a further line is sent if and only if the commit with it succeeds |
| `FileIndex.AddServer` | name_server/src/file_index.c:93-105 | a replica id is appended unless present or the table of eight is full |
| `FileIndex.AddExactly` | name_server/src/file_index.c:80-108 | registering touches one record: a new one has the one server and nothing else, an old one keeps owner, access list, counters and times and gains at most the one server |
| `FileIndex.Index.Walk` | name_server/src/file_index.c:110-123 | the node reached by the name's bytes, or none |
| `FileIndex.Index.Lookup` | name_server/src/file_index.c:110-123 | exactly the record the map has for the name |
| `FileIndex.Index.Add` | name_server/src/file_index.c:64-108 | the trie refines a map update: a new record or one more replica, an existing record keeps its address |
| `FileIndex.Index.Remove` | name_server/src/file_index.c:125-148 | the name leaves the map, the count falls only if it was there |
| `FileIndex.Index.AddReplica` | name_server/src/file_index.c:150-168 | one more replica in the map, success exactly when the file exists and its table is not full |
| `FileIndex.Index.Collect` | name_server/src/file_index.c:354-381 | the records below a node, each once, in strictly increasing byte order of name |
| `FileIndex.Index.GetAll` | name_server/src/file_index.c:383-396 | all records of the map, each once, in strictly increasing order, as many as the file count |
| `LruCache.Cache.RemoveEntry` | name_server/src/file_index.c:271-283 | unlinks one entry, the list staying well linked both ways |
| `LruCache.Cache.AddToFront` | name_server/src/file_index.c:285-296 | links one entry in front, the list staying well linked both ways |
| `LruCache.Cache.Get` | name_server/src/file_index.c:298-335 | hit: moved to the front; miss: asked from the index and cached, the last entry evicted when full |
| `LruCache.Cache.Invalidate` | name_server/src/file_index.c:337-352 | exactly the entry of that name goes |
| `NameServer.Server.LookupFile` | name_server/src/main.c:1048-1048 | the cached look-up answers what the index would; the cache stays a prefix of the look-ups, most recent first, and loses an entry only when it is full |
| `NameServer.Server.RegisterFile` | name_server/src/main.c:888-888 | registering an existing file keeps its record up to one more server; cache and index still agree without an invalidation |
| `NameServer.Server.CreateFile` | name_server/src/main.c:1172-1290 | a duplicate changes nothing; otherwise the map gains a record with the owner, the two copies, no access list and no counts, and the cache still agrees |
| `NameServer.Server.DeleteFile` | name_server/src/main.c:1333-1377 | unknown, not the owner, or the file leaves the map; the cache still agrees |
| `NameServer.Server.ChangeAcl` | name_server/src/main.c:1438-1439 | a changed access list is in the map and the cache still agrees |
| `NameServer.Server.MoveFile` | name_server/src/main.c:2642-2742 | remove, add, replay replicas and copy fields give the moved map; the file is under the key that locates it in the folder, and the map is the renamed one if that key was free; the cache still agrees |
| `NameServer.FetchInv` | name_server/src/file_index.c:298-335 | a look-up in an agreeing cache answers as the index does and keeps agreement, distinct names and capacity |
| `NameServer.FetchSize` | name_server/src/file_index.c:298-335 | a look-up of a new name makes the cache one longer unless it is full |
| `NameServer.InvalidateInv` | name_server/src/file_index.c:337-352 | after invalidating the one name that changed, the cache agrees with the new index |
| `NameServer.ReplayServers` | name_server/src/main.c:2709-2718 | replaying the copied replicas rebuilds the same table in the same order |
| `NameServer.MoveIsRename` | name_server/src/main.c:2642-2742 | to a free destination MOVE is a rename: owner, list, replicas, counters and times stay, all other files too |
| `MovePath.NewPathLocates` | name_server/src/main.c:2646-2653 | an empty folder and "/" give the name itself; else the key is the folder without its closing slash, a slash and the name, and for a slash-free name the parts around the last slash are folder and name |
| `MovePath.OneKeyExactly` | name_server/src/main.c:2646-2653 | two files with slash-free names get one key if and only if the names agree and the folders differ at most by a closing slash |
| `NameServer.RenameExactly` | name_server/src/main.c:2642-2742 | the number of files is kept if and only if the destination is free; otherwise one is lost |
| `Placement.Placer.CollectActive` | name_server/src/main.c:1182-1195 | the active list names servers whose last heartbeat is at most 15 seconds old, in list order; one of them is missing only when sixteen earlier ones are listed |
| `Placement.Placer.Place` | name_server/src/main.c:1182-1210 | no choice if and only if every last heartbeat is more than 15 seconds old; only live servers are chosen, a replica if and only if two are live; otherwise the counter stays or advances with the round robin |
| `Placement.ListsLiveOnce` | name_server/src/main.c:1182-1195 | that description fixes the active list |
| `Placement.ChosenLive` | name_server/src/main.c:1182-1210 | the same for the round robin's choice from any counter value |
| `Placement.NextInOrder` | name_server/src/main.c:1201-1210 | the replica goes to the server behind the primary, the next primary to the one behind that, around the list, while the counter does not wrap |
| `Placement.DistinctExactly` | name_server/src/main.c:1201-1210 | primary and replica differ except when the counter wraps between them onto the same remainder |
| `Placement.DistinctForSixteen` | name_server/src/main.c:1201-1210 | up to sixteen servers, that exception concerns three, five and fifteen servers only |
| `Placement.PicksShare` | name_server/src/main.c:1201-1210 | the exact number of copies each server gets from any stretch of the counter |
| `Placement.CopiesAreBalanced` | name_server/src/main.c:1201-1210 | after any number of CREATEs without a wrap, two servers differ by at most one copy |
| `Placement.BalancedExactly` | name_server/src/main.c:1201-1210 | balance holds for all counters and all runs, wraps included, if and only if the number of servers divides 2^32 |
| `Access.FindEntry` | name_server/src/file_index.c:215-225 | the first entry of the user |
| `Access.AddEntry` | name_server/src/file_index.c:170-196 | the user's entry is overwritten in place or appended |
| `Access.RemoveEntry` | name_server/src/file_index.c:198-213 | the user's first entry is taken out, the order of the others kept |
| `Access.AccessControl.HasAccess` | name_server/src/file_index.c:227-242 | owner, or an entry that allows the mode |
| `Access.FindRequestByUser` | name_server/src/main.c:245-255 | the user's first request |
| `Access.FindRequestIndex` | name_server/src/main.c:225-235 | the first request of that user and mode |
| `Access.AccessControl.GrantAccess` | name_server/src/main.c:1408-1440 | not the owner, target not registered, or the entry is set |
| `Access.AccessControl.RevokeAccess` | name_server/src/main.c:1461-1481 | not the owner, or the entry is gone |
| `Access.AccessControl.AskForAccess` | name_server/src/main.c:1501-1556 | already allowed, or the request file is loaded, the user's first request overwritten or appended, and the file saved |
| `Access.AccessControl.Approve` | name_server/src/main.c:1660-1714 | not the owner, no such request in the loaded file, or the entry is set and the file saved without the request |
| `Access.AccessControl.Deny` | name_server/src/main.c:1734-1779 | not the owner, no such request in the loaded file, or the file saved without the request |
| `Access.AnswersExactly` | name_server/src/main.c:1408-1779 | which commands are accepted: the owner's, about registered users and open requests, and requests for access one does not have; each refusal has its reason and changes nothing |
| `Access.LastDecisionRules` | name_server/src/main.c:1408-1779 | over every run, the owner always has access, and everyone else exactly what the owner last decided for that user |
| `Access.PendingIsOpen` | name_server/src/main.c:1501-1779 | over every run whose accepted requests come from keepable names, the file holds at most one request per user, and it is the last one not yet answered |
| `Access.PendingExactly` | name_server/src/main.c:1501-1779 | over every run, the file holds for every user the last request not yet answered if and only if every accepted request came from a keepable name |
| `Access.ForgedApproval` | name_server/src/main.c:1660-1714 | a request under a name that holds bars and reads as a write request of bob lets the owner approve write access for bob, who never asked; asked twice, bob has two requests |
| `Access.ApprovalNeedsRequest` | name_server/src/main.c:1660-1714 | after such a run, an approval succeeds if and only if the owner sends it and that user has an open request of that mode, which it consumes |
| `RequestFile.SaveRequests` | name_server/src/main.c:203-223 | the text of the request file, one line per request |
| `RequestFile.LoadRequests` | name_server/src/main.c:148-201 | the requests read back line by line as fgets and sscanf split them, other lines skipped |
| `RequestFile.NumberIs` | name_server/src/main.c:179-179 | every 64-bit time is read back as printed, whatever non-digit follows it |
| `RequestFile.LoadedKeepable` | name_server/src/main.c:174-197 | whatever the file holds, loaded names have 1 to 127 characters without bar and newline |
| `RequestFile.RoundTripExactly` | name_server/src/main.c:148-223 | saving and loading gives the list back if and only if every name is keepable |
| `RequestFile.ForgedLine` | name_server/src/main.c:174-219 | a name that holds another user's request line is loaded as that request |
| `AccessFile.PersistAcl` | name_server/src/main.c:115-146 | the text of the access file, entries without rights left out |
| `AccessFile.LoadAcl` | name_server/src/main.c:3096-3110 | the entries read back line by line as fgets and sscanf split them |
| `AccessFile.ReloadExactly` | name_server/src/main.c:115-146 | saving and loading keeps every user's read and write answer if and only if every name written for an entry is storable |
| `AccessFile.DecisionsSurvive` | name_server/src/main.c:3096-3110 | after any run, a save and a load, the owner has access, and everyone else what the owner last decided when the written names are storable |
| `Listing.AppendLiteral` | name_server/src/main.c:716-758 | the buffer gets the escaped string as far as it fits, room for the terminator kept |
| `Listing.LiteralFits` | name_server/src/main.c:716-758 | with three characters to spare the literal is complete |
| `Listing.ShowSection` | client/src/commands.c:212-262 | search and loops return the names the decoding function gives, clipped, empty ones dropped |
| `Listing.ReadEscaped` | client/src/commands.c:228-248 | decoding an escaped name gives it back, control characters turned into letters |
| `Listing.FoldersFound` | client/src/commands.c:219-226 | the first occurrence of the header is the real one, whatever the names contain |
| `FolderListing.ShownIs` | client/src/commands.c:212-262 | what the client shows of any whole listing, for all names |
| `FolderListing.RoundTripExactly` | name_server/src/main.c:2883-2898 | a listing not cut by the buffer comes back unchanged if and only if every name is non-empty, at most 255 long and free of newline, carriage return and tab |
| `ListingBuffer.AppendItems` | name_server/src/main.c:2885-2890 | the loop writes the items as far as they fit and stops when fewer than three characters are left |
| `ListingBuffer.BuildResponse` | name_server/src/main.c:2883-2898 | for any lists: whether the offset stays in the buffer, and if so exactly the text in it |
| `FolderListing.InBoundsExactly` | name_server/src/main.c:2891-2898 | the offset stays in the buffer if and only if the files and both headers fit it; then all files are written |
| `ListingBuffer.CutName` | name_server/src/main.c:723-757 | a name that does not fit reads back shorter, unless only its closing quote is lost |
| `FolderListing.ClosedExactly` | name_server/src/main.c:2892-2898 | the folders come back from what is written if and only if all names are showable and they fit, or only the last quote is lost |
| `FolderListing.SentExactly` | name_server/src/main.c:2883-2898 | the client shows both lists unchanged if and only if all names are showable and the folders fit, or only the last quote is lost |
| `FolderListing.SentWhole` | name_server/src/main.c:2883-2898 | a listing shorter than the buffer is sent whole |
| `FolderListing.ListFolder` | client/src/commands.c:212-262 | end to end, from the server's lists through the buffer to the client's lists, with both conditions |
| `FolderListing.BufferLeft` | name_server/src/main.c:2883-2891 | sixty-four names of at least 255 characters take the offset out of the buffer |

## Left out

- Sockets, select loops, thread creation, logging, signals, terminal output, STREAM pacing and EXEC: input and output or foreign code; a handler is its effect on the state.
- Message headers, opcode tables, the ad hoc field scanners and the metadata file: parsed fields are given values; modification times appear only in `WriteProtocol`.
- Allocation and disk failures: every allocation and every file operation succeeds.
- Text contains no NUL character, and names fit their buffers, except where a clipping rule is stated.
- Registry replay at start-up, replication to other storage servers, folder creation, checkpoint listing and the storage side of MOVE.
- The merge of the storage servers' listings: `Listing` starts from the two merged name lists.
- Paths are strings in `Paths`, `Engine` and `History`: two strings that the file system resolves to one file are not identified there. `ResolvedPaths` says for which names that is sound; it starts from names already cut at their slashes, and links on disk are not modelled.
- Trie nodes are numbered in a table in the order of allocation instead of being heap objects, so aliasing of node pointers is not captured; records keep an address, and the cache compares addresses. The cache itself is a heap list.
- The engine's own `locked` flags: an engine operation is one step under the file's mutex, and lock ownership is in the server's table.
- Updates without text are not modelled: an update always carries a string.
- Undo, revert, create and replicated imports appear in `WriteProtocol` as changes to arbitrary new content; what they write is in `Engine`. Reads, streams, the engine's own unlock and access marks appear as loads.
- Commutation.EditsCommute: stated for content without carriage returns, which `History.RunPlain` proves for everything built without imports.
- Numbering.OrderExactly: stated for content without carriage returns too, for the same reason.
- WriteProtocol.FirstCommitterWins: stamps have one-second granularity, so a change in the second of the recorded version is not seen; full serialisability is not claimed and `CommitRace.RaceDiffers` shows it does not hold.
- ClientMirror.PredictionIsExact: for an unchanged sentence shorter than 512 bytes, fewer than 256 updates sent before the next one, and sent updates that fit the wire unquoted and without carriage return.
- History.FailureKeeps: metadata are not modelled. CREATE, REVERT and IMPORT report an I/O error after their change when the metadata line does not fit its 512 bytes (storage_server/src/storage_engine.c:476-495, 1664-1669), which long enough names of file, owner and last user bring about.
- History.CheckpointIsImmutable: over path strings; a WRITE to a name with ".." parts can change a checkpoint file, as `ResolvedPaths.DotDotReaches` shows.
- Access.PendingIsOpen: for runs whose accepted requests come from keepable names; `Access.PendingExactly` shows the condition is exact.
- Access.ApprovalNeedsRequest: for the same runs; `Access.ForgedApproval` shows an approval without a request.
- RequestFile.LoadRequests: a number beyond 64 bits, undefined for sscanf, saturates.
- AccessFile.ReloadExactly: for an owner name that is storable too.
- ListingBuffer.BuildResponse: when the offset leaves the buffer the program's behaviour is undefined; the model stops there and reports it.
- NameServer.Server.ChangeAcl: stands for the common end of the three handlers that change a list; their decisions are in `Access`.
- NameServer.Server.CreateFile: the storage servers' replies are not modelled; it is the step after the primary agreed.
