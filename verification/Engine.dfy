/** The storage engine: loaded files, the disk behind them, one undo slot per file and named checkpoints. Every
    operation is one step on this state, given by the function Step; the class does the same in place, loading a file
    when it is first named. */
module Engine {
  import opened Text
  import opened Sentences
  import opened Editing
  import opened Paths

  /** One loaded file. An absent snapshot means there is nothing to undo. */
  datatype StoredFile = StoredFile(content: string, undo: Option<string>,
                                   wordCount: nat, charCount: nat, sentenceCount: nat)

  /** The files in memory and the bytes on disk. */
  datatype State = State(files: map<string, StoredFile>, disk: map<string, string>)

  datatype Operation =
    | Create(name: string)
    | Delete(name: string)
    | Read(name: string)
    | Info(name: string)
    | Write(name: string, sentence: nat, updates: seq<Update>)
    | Undo(name: string)
    | Checkpoint(name: string, tag: string)
    | ViewCheckpoint(name: string, tag: string)
    | Revert(name: string, tag: string)
    | Import(name: string, content: string)
    | Restart

  datatype Output =
    | Done
    | Content(text: string)
    | Counts(wordCount: nat, charCount: nat, sentenceCount: nat)
    | Failed(code: ErrorCode)

  // ----- specification

  /** A file whose counters are those of its content. */
  function WithCounts(content: string, undo: Option<string>): StoredFile {
    StoredFile(content, undo, |Tokens(content)|, |content|, SentenceCount(content))
  }

  /** What loading finds: a missing content file reads as empty, a missing undo file as no snapshot. */
  function Load(root: string, disk: map<string, string>, name: string): StoredFile {
    WithCounts(if FilePath(root, name) in disk then disk[FilePath(root, name)] else "",
               if UndoPath(root, name) in disk then Some(disk[UndoPath(root, name)]) else None)
  }

  /** The file an operation on this name works on. */
  function Current(root: string, s: State, name: string): StoredFile {
    if name in s.files then s.files[name] else Load(root, s.disk, name)
  }

  function Loaded(root: string, s: State, name: string): State {
    s.(files := s.files[name := Current(root, s, name)])
  }

  function PersistContent(root: string, disk: map<string, string>, name: string, f: StoredFile): map<string, string> {
    disk[FilePath(root, name) := f.content]
  }

  function PersistUndo(root: string, disk: map<string, string>, name: string, f: StoredFile): map<string, string> {
    if f.undo.None? then disk - {UndoPath(root, name)} else disk[UndoPath(root, name) := f.undo.value]
  }

  /** Replace the file in memory, and content and snapshot on disk. */
  function Stored(root: string, s: State, name: string, f: StoredFile): State {
    State(s.files[name := f], PersistUndo(root, PersistContent(root, s.disk, name, f), name, f))
  }

  /** New content, the old one kept as the undo snapshot. */
  function Replace(root: string, s: State, name: string, content: string): State {
    Stored(root, s, name, WithCounts(content, Some(Current(root, s, name).content)))
  }

  /** One operation, executed under the file's mutex. */
  function Step(root: string, s: State, op: Operation): (State, Output) {
    match op
    case Create(name) =>
      var f := Current(root, s, name);
      if |f.content| > 0 then (Loaded(root, s, name), Failed(Invalid))
      else (State(s.files[name := WithCounts(f.content, f.undo)], PersistContent(root, s.disk, name, f)), Done)
    case Delete(name) =>
      if name !in s.files then (s, Failed(NotFound))
      else (State(s.files - {name}, s.disk - {FilePath(root, name), UndoPath(root, name)}), Done)
    case Read(name) => (Loaded(root, s, name), Content(Current(root, s, name).content))
    case Info(name) =>
      var f := Current(root, s, name);
      (Loaded(root, s, name), Counts(f.wordCount, f.charCount, f.sentenceCount))
    case Write(name, sentence, updates) =>
      if updates == [] then (s, Failed(Invalid))
      else
        (match WriteText(Current(root, s, name).content, sentence, updates)
         case Failure(e) => (Loaded(root, s, name), Failed(e))
         case Success(t) => (Replace(root, s, name, t), Done))
    case Undo(name) =>
      (match Current(root, s, name).undo
       case None => (Loaded(root, s, name), Failed(Invalid))
       case Some(t) => (Replace(root, s, name, t), Done))
    case Checkpoint(name, tag) =>
      var path := CheckpointPath(root, name, tag);
      if !IsValidTag(tag) then (s, Failed(Invalid))
      else if path in s.disk then (Loaded(root, s, name), Failed(AlreadyExists))
      else
        var f := Current(root, s, name);
        (State(s.files[name := f], s.disk[path := f.content]), Done)
    case ViewCheckpoint(name, tag) =>
      var path := CheckpointPath(root, name, tag);
      if !IsValidTag(tag) then (s, Failed(Invalid))
      else if path !in s.disk then (s, Failed(NotFound))
      else (s, Content(s.disk[path]))
    case Revert(name, tag) =>
      var path := CheckpointPath(root, name, tag);
      if path !in s.disk then (s, Failed(NotFound))
      else (Replace(root, s, name, s.disk[path]), Done)
    case Import(name, content) =>
      var f := WithCounts(content, Current(root, s, name).undo);
      (State(s.files[name := f], PersistContent(root, s.disk, name, f)), Done)
    case Restart => (State(map[], s.disk), Done)
  }

  // ----- the engine itself

  class StorageEngine {
    const root: string
    var files: map<string, StoredFile>
    var disk: map<string, string>

    function Abstract(): State
      reads this
    {
      State(files, disk)
    }

    /** Start on an existing disk, nothing loaded. */
    constructor (root: string, disk: map<string, string>)
      ensures this.root == root && Abstract() == State(map[], disk)
    {
      this.root, this.files, this.disk := root, map[], disk;
    }

    /** Recompute the three counters. */
    method MeasuredFile(content: string, undo: Option<string>) returns (f: StoredFile)
      ensures f == WithCounts(content, undo)
    {
      var words := CountWords(content);
      var spans := ComputeSpans(content);
      f := StoredFile(content, undo, words, |content|, |spans|);
    }

    method GetOrLoadFile(name: string) returns (f: StoredFile)
      modifies this`files
      ensures f == Current(root, old(Abstract()), name)
      ensures Abstract() == Loaded(root, old(Abstract()), name)
    {
      if name in files {
        f := files[name];
        assert files[name := f] == files;
      } else {
        var content := if FilePath(root, name) in disk then disk[FilePath(root, name)] else "";
        var undo := if UndoPath(root, name) in disk then Some(disk[UndoPath(root, name)]) else None;
        f := MeasuredFile(content, undo);
        files := files[name := f];
      }
    }

    /** Install new content with the old one as snapshot, recount and persist. */
    method ReplaceContent(name: string, f: StoredFile, content: string)
      requires name in files && files[name] == f
      modifies this
      ensures Abstract() == Replace(root, old(Abstract()), name, content)
    {
      var g := MeasuredFile(content, Some(f.content));
      files := files[name := g];
      disk := disk[FilePath(root, name) := g.content];
      disk := disk[UndoPath(root, name) := g.undo.value];
    }

    method CreateFile(name: string) returns (out: Output)
      modifies this
      ensures (Abstract(), out) == Step(root, old(Abstract()), Create(name))
    {
      var f := GetOrLoadFile(name);
      if |f.content| > 0 {
        return Failed(Invalid);
      }
      var g := MeasuredFile(f.content, f.undo);
      files := files[name := g];
      disk := disk[FilePath(root, name) := g.content];
      assert files == old(files)[name := g];
      return Done;
    }

    method DeleteFile(name: string) returns (out: Output)
      modifies this
      ensures (Abstract(), out) == Step(root, old(Abstract()), Delete(name))
    {
      if name !in files {
        return Failed(NotFound);
      }
      files := files - {name};
      disk := disk - {FilePath(root, name), UndoPath(root, name)};
      return Done;
    }

    method ReadFile(name: string) returns (out: Output)
      modifies this`files
      ensures (Abstract(), out) == Step(root, old(Abstract()), Read(name))
    {
      var f := GetOrLoadFile(name);
      out := Content(f.content);
    }

    method FileInfo(name: string) returns (out: Output)
      modifies this`files
      ensures (Abstract(), out) == Step(root, old(Abstract()), Info(name))
    {
      var f := GetOrLoadFile(name);
      out := Counts(f.wordCount, f.charCount, f.sentenceCount);
    }

    method WriteSentence(name: string, sentence: nat, updates: seq<Update>) returns (out: Output)
      modifies this
      ensures (Abstract(), out) == Step(root, old(Abstract()), Write(name, sentence, updates))
    {
      if updates == [] {
        return Failed(Invalid);
      }
      var f := GetOrLoadFile(name);
      var r := RewriteSentence(f.content, sentence, updates);
      if r.Failure? {
        return Failed(r.code);
      }
      ReplaceContent(name, f, r.value);
      ReplaceAfterLoad(root, old(Abstract()), name, r.value);
      return Done;
    }

    method UndoLast(name: string) returns (out: Output)
      modifies this
      ensures (Abstract(), out) == Step(root, old(Abstract()), Undo(name))
    {
      var f := GetOrLoadFile(name);
      if f.undo.None? {
        return Failed(Invalid);
      }
      ReplaceContent(name, f, f.undo.value);
      ReplaceAfterLoad(root, old(Abstract()), name, f.undo.value);
      return Done;
    }

    method SaveCheckpoint(name: string, tag: string) returns (out: Output)
      modifies this
      ensures (Abstract(), out) == Step(root, old(Abstract()), Checkpoint(name, tag))
    {
      var valid := CheckTag(tag);
      if !valid {
        return Failed(Invalid);
      }
      var f := GetOrLoadFile(name);
      var path := CheckpointPath(root, name, tag);
      if path in disk {
        return Failed(AlreadyExists);
      }
      disk := disk[path := f.content];
      return Done;
    }

    method ShowCheckpoint(name: string, tag: string) returns (out: Output)
      ensures (Abstract(), out) == Step(root, old(Abstract()), ViewCheckpoint(name, tag))
    {
      var valid := CheckTag(tag);
      if !valid {
        return Failed(Invalid);
      }
      var path := CheckpointPath(root, name, tag);
      if path !in disk {
        return Failed(NotFound);
      }
      return Content(disk[path]);
    }

    /** The tag is not validated here. */
    method RevertCheckpoint(name: string, tag: string) returns (out: Output)
      modifies this
      ensures (Abstract(), out) == Step(root, old(Abstract()), Revert(name, tag))
    {
      var path := CheckpointPath(root, name, tag);
      if path !in disk {
        return Failed(NotFound);
      }
      var snapshot := disk[path];
      var f := GetOrLoadFile(name);
      ReplaceContent(name, f, snapshot);
      ReplaceAfterLoad(root, old(Abstract()), name, snapshot);
      return Done;
    }

    /** Replication overwrites the content and leaves the undo slot alone. */
    method ImportContent(name: string, content: string) returns (out: Output)
      modifies this
      ensures (Abstract(), out) == Step(root, old(Abstract()), Import(name, content))
    {
      var f := GetOrLoadFile(name);
      var g := MeasuredFile(content, f.undo);
      files := files[name := g];
      disk := disk[FilePath(root, name) := g.content];
      assert files == old(files)[name := g];
      return Done;
    }
  }

  lemma {:induction false} ReplaceAfterLoad(root: string, s: State, name: string, content: string)
    ensures Replace(root, Loaded(root, s, name), name, content) == Replace(root, s, name, content)
  {
    var f := WithCounts(content, Some(Current(root, s, name).content));
    assert s.files[name := Current(root, s, name)][name := f] == s.files[name := f];
  }
}
