/** Undo, checkpoints and restarts over whole runs of the engine. */
module History {
  import opened Text
  import opened Editing
  import opened Accounting
  import opened Paths
  import opened Engine

  function After(root: string, s: State, op: Operation): State {
    Step(root, s, op).0
  }

  function Answer(root: string, s: State, op: Operation): Output {
    Step(root, s, op).1
  }

  function Run(root: string, s: State, ops: seq<Operation>): State
    decreases |ops|
  {
    if ops == [] then s else Run(root, After(root, s, ops[0]), ops[1..])
  }

  /** What clients see: one answer per operation, none for a restart. */
  function Answers(root: string, s: State, ops: seq<Operation>): seq<Output>
    decreases |ops|
  {
    if ops == [] then []
    else (if ops[0].Restart? then [] else [Answer(root, s, ops[0])]) + Answers(root, After(root, s, ops[0]), ops[1..])
  }

  // ----- memory and disk agree

  /** Every loaded file is what loading it again would give. */
  ghost predicate Coherent(root: string, s: State) {
    forall name :: name in s.files ==> s.files[name] == Load(root, s.disk, name)
  }

  lemma {:induction false} OtherFile(root: string, disk: map<string, string>, a: string, b: string, x: string)
    requires a != b
    ensures Load(root, disk[FilePath(root, a) := x], b) == Load(root, disk, b)
    ensures Load(root, disk[UndoPath(root, a) := x], b) == Load(root, disk, b)
    ensures Load(root, disk - {FilePath(root, a), UndoPath(root, a)}, b) == Load(root, disk, b)
  {
    KindsDiffer(root, a, b, a, "");
    KindsDiffer(root, b, a, a, "");
    if FilePath(root, a) == FilePath(root, b) || UndoPath(root, a) == UndoPath(root, b) {
      NamesDiffer(root, a, b);
    }
  }

  lemma {:induction false} StoredLoads(root: string, disk: map<string, string>, name: string, f: StoredFile)
    requires f == WithCounts(f.content, f.undo)
    ensures Load(root, PersistUndo(root, PersistContent(root, disk, name, f), name, f), name) == f
    ensures Load(root, disk, name).undo == f.undo ==> Load(root, PersistContent(root, disk, name, f), name) == f
  {
    KindsDiffer(root, name, name, name, "");
  }

  /** Saving name leaves every other file's load alone. */
  lemma {:induction false} StoredElsewhere(root: string, disk: map<string, string>, name: string, f: StoredFile,
                                           b: string)
    requires f.undo.Some? && b != name
    ensures Load(root, PersistUndo(root, PersistContent(root, disk, name, f), name, f), b) == Load(root, disk, b)
  {
    OtherFile(root, disk, name, b, f.content);
    OtherFile(root, disk[FilePath(root, name) := f.content], name, b, f.undo.value);
  }

  lemma {:induction false} CheckpointElsewhere(root: string, disk: map<string, string>, name: string, tag: string,
                                               x: string, b: string)
    ensures Load(root, disk[CheckpointPath(root, name, tag) := x], b) == Load(root, disk, b)
  {
    KindsDiffer(root, b, b, name, tag);
  }

  /** What b loads to after an operation: what is in memory, and the same as before if the operation is not about b. */
  ghost predicate LoadsWell(root: string, s: State, op: Operation, b: string) {
    var s' := After(root, s, op);
    && (b in s'.files ==> s'.files[b] == Load(root, s'.disk, b))
    && (b !in s'.files && !op.Delete? ==> Load(root, s'.disk, b) == Load(root, s.disk, b))
    && (Untouched(op, b) ==> Load(root, s'.disk, b) == Load(root, s.disk, b))
  }

  lemma {:induction false} StepLoads(root: string, s: State, op: Operation, b: string)
    requires Coherent(root, s)
    ensures LoadsWell(root, s, op, b)
  {
    CurrentIsLoad(root, s, b);
    match op {
      case Write(_, _, _) => ReplacingLoads(root, s, op, b);
      case Undo(_) => ReplacingLoads(root, s, op, b);
      case Revert(_, _) => ReplacingLoads(root, s, op, b);
      case Create(name) =>
        CurrentIsLoad(root, s, name);
        var f := Current(root, s, name);
        StoredLoads(root, s.disk, name, f);
        if b != name { OtherFile(root, s.disk, name, b, f.content); }
      case Delete(name) =>
        if b != name { OtherFile(root, s.disk, name, b, ""); }
      case Checkpoint(name, tag) =>
        CheckpointElsewhere(root, s.disk, name, tag, Current(root, s, name).content, b);
      case Import(name, content) =>
        CurrentIsLoad(root, s, name);
        StoredLoads(root, s.disk, name, WithCounts(content, Current(root, s, name).undo));
        if b != name { OtherFile(root, s.disk, name, b, content); }
      case Read(name) =>
      case Info(name) =>
      case ViewCheckpoint(name, tag) =>
      case Restart =>
    }
  }

  lemma {:induction false} ReplacingLoads(root: string, s: State, op: Operation, b: string)
    requires Coherent(root, s) && (op.Write? || op.Undo? || op.Revert?)
    ensures LoadsWell(root, s, op, b)
  {
    CurrentIsLoad(root, s, b);
    match op {
      case Write(_, _, _) =>
        WriteLoads(root, s, op, b);
      case Undo(name) =>
        if Current(root, s, name).undo.Some? {
          ReplaceLoads(root, s, name, Current(root, s, name).undo.value, b);
        }
      case Revert(name, tag) =>
        if CheckpointPath(root, name, tag) in s.disk {
          ReplaceLoads(root, s, name, s.disk[CheckpointPath(root, name, tag)], b);
        }
    }
  }

  lemma {:induction false} WriteLoads(root: string, s: State, op: Operation, b: string)
    requires Coherent(root, s) && op.Write?
    ensures LoadsWell(root, s, op, b)
  {
    CurrentIsLoad(root, s, b);
    var s', content := WriteAfter(root, s, op);
    if content.Some? {
      ReplaceLoads(root, s, op.name, content.value, b);
    }
  }

  lemma {:induction false} WriteAfter(root: string, s: State, op: Operation)
    returns (s': State, content: Option<string>)
    requires op.Write?
    ensures s' == After(root, s, op)
    ensures s' == if content.Some? then Replace(root, s, op.name, content.value)
                  else if op.updates == [] then s else Loaded(root, s, op.name)
  {
    s' := After(root, s, op);
    var written := WriteText(Current(root, s, op.name).content, op.sentence, op.updates);
    content := if op.updates != [] && written.Success? then Some(written.value) else None;
  }

  lemma {:induction false} CurrentIsLoad(root: string, s: State, name: string)
    requires Coherent(root, s)
    ensures Current(root, s, name) == Load(root, s.disk, name)
  {
  }

  lemma {:induction false} ReplaceLoads(root: string, s: State, name: string, content: string, b: string)
    requires Coherent(root, s)
    ensures var s' := Replace(root, s, name, content);
            && (b in s'.files ==> s'.files[b] == Load(root, s'.disk, b))
            && (b != name ==> Load(root, s'.disk, b) == Load(root, s.disk, b))
  {
    var f := WithCounts(content, Some(Current(root, s, name).content));
    if b == name {
      StoredLoads(root, s.disk, name, f);
    } else {
      StoredElsewhere(root, s.disk, name, f, b);
    }
  }

  /** Operations that cannot change the content or snapshot of b. */
  predicate Untouched(op: Operation, b: string) {
    op.Restart? || op.Read? || op.Info? || op.Checkpoint? || op.ViewCheckpoint? || op.name != b
  }

  lemma {:induction false} StepCoherent(root: string, s: State, op: Operation)
    requires Coherent(root, s)
    ensures Coherent(root, After(root, s, op))
  {
    var s' := After(root, s, op);
    forall b | b in s'.files ensures s'.files[b] == Load(root, s'.disk, b) {
      StepLoads(root, s, op, b);
    }
  }

  /** Memory and disk agree in every reachable state. */
  lemma {:induction false} RunCoherent(root: string, s: State, ops: seq<Operation>)
    requires Coherent(root, s)
    ensures Coherent(root, Run(root, s, ops))
    decreases |ops|
  {
    if ops != [] {
      StepCoherent(root, s, ops[0]);
      RunCoherent(root, After(root, s, ops[0]), ops[1..]);
    }
  }

  // ----- who can see a restart

  function WithoutRestarts(ops: seq<Operation>): seq<Operation> {
    if ops == [] then []
    else (if ops[0].Restart? then [] else [ops[0]]) + WithoutRestarts(ops[1..])
  }

  /** s runs ops with the restarts in it, t runs them without. Every DELETE that finds its file loaded in t
      finds it loaded in s too. */
  predicate DeletesFind(root: string, s: State, t: State, ops: seq<Operation>)
    decreases |ops|
  {
    ops == [] ||
    (if ops[0].Restart? then DeletesFind(root, After(root, s, ops[0]), t, ops[1..])
     else FindsIt(s, t, ops[0]) && DeletesFind(root, After(root, s, ops[0]), After(root, t, ops[0]), ops[1..]))
  }

  predicate FindsIt(s: State, t: State, op: Operation) {
    op.Delete? && op.name in t.files ==> op.name in s.files
  }

  /** Two engines over the same disk, one with fewer files loaded, answer alike unless a DELETE misses its file;
      then they stay alike. */
  lemma {:induction false} SameDiskStep(root: string, s: State, t: State, op: Operation)
    requires Coherent(root, s) && Coherent(root, t) && s.disk == t.disk && s.files.Keys <= t.files.Keys && !op.Restart?
    ensures Answer(root, s, op) == Answer(root, t, op) <==> FindsIt(s, t, op)
    ensures FindsIt(s, t, op) ==> After(root, s, op).disk == After(root, t, op).disk
    ensures FindsIt(s, t, op) ==> After(root, s, op).files.Keys <= After(root, t, op).files.Keys
  {
    if !op.Delete? {
      SameDiskAnswer(root, s, t, op);
    }
  }

  lemma {:induction false} SameDiskAnswer(root: string, s: State, t: State, op: Operation)
    requires Coherent(root, s) && Coherent(root, t) && s.disk == t.disk && s.files.Keys <= t.files.Keys
    requires !op.Restart? && !op.Delete?
    ensures Answer(root, s, op) == Answer(root, t, op) && After(root, s, op).disk == After(root, t, op).disk
    ensures After(root, s, op).files.Keys <= After(root, t, op).files.Keys
  {
    CurrentIsLoad(root, s, op.name);
    CurrentIsLoad(root, t, op.name);
  }

  /** Restart transparency, exactly: restarts inserted anywhere in a run change no answer if and only if every DELETE
      that would find its file loaded without them finds it loaded with them; then no byte on disk changes either. */
  lemma {:induction false} RestartsSeenExactly(root: string, s: State, t: State, ops: seq<Operation>)
    requires Coherent(root, s) && Coherent(root, t) && s.disk == t.disk && s.files.Keys <= t.files.Keys
    ensures Answers(root, s, ops) == Answers(root, t, WithoutRestarts(ops)) <==> DeletesFind(root, s, t, ops)
    ensures DeletesFind(root, s, t, ops) ==> Run(root, s, ops).disk == Run(root, t, WithoutRestarts(ops)).disk
    decreases |ops|
  {
    if ops != [] {
      var op, rest := ops[0], ops[1..];
      StepCoherent(root, s, op);
      if op.Restart? {
        RestartSkipped(ops);
        RestartsSeenExactly(root, After(root, s, op), t, rest);
      } else {
        SameDiskStep(root, s, t, op);
        SplitAnswers(root, s, t, ops);
        if FindsIt(s, t, op) {
          StepCoherent(root, t, op);
          RestartsSeenExactly(root, After(root, s, op), After(root, t, op), rest);
        }
      }
    }
  }

  lemma {:induction false} RestartSkipped(ops: seq<Operation>)
    requires ops != [] && ops[0].Restart?
    ensures WithoutRestarts(ops) == WithoutRestarts(ops[1..])
  {
  }

  lemma {:induction false} SplitAnswers(root: string, s: State, t: State, ops: seq<Operation>)
    requires ops != [] && !ops[0].Restart?
    ensures var op, rest := ops[0], ops[1..];
            && (Answers(root, s, ops) == Answers(root, t, WithoutRestarts(ops)) <==>
                  && Answer(root, s, op) == Answer(root, t, op)
                  && Answers(root, After(root, s, op), rest)
                     == Answers(root, After(root, t, op), WithoutRestarts(rest)))
            && Run(root, t, WithoutRestarts(ops)) == Run(root, After(root, t, op), WithoutRestarts(rest))
  {
    var op, rest := ops[0], ops[1..];
    var more := WithoutRestarts(rest);
    assert WithoutRestarts(ops) == [op] + more;
    assert ([op] + more)[1..] == more;
    var a, b := Answers(root, After(root, s, op), rest), Answers(root, After(root, t, op), more);
    assert Answers(root, s, ops) == [Answer(root, s, op)] + a;
    assert Answers(root, t, [op] + more) == [Answer(root, t, op)] + b;
    assert ([Answer(root, s, op)] + a)[1..] == a && ([Answer(root, t, op)] + b)[1..] == b;
  }

  /** A run without DELETE cannot see restarts at all. */
  lemma {:induction false} RestartsInvisible(root: string, s: State, ops: seq<Operation>)
    requires Coherent(root, s) && forall k :: 0 <= k < |ops| ==> !ops[k].Delete?
    ensures Answers(root, s, ops) == Answers(root, s, WithoutRestarts(ops))
    ensures Run(root, s, ops).disk == Run(root, s, WithoutRestarts(ops)).disk
  {
    NothingToFind(root, s, s, ops);
    RestartsSeenExactly(root, s, s, ops);
  }

  lemma {:induction false} NothingToFind(root: string, s: State, t: State, ops: seq<Operation>)
    requires forall k :: 0 <= k < |ops| ==> !ops[k].Delete?
    ensures DeletesFind(root, s, t, ops)
    decreases |ops|
  {
    if ops != [] {
      var op, rest := ops[0], ops[1..];
      NothingToFind(root, After(root, s, op), if op.Restart? then t else After(root, t, op), rest);
    }
  }

  /** The shortest run that sees one: a loaded file, a restart, a DELETE. */
  lemma {:induction false} DeleteSeesRestart(root: string, s: State, name: string)
    requires Coherent(root, s) && name in s.files
    ensures Answers(root, s, [Restart, Delete(name)]) != Answers(root, s, [Delete(name)])
    ensures Answers(root, s, [Restart, Read(name), Delete(name)]) == Answers(root, s, [Read(name), Delete(name)])
  {
    var short, long := [Restart, Delete(name)], [Restart, Read(name), Delete(name)];
    var none := After(root, s, Restart);
    WithoutFirst([Delete(name)]);
    WithoutFirst([Read(name), Delete(name)]);
    assert short[1..] == [Delete(name)] && long[1..] == [Read(name), Delete(name)];
    assert long[1..][1..] == [Delete(name)] && [Delete(name)][1..] == [];
    assert DeletesFind(root, none, s, long[1..]);
    RestartsSeenExactly(root, s, s, short);
    RestartsSeenExactly(root, s, s, long);
  }

  lemma {:induction false} WithoutFirst(ops: seq<Operation>)
    requires 0 < |ops| <= 2 && forall k :: 0 <= k < |ops| ==> !ops[k].Restart?
    ensures WithoutRestarts([Restart] + ops) == ops
  {
    assert ([Restart] + ops)[1..] == ops;
    assert WithoutRestarts(ops[1..]) == ops[1..] by {
      if |ops| == 2 {
        assert ops[1..][1..] == [];
      }
    }
  }

  // ----- undo and revert

  lemma {:induction false} RunUntouched(root: string, s: State, ops: seq<Operation>, name: string)
    requires Coherent(root, s) && forall k :: 0 <= k < |ops| ==> Untouched(ops[k], name)
    ensures Current(root, Run(root, s, ops), name) == Current(root, s, name)
    decreases |ops|
  {
    if ops != [] {
      var s' := After(root, s, ops[0]);
      StepLoads(root, s, ops[0], name);
      StepCoherent(root, s, ops[0]);
      CurrentIsLoad(root, s, name);
      CurrentIsLoad(root, s', name);
      RunUntouched(root, s', ops[1..], name);
    }
  }

  /** UNDO after a successful WRITE or REVERT restores the exact bytes from before it, however many reads,
      checkpoints, restarts and edits of other files happened in between. */
  lemma {:induction false} UndoRestores(root: string, s: State, op: Operation, ops: seq<Operation>)
    requires Coherent(root, s) && (op.Write? || op.Revert?) && Answer(root, s, op) == Done
    requires forall k :: 0 <= k < |ops| ==> Untouched(ops[k], op.name)
    ensures var before := Current(root, s, op.name);
            var s' := Run(root, After(root, s, op), ops);
            && Answer(root, s', Undo(op.name)) == Done
            && Current(root, After(root, s', Undo(op.name)), op.name).content == before.content
            && Current(root, After(root, s', Undo(op.name)), op.name).undo == Some(Current(root, s', op.name).content)
  {
    StepCoherent(root, s, op);
    RunUntouched(root, After(root, s, op), ops, op.name);
  }

  /** Two UNDOs in a row are the identity on content, snapshot and counters. */
  lemma {:induction false} UndoTwice(root: string, s: State, name: string)
    requires Coherent(root, s) && Answer(root, s, Undo(name)) == Done
    ensures Answer(root, After(root, s, Undo(name)), Undo(name)) == Done
    ensures Current(root, After(root, After(root, s, Undo(name)), Undo(name)), name) == Current(root, s, name)
  {
    CurrentIsLoad(root, s, name);
  }

  /** An operation that fails changes no byte on disk and no file. */
  lemma {:induction false} FailureKeeps(root: string, s: State, op: Operation, name: string)
    requires Answer(root, s, op).Failed?
    ensures After(root, s, op).disk == s.disk
    ensures Current(root, After(root, s, op), name) == Current(root, s, name)
  {
  }

  // ----- checkpoints

  lemma {:induction false} CheckpointStays(root: string, s: State, op: Operation, name: string, tag: string)
    requires CheckpointPath(root, name, tag) in s.disk
    ensures var path := CheckpointPath(root, name, tag);
            path in After(root, s, op).disk && After(root, s, op).disk[path] == s.disk[path]
  {
    if !op.Restart? {
      KindsDiffer(root, op.name, op.name, name, tag);
    }
  }

  lemma {:induction false} CheckpointStaysInRun(root: string, s: State, ops: seq<Operation>, name: string, tag: string)
    requires CheckpointPath(root, name, tag) in s.disk
    ensures var path := CheckpointPath(root, name, tag);
            path in Run(root, s, ops).disk && Run(root, s, ops).disk[path] == s.disk[path]
    decreases |ops|
  {
    if ops != [] {
      CheckpointStays(root, s, ops[0], name, tag);
      CheckpointStaysInRun(root, After(root, s, ops[0]), ops[1..], name, tag);
    }
  }

  /** A checkpoint is for ever: after any further run, deletes and restarts included, viewing it shows the bytes
      the file had when it was taken, and reverting to it installs them. */
  lemma {:induction false} CheckpointIsImmutable(root: string, s: State, name: string, tag: string, ops: seq<Operation>)
    requires Answer(root, s, Checkpoint(name, tag)) == Done
    ensures var saved := Current(root, s, name).content;
            var later := Run(root, After(root, s, Checkpoint(name, tag)), ops);
            && Answer(root, later, ViewCheckpoint(name, tag)) == Content(saved)
            && Answer(root, later, Revert(name, tag)) == Done
            && Current(root, After(root, later, Revert(name, tag)), name)
               == WithCounts(saved, Some(Current(root, later, name).content))
            && Answer(root, later, Checkpoint(name, tag)) == Failed(AlreadyExists)
  {
    CheckpointStaysInRun(root, After(root, s, Checkpoint(name, tag)), ops, name, tag);
  }

  // ----- white space

  ghost predicate AllPlain(s: State) {
    && (forall p :: p in s.disk ==> Plain(s.disk[p]))
    && (forall n :: n in s.files ==>
          Plain(s.files[n].content) && (s.files[n].undo.Some? ==> Plain(s.files[n].undo.value)))
  }

  lemma {:induction false} StepPlain(root: string, s: State, op: Operation)
    requires AllPlain(s) && !op.Import?
    ensures AllPlain(After(root, s, op))
  {
    if op.Write? || op.Undo? || op.Revert? {
      ReplacingPlain(root, s, op);
    }
  }

  lemma {:induction false} ReplacingPlain(root: string, s: State, op: Operation)
    requires AllPlain(s) && (op.Write? || op.Undo? || op.Revert?)
    ensures AllPlain(After(root, s, op))
  {
    var f := Current(root, s, op.name);
    match op {
      case Write(name, sentence, updates) =>
        var written := WriteText(f.content, sentence, updates);
        if updates != [] && written.Success? {
          WriteKeepsPlain(f.content, sentence, updates);
          ReplacePlain(root, s, name, written.value);
        }
      case Undo(name) =>
        if f.undo.Some? {
          ReplacePlain(root, s, name, f.undo.value);
        }
      case Revert(name, tag) =>
        if CheckpointPath(root, name, tag) in s.disk {
          ReplacePlain(root, s, name, s.disk[CheckpointPath(root, name, tag)]);
        }
    }
  }

  lemma {:induction false} ReplacePlain(root: string, s: State, name: string, content: string)
    requires AllPlain(s) && Plain(content)
    ensures AllPlain(Replace(root, s, name, content))
  {
  }

  /** Content built by the engine alone, without imports, holds no white space but single spaces,
      so in particular no carriage return. */
  lemma {:induction false} RunPlain(root: string, s: State, ops: seq<Operation>, name: string)
    requires AllPlain(s) && forall k :: 0 <= k < |ops| ==> !ops[k].Import?
    ensures AllPlain(Run(root, s, ops))
    ensures NoCarriageReturn(Current(root, Run(root, s, ops), name).content)
    decreases |ops|
  {
    if ops != [] {
      StepPlain(root, s, ops[0]);
      RunPlain(root, After(root, s, ops[0]), ops[1..], name);
    } else {
      var t := Current(root, s, name).content;
      assert Plain(t);
      assert forall k :: 0 <= k < |t| && t[k] == '\r' ==> IsBlank(t[k]);
    }
  }
}
