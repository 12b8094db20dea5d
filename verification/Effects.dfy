/** What the engine's operations leave, as the answers of later operations show it. */
module Effects {
  import opened Text
  import opened Sentences
  import opened Editing
  import opened Paths
  import opened Engine
  import opened History

  /** READ answers with this text. */
  predicate Shows(root: string, s: State, name: string, text: string) {
    Answer(root, s, Read(name)) == Content(text)
  }

  /** INFO answers with the counts of this text. */
  predicate Counted(root: string, s: State, name: string, text: string) {
    Answer(root, s, Info(name)) == Counts(|Tokens(text)|, |text|, SentenceCount(text))
  }

  /** READ, INFO and UNDO answer alike in both states, and after the UNDOs READ answers alike too. */
  predicate Alike(root: string, s: State, s': State, name: string) {
    && Answer(root, s', Read(name)) == Answer(root, s, Read(name))
    && Answer(root, s', Info(name)) == Answer(root, s, Info(name))
    && Answer(root, s', Undo(name)) == Answer(root, s, Undo(name))
    && Answer(root, After(root, s', Undo(name)), Read(name)) == Answer(root, After(root, s, Undo(name)), Read(name))
  }

  lemma {:induction false} SameFileAlike(root: string, s: State, s': State, name: string)
    requires Current(root, s', name) == Current(root, s, name)
    ensures Alike(root, s, s', name)
  {
  }

  /** READ shows some text, and INFO always counts what READ shows. */
  lemma {:induction false} InfoCountsShown(root: string, s: State, name: string) returns (text: string)
    requires Coherent(root, s)
    ensures Shows(root, s, name, text) && Counted(root, s, name, text)
  {
    text := Current(root, s, name).content;
    CurrentIsLoad(root, s, name);
  }

  /** Reads, checkpoints, restarts and whatever is done to other files leave a file as it was, over whole runs. */
  lemma {:induction false} OthersStay(root: string, s: State, ops: seq<Operation>, name: string)
    requires Coherent(root, s) && forall k :: 0 <= k < |ops| ==> Untouched(ops[k], name)
    ensures Alike(root, s, Run(root, s, ops), name)
  {
    RunUntouched(root, s, ops, name);
    SameFileAlike(root, s, Run(root, s, ops), name);
  }

  // ----- WRITE

  /** A WRITE is done exactly when there are updates and the edit of the text READ shows succeeds at that sentence.
      READ then shows the edited text, INFO counts it, and UNDO goes back to the text shown before, also after restarts,
      reads, checkpoints and operations on other files. A refused WRITE changes nothing. */
  lemma {:induction false} WriteExactly(root: string, s: State, name: string, i: nat, updates: seq<Update>,
                                        text: string, ops: seq<Operation>)
    requires Coherent(root, s) && Shows(root, s, name, text)
    requires forall k :: 0 <= k < |ops| ==> Untouched(ops[k], name)
    ensures var op := Write(name, i, updates);
            var z := Run(root, After(root, s, op), ops);
            && (Answer(root, s, op) == Done <==> updates != [] && WriteText(text, i, updates).Success?)
            && (Answer(root, s, op) != Done ==> Answer(root, s, op) == Failed(Invalid) && Alike(root, s, z, name))
            && (Answer(root, s, op) == Done ==>
                  && Shows(root, z, name, WriteText(text, i, updates).value)
                  && Counted(root, z, name, WriteText(text, i, updates).value)
                  && Answer(root, z, Undo(name)) == Done && Shows(root, After(root, z, Undo(name)), name, text))
  {
    var op := Write(name, i, updates);
    var s' := After(root, s, op);
    StepCoherent(root, s, op);
    RunUntouched(root, s', ops, name);
    SameFileAlike(root, s', Run(root, s', ops), name);
    if updates != [] && WriteText(text, i, updates).Success? {
      WriteDone(root, s, name, i, updates, text);
    } else {
      assert Answer(root, s, op) == Failed(Invalid);
      FailureKeeps(root, s, op, name);
      SameFileAlike(root, s, s', name);
    }
  }

  lemma {:induction false} WriteDone(root: string, s: State, name: string, i: nat, updates: seq<Update>, text: string)
    requires Shows(root, s, name, text) && updates != [] && WriteText(text, i, updates).Success?
    ensures var op := Write(name, i, updates);
            var s' := After(root, s, op);
            && Answer(root, s, op) == Done
            && Shows(root, s', name, WriteText(text, i, updates).value)
            && Counted(root, s', name, WriteText(text, i, updates).value)
            && Answer(root, s', Undo(name)) == Done && Shows(root, After(root, s', Undo(name)), name, text)
  {
  }

  // ----- CREATE, DELETE and IMPORT

  /** CREATE is done exactly when READ shows nothing; either way the file stays as it was. */
  lemma {:induction false} CreateExactly(root: string, s: State, name: string)
    requires Coherent(root, s)
    ensures var answer := Answer(root, s, Create(name));
            && (answer == Done <==> Shows(root, s, name, ""))
            && (answer != Done ==> answer == Failed(Invalid))
            && Alike(root, s, After(root, s, Create(name)), name)
  {
    CurrentIsLoad(root, s, name);
    SameFileAlike(root, s, After(root, s, Create(name)), name);
  }

  /** DELETE is done exactly when the file is loaded, as a READ makes it. Then READ shows nothing, INFO counts nothing
      and UNDO fails, also after restarts, reads, checkpoints and operations on other files. */
  lemma {:induction false} DeleteExactly(root: string, s: State, name: string, ops: seq<Operation>)
    requires Coherent(root, s) && forall k :: 0 <= k < |ops| ==> Untouched(ops[k], name)
    ensures var answer, z := Answer(root, s, Delete(name)), Run(root, After(root, s, Delete(name)), ops);
            && (answer == Done <==> name in s.files) && (answer != Done ==> answer == Failed(NotFound))
            && Answer(root, After(root, s, Read(name)), Delete(name)) == Done
            && (answer == Done ==>
                  Shows(root, z, name, "") && Counted(root, z, name, "")
                  && Answer(root, z, Undo(name)) == Failed(Invalid))
  {
    var s' := After(root, s, Delete(name));
    StepCoherent(root, s, Delete(name));
    RunUntouched(root, s', ops, name);
    SameFileAlike(root, s', Run(root, s', ops), name);
    if name in s.files {
      DeletedLoads(root, s.disk, name);
      var text := InfoCountsShown(root, s', name);
    }
  }

  lemma {:induction false} DeletedLoads(root: string, disk: map<string, string>, name: string)
    ensures Load(root, disk - {FilePath(root, name), UndoPath(root, name)}, name) == WithCounts("", None)
  {
  }

  /** IMPORT is always done and READ then shows the imported text; UNDO answers as it would have without the import and
      leads to the same text, the snapshot from before it. */
  lemma {:induction false} ImportExactly(root: string, s: State, name: string, content: string, ops: seq<Operation>)
    requires Coherent(root, s) && forall k :: 0 <= k < |ops| ==> Untouched(ops[k], name)
    ensures var z := Run(root, After(root, s, Import(name, content)), ops);
            && Answer(root, s, Import(name, content)) == Done
            && Shows(root, z, name, content) && Counted(root, z, name, content)
            && Answer(root, z, Undo(name)) == Answer(root, s, Undo(name))
            && (Answer(root, s, Undo(name)) == Done ==>
                  Answer(root, After(root, z, Undo(name)), Read(name))
                  == Answer(root, After(root, s, Undo(name)), Read(name)))
  {
    var s' := After(root, s, Import(name, content));
    StepCoherent(root, s, Import(name, content));
    RunUntouched(root, s', ops, name);
    SameFileAlike(root, s', Run(root, s', ops), name);
    assert Current(root, s', name) == WithCounts(content, Current(root, s, name).undo);
  }

  // ----- CHECKPOINT, VIEWCHECKPOINT and REVERT

  /** For a valid tag, either nothing is saved under it: VIEWCHECKPOINT and REVERT fail, and CHECKPOINT saves the text
      READ shows; or a text is saved: VIEWCHECKPOINT shows it, CHECKPOINT fails, and REVERT makes READ show it. */
  lemma {:induction false} CheckpointExactly(root: string, s: State, name: string, tag: string, text: string)
    requires Coherent(root, s) && IsValidTag(tag) && Shows(root, s, name, text)
    ensures var saved := Answer(root, s, ViewCheckpoint(name, tag));
            match saved
            case Failed(code) =>
              && code == NotFound && Answer(root, s, Revert(name, tag)) == Failed(NotFound)
              && Answer(root, s, Checkpoint(name, tag)) == Done
              && Answer(root, After(root, s, Checkpoint(name, tag)), ViewCheckpoint(name, tag)) == Content(text)
            case Content(old_) =>
              && Answer(root, s, Checkpoint(name, tag)) == Failed(AlreadyExists)
              && Answer(root, s, Revert(name, tag)) == Done
              && Shows(root, After(root, s, Revert(name, tag)), name, old_)
            case _ => false
  {
  }

  /** Nothing but the CHECKPOINT of that very file and tag changes what VIEWCHECKPOINT answers. */
  lemma {:induction false} SavedStays(root: string, s: State, op: Operation, name: string, tag: string)
    requires IsValidTag(tag) && op != Checkpoint(name, tag)
    ensures Answer(root, After(root, s, op), ViewCheckpoint(name, tag)) == Answer(root, s, ViewCheckpoint(name, tag))
  {
    if !op.Restart? {
      KindsDiffer(root, op.name, op.name, name, tag);
    }
    if op.Checkpoint? && IsValidTag(op.tag) {
      if CheckpointPath(root, op.name, op.tag) == CheckpointPath(root, name, tag) {
        CheckpointsDiffer(root, op.name, op.tag, name, tag);
      }
    }
  }
}
