/** Between the version check of a commit and its write, and races there. */
module CommitRace {
  import opened Text
  import opened Sentences
  import opened Editing
  import opened Accounting
  import opened LockTable
  import opened WriteProtocol
  import opened Splicing
  import opened Numbering

  // ----- which events stamp a file

  /** The event works on this file through its name. */
  predicate Uses(s: State, e: Event, file: string)
    requires Enabled(s, e)
  {
    match e
    case Validate(t) => s.threads[t].file == file
    case CheckVersion(t) => s.threads[t].session.file == file
    case Commit(t) => s.threads[t].session.file == file
    case Change(t, _) => s.threads[t].file == file
    case Overwrite(f, _) => f == file
    case Load(f) => f == file
    case _ => false
  }

  /** The event puts new content into the file: a successful commit, undo, revert, create or import. */
  predicate Writes(s: State, e: Event, file: string)
    requires Enabled(s, e)
  {
    && Uses(s, e, file)
    && match e
       case Commit(t) =>
         WriteText(FileOf(s, file).content, s.threads[t].session.sentence, s.threads[t].session.updates).Success?
       case Change(_, result) => result.Some?
       case Overwrite(_, _) => true
       case _ => false
  }

  /** The event stamps the file with the time of the clock: it writes it, or loads it when it is not there. */
  predicate Stamps(s: State, e: Event, file: string)
    requires Enabled(s, e)
  {
    Writes(s, e, file) || (Uses(s, e, file) && file !in s.files)
  }

  /** Some event of the run stamps the file at a time after version. */
  predicate StampedLate(s: State, es: seq<Event>, file: string, version: int)
    requires IsRun(s, es)
    decreases |es|
  {
    es != [] &&
    ((Stamps(s, es[0], file) && s.clock > version) || StampedLate(Next(s, es[0]), es[1..], file, version))
  }

  /** No event of the run writes or removes the file. */
  predicate LeftAlone(s: State, es: seq<Event>, file: string)
    requires IsRun(s, es)
    decreases |es|
  {
    es == [] || (!Writes(s, es[0], file) && es[0] != Remove(file) && LeftAlone(Next(s, es[0]), es[1..], file))
  }

  // ----- whole runs

  lemma {:induction false} LateStays(s: State, es: seq<Event>, file: string, version: int)
    requires IsRun(s, es) && StampsPast(s) && FileOf(s, file).modifiedAt > version
    ensures FileOf(After(s, es), file).modifiedAt > version
    decreases |es|
  {
    if es != [] {
      NextStampsPast(s, es[0]);
      LateStays(Next(s, es[0]), es[1..], file, version);
    }
  }

  /** The file is gone, and loading it now would stamp it late. */
  predicate GoneLate(s: State, file: string, version: int) {
    file !in s.files && s.clock > version
  }

  lemma {:induction false} GoneStaysLate(s: State, es: seq<Event>, file: string, version: int)
    requires IsRun(s, es) && GoneLate(s, file, version)
    ensures StampedLate(s, es, file, version) || GoneLate(After(s, es), file, version)
    decreases |es|
  {
    if es != [] {
      if !Stamps(s, es[0], file) {
        GoneStaysLate(Next(s, es[0]), es[1..], file, version);
      }
    }
  }

  /** A file that is not late becomes late exactly when some event stamps it late, or it is removed and stays away
      past that time. */
  lemma {:induction false} LateExactly(s: State, es: seq<Event>, file: string, version: int)
    requires IsRun(s, es) && StampsPast(s) && FileOf(s, file).modifiedAt <= version
    ensures FileOf(After(s, es), file).modifiedAt > version
       <==> StampedLate(s, es, file, version) || GoneLate(After(s, es), file, version)
    decreases |es|
  {
    if es != [] {
      var e, s', rest := es[0], Next(s, es[0]), es[1..];
      NextStampsPast(s, e);
      if FileOf(s', file).modifiedAt <= version {
        LateExactly(s', rest, file, version);
      } else {
        LateStays(s', rest, file, version);
        if !Stamps(s, e, file) {
          GoneStaysLate(s', rest, file, version);
        }
      }
    }
  }

  lemma {:induction false} LeftAloneSame(s: State, es: seq<Event>, file: string)
    requires IsRun(s, es) && LeftAlone(s, es, file) && file in s.files
    ensures FileOf(After(s, es), file) == s.files[file]
    decreases |es|
  {
    if es != [] {
      LeftAloneSame(Next(s, es[0]), es[1..], file);
    }
  }

  lemma {:induction false} CheckedWaits(s: State, es: seq<Event>, t: ThreadId)
    requires IsRun(s, es) && At(s, t) && s.threads[t].Checked? && Commit(t) !in es
    ensures At(After(s, es), t) && After(s, es).threads[t] == s.threads[t]
    decreases |es|
  {
    if es != [] {
      assert es[0] in es;
      assert forall e :: e in es[1..] ==> e in es;
      CheckedWaits(Next(s, es[0]), es[1..], t);
    }
  }

  /** The check: a session that passes it has its file loaded, stamped no later than the version it was granted. */
  lemma {:induction false} CheckPasses(s: State, t: ThreadId)
    requires Inv(s) && Enabled(s, CheckVersion(t)) && Next(s, CheckVersion(t)).threads[t].Checked?
    ensures var s', se := Next(s, CheckVersion(t)), s.threads[t].session;
            s'.threads[t] == Checked(se) && se.file in s'.files && s'.files[se.file].modifiedAt <= se.granted
  {
  }

  /** What the window between check and write lets through, exactly. Whatever others do until the session writes, it
      still writes; it edits the text found then. That text is newer than the granted version if and only if some event
      in between stamped the file late, or removed it until late; if nobody wrote or removed it, it is the checked
      text. */
  lemma {:induction false} CheckedExactly(s: State, es: seq<Event>, t: ThreadId)
    requires StampsPast(s) && At(s, t) && s.threads[t].Checked?
    requires var se := s.threads[t].session; se.file in s.files && s.files[se.file].modifiedAt <= se.granted
    requires IsRun(s, es) && Commit(t) !in es
    ensures var se, z := s.threads[t].session, After(s, es);
            && Enabled(z, Commit(t)) && z.threads[t].session == se
            && (FileOf(z, se.file).modifiedAt > se.granted <==>
                  StampedLate(s, es, se.file, se.granted) || GoneLate(z, se.file, se.granted))
            && (LeftAlone(s, es, se.file) ==> FileOf(z, se.file) == s.files[se.file])
            && FileOf(Next(z, Commit(t)), se.file).content
               == Committed(FileOf(z, se.file).content, se.sentence, se.updates)
  {
    var se := s.threads[t].session;
    CheckedWaits(s, es, t);
    LateExactly(s, es, se.file, se.granted);
    if LeftAlone(s, es, se.file) {
      LeftAloneSame(s, es, se.file);
    }
  }

  // ----- a run from the start to both commits

  lemma {:induction false} RunConcat(s: State, es: seq<Event>, fs: seq<Event>)
    requires IsRun(s, es) && IsRun(After(s, es), fs)
    ensures IsRun(s, es + fs) && After(s, es + fs) == After(After(s, es), fs)
    decreases |es|
  {
    if es == [] {
      assert es + fs == fs;
    } else {
      assert (es + fs)[1..] == es[1..] + fs;
      RunConcat(Next(s, es[0]), es[1..], fs);
    }
  }

  lemma {:induction false} OneMore(s: State, es: seq<Event>, e: Event)
    requires IsRun(s, es) && Enabled(After(s, es), e)
    ensures IsRun(s, es + [e]) && After(s, es + [e]) == Next(After(s, es), e)
  {
    RunConcat(s, es, [e]);
  }

  /** The state with one more lock and one more writer, whose thread stands at pc. */
  function WithSession(s: State, t: ThreadId, lock: LockEntry, pc: Pc): State {
    s.(locks := [lock] + s.locks, writers := Up(s.writers), threads := s.threads[t := pc])
  }

  lemma {:induction false} Opens(s: State, t: ThreadId, file: string, i: nat) returns (es: seq<Event>)
    requires t !in s.threads && file in s.files && i <= SentenceCount(s.files[file].content)
    requires VersionOf(s.locks, file, i).None?
    ensures var m := s.files[file].modifiedAt;
            && IsRun(s, es)
            && After(s, es) == WithSession(s, t, LockEntry(file, i, m), Editing(Session(file, i, m, [])))
  {
    var m := s.files[file].modifiedAt;
    assert s.files[file := s.files[file]] == s.files;
    var s1 := Next(s, Arrive(t, file, i));
    OneMore(s, [Arrive(t, file, i)], Validate(t));
    var s2 := Next(s1, Validate(t));
    assert s2 == s.(threads := s.threads[t := Validated(file, i, m)]);
    es := [Arrive(t, file, i)] + [Validate(t)];
    OneMore(s, es, Grant(t));
    es := es + [Grant(t)];
    assert s2.threads[t := Editing(Session(file, i, m, []))] == s.threads[t := Editing(Session(file, i, m, []))];
  }

  lemma {:induction false} Receives(s: State, t: ThreadId, se: Session, u: seq<Update>) returns (es: seq<Event>)
    requires At(s, t) && s.threads[t] == Editing(se) && |se.updates| + |u| <= MAX_UPDATES
    ensures IsRun(s, es) && After(s, es) == Move(s, t, Editing(se.(updates := se.updates + u)))
    decreases |u|
  {
    if u == [] {
      es := [];
      assert se.(updates := se.updates + u) == se;
      assert s.threads[t := Editing(se)] == s.threads;
    } else {
      var e, se' := Receive(t, u[0]), se.(updates := se.updates + [u[0]]);
      var s' := Next(s, e);
      var rest := Receives(s', t, se', u[1..]);
      RunConcat(s, [e], rest);
      es := [e] + rest;
      assert se'.updates + u[1..] == se.updates + u;
      var pc := Editing(se.(updates := se.updates + u));
      assert s'.threads[t := pc] == s.threads[t := pc];
    }
  }

  lemma {:induction false} Passes(s: State, t: ThreadId, se: Session) returns (es: seq<Event>)
    requires At(s, t) && s.threads[t] == Editing(se) && VersionOf(s.locks, se.file, se.sentence) == Some(se.granted)
    requires se.file in s.files && s.files[se.file].modifiedAt <= se.granted
    ensures IsRun(s, es) && After(s, es) == Move(s, t, Checked(se))
  {
    assert s.files[se.file := s.files[se.file]] == s.files;
    OneMore(s, [AskCommit(t)], CheckVersion(t));
    es := [AskCommit(t)] + [CheckVersion(t)];
    assert s.threads[t := VersionRead(se, Some(se.granted))][t := Checked(se)] == s.threads[t := Checked(se)];
  }

  /** A session from its arrival to its passed check, nobody else moving. */
  lemma {:induction false} Prepares(s: State, t: ThreadId, file: string, i: nat, u: seq<Update>)
    returns (es: seq<Event>)
    requires t !in s.threads && file in s.files && i <= SentenceCount(s.files[file].content) && |u| <= MAX_UPDATES
    requires VersionOf(s.locks, file, i).None?
    ensures var m := s.files[file].modifiedAt;
            && IsRun(s, es)
            && After(s, es) == WithSession(s, t, LockEntry(file, i, m), Checked(Session(file, i, m, u)))
  {
    var m := s.files[file].modifiedAt;
    var lock, se := LockEntry(file, i, m), Session(file, i, m, u);
    var opens := Opens(s, t, file, i);
    var s1 := After(s, opens);
    var receives := Receives(s1, t, Session(file, i, m, []), u);
    assert [] + u == u;
    assert After(s1, receives) == WithSession(s, t, lock, Editing(se)) by {
      assert s.threads[t := Editing(Session(file, i, m, []))][t := Editing(se)] == s.threads[t := Editing(se)];
    }
    RunConcat(s, opens, receives);
    var s2 := After(s1, receives);
    var passes := Passes(s2, t, se);
    assert s.threads[t := Editing(se)][t := Checked(se)] == s.threads[t := Checked(se)];
    RunConcat(s, opens + receives, passes);
    es := opens + receives + passes;
  }

  /** Two sessions on different sentences, both past their checks before either writes, at any later time: reachable
      from the start, whatever the text and the collected updates. */
  lemma {:induction false} RaceReaches(s: State, a: ThreadId, b: ThreadId, file: string, i: nat, u: seq<Update>,
                                       j: nat, v: seq<Update>, now: int) returns (es: seq<Event>)
    requires Initial(s) && file in s.files && a != b && i != j && now >= s.clock
    requires i <= SentenceCount(s.files[file].content) && j <= SentenceCount(s.files[file].content)
    requires |u| <= MAX_UPDATES && |v| <= MAX_UPDATES
    ensures IsRun(s, es)
    ensures var m, z := s.files[file].modifiedAt, After(s, es);
            && Racing(z, a, b, Session(file, i, m, u), Session(file, j, m, v))
            && z.files == s.files && z.clock == now
  {
    var first := Prepares(s, a, file, i, u);
    var s1 := After(s, first);
    var second := Prepares(s1, b, file, j, v);
    RunConcat(s, first, second);
    OneMore(s, first + second, Tick(now));
    es := first + second + [Tick(now)];
  }

  predicate Racing(z: State, a: ThreadId, b: ThreadId, sa: Session, sb: Session) {
    At(z, a) && At(z, b) && a != b && z.threads[a] == Checked(sa) && z.threads[b] == Checked(sb)
  }

  /** The second commit of a race goes ahead although the first has stamped the file now; it edits the first's text. */
  lemma {:induction false} RaceRuns(z: State, a: ThreadId, b: ThreadId, sa: Session, sb: Session)
    requires Racing(z, a, b, sa, sb) && sa.file == sb.file && sa.file in z.files
    ensures IsRun(z, [Commit(a), Commit(b)])
    ensures var t := z.files[sa.file].content;
            && (WriteText(t, sa.sentence, sa.updates).Success? ==>
                  FileOf(Next(z, Commit(a)), sa.file).modifiedAt == z.clock)
            && FileOf(After(z, [Commit(a), Commit(b)]), sa.file).content
               == Committed(Committed(t, sa.sentence, sa.updates), sb.sentence, sb.updates)
  {
    OneMore(z, [Commit(a)], Commit(b));
    assert [Commit(a)] + [Commit(b)] == [Commit(a), Commit(b)];
  }

  /** When the condition of Numbering.OrderExactly fails, some run from the start leads two sessions into a race whose
      two orders of committing leave different contents. */
  lemma {:induction false} RaceDiffers(s: State, a: ThreadId, b: ThreadId, file: string, i: nat, j: nat,
                                       u: seq<Update>, now: int)
    returns (v: seq<Update>, es: seq<Event>)
    requires Initial(s) && file in s.files && a != b && now >= s.clock && |u| <= MAX_UPDATES
    requires var t := s.files[file].content;
             && NoCarriageReturn(t) && i < j <= SentenceCount(t) && WriteText(t, i, u).Success?
             && (InsertedDelimiters(u) > 0 || (!EndsInDelimiter(NewSentence(t, i, u)) && j == i + 1))
    ensures IsRun(s, es)
    ensures var m, z := s.files[file].modifiedAt, After(s, es);
            && Racing(z, a, b, Session(file, i, m, u), Session(file, j, m, v))
            && IsRun(z, [Commit(a), Commit(b)]) && IsRun(z, [Commit(b), Commit(a)])
            && FileOf(After(z, [Commit(a), Commit(b)]), file).content
               != FileOf(After(z, [Commit(b), Commit(a)]), file).content
  {
    var t, m := s.files[file].content, s.files[file].modifiedAt;
    v := OrderConflict(t, i, j, u);
    es := RaceReaches(s, a, b, file, i, u, j, v, now);
    var sa, sb := Session(file, i, m, u), Session(file, j, m, v);
    RaceRuns(After(s, es), a, b, sa, sb);
    RaceRuns(After(s, es), b, a, sb, sa);
  }
}
