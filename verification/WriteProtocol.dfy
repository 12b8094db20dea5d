/** Write sessions on one storage server; an event is a section under a mutex. */
module WriteProtocol {
  import opened Text
  import opened Sentences
  import opened Editing
  import opened LockTable

  type ThreadId = int

  /** What a granted write session keeps in its local variables. */
  datatype Session = Session(file: string, sentence: nat, granted: int, updates: seq<Update>)

  /** Where a handler thread stands. */
  datatype Pc =
    | Requested(file: string, sentence: nat)
    | Validated(file: string, sentence: nat, seen: int)
    | Editing(session: Session)
    | VersionRead(session: Session, locked: Option<int>)
    | Checked(session: Session)
    | Leaving(session: Session)
    | Changing(file: string)
    | Changed
    | Reading
    | Finished

  datatype FileVersion = FileVersion(content: string, modifiedAt: int)

  datatype State = State(locks: seq<LockEntry>, writers: nat, readers: nat,
                         threads: map<ThreadId, Pc>, files: map<string, FileVersion>, clock: int)

  datatype Event =
    | Tick(now: int)
    | Arrive(t: ThreadId, file: string, sentence: nat)
    | Validate(t: ThreadId)
    | Grant(t: ThreadId)
    | Receive(t: ThreadId, update: Update)
    | AskCommit(t: ThreadId)
    | CheckVersion(t: ThreadId)
    | Commit(t: ThreadId)
    | Abandon(t: ThreadId)
    | Release(t: ThreadId)
    | BeginChange(t: ThreadId, file: string)
    | Change(t: ThreadId, result: Option<string>)
    | EndChange(t: ThreadId)
    | BeginRead(t: ThreadId)
    | EndRead(t: ThreadId)
    | Overwrite(file: string, content: string)
    | Remove(file: string)
    | Load(file: string)

  const UINT := 0x1_0000_0000

  /** A name the engine does not know loads as an empty file stamped now. */
  function FileOf(s: State, file: string): FileVersion {
    if file in s.files then s.files[file] else FileVersion("", s.clock)
  }

  predicate At(s: State, t: ThreadId) {
    t in s.threads
  }

  /** The thread's position allows this event. */
  predicate Enabled(s: State, e: Event) {
    match e
    case Tick(now) => now >= s.clock
    case Arrive(t, _, _) => t !in s.threads
    case Validate(t) => At(s, t) && s.threads[t].Requested?
    case Grant(t) => At(s, t) && s.threads[t].Validated?
    case Receive(t, _) => At(s, t) && s.threads[t].Editing?
    case AskCommit(t) => At(s, t) && s.threads[t].Editing?
    case CheckVersion(t) => At(s, t) && s.threads[t].VersionRead?
    case Commit(t) => At(s, t) && s.threads[t].Checked?
    case Abandon(t) => At(s, t) && s.threads[t].Editing?
    case Release(t) => At(s, t) && s.threads[t].Leaving?
    case BeginChange(t, _) => t !in s.threads
    case Change(t, _) => At(s, t) && s.threads[t].Changing?
    case EndChange(t) => At(s, t) && s.threads[t].Changed?
    case BeginRead(t) => t !in s.threads
    case EndRead(t) => At(s, t) && s.threads[t].Reading?
    case Overwrite(_, _) => true
    case Remove(_) => true
    case Load(_) => true
  }

  function Move(s: State, t: ThreadId, pc: Pc): State {
    s.(threads := s.threads[t := pc])
  }

  function Touch(s: State, file: string): State {
    s.(files := s.files[file := FileOf(s, file)])
  }

  function Stamp(s: State, file: string, content: string): State {
    s.(files := s.files[file := FileVersion(content, s.clock)])
  }

  /** unsigned int arithmetic of the two counters. */
  function Up(n: nat): nat { (n + 1) % UINT }
  function Down(n: nat): nat { (n + UINT - 1) % UINT }

  function Next(s: State, e: Event): State
    requires Enabled(s, e)
  {
    match e
    case Tick(now) => s.(clock := now)
    case Arrive(t, file, sentence) => Move(s, t, Requested(file, sentence))
    case Validate(t) =>
      var pc := s.threads[t];
      var info := FileOf(s, pc.file);
      Move(Touch(s, pc.file), t,
           if pc.sentence > SentenceCount(info.content) then Finished
           else Validated(pc.file, pc.sentence, info.modifiedAt))
    case Grant(t) =>
      var pc := s.threads[t];
      if VersionOf(s.locks, pc.file, pc.sentence).Some? then Move(s, t, Finished)
      else Move(s.(locks := [LockEntry(pc.file, pc.sentence, pc.seen)] + s.locks, writers := Up(s.writers)),
                t, Editing(Session(pc.file, pc.sentence, pc.seen, [])))
    case Receive(t, update) =>
      var se := s.threads[t].session;
      Move(s, t, Editing(if |se.updates| < MAX_UPDATES then se.(updates := se.updates + [update]) else se))
    case AskCommit(t) =>
      var se := s.threads[t].session;
      Move(s, t, VersionRead(se, VersionOf(s.locks, se.file, se.sentence)))
    case CheckVersion(t) =>
      var pc := s.threads[t];
      var info := FileOf(s, pc.session.file);
      Move(Touch(s, pc.session.file), t,
           if pc.locked.Some? && info.modifiedAt > pc.locked.value then Leaving(pc.session) else Checked(pc.session))
    case Commit(t) =>
      var se := s.threads[t].session;
      var info := FileOf(s, se.file);
      Move(match WriteText(info.content, se.sentence, se.updates)
           case Success(text) => Stamp(s, se.file, text)
           case Failure(_) => Touch(s, se.file), t, Leaving(se))
    case Abandon(t) => Move(s, t, Leaving(s.threads[t].session))
    case Release(t) =>
      var se := s.threads[t].session;
      Move(s.(locks := Without(s.locks, se.file, se.sentence), writers := Down(s.writers)), t, Finished)
    case BeginChange(t, file) => Move(s.(writers := Up(s.writers)), t, Changing(file))
    case Change(t, result) =>
      var file := s.threads[t].file;
      Move(if result.Some? then Stamp(s, file, result.value) else Touch(s, file), t, Changed)
    case EndChange(t) => Move(s.(writers := Down(s.writers)), t, Finished)
    case BeginRead(t) => Move(s.(readers := Up(s.readers)), t, Reading)
    case EndRead(t) => Move(s.(readers := Down(s.readers)), t, Finished)
    case Overwrite(file, content) => Stamp(s, file, content)
    case Remove(file) => s.(files := s.files - {file})
    case Load(file) => Touch(s, file)
  }

  // ----- runs

  predicate IsRun(s: State, es: seq<Event>)
    decreases |es|
  {
    es == [] || (Enabled(s, es[0]) && IsRun(Next(s, es[0]), es[1..]))
  }

  function After(s: State, es: seq<Event>): State
    requires IsRun(s, es)
    decreases |es|
  {
    if es == [] then s else After(Next(s, es[0]), es[1..])
  }

  // ----- the invariant

  predicate Holding(pc: Pc) {
    pc.Editing? || pc.VersionRead? || pc.Checked? || pc.Leaving?
  }

  predicate Writing(pc: Pc) {
    Holding(pc) || pc.Changing? || pc.Changed?
  }

  predicate IsReading(pc: Pc) {
    pc.Reading?
  }

  function Entry(se: Session): LockEntry {
    LockEntry(se.file, se.sentence, se.granted)
  }

  function Members(threads: map<ThreadId, Pc>, p: Pc -> bool): set<ThreadId> {
    set t | t in threads && p(threads[t])
  }

  predicate Holds(threads: map<ThreadId, Pc>, t: ThreadId) {
    t in threads && Holding(threads[t])
  }

  predicate SameSentence(a: Session, b: Session) {
    a.file == b.file && a.sentence == b.sentence
  }

  /** Lock entries and granted sessions correspond one to one, and no sentence is granted twice. */
  ghost predicate LocksMatch(locks: seq<LockEntry>, threads: map<ThreadId, Pc>) {
    && DistinctKeys(locks)
    && (forall t :: Holds(threads, t) ==> Entry(threads[t].session) in locks)
    && (forall e :: e in locks ==> exists t :: Holds(threads, t) && Entry(threads[t].session) == e)
    && (forall t, u :: Holds(threads, t) && Holds(threads, u) && t != u
                       ==> !SameSentence(threads[t].session, threads[u].session))
    && |locks| == |Members(threads, Holding)|
  }

  /** The counters are the numbers of handlers in flight, as unsigned ints. */
  ghost predicate CountsMatch(s: State) {
    && s.writers == |Members(s.threads, Writing)| % UINT
    && s.readers == |Members(s.threads, IsReading)| % UINT
  }

  /** The version a committing session read back is the one it was granted with. */
  ghost predicate VersionsMatch(threads: map<ThreadId, Pc>) {
    forall t :: t in threads && threads[t].VersionRead? ==> threads[t].locked == Some(threads[t].session.granted)
  }

  ghost predicate Inv(s: State) {
    LocksMatch(s.locks, s.threads) && CountsMatch(s) && VersionsMatch(s.threads)
  }

  predicate Initial(s: State) {
    s.locks == [] && s.writers == 0 && s.readers == 0 && s.threads == map[]
  }

  // ----- counting threads

  function One(b: bool): nat { if b then 1 else 0 }

  lemma {:induction false} MembersMove(threads: map<ThreadId, Pc>, t: ThreadId, pc: Pc, p: Pc -> bool)
    ensures |Members(threads[t := pc], p)| + One(t in threads && p(threads[t])) == |Members(threads, p)| + One(p(pc))
  {
    var others := set u | u in threads && u != t && p(threads[u]);
    assert Members(threads, p) == if t in threads && p(threads[t]) then others + {t} else others;
    assert Members(threads[t := pc], p) == if p(pc) then others + {t} else others;
  }

  // ----- one move that neither takes nor gives up a lock

  lemma {:induction false} LocksSteady(locks: seq<LockEntry>, threads: map<ThreadId, Pc>, t: ThreadId, pc: Pc)
    requires LocksMatch(locks, threads)
    requires Holds(threads, t) == Holding(pc)
    requires Holding(pc) ==> Entry(pc.session) == Entry(threads[t].session)
    ensures LocksMatch(locks, threads[t := pc])
  {
    var after := threads[t := pc];
    MembersMove(threads, t, pc, Holding);
    forall e | e in locks ensures exists u :: Holds(after, u) && Entry(after[u].session) == e {
      var u :| Holds(threads, u) && Entry(threads[u].session) == e;
      assert Holds(after, u) && Entry(after[u].session) == e;
    }
    assert forall u :: Holds(after, u) ==> Holds(threads, u) && Entry(after[u].session) == Entry(threads[u].session);
  }

  lemma {:induction false} CountsSteady(s: State, t: ThreadId, pc: Pc)
    requires CountsMatch(s)
    requires (At(s, t) && Writing(s.threads[t])) == Writing(pc)
    requires (At(s, t) && IsReading(s.threads[t])) == IsReading(pc)
    ensures CountsMatch(Move(s, t, pc))
  {
    MembersMove(s.threads, t, pc, Writing);
    MembersMove(s.threads, t, pc, IsReading);
  }

  lemma {:induction false} SteadyMove(s: State, t: ThreadId, pc: Pc)
    requires Inv(s)
    requires Holds(s.threads, t) == Holding(pc)
    requires Holding(pc) ==> Entry(pc.session) == Entry(s.threads[t].session)
    requires (At(s, t) && Writing(s.threads[t])) == Writing(pc)
    requires (At(s, t) && IsReading(s.threads[t])) == IsReading(pc)
    requires pc.VersionRead? ==> pc.locked == Some(pc.session.granted)
    ensures Inv(Move(s, t, pc))
  {
    LocksSteady(s.locks, s.threads, t, pc);
    CountsSteady(s, t, pc);
  }

  // ----- taking and giving up

  lemma {:induction false} LockTaken(locks: seq<LockEntry>, threads: map<ThreadId, Pc>, t: ThreadId, se: Session)
    requires LocksMatch(locks, threads) && !Holds(threads, t)
    requires VersionOf(locks, se.file, se.sentence).None?
    ensures LocksMatch([Entry(se)] + locks, threads[t := Editing(se)])
  {
    var after, all := threads[t := Editing(se)], [Entry(se)] + locks;
    FoundExactly(locks, se.file, se.sentence);
    MembersMove(threads, t, Editing(se), Holding);
    forall e | e in all ensures exists u :: Holds(after, u) && Entry(after[u].session) == e {
      if e == Entry(se) {
        assert Holds(after, t) && Entry(after[t].session) == e;
      } else {
        var u :| Holds(threads, u) && Entry(threads[u].session) == e;
        assert Holds(after, u) && Entry(after[u].session) == e;
      }
    }
    forall u | Holds(after, u) && u != t ensures !SameSentence(after[u].session, se) && Entry(after[u].session) in all {
      assert Holds(threads, u);
      assert Entry(threads[u].session) in locks;
    }
  }

  lemma {:induction false} LockReleased(locks: seq<LockEntry>, threads: map<ThreadId, Pc>, t: ThreadId, pc: Pc)
    requires LocksMatch(locks, threads) && Holds(threads, t) && !Holding(pc)
    ensures var se := threads[t].session;
            LocksMatch(Without(locks, se.file, se.sentence), threads[t := pc])
  {
    var se := threads[t].session;
    var after, less := threads[t := pc], Without(locks, se.file, se.sentence);
    OwnVersion(locks, threads, t);
    WithoutIsExact(locks, se.file, se.sentence);
    MembersMove(threads, t, pc, Holding);
    forall e | e in less ensures exists u :: Holds(after, u) && Entry(after[u].session) == e {
      var u :| Holds(threads, u) && Entry(threads[u].session) == e;
      assert Holds(after, u) && Entry(after[u].session) == e;
    }
    forall u | Holds(after, u) ensures Holds(threads, u) && u != t && Entry(after[u].session) in less {
      assert Entry(threads[u].session) in locks && !SameSentence(threads[u].session, se);
    }
  }

  /** A session that looks its lock up finds its own entry. */
  lemma {:induction false} OwnVersion(locks: seq<LockEntry>, threads: map<ThreadId, Pc>, t: ThreadId)
    requires LocksMatch(locks, threads) && Holds(threads, t)
    ensures VersionOf(locks, threads[t].session.file, threads[t].session.sentence) == Some(threads[t].session.granted)
  {
    var e := Entry(threads[t].session);
    var k :| 0 <= k < |locks| && locks[k] == e;
    VersionAt(locks, k);
  }

  lemma {:induction false} VersionAt(locks: seq<LockEntry>, k: nat)
    requires DistinctKeys(locks) && k < |locks|
    ensures VersionOf(locks, locks[k].file, locks[k].sentence) == Some(locks[k].version)
    decreases |locks|
  {
    if k > 0 {
      assert !IsFor(locks[0], locks[k].file, locks[k].sentence);
      var rest := locks[1..];
      assert rest[k - 1] == locks[k];
      assert forall a :: 0 <= a < |rest| ==> rest[a] == locks[a + 1];
      VersionAt(rest, k - 1);
    }
  }

  lemma {:induction false} CounterUp(n: nat)
    ensures Up(n % UINT) == (n + 1) % UINT
  {
  }

  lemma {:induction false} CounterDown(n: nat)
    requires n > 0
    ensures Down(n % UINT) == (n - 1) % UINT
  {
  }

  // ----- every step keeps the invariant

  lemma {:induction false} FilesDoNotMatter(s: State, files: map<string, FileVersion>, clock: int)
    requires Inv(s)
    ensures Inv(s.(files := files, clock := clock))
  {
  }

  lemma {:induction false} GrantInv(s: State, t: ThreadId)
    requires Inv(s) && Enabled(s, Grant(t))
    ensures Inv(Next(s, Grant(t)))
  {
    var pc := s.threads[t];
    if VersionOf(s.locks, pc.file, pc.sentence).Some? {
      SteadyMove(s, t, Finished);
    } else {
      var se := Session(pc.file, pc.sentence, pc.seen, []);
      LockTaken(s.locks, s.threads, t, se);
      CounterUp(|Members(s.threads, Writing)|);
      MembersMove(s.threads, t, Editing(se), Writing);
      MembersMove(s.threads, t, Editing(se), IsReading);
    }
  }

  lemma {:induction false} ReleaseInv(s: State, t: ThreadId)
    requires Inv(s) && Enabled(s, Release(t))
    ensures Inv(Next(s, Release(t)))
  {
    LockReleased(s.locks, s.threads, t, Finished);
    MembersMove(s.threads, t, Finished, Writing);
    MembersMove(s.threads, t, Finished, IsReading);
    assert t in Members(s.threads, Writing);
    CounterDown(|Members(s.threads, Writing)|);
  }

  lemma {:induction false} CountedInv(s: State, e: Event)
    requires Inv(s) && Enabled(s, e) && (e.BeginChange? || e.EndChange? || e.BeginRead? || e.EndRead?)
    ensures Inv(Next(s, e))
  {
    var pc := Next(s, e).threads[e.t];
    LocksSteady(s.locks, s.threads, e.t, pc);
    MembersMove(s.threads, e.t, pc, Writing);
    MembersMove(s.threads, e.t, pc, IsReading);
    var w, r := |Members(s.threads, Writing)|, |Members(s.threads, IsReading)|;
    if e.BeginChange? {
      CounterUp(w);
    } else if e.EndChange? {
      assert e.t in Members(s.threads, Writing);
      CounterDown(w);
    } else if e.BeginRead? {
      CounterUp(r);
    } else {
      assert e.t in Members(s.threads, IsReading);
      CounterDown(r);
    }
  }

  lemma {:induction false} NextInv(s: State, e: Event)
    requires Inv(s) && Enabled(s, e)
    ensures Inv(Next(s, e))
  {
    var s' := Next(s, e);
    match e {
      case Grant(t) => GrantInv(s, t);
      case Release(t) => ReleaseInv(s, t);
      case BeginChange(_, _) => CountedInv(s, e);
      case EndChange(_) => CountedInv(s, e);
      case BeginRead(_) => CountedInv(s, e);
      case EndRead(_) => CountedInv(s, e);
      case Tick(_) => FilesDoNotMatter(s, s'.files, s'.clock);
      case Overwrite(_, _) => FilesDoNotMatter(s, s'.files, s'.clock);
      case Remove(_) => FilesDoNotMatter(s, s'.files, s'.clock);
      case Load(_) => FilesDoNotMatter(s, s'.files, s'.clock);
      case AskCommit(t) =>
        OwnVersion(s.locks, s.threads, t);
        SteadyMove(s, t, s'.threads[t]);
      case _ =>
        SteadyMove(s, e.t, s'.threads[e.t]);
        FilesDoNotMatter(Move(s, e.t, s'.threads[e.t]), s'.files, s'.clock);
    }
  }

  /** Lock safety over every interleaving. */
  lemma {:induction false} RunInv(s: State, es: seq<Event>)
    requires Inv(s) && IsRun(s, es)
    ensures Inv(After(s, es))
    ensures StampsPast(s) ==> StampsPast(After(s, es))
    decreases |es|
  {
    if es != [] {
      NextInv(s, es[0]);
      if StampsPast(s) {
        NextStampsPast(s, es[0]);
      }
      RunInv(Next(s, es[0]), es[1..]);
    }
  }

  /** What the invariant gives a reader: mutual exclusion, one entry per session, a lookup that finds the session's
      own version, and counters that cannot underflow while fewer than 2^32 handlers are in flight. */
  lemma {:induction false} LockSafety(s: State, es: seq<Event>, t: ThreadId, u: ThreadId)
    requires Initial(s) && IsRun(s, es)
    ensures var z := After(s, es);
            && (Holds(z.threads, t) && Holds(z.threads, u) && t != u
                ==> !SameSentence(z.threads[t].session, z.threads[u].session))
            && (Holds(z.threads, t)
                ==> VersionOf(z.locks, z.threads[t].session.file, z.threads[t].session.sentence)
                    == Some(z.threads[t].session.granted))
            && |z.locks| == |Members(z.threads, Holding)|
            && (|Members(z.threads, Writing)| < UINT ==> z.writers == |Members(z.threads, Writing)|)
            && (|Members(z.threads, Writing)| < UINT && (Enabled(z, Release(t)) || Enabled(z, EndChange(t)))
                ==> z.writers > 0)
  {
    RunInv(s, es);
    var z := After(s, es);
    if Holds(z.threads, t) {
      OwnVersion(z.locks, z.threads, t);
    }
    if t in z.threads && Writing(z.threads[t]) {
      assert t in Members(z.threads, Writing);
    }
  }

  /** Leaving the message loop, by whatever exit, removes exactly the session's own entry. */
  lemma {:induction false} ReleaseIsExact(s: State, t: ThreadId)
    requires Inv(s) && Enabled(s, Release(t))
    ensures var se := s.threads[t].session;
            var after := Next(s, Release(t)).locks;
            && (forall e :: e in after <==> e in s.locks && e != Entry(se))
            && |after| == |s.locks| - 1
            && VersionOf(after, se.file, se.sentence).None?
  {
    var se := s.threads[t].session;
    OwnVersion(s.locks, s.threads, t);
    WithoutIsExact(s.locks, se.file, se.sentence);
    var after := Next(s, Release(t)).locks;
    FoundExactly(after, se.file, se.sentence);
    forall e | e in s.locks && IsFor(e, se.file, se.sentence) ensures e == Entry(se) {
      var u :| Holds(s.threads, u) && Entry(s.threads[u].session) == e;
      assert u != t ==> !SameSentence(s.threads[u].session, se);
    }
  }

  // ----- what a session collects

  /** The updates the thread receives during a run, in order. */
  function SentTo(t: ThreadId, es: seq<Event>): seq<Update> {
    if es == [] then []
    else (if es[0].Receive? && es[0].t == t then [es[0].update] else []) + SentTo(t, es[1..])
  }

  function FirstMost(us: seq<Update>): seq<Update> {
    if |us| > 256 then us[..256] else us
  }

  /** While a session holds its sentence, it stays the session it was granted as, and its updates are the first 256
      received, in order, whatever everyone else does. */
  lemma {:induction false} CollectsInOrder(s: State, es: seq<Event>, t: ThreadId)
    requires IsRun(s, es) && Holds(s.threads, t) && |s.threads[t].session.updates| <= 256
    ensures var se, z := s.threads[t].session, After(s, es);
            && At(z, t) && (Holding(z.threads[t]) || z.threads[t] == Finished)
            && (Holding(z.threads[t]) ==>
                  z.threads[t].session == se.(updates := FirstMost(se.updates + SentTo(t, es))))
    decreases |es|
  {
    if es == [] {
      assert s.threads[t].session.updates + [] == s.threads[t].session.updates;
    } else {
      var s' := Next(s, es[0]);
      var us := CollectsOne(s, es[0], t);
      if Holds(s'.threads, t) {
        CollectsInOrder(s', es[1..], t);
        FirstOfFirst(s.threads[t].session.updates, us, SentTo(t, es[1..]));
      } else {
        FinishedStays(s', es[1..], t);
      }
    }
  }

  lemma {:induction false} CollectsOne(s: State, e: Event, t: ThreadId) returns (us: seq<Update>)
    requires Enabled(s, e) && Holds(s.threads, t) && |s.threads[t].session.updates| <= 256
    ensures us == if e.Receive? && e.t == t then [e.update] else []
    ensures var se, threads := s.threads[t].session, Next(s, e).threads;
            && t in threads && (Holding(threads[t]) || threads[t] == Finished)
            && (Holding(threads[t]) ==> threads[t].session == se.(updates := FirstMost(se.updates + us)))
  {
    us := if e.Receive? && e.t == t then [e.update] else [];
    var updates := s.threads[t].session.updates;
    assert updates + [] == updates;
    assert |updates| == 256 && us != [] ==> (updates + us)[..256] == updates;
  }

  lemma {:induction false} FirstOfFirst(a: seq<Update>, b: seq<Update>, c: seq<Update>)
    requires |a| <= 256
    ensures FirstMost(FirstMost(a + b) + c) == FirstMost(a + (b + c))
  {
    assert a + b + c == a + (b + c);
    if |a + b| > 256 {
      assert ((a + b)[..256] + c)[..256] == (a + b + c)[..256];
    }
  }

  lemma {:induction false} FinishedStays(s: State, es: seq<Event>, t: ThreadId)
    requires IsRun(s, es) && At(s, t) && s.threads[t] == Finished
    ensures At(After(s, es), t) && After(s, es).threads[t] == Finished
    decreases |es|
  {
    if es != [] {
      FinishedStays(Next(s, es[0]), es[1..], t);
    }
  }

  // ----- first committer wins

  /** No file is stamped in the future. */
  ghost predicate StampsPast(s: State) {
    forall f :: f in s.files ==> s.files[f].modifiedAt <= s.clock
  }

  lemma {:induction false} NextStampsPast(s: State, e: Event)
    requires StampsPast(s) && Enabled(s, e)
    ensures StampsPast(Next(s, e))
  {
  }

  /** The session has not passed its version check, and its file carries, or will be reloaded with, a later stamp. */
  predicate Outdated(s: State, t: ThreadId) {
    && At(s, t) && (s.threads[t].Editing? || s.threads[t].VersionRead?)
    && FileOf(s, s.threads[t].session.file).modifiedAt > s.threads[t].session.granted
  }

  predicate Doomed(s: State, t: ThreadId) {
    Outdated(s, t) || (At(s, t) && (s.threads[t].Leaving? || s.threads[t].Finished?))
  }

  /** The stamp a file has, or would be loaded with, never goes back. */
  lemma {:induction false} StampsRise(s: State, e: Event, file: string)
    requires StampsPast(s) && Enabled(s, e)
    ensures FileOf(Next(s, e), file).modifiedAt >= FileOf(s, file).modifiedAt
  {
  }

  lemma {:induction false} DoomedStep(s: State, e: Event, t: ThreadId)
    requires Inv(s) && StampsPast(s) && Enabled(s, e) && Doomed(s, t)
    ensures Doomed(Next(s, e), t) && e != Commit(t)
  {
    if Outdated(s, t) {
      OutdatedStep(s, e, t);
    }
  }

  lemma {:induction false} OutdatedStep(s: State, e: Event, t: ThreadId)
    requires Inv(s) && StampsPast(s) && Enabled(s, e) && Outdated(s, t)
    ensures Doomed(Next(s, e), t) && e != Commit(t)
  {
    StampsRise(s, e, s.threads[t].session.file);
    if e == AskCommit(t) || e == CheckVersion(t) {
      OwnVersion(s.locks, s.threads, t);
    } else {
      StillEditing(s, e, t);
    }
  }

  /** Only its own version check takes a session out of the loop to its write. */
  lemma {:induction false} StillEditing(s: State, e: Event, t: ThreadId)
    requires Enabled(s, e) && At(s, t) && (s.threads[t].Editing? || s.threads[t].VersionRead?)
    requires e != AskCommit(t) && e != CheckVersion(t)
    ensures var pc, pc' := s.threads[t], Next(s, e).threads[t];
            e != Commit(t) && (pc' == Leaving(pc.session)
            || (pc'.session.file == pc.session.file && pc'.session.granted == pc.session.granted
                && (pc'.Editing? || pc'.VersionRead?)))
  {
  }

  /** First committer wins: once the file carries a stamp later than the version a session recorded, and the session
      has not yet passed its check, that session never writes, whatever happens next. */
  lemma {:induction false} FirstCommitterWins(s: State, es: seq<Event>, t: ThreadId)
    requires Inv(s) && StampsPast(s) && IsRun(s, es) && Doomed(s, t)
    ensures forall k :: 0 <= k < |es| ==> es[k] != Commit(t)
    decreases |es|
  {
    if es != [] {
      DoomedStep(s, es[0], t);
      NextInv(s, es[0]);
      NextStampsPast(s, es[0]);
      FirstCommitterWins(Next(s, es[0]), es[1..], t);
      assert forall k :: 0 < k < |es| ==> es[k] == es[1..][k - 1];
    }
  }
}
