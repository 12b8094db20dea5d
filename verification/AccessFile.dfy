/** The access list on disk and its loader. */
module AccessFile {
  // One "user:rights" line each, owner first; the loader reads it at start-up.

  import opened Text
  import opened Lines
  import opened FileIndex
  import opened Access

  // ----- writing

  function RightsText(e: AclEntry): string {
    if e.canRead && e.canWrite then "RW" else if e.canWrite then "W" else "R"
  }

  /** Entries without any right are left out. */
  function EntryLines(acl: seq<AclEntry>): string {
    if acl == [] then ""
    else (if acl[0].canRead || acl[0].canWrite then acl[0].username + ":" + RightsText(acl[0]) + "\n" else "")
         + EntryLines(acl[1..])
  }

  function FileText(owner: string, acl: seq<AclEntry>): string {
    owner + ":" + "RW" + "\n" + EntryLines(acl)
  }

  method PersistAcl(owner: string, acl: seq<AclEntry>) returns (text: string)
    ensures text == FileText(owner, acl)
  {
    text := owner + ":" + "RW" + "\n";
    assert acl[0..] == acl;
    for i := 0 to |acl|
      invariant text + EntryLines(acl[i..]) == FileText(owner, acl)
    {
      assert acl[i..][1..] == acl[i + 1..];
      var e := acl[i];
      if !e.canRead && !e.canWrite {
        continue;
      }
      if e.canRead && e.canWrite {
        text := text + (e.username + ":" + "RW" + "\n");
      } else if e.canWrite {
        text := text + (e.username + ":" + "W" + "\n");
      } else {
        text := text + (e.username + ":" + "R" + "\n");
      }
    }
  }

  // ----- reading

  const NAME_LENGTH := 127
  const RIGHTS_LENGTH := 7

  function InkLength(s: string): (n: nat)
    ensures n <= |s| && forall k :: 0 <= k < n ==> !IsSpace(s[k])
    ensures n < |s| ==> IsSpace(s[n])
  {
    if s == "" || IsSpace(s[0]) then 0 else 1 + InkLength(s[1..])
  }

  /** sscanf(line, "%127[^:]:%7s"): the name before the first colon and the word after it. */
  function ParseLine(line: string): Option<(string, string)> {
    var k := UpTo(line, ':');
    if k == 0 || k > NAME_LENGTH || k == |line| then None
    else
      var rest := line[k + 1..];
      var word := rest[SpaceLength(rest)..];
      var n := InkLength(word);
      if n == 0 then None else Some((line[..k], word[..if n > RIGHTS_LENGTH then RIGHTS_LENGTH else n]))
  }

  function LoadLine(owner: string, line: string, acl: seq<AclEntry>): seq<AclEntry> {
    var p := ParseLine(line);
    if p.None? || p.value.0 == owner then acl
    else Granted(acl, p.value.0, 'R' in p.value.1, 'W' in p.value.1)
  }

  function Load(owner: string, text: string, acl: seq<AclEntry>): seq<AclEntry>
    decreases |text|
  {
    if text == "" then acl
    else Load(owner, text[LineLength(text)..], LoadLine(owner, text[..LineLength(text)], acl))
  }

  method LoadAcl(owner: string, text: string) returns (acl: seq<AclEntry>)
    ensures acl == Load(owner, text, [])
  {
    acl := [];
    var rest := text;
    while rest != ""
      invariant Load(owner, rest, acl) == Load(owner, text, [])
      decreases |rest|
    {
      var n := LineLength(rest);
      var p := ParseLine(rest[..n]);
      if p.Some? && p.value.0 != owner {
        acl := AddEntry(acl, p.value.0, 'R' in p.value.1, 'W' in p.value.1);
      }
      rest := rest[n..];
    }
  }

  // ----- the round trip

  /** Names the format can carry. */
  predicate Storable(name: string) {
    0 < |name| <= NAME_LENGTH && forall k :: 0 <= k < |name| ==> name[k] != ':' && name[k] != '\n'
  }

  predicate HasRight(e: AclEntry) {
    e.canRead || e.canWrite
  }

  /** Every entry that is written has a name the format can carry. */
  predicate RightsStorable(acl: seq<AclEntry>) {
    forall e :: e in acl && HasRight(e) ==> Storable(e.username)
  }

  predicate IsRights(r: string) {
    r == "RW" || r == "W" || r == "R"
  }

  lemma {:induction false} ParseOwnLine(name: string, r: string)
    requires Storable(name) && IsRights(r)
    ensures ParseLine(name + ":" + r + "\n") == Some((name, r))
  {
    var rest := r + "\n";
    assert name + ":" + r + "\n" == name + [':'] + rest;
    FirstField(name, ':', rest);
    WordIs(r, rest);
  }

  lemma {:induction false} WordIs(r: string, rest: string)
    requires IsRights(r) && rest == r + "\n"
    ensures SpaceLength(rest) == 0 && rest[0..] == rest && InkLength(rest) == |r|
    ensures rest[..|r|] == r && |r| < RIGHTS_LENGTH
  {
    InkIs(rest, |r|);
  }

  lemma {:induction false} InkIs(s: string, n: nat)
    requires n <= |s| && (n < |s| ==> IsSpace(s[n])) && forall k :: 0 <= k < n ==> !IsSpace(s[k])
    ensures InkLength(s) == n && (n > 0 ==> SpaceLength(s) == 0)
  {
  }

  /** A stored line is read back and the rest of the file follows. */
  lemma {:induction false} LoadOwnLine(owner: string, name: string, r: string, rest: string, acl: seq<AclEntry>)
    requires Storable(name) && IsRights(r)
    ensures Load(owner, name + ":" + r + "\n" + rest, acl)
         == Load(owner, rest, if name == owner then acl else Granted(acl, name, r != "W", r != "R"))
  {
    LoadFirstLine(owner, name + ":" + r, rest, acl);
    ParseOwnLine(name, r);
    assert ('R' in r <==> r != "W") && ('W' in r <==> r != "R");
  }

  lemma {:induction false} LoadFirstLine(owner: string, line: string, rest: string, acl: seq<AclEntry>)
    requires |line| < LINE_BUFFER - 1 && '\n' !in line
    ensures Load(owner, line + "\n" + rest, acl) == Load(owner, rest, LoadLine(owner, line + "\n", acl))
  {
    FirstLine(line, rest);
  }

  /** What loading finds for a user who is not the owner. */
  lemma {:induction false} LoadedEntry(owner: string, acl: seq<AclEntry>, sofar: seq<AclEntry>, user: string)
    requires RightsStorable(acl) && DistinctUsers(acl) && user != owner
    ensures var e := Find(acl, user);
            Find(Load(owner, EntryLines(acl), sofar), user)
            == if e.Some? && HasRight(e.value) then e else Find(sofar, user)
    decreases |acl|
  {
    if acl != [] {
      var e, rest := acl[0], acl[1..];
      assert e in acl && forall x :: x in rest ==> x in acl;
      if HasRight(e) {
        LoadOwnLine(owner, e.username, RightsText(e), EntryLines(rest), sofar);
        var next := if e.username == owner then sofar else Granted(sofar, e.username, e.canRead, e.canWrite);
        if e.username != owner {
          FindGranted(sofar, e.username, e.canRead, e.canWrite, user);
        }
        LoadedEntry(owner, rest, next, user);
      } else {
        assert EntryLines(acl) == EntryLines(rest);
        LoadedEntry(owner, rest, sofar, user);
      }
    }
  }

  predicate SameAnswer(owner: string, acl: seq<AclEntry>, user: string, write: bool) {
    CheckAccess(owner, Load(owner, FileText(owner, acl), []), user, write) == CheckAccess(owner, acl, user, write)
  }

  /** Saving and loading the access list keeps an answer when the written names are storable. */
  lemma {:induction false} ReloadKeeps(owner: string, acl: seq<AclEntry>, user: string, write: bool)
    requires Storable(owner) && RightsStorable(acl) && DistinctUsers(acl)
    ensures SameAnswer(owner, acl, user, write)
  {
    LoadOwnLine(owner, owner, "RW", EntryLines(acl), []);
    if user != owner {
      LoadedEntry(owner, acl, [], user);
    }
  }

  /** Whatever the file holds, only storable names are loaded. */
  lemma {:induction false} LoadedStorable(owner: string, text: string, acl: seq<AclEntry>, user: string)
    requires !Storable(user)
    ensures Find(Load(owner, text, acl), user) == Find(acl, user)
    decreases |text|
  {
    if text != "" {
      var line := text[..LineLength(text)];
      var p := ParseLine(line);
      if p.Some? && p.value.0 != owner {
        assert forall i :: 0 <= i < |line| - 1 ==> line[i] != '\n';
        FindGranted(acl, p.value.0, 'R' in p.value.1, 'W' in p.value.1, user);
      }
      LoadedStorable(owner, text[LineLength(text)..], LoadLine(owner, line, acl), user);
    }
  }

  lemma {:induction false} FindMember(acl: seq<AclEntry>, e: AclEntry)
    requires DistinctUsers(acl) && e in acl
    ensures Find(acl, e.username) == Some(e)
    decreases |acl|
  {
    if e != acl[0] {
      FindMember(acl[1..], e);
    }
  }

  /** Saving and loading keeps the answers for all users and both modes if and only if every written name is
      storable. */
  lemma {:induction false} ReloadExactly(owner: string, acl: seq<AclEntry>)
    requires Storable(owner) && DistinctUsers(acl)
    ensures (forall user, write :: SameAnswer(owner, acl, user, write)) <==> RightsStorable(acl)
  {
    if RightsStorable(acl) {
      forall user, write ensures SameAnswer(owner, acl, user, write) {
        ReloadKeeps(owner, acl, user, write);
      }
    } else {
      var e :| e in acl && HasRight(e) && !Storable(e.username);
      FindMember(acl, e);
      LoadedStorable(owner, FileText(owner, acl), [], e.username);
      assert !SameAnswer(owner, acl, e.username, e.canWrite);
    }
  }

  /** Decisions outlive a restart: after any run, a save and a load, the owner has access, and when the written names
      are storable everyone else has what the owner last decided. */
  lemma {:induction false} DecisionsSurvive(s: FileAccess, cs: seq<Command>, user: string, write: bool)
    requires DistinctUsers(s.acl)
    ensures var z := Run(s, cs);
            var loaded := Load(z.owner, FileText(z.owner, z.acl), []);
            && (user == s.owner ==> CheckAccess(z.owner, loaded, user, write))
            && (Storable(s.owner) && RightsStorable(z.acl) ==>
                  CheckAccess(z.owner, loaded, user, write)
                  == (user == s.owner || Permits(LastDecision(s, cs, user, RightsOf(Find(s.acl, user))), write)))
  {
    var z := Run(s, cs);
    LastDecisionRules(s, cs, user, write);
    if Storable(s.owner) && RightsStorable(z.acl) {
      ReloadKeeps(z.owner, z.acl, user, write);
    }
  }
}
