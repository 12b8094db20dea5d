/** Who may read and write a file: the access list and the requests of users who may not yet. */
module Access {
  import opened Text
  import opened FileIndex
  import opened RequestFile

  // ----- the access list

  function Find(acl: seq<AclEntry>, user: string): Option<AclEntry> {
    if acl == [] then None
    else if acl[0].username == user then Some(acl[0])
    else Find(acl[1..], user)
  }

  /** Overwrite the user's entry, or append one. */
  function Granted(acl: seq<AclEntry>, user: string, read: bool, write: bool): seq<AclEntry> {
    if acl == [] then [AclEntry(user, read, write)]
    else if acl[0].username == user then [AclEntry(user, read, write)] + acl[1..]
    else [acl[0]] + Granted(acl[1..], user, read, write)
  }

  function Revoked(acl: seq<AclEntry>, user: string): seq<AclEntry> {
    if acl == [] then []
    else if acl[0].username == user then acl[1..]
    else [acl[0]] + Revoked(acl[1..], user)
  }

  predicate Allows(e: Option<AclEntry>, write: bool) {
    e.Some? && (if write then e.value.canWrite else e.value.canRead || e.value.canWrite)
  }

  predicate CheckAccess(owner: string, acl: seq<AclEntry>, user: string, write: bool) {
    user == owner || Allows(Find(acl, user), write)
  }

  method FindEntry(acl: seq<AclEntry>, user: string) returns (e: Option<AclEntry>)
    ensures e == Find(acl, user)
  {
    assert acl[0..] == acl;
    for i := 0 to |acl|
      invariant Find(acl, user) == Find(acl[i..], user)
    {
      if acl[i].username == user {
        return Some(acl[i]);
      }
      assert acl[i..][1..] == acl[i + 1..];
    }
    return None;
  }

  method AddEntry(acl: seq<AclEntry>, user: string, read: bool, write: bool) returns (r: seq<AclEntry>)
    ensures r == Granted(acl, user, read, write)
  {
    assert acl[0..] == acl;
    for i := 0 to |acl|
      invariant acl[..i] + Granted(acl[i..], user, read, write) == Granted(acl, user, read, write)
    {
      GrantedFrom(acl, i, user, read, write);
      if acl[i].username == user {
        return acl[i := AclEntry(user, read, write)];
      }
    }
    return acl + [AclEntry(user, read, write)];
  }

  lemma {:induction false} GrantedFrom(acl: seq<AclEntry>, i: nat, user: string, read: bool, write: bool)
    requires i < |acl|
    ensures acl[..i] + Granted(acl[i..], user, read, write)
         == if acl[i].username == user then acl[i := AclEntry(user, read, write)]
            else acl[..i + 1] + Granted(acl[i + 1..], user, read, write)
  {
    assert acl[i..][0] == acl[i] && acl[i..][1..] == acl[i + 1..];
    if acl[i].username == user {
      assert acl[i := AclEntry(user, read, write)] == acl[..i] + ([AclEntry(user, read, write)] + acl[i + 1..]);
    } else {
      assert acl[..i + 1] == acl[..i] + [acl[i]];
    }
  }

  method RemoveEntry(acl: seq<AclEntry>, user: string) returns (r: seq<AclEntry>)
    ensures r == Revoked(acl, user)
  {
    assert acl[0..] == acl;
    for i := 0 to |acl|
      invariant acl[..i] + Revoked(acl[i..], user) == Revoked(acl, user)
    {
      assert acl[i..][1..] == acl[i + 1..];
      if acl[i].username == user {
        return acl[..i] + acl[i + 1..];
      }
    }
    return acl;
  }

  /** No user twice. */
  predicate DistinctUsers(acl: seq<AclEntry>) {
    acl == [] || (Find(acl[1..], acl[0].username).None? && DistinctUsers(acl[1..]))
  }

  lemma {:induction false} FindGranted(acl: seq<AclEntry>, user: string, read: bool, write: bool, u: string)
    ensures Find(Granted(acl, user, read, write), u)
         == if u == user then Some(AclEntry(user, read, write)) else Find(acl, u)
    decreases |acl|
  {
    if acl != [] && acl[0].username != user {
      FindGranted(acl[1..], user, read, write, u);
    }
  }

  lemma {:induction false} GrantedDistinct(acl: seq<AclEntry>, user: string, read: bool, write: bool)
    requires DistinctUsers(acl)
    ensures DistinctUsers(Granted(acl, user, read, write))
    decreases |acl|
  {
    if acl != [] && acl[0].username != user {
      GrantedDistinct(acl[1..], user, read, write);
      FindGranted(acl[1..], user, read, write, acl[0].username);
      assert Granted(acl, user, read, write)[1..] == Granted(acl[1..], user, read, write);
    }
  }

  lemma {:induction false} FindRevoked(acl: seq<AclEntry>, user: string, u: string)
    requires DistinctUsers(acl)
    ensures Find(Revoked(acl, user), u) == if u == user then None else Find(acl, u)
    ensures DistinctUsers(Revoked(acl, user))
    decreases |acl|
  {
    if acl != [] && acl[0].username != user {
      FindRevoked(acl[1..], user, u);
      FindRevoked(acl[1..], user, acl[0].username);
      assert Revoked(acl, user)[1..] == Revoked(acl[1..], user);
    }
  }

  // ----- pending requests

  /** Index of the user's request, or the length. */
  function RequestOf(rs: seq<Request>, user: string): (k: nat)
    ensures k <= |rs| && (k < |rs| ==> rs[k].user == user)
    ensures forall i :: 0 <= i < k ==> rs[i].user != user
  {
    if rs == [] || rs[0].user == user then 0 else 1 + RequestOf(rs[1..], user)
  }

  predicate OneRequestEach(rs: seq<Request>) {
    forall i, j :: 0 <= i < j < |rs| ==> rs[i].user != rs[j].user
  }

  /** The mode the user has asked for, if a request is pending. */
  function Pending(rs: seq<Request>, user: string): Option<bool> {
    var k := RequestOf(rs, user);
    if k < |rs| then Some(rs[k].write) else None
  }

  /** A new request replaces the user's old one. */
  function Asked(rs: seq<Request>, r: Request): seq<Request> {
    var k := RequestOf(rs, r.user);
    if k < |rs| then rs[k := r] else rs + [r]
  }

  /** Index of the first request with this user and mode. */
  function MatchOf(rs: seq<Request>, user: string, write: bool): (k: nat)
    ensures k <= |rs| && (k < |rs| ==> rs[k].user == user && rs[k].write == write)
    ensures forall i :: 0 <= i < k ==> !(rs[i].user == user && rs[i].write == write)
  {
    if rs == [] || (rs[0].user == user && rs[0].write == write) then 0 else 1 + MatchOf(rs[1..], user, write)
  }

  function Removed(rs: seq<Request>, k: nat): seq<Request>
    requires k < |rs|
  {
    rs[..k] + rs[k + 1..]
  }

  lemma {:induction false} RequestIs(rs: seq<Request>, user: string, k: nat)
    requires OneRequestEach(rs) && k < |rs| && rs[k].user == user
    ensures RequestOf(rs, user) == k
  {
    var m := RequestOf(rs, user);
    assert m <= k;
  }

  lemma {:induction false} NoRequest(rs: seq<Request>, user: string)
    requires forall i :: 0 <= i < |rs| ==> rs[i].user != user
    ensures RequestOf(rs, user) == |rs|
  {
  }

  /** With one request per user, a match is found exactly when the pending mode is the one asked about. */
  lemma {:induction false} MatchIsPending(rs: seq<Request>, user: string, write: bool)
    requires OneRequestEach(rs)
    ensures MatchOf(rs, user, write) < |rs| <==> Pending(rs, user) == Some(write)
    ensures MatchOf(rs, user, write) < |rs| ==> MatchOf(rs, user, write) == RequestOf(rs, user)
  {
    var k := MatchOf(rs, user, write);
    if k < |rs| {
      RequestIs(rs, user, k);
    }
  }

  lemma {:induction false} AskedPending(rs: seq<Request>, r: Request, u: string)
    requires OneRequestEach(rs)
    ensures OneRequestEach(Asked(rs, r))
    ensures Pending(Asked(rs, r), u) == if u == r.user then Some(r.write) else Pending(rs, u)
  {
    var k, after := RequestOf(rs, r.user), Asked(rs, r);
    assert OneRequestEach(after);
    RequestIs(after, r.user, k);
    var m := RequestOf(rs, u);
    if u != r.user {
      if m < |rs| {
        RequestIs(after, u, m);
      } else {
        NoRequest(after, u);
      }
    }
  }

  lemma {:induction false} RemovedPending(rs: seq<Request>, k: nat, u: string)
    requires OneRequestEach(rs) && k < |rs|
    ensures OneRequestEach(Removed(rs, k))
    ensures Pending(Removed(rs, k), u) == if u == rs[k].user then None else Pending(rs, u)
  {
    var after := Removed(rs, k);
    assert OneRequestEach(after);
    var m := RequestOf(rs, u);
    if u == rs[k].user || m == |rs| {
      NoRequest(after, u);
    } else {
      RequestIs(after, u, if m < k then m else m - 1);
    }
  }

  // ----- the five commands

  /** The requests are the text of the file's request file, empty if there is none. */
  datatype FileAccess = FileAccess(owner: string, acl: seq<AclEntry>, requests: string)

  /** sender is the user who sent the command. */
  datatype Command =
    | AddAccess(sender: string, target: string, registered: bool, write: bool)
    | RemAccess(sender: string, target: string)
    | RequestAccess(sender: string, write: bool, now: Time)
    | ApproveRequest(sender: string, target: string, write: bool)
    | DenyRequest(sender: string, target: string, write: bool)

  datatype Status = Accepted | NotOwner | Unregistered | AlreadyAllowed | NoSuchRequest

  function Step(s: FileAccess, c: Command): (FileAccess, Status) {
    match c
    case AddAccess(sender, target, registered, write) =>
      if sender != s.owner then (s, NotOwner)
      else if !registered then (s, Unregistered)
      else (s.(acl := Granted(s.acl, target, true, write)), Accepted)
    case RemAccess(sender, target) =>
      if sender != s.owner then (s, NotOwner)
      else (s.(acl := Revoked(s.acl, target)), Accepted)
    case RequestAccess(sender, write, now) =>
      if sender == s.owner || CheckAccess(s.owner, s.acl, sender, write) then (s, AlreadyAllowed)
      else (s.(requests := Save(Asked(Load(s.requests), Request(sender, write, now)))), Accepted)
    case ApproveRequest(sender, target, write) =>
      var rs := Load(s.requests);
      var k := MatchOf(rs, target, write);
      if sender != s.owner then (s, NotOwner)
      else if k == |rs| then (s, NoSuchRequest)
      else (s.(acl := Granted(s.acl, target, true, write), requests := Save(Removed(rs, k))), Accepted)
    case DenyRequest(sender, target, write) =>
      var rs := Load(s.requests);
      var k := MatchOf(rs, target, write);
      if sender != s.owner then (s, NotOwner)
      else if k == |rs| then (s, NoSuchRequest)
      else (s.(requests := Save(Removed(rs, k))), Accepted)
  }

  // ----- the handlers

  /** The first request of this user, or the length. */
  method FindRequestByUser(rs: seq<Request>, user: string) returns (k: nat)
    ensures k == RequestOf(rs, user)
  {
    k := 0;
    while k < |rs| && rs[k].user != user
      invariant k <= |rs| && forall i :: 0 <= i < k ==> rs[i].user != user
    {
      k := k + 1;
    }
  }

  method FindRequestIndex(rs: seq<Request>, user: string, write: bool) returns (k: nat)
    ensures k == MatchOf(rs, user, write)
  {
    k := 0;
    while k < |rs| && !(rs[k].user == user && rs[k].write == write)
      invariant k <= |rs| && forall i :: 0 <= i < k ==> !(rs[i].user == user && rs[i].write == write)
    {
      k := k + 1;
    }
  }

  /** One file's owner, access list and request file. */
  class AccessControl {
    const owner: string
    var acl: seq<AclEntry>
    var requests: string

    function Abstract(): FileAccess
      reads this
    {
      FileAccess(owner, acl, requests)
    }

    constructor (owner: string)
      ensures Abstract() == FileAccess(owner, [], "")
    {
      this.owner := owner;
      acl, requests := [], "";
    }

    method HasAccess(user: string, write: bool) returns (ok: bool)
      ensures ok == CheckAccess(owner, acl, user, write)
    {
      if user == owner {
        return true;
      }
      var e := FindEntry(acl, user);
      return e.Some? && (if write then e.value.canWrite else e.value.canRead || e.value.canWrite);
    }

    method GrantAccess(sender: string, target: string, registered: bool, write: bool) returns (status: Status)
      modifies this
      ensures (Abstract(), status) == Step(old(Abstract()), AddAccess(sender, target, registered, write))
    {
      if sender != owner {
        return NotOwner;
      }
      if !registered {
        return Unregistered;
      }
      acl := AddEntry(acl, target, true, write);
      return Accepted;
    }

    method RevokeAccess(sender: string, target: string) returns (status: Status)
      modifies this
      ensures (Abstract(), status) == Step(old(Abstract()), RemAccess(sender, target))
    {
      if sender != owner {
        return NotOwner;
      }
      acl := RemoveEntry(acl, target);
      return Accepted;
    }

    method AskForAccess(sender: string, write: bool, now: Time) returns (status: Status)
      modifies this
      ensures (Abstract(), status) == Step(old(Abstract()), RequestAccess(sender, write, now))
    {
      if sender == owner {
        return AlreadyAllowed;
      }
      var allowed := HasAccess(sender, write);
      if allowed {
        return AlreadyAllowed;
      }
      var rs := LoadRequests(requests);
      var k := FindRequestByUser(rs, sender);
      var r := Request(sender, write, now);
      requests := SaveRequests(if k == |rs| then rs + [r] else rs[k := r]);
      return Accepted;
    }

    method Approve(sender: string, target: string, write: bool) returns (status: Status)
      modifies this
      ensures (Abstract(), status) == Step(old(Abstract()), ApproveRequest(sender, target, write))
    {
      if sender != owner {
        return NotOwner;
      }
      var rs := LoadRequests(requests);
      var k := FindRequestIndex(rs, target, write);
      if k == |rs| {
        return NoSuchRequest;
      }
      acl := AddEntry(acl, target, true, write);
      requests := SaveRequests(Removed(rs, k));
      return Accepted;
    }

    method Deny(sender: string, target: string, write: bool) returns (status: Status)
      modifies this
      ensures (Abstract(), status) == Step(old(Abstract()), DenyRequest(sender, target, write))
    {
      if sender != owner {
        return NotOwner;
      }
      var rs := LoadRequests(requests);
      var k := FindRequestIndex(rs, target, write);
      if k == |rs| {
        return NoSuchRequest;
      }
      requests := SaveRequests(Removed(rs, k));
      return Accepted;
    }
  }

  // ----- runs

  function Run(s: FileAccess, cs: seq<Command>): FileAccess
    decreases |cs|
  {
    if cs == [] then s else Run(Step(s, cs[0]).0, cs[1..])
  }

  // ----- which commands are heeded

  predicate HasRequest(s: FileAccess, user: string, write: bool) {
    exists r :: r in Load(s.requests) && r.user == user && r.write == write
  }

  /** The owner decides, about registered users and open requests; everyone asks for what they do not have. */
  predicate Heeded(s: FileAccess, c: Command) {
    match c
    case AddAccess(sender, _, registered, _) => sender == s.owner && registered
    case RemAccess(sender, _) => sender == s.owner
    case RequestAccess(sender, write, _) => sender != s.owner && !CheckAccess(s.owner, s.acl, sender, write)
    case ApproveRequest(sender, target, write) => sender == s.owner && HasRequest(s, target, write)
    case DenyRequest(sender, target, write) => sender == s.owner && HasRequest(s, target, write)
  }

  /** Exactly the heeded commands are accepted, a refused one changes nothing, and a refusal names its reason. */
  lemma {:induction false} AnswersExactly(s: FileAccess, c: Command)
    ensures Step(s, c).1 == Accepted <==> Heeded(s, c)
    ensures !Heeded(s, c) ==> Step(s, c).0 == s
    ensures Step(s, c).1 == AlreadyAllowed <==> c.RequestAccess? && CheckAccess(s.owner, s.acl, c.sender, c.write)
    ensures Step(s, c).1 == NotOwner <==> !c.RequestAccess? && c.sender != s.owner
    ensures Step(s, c).1 == Unregistered <==> c.AddAccess? && c.sender == s.owner && !c.registered
    ensures Step(s, c).1 == NoSuchRequest
       <==> (c.ApproveRequest? || c.DenyRequest?) && c.sender == s.owner && !HasRequest(s, c.target, c.write)
  {
  }

  // ----- what the history says

  /** The rights an owner's decision gives. */
  datatype Decision = Nothing | ReadOnly | ReadWrite

  predicate Permits(r: Decision, write: bool) {
    r.ReadWrite? || (r.ReadOnly? && !write)
  }

  /** The last accepted grant, approval or removal for this user. */
  function LastDecision(s: FileAccess, cs: seq<Command>, user: string, sofar: Decision): Decision
    decreases |cs|
  {
    if cs == [] then sofar
    else
      var c := cs[0];
      var accepted := Heeded(s, c);
      var r := if accepted && (c.AddAccess? || c.ApproveRequest?) && c.target == user
               then (if c.write then ReadWrite else ReadOnly)
               else if accepted && c.RemAccess? && c.target == user then Nothing
               else sofar;
      LastDecision(Step(s, c).0, cs[1..], user, r)
  }

  /** The user's last accepted request, unless it was approved or denied since. */
  function OpenRequest(s: FileAccess, cs: seq<Command>, user: string, sofar: Option<bool>): Option<bool>
    decreases |cs|
  {
    if cs == [] then sofar
    else
      var c := cs[0];
      var accepted := Heeded(s, c);
      var r := if accepted && c.RequestAccess? && c.sender == user then Some(c.write)
               else if accepted && (c.ApproveRequest? || c.DenyRequest?) && c.target == user then None
               else sofar;
      OpenRequest(Step(s, c).0, cs[1..], user, r)
  }

  function RightsOf(e: Option<AclEntry>): Decision {
    if Allows(e, true) then ReadWrite else if Allows(e, false) then ReadOnly else Nothing
  }

  lemma {:induction false} StepDistinct(s: FileAccess, c: Command)
    requires DistinctUsers(s.acl)
    ensures DistinctUsers(Step(s, c).0.acl) && Step(s, c).0.owner == s.owner
  {
    if c.AddAccess? || c.ApproveRequest? {
      GrantedDistinct(s.acl, c.target, true, c.write);
    } else if c.RemAccess? {
      FindRevoked(s.acl, c.target, c.target);
    }
  }

  /** The owner always has access; for everyone else it is decided by the owner's last decision, over every run. */
  lemma {:induction false} LastDecisionRules(s: FileAccess, cs: seq<Command>, user: string, write: bool)
    requires DistinctUsers(s.acl)
    ensures var z := Run(s, cs);
            && z.owner == s.owner && DistinctUsers(z.acl)
            && CheckAccess(z.owner, z.acl, user, write)
               == (user == s.owner || Permits(LastDecision(s, cs, user, RightsOf(Find(s.acl, user))), write))
    decreases |cs|
  {
    if cs != [] {
      var c := cs[0];
      StepDistinct(s, c);
      AnswersExactly(s, c);
      if c.AddAccess? || c.ApproveRequest? {
        FindGranted(s.acl, c.target, true, c.write, user);
      } else if c.RemAccess? {
        FindRevoked(s.acl, c.target, user);
      }
      LastDecisionRules(Step(s, c).0, cs[1..], user, write);
    }
  }

  // ----- requests through their file

  /** Every accepted request of the run comes from a user whose name the file can carry. */
  predicate KeepableAsks(s: FileAccess, cs: seq<Command>)
    decreases |cs|
  {
    cs == [] ||
    ((cs[0].RequestAccess? && Heeded(s, cs[0]) ==> Keepable(cs[0].sender))
     && KeepableAsks(Step(s, cs[0]).0, cs[1..]))
  }

  /** What a command does to the requests as they are loaded next time, with no user loaded twice. */
  lemma {:induction false} StepPending(s: FileAccess, c: Command, user: string)
    requires OneRequestEach(Load(s.requests))
    requires c.RequestAccess? && Step(s, c).1.Accepted? ==> Keepable(c.sender)
    ensures OneRequestEach(Load(Step(s, c).0.requests))
    ensures var accepted := Step(s, c).1.Accepted?;
            Pending(Load(Step(s, c).0.requests), user)
            == if accepted && c.RequestAccess? && c.sender == user then Some(c.write)
               else if accepted && (c.ApproveRequest? || c.DenyRequest?) && c.target == user then None
               else Pending(Load(s.requests), user)
  {
    var rs, after := StepRequests(s, c);
    if c.RequestAccess? {
      AskedPending(rs, Request(c.sender, c.write, c.now), user);
    } else if c.ApproveRequest? || c.DenyRequest? {
      var k := MatchOf(rs, c.target, c.write);
      if k < |rs| {
        RemovedPending(rs, k, user);
      }
    }
  }

  lemma {:induction false} StepRequests(s: FileAccess, c: Command) returns (rs: seq<Request>, after: seq<Request>)
    requires c.RequestAccess? && Step(s, c).1.Accepted? ==> Keepable(c.sender)
    ensures rs == Load(s.requests) && after == Load(Step(s, c).0.requests)
    ensures after == if !Step(s, c).1.Accepted? || c.AddAccess? || c.RemAccess? then rs
                     else if c.RequestAccess? then Asked(rs, Request(c.sender, c.write, c.now))
                     else Removed(rs, MatchOf(rs, c.target, c.write))
  {
    rs, after := Load(s.requests), Load(Step(s, c).0.requests);
    LoadedKeepable(s.requests);
    if Step(s, c).1.Accepted? {
      if c.RequestAccess? {
        RoundTrip(Asked(rs, Request(c.sender, c.write, c.now)));
      } else if c.ApproveRequest? || c.DenyRequest? {
        RemovedReloads(rs, MatchOf(rs, c.target, c.write));
      }
    }
  }

  lemma {:induction false} RemovedReloads(rs: seq<Request>, k: nat)
    requires AllKeepable(rs) && k < |rs|
    ensures Load(Save(Removed(rs, k))) == Removed(rs, k)
  {
    assert forall r :: r in Removed(rs, k) ==> r in rs;
    RoundTrip(Removed(rs, k));
  }

  /** What is pending for a user is exactly the last request not yet answered, and no user has two. */
  lemma {:induction false} PendingIsOpen(s: FileAccess, cs: seq<Command>, user: string)
    requires OneRequestEach(Load(s.requests)) && KeepableAsks(s, cs)
    ensures OneRequestEach(Load(Run(s, cs).requests))
    ensures Pending(Load(Run(s, cs).requests), user) == OpenRequest(s, cs, user, Pending(Load(s.requests), user))
    decreases |cs|
  {
    if cs != [] {
      StepPending(s, cs[0], user);
      PendingIsOpen(Step(s, cs[0]).0, cs[1..], user);
    }
  }

  /** The request of an unkeepable name stays unanswered for ever: no approval or denial can find it. */
  lemma {:induction false} NeverAnswered(s: FileAccess, cs: seq<Command>, user: string, open: Option<bool>)
    requires !Keepable(user) && open.Some?
    ensures OpenRequest(s, cs, user, open).Some?
    decreases |cs|
  {
    if cs != [] {
      var c := cs[0];
      NoneUnkeepable(s, user);
      NeverAnswered(Step(s, c).0, cs[1..], user,
                    if c.RequestAccess? && Heeded(s, c) && c.sender == user then Some(c.write) else open);
    }
  }

  lemma {:induction false} NoneUnkeepable(s: FileAccess, user: string)
    requires !Keepable(user)
    ensures !HasRequest(s, user, false) && !HasRequest(s, user, true)
  {
    LoadedKeepable(s.requests);
  }

  lemma {:induction false} LostRequest(s: FileAccess, cs: seq<Command>) returns (user: string)
    requires !KeepableAsks(s, cs)
    ensures !Keepable(user) && forall open :: OpenRequest(s, cs, user, open).Some?
    decreases |cs|
  {
    var c, s' := cs[0], Step(s, cs[0]).0;
    if c.RequestAccess? && Heeded(s, c) && !Keepable(c.sender) {
      user := c.sender;
      NeverAnswered(s', cs[1..], user, Some(c.write));
    } else {
      user := LostRequest(s', cs[1..]);
    }
  }

  /** Over a run, the loaded requests are the open ones, for every user, if and only if every accepted request came
      from a keepable name. */
  lemma {:induction false} PendingExactly(s: FileAccess, cs: seq<Command>)
    requires OneRequestEach(Load(s.requests))
    ensures (forall user :: Pending(Load(Run(s, cs).requests), user)
                            == OpenRequest(s, cs, user, Pending(Load(s.requests), user)))
       <==> KeepableAsks(s, cs)
  {
    if KeepableAsks(s, cs) {
      forall user ensures Pending(Load(Run(s, cs).requests), user)
                       == OpenRequest(s, cs, user, Pending(Load(s.requests), user))
      {
        PendingIsOpen(s, cs, user);
      }
    } else {
      var user := LostRequest(s, cs);
      LoadedKeepable(Run(s, cs).requests);
      assert OpenRequest(s, cs, user, Pending(Load(s.requests), user)).Some?;
    }
  }

  /** An approval goes through exactly when the owner gives it and the user's last unanswered request asked for that
      very mode; it uses the request up. */
  lemma {:induction false} ApprovalNeedsRequest(s: FileAccess, cs: seq<Command>, sender: string, user: string,
                                                write: bool)
    requires OneRequestEach(Load(s.requests)) && KeepableAsks(s, cs)
    ensures var z := Run(s, cs);
            var c := ApproveRequest(sender, user, write);
            && (Step(z, c).1.Accepted? <==>
                  sender == z.owner && OpenRequest(s, cs, user, Pending(Load(s.requests), user)) == Some(write))
            && (Step(z, c).1.Accepted? ==> Pending(Load(Step(z, c).0.requests), user).None?)
  {
    PendingIsOpen(s, cs, user);
    var z := Run(s, cs);
    MatchIsPending(Load(z.requests), user, write);
    StepPending(z, ApproveRequest(sender, user, write), user);
  }

  /** A read request of a name such as "bob|write|5" lets the owner approve write access for bob, who never asked;
      asking again leaves bob with two requests. */
  lemma {:induction false} ForgedApproval(s: FileAccess, ask: Command, victim: string, t: Time) returns (z: FileAccess)
    requires Keepable(victim) && ask.RequestAccess? && ask.sender == Forging(victim, t) && |ask.sender| <= NAME_LENGTH
    requires !CheckAccess(s.owner, s.acl, ask.sender, ask.write) && Load(s.requests) == []
    ensures z == Run(s, [ask]) && OpenRequest(s, [ask], victim, None) == None
    ensures Step(z, ApproveRequest(s.owner, victim, true)).1.Accepted?
    ensures !OneRequestEach(Load(Step(z, ask).0.requests))
  {
    var forged, r := Request(victim, true, t), Request(ask.sender, ask.write, ask.now);
    z := ForgedAsk(s, ask, victim, t);
    OneCommand(s, ask);
    var twice := ForgedAgain(victim, t, r);
    assert twice[0].user == twice[1].user;
    assert MatchOf([forged], victim, true) == 0;
  }

  lemma {:induction false} OneCommand(s: FileAccess, c: Command)
    ensures Run(s, [c]) == Step(s, c).0
    ensures c.RequestAccess? ==> forall user :: user != c.sender ==> OpenRequest(s, [c], user, None) == None
  {
    assert [c][1..] == [];
  }

  lemma {:induction false} ForgedAsk(s: FileAccess, ask: Command, victim: string, t: Time) returns (z: FileAccess)
    requires Keepable(victim) && ask.RequestAccess? && ask.sender == Forging(victim, t) && |ask.sender| <= NAME_LENGTH
    requires !CheckAccess(s.owner, s.acl, ask.sender, ask.write) && Load(s.requests) == []
    ensures Step(s, ask) == (z, Accepted) && z.owner == s.owner && z.acl == s.acl && ask.sender != victim
    ensures Load(z.requests) == [Request(victim, true, t)]
  {
    var r := Request(ask.sender, ask.write, ask.now);
    z := Step(s, ask).0;
    assert ask.sender[|victim|] == BAR;
    assert Asked([], r) == [r];
    SaveOne(r);
    ForgedLine(victim, t, r, "");
  }

  lemma {:induction false} SaveOne(r: Request)
    ensures Save([r]) == Fields(r) + "\n" + "" && Load("") == []
  {
    assert [r][1..] == [];
  }

  lemma {:induction false} ForgedAgain(victim: string, t: Time, r: Request) returns (twice: seq<Request>)
    requires Keepable(victim) && r.user == Forging(victim, t) && |r.user| <= NAME_LENGTH
    ensures var forged := Request(victim, true, t);
            twice == [forged, forged] && Load(Save(Asked([forged], r))) == twice
  {
    var forged := Request(victim, true, t);
    assert r.user != victim by {
      assert r.user[|victim|] == BAR;
    }
    assert Asked([forged], r) == [forged, r];
    assert [forged, r][1..] == [r];
    SaveOne(r);
    LoadOwn(forged, Save([r]));
    ForgedLine(victim, t, r, "");
    twice := [forged, forged];
  }
}
