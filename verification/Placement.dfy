/** Where CREATE puts a file: a round robin over the storage servers that are alive. */
module Placement {
  import opened Text

  const MAX_ACTIVE := 16
  const HEARTBEAT_LIMIT := 15
  /** One past the largest value of the round-robin counter. */
  const WRAP := 0x1_0000_0000

  datatype ServerInfo = ServerInfo(id: string, lastHeartbeat: int)
  datatype Choice = Choice(primary: string, replica: Option<string>)

  // ----- which servers are alive

  predicate Alive(s: ServerInfo, now: int) {
    now - s.lastHeartbeat <= HEARTBEAT_LIMIT
  }

  function AliveIds(servers: seq<ServerInfo>, now: int): seq<string> {
    if servers == [] then []
    else (if Alive(servers[0], now) then [servers[0].id] else []) + AliveIds(servers[1..], now)
  }

  function FirstSixteen(ids: seq<string>): seq<string> {
    if |ids| > MAX_ACTIVE then ids[..MAX_ACTIVE] else ids
  }

  predicate Distinct(ids: seq<string>) {
    forall i, j :: 0 <= i < j < |ids| ==> ids[i] != ids[j]
  }

  /** The loop on values: active is what has been collected so far. */
  function CollectOnto(active: seq<string>, servers: seq<ServerInfo>, now: int): seq<string>
    decreases |servers|
  {
    if servers == [] || |active| >= MAX_ACTIVE then active
    else CollectOnto(if Alive(servers[0], now) then active + [servers[0].id] else active, servers[1..], now)
  }

  lemma {:induction false} CollectedIs(active: seq<string>, servers: seq<ServerInfo>, now: int)
    requires |active| <= MAX_ACTIVE
    ensures CollectOnto(active, servers, now) == FirstSixteen(active + AliveIds(servers, now))
    decreases |servers|
  {
    var ids := AliveIds(servers, now);
    if servers == [] || |active| == MAX_ACTIVE {
      assert (active + ids)[..|active|] == active;
    } else if Alive(servers[0], now) {
      CollectedIs(active + [servers[0].id], servers[1..], now);
      assert active + ids == active + [servers[0].id] + AliveIds(servers[1..], now);
    } else {
      CollectedIs(active, servers[1..], now);
      assert ids == AliveIds(servers[1..], now);
    }
  }

  // ----- what that means for the servers

  /** active lists the ids of the servers at these positions: live ones, in the order of the server list, and a live
      server is missing only when sixteen earlier ones are listed. */
  ghost predicate ListsLive(servers: seq<ServerInfo>, now: int, active: seq<string>, at: seq<nat>) {
    && |at| == |active| <= 16
    && (forall k :: 0 <= k < |at| ==>
          at[k] < |servers| && active[k] == servers[at[k]].id && now - servers[at[k]].lastHeartbeat <= 15)
    && (forall k, l :: 0 <= k < l < |at| ==> at[k] < at[l])
    && (forall j :: 0 <= j < |servers| && now - servers[j].lastHeartbeat <= 15 && j !in at ==>
          |at| == 16 && forall k :: 0 <= k < |at| ==> at[k] < j)
  }

  /** Where the live servers stand in the list. */
  function LiveAt(servers: seq<ServerInfo>, now: int, from: nat): seq<nat>
    requires from <= |servers|
    decreases |servers| - from
  {
    if from == |servers| then []
    else (if now - servers[from].lastHeartbeat <= 15 then [from] else []) + LiveAt(servers, now, from + 1)
  }

  lemma {:induction false} LiveAtIs(servers: seq<ServerInfo>, now: int, from: nat, at: seq<nat>)
    requires from <= |servers| && at == LiveAt(servers, now, from)
    ensures forall k :: 0 <= k < |at| ==> from <= at[k] < |servers| && now - servers[at[k]].lastHeartbeat <= 15
    ensures forall k, l :: 0 <= k < l < |at| ==> at[k] < at[l]
    ensures forall j :: from <= j < |servers| && now - servers[j].lastHeartbeat <= 15 ==> j in at
    decreases |servers| - from
  {
    if from < |servers| {
      LiveAtIs(servers, now, from + 1, LiveAt(servers, now, from + 1));
    }
  }

  function IdsAt(servers: seq<ServerInfo>, at: seq<nat>): seq<string>
    requires forall k :: 0 <= k < |at| ==> at[k] < |servers|
  {
    seq(|at|, k requires 0 <= k < |at| => servers[at[k]].id)
  }

  lemma {:induction false} AliveAt(servers: seq<ServerInfo>, now: int, from: nat, at: seq<nat>)
    requires from <= |servers| && at == LiveAt(servers, now, from)
    requires forall k :: 0 <= k < |at| ==> at[k] < |servers|
    ensures AliveIds(servers[from..], now) == IdsAt(servers, at)
    decreases |servers| - from
  {
    if from < |servers| {
      var rest := LiveAt(servers, now, from + 1);
      LiveAtIs(servers, now, from + 1, rest);
      AliveAt(servers, now, from + 1, rest);
      AliveFrom(servers, now, from);
      if now - servers[from].lastHeartbeat <= 15 {
        IdsCons(servers, from, rest);
      } else {
        assert at == rest;
      }
    }
  }

  lemma {:induction false} AliveFrom(servers: seq<ServerInfo>, now: int, from: nat)
    requires from < |servers|
    ensures AliveIds(servers[from..], now)
         == (if now - servers[from].lastHeartbeat <= 15 then [servers[from].id] else [])
            + AliveIds(servers[from + 1..], now)
  {
    assert servers[from..][0] == servers[from] && servers[from..][1..] == servers[from + 1..];
  }

  lemma {:induction false} IdsCons(servers: seq<ServerInfo>, p: nat, at: seq<nat>)
    requires p < |servers| && forall k :: 0 <= k < |at| ==> at[k] < |servers|
    ensures IdsAt(servers, [p] + at) == [servers[p].id] + IdsAt(servers, at)
  {
  }

  /** The active list in terms of heartbeats. */
  lemma {:induction false} ActiveIsLive(servers: seq<ServerInfo>, now: int) returns (at: seq<nat>)
    ensures ListsLive(servers, now, FirstSixteen(AliveIds(servers, now)), at)
  {
    var all := LiveAt(servers, now, 0);
    LiveAtIs(servers, now, 0, all);
    AliveAt(servers, now, 0, all);
    assert servers[0..] == servers;
    at := if |all| > 16 then all[..16] else all;
    forall j | 0 <= j < |servers| && now - servers[j].lastHeartbeat <= 15 && j !in at
      ensures |at| == 16 && forall k :: 0 <= k < |at| ==> at[k] < j
    {
      BehindFirst(all, at, j);
    }
  }

  lemma {:induction false} BehindFirst(all: seq<nat>, at: seq<nat>, j: nat)
    requires forall k, l :: 0 <= k < l < |all| ==> all[k] < all[l]
    requires at == (if |all| > 16 then all[..16] else all) && j in all && j !in at
    ensures |at| == 16 && forall k :: 0 <= k < |at| ==> at[k] < j
  {
    var l :| 0 <= l < |all| && all[l] == j;
    assert forall k :: 0 <= k < |at| ==> at[k] == all[k];
  }

  /** Two lists with this property are the same list. */
  lemma {:induction false} ListsLiveOnce(servers: seq<ServerInfo>, now: int, a: seq<string>, at: seq<nat>,
                                         b: seq<string>, bt: seq<nat>)
    requires ListsLive(servers, now, a, at) && ListsLive(servers, now, b, bt)
    ensures a == b
  {
    SamePositions(servers, now, a, at, b, bt, if |at| < |bt| then |at| else |bt|);
    NextIsNew(at, bt);
    NextIsNew(bt, at);
  }

  lemma {:induction false} NextIsNew(at: seq<nat>, bt: seq<nat>)
    requires forall k, l :: 0 <= k < l < |bt| ==> bt[k] < bt[l]
    ensures at < bt ==> bt[|at|] !in at
  {
  }

  lemma {:induction false} SamePositions(servers: seq<ServerInfo>, now: int, a: seq<string>, at: seq<nat>,
                                         b: seq<string>, bt: seq<nat>, n: nat)
    requires ListsLive(servers, now, a, at) && ListsLive(servers, now, b, bt) && n <= |at| && n <= |bt|
    ensures forall k :: 0 <= k < n ==> at[k] == bt[k]
    decreases n
  {
    if n > 0 {
      SamePositions(servers, now, a, at, b, bt, n - 1);
    }
  }

  /** A listed server with this id has sent a heartbeat within fifteen seconds. */
  ghost predicate ListedLive(servers: seq<ServerInfo>, now: int, id: string) {
    exists j :: 0 <= j < |servers| && servers[j].id == id && now - servers[j].lastHeartbeat <= 15
  }

  /** Every last heartbeat is more than fifteen seconds old. */
  ghost predicate NobodyLive(servers: seq<ServerInfo>, now: int) {
    forall j :: 0 <= j < |servers| ==> now - servers[j].lastHeartbeat > 15
  }

  ghost predicate TwoLive(servers: seq<ServerInfo>, now: int) {
    exists i, j :: 0 <= i < j < |servers|
                   && now - servers[i].lastHeartbeat <= 15 && now - servers[j].lastHeartbeat <= 15
  }

  /** What a CREATE may choose: live servers only, somebody if and only if somebody is live, and a second copy if and
      only if two are. */
  ghost predicate ChoosesLive(servers: seq<ServerInfo>, now: int, r: Option<Choice>) {
    && (r.None? <==> NobodyLive(servers, now))
    && (r.Some? ==>
          && ListedLive(servers, now, r.value.primary)
          && (r.value.replica.Some? <==> TwoLive(servers, now))
          && (r.value.replica.Some? ==> ListedLive(servers, now, r.value.replica.value)))
  }

  lemma {:induction false} ActiveSize(servers: seq<ServerInfo>, now: int, active: seq<string>, at: seq<nat>)
    requires ListsLive(servers, now, active, at)
    ensures active == [] <==> NobodyLive(servers, now)
    ensures |active| > 1 <==> TwoLive(servers, now)
    ensures forall k :: 0 <= k < |active| ==> ListedLive(servers, now, active[k])
  {
    if active != [] {
      assert now - servers[at[0]].lastHeartbeat <= 15;
    }
    if |active| > 1 {
      assert at[0] < at[1] < |servers|;
    }
    forall k | 0 <= k < |active| ensures ListedLive(servers, now, active[k]) {
      assert servers[at[k]].id == active[k];
    }
  }

  // ----- the counter

  function Up(c: nat): nat {
    (c + 1) % WRAP
  }

  /** One CREATE: its choice and the counter after it. */
  function Select(active: seq<string>, c: nat): (Choice, nat)
    requires active != []
  {
    var primary := active[c % |active|];
    if |active| > 1 then (Choice(primary, Some(active[Up(c) % |active|])), Up(Up(c)))
    else (Choice(primary, None), Up(c))
  }

  /** The copies placed by m CREATEs in a row. */
  function Copies(active: seq<string>, c: nat, m: nat): seq<string>
    requires active != []
    decreases m
  {
    if m == 0 then []
    else
      var (choice, next) := Select(active, c);
      [choice.primary] + (if choice.replica.Some? then [choice.replica.value] else []) + Copies(active, next, m - 1)
  }

  function Times(ids: seq<string>, id: string): nat
    decreases |ids|
  {
    if ids == [] then 0 else (if ids[0] == id then 1 else 0) + Times(ids[1..], id)
  }

  /** The choice made from the active list. */
  function Chosen(active: seq<string>, c: nat): Option<Choice> {
    if active == [] then None else Some(Select(active, c).0)
  }

  lemma {:induction false} ChosenLive(servers: seq<ServerInfo>, now: int, c: nat)
    ensures ChoosesLive(servers, now, Chosen(FirstSixteen(AliveIds(servers, now)), c))
  {
    var active := FirstSixteen(AliveIds(servers, now));
    var at := ActiveIsLive(servers, now);
    ActiveSize(servers, now, active, at);
  }

  class Placer {
    var nextPrimaryIndex: nat

    ghost predicate Valid()
      reads this
    {
      nextPrimaryIndex < WRAP
    }

    /** Walk the server list until sixteen live servers are found. */
    method CollectActive(servers: seq<ServerInfo>, now: int) returns (active: seq<string>)
      ensures active == FirstSixteen(AliveIds(servers, now))
      ensures exists at :: ListsLive(servers, now, active, at)
    {
      active := [];
      var i := 0;
      assert servers[0..] == servers;
      while i < |servers| && |active| < MAX_ACTIVE
        invariant i <= |servers| && |active| <= MAX_ACTIVE
        invariant CollectOnto(active, servers[i..], now) == CollectOnto([], servers, now)
      {
        assert servers[i..][0] == servers[i] && servers[i..][1..] == servers[i + 1..];
        if Alive(servers[i], now) {
          active := active + [servers[i].id];
        }
        i := i + 1;
      }
      CollectedIs([], servers, now);
      assert [] + AliveIds(servers, now) == AliveIds(servers, now);
      ghost var at := ActiveIsLive(servers, now);
    }

    /** Nothing is chosen, and the counter stays, exactly when no server is alive. */
    method Place(servers: seq<ServerInfo>, now: int) returns (r: Option<Choice>)
      requires Valid()
      modifies this
      ensures Valid()
      ensures var active := FirstSixteen(AliveIds(servers, now));
              && r == Chosen(active, old(nextPrimaryIndex))
              && nextPrimaryIndex == if active == [] then old(nextPrimaryIndex)
                                     else Select(active, old(nextPrimaryIndex)).1
      ensures ChoosesLive(servers, now, r)
    {
      ChosenLive(servers, now, nextPrimaryIndex);
      var active := CollectActive(servers, now);
      if |active| == 0 {
        return None;
      }
      var primary := active[nextPrimaryIndex % |active|];
      nextPrimaryIndex := (nextPrimaryIndex + 1) % WRAP;
      var replica := None;
      if |active| > 1 {
        replica := Some(active[nextPrimaryIndex % |active|]);
        nextPrimaryIndex := (nextPrimaryIndex + 1) % WRAP;
      }
      return Some(Choice(primary, replica));
    }
  }

  // ----- the replica is on another server

  /** The next number's remainder is the next remainder, except at zero. */
  lemma {:induction false} NextRemainder(x: nat, k: nat)
    requires k > 0
    ensures (x + 1) % k == if x % k == k - 1 then 0 else x % k + 1
  {
    var q := x / k;
    assert x == q * k + x % k;
    if x % k == k - 1 {
      assert x + 1 == (q + 1) * k;
      Remainder(q + 1, k, 0);
    } else {
      Remainder(q, k, x % k + 1);
    }
  }

  lemma {:induction false} Remainder(q: nat, k: nat, p: nat)
    requires p < k
    ensures (q * k + p) % k == p && (q * k + p) / k == q
  {
    var x := q * k + p;
    var d := x / k - q;
    assert x % k == p - d * k;
    assert d >= 1 ==> d * k >= k;
    assert d <= -1 ==> d * k + k <= 0;
  }

  /** Primary and replica are the same server only when the counter wraps between them onto the same remainder. */
  lemma {:induction false} DistinctExactly(active: seq<string>, c: nat)
    requires Distinct(active) && |active| >= 2 && c < WRAP
    ensures var choice := Select(active, c).0;
            choice.replica.Some? && (choice.replica.value != choice.primary <==> !(c == WRAP - 1 && c % |active| == 0))
  {
    UpRemainder(c, |active|);
    assert active[c % |active|] == active[Up(c) % |active|] <==> c % |active| == Up(c) % |active|;
  }

  lemma {:induction false} UpRemainder(c: nat, k: nat)
    requires k >= 2 && c < WRAP
    ensures Up(c) % k == c % k <==> c == WRAP - 1 && c % k == 0
  {
    if c == WRAP - 1 {
      Remainder(0, k, 0);
    } else {
      assert Up(c) == c + 1;
      NextRemainder(c, k);
    }
  }

  /** With at most sixteen servers that can happen only to three, five or fifteen of them. */
  lemma {:induction false} DistinctForSixteen(k: nat)
    requires 2 <= k <= MAX_ACTIVE
    ensures (WRAP - 1) % k == 0 <==> k in {3, 5, 15}
  {
  }

  /** The replica goes to the server behind the primary in the list, the next primary to the one behind that, the first
      one coming after the last; only the wrap of the counter jumps. */
  lemma {:induction false} NextInOrder(active: seq<string>, c: nat, i: nat)
    requires |active| >= 2 && i < |active| && c % |active| == i && c + 2 < WRAP
    ensures var n := |active|;
            var (choice, next) := Select(active, c);
            && choice == Choice(active[i], Some(active[if i + 1 == n then 0 else i + 1]))
            && next % n == if i + 1 == n then 1 else if i + 2 == n then 0 else i + 2
  {
    var n := |active|;
    UpIs(c);
    UpIs(c + 1);
    NextRemainder(c, n);
    NextRemainder(c + 1, n);
  }

  // ----- the copies are spread evenly

  /** Round robin, one copy at a time. */
  function Picks(active: seq<string>, c: nat, n: nat): seq<string>
    requires active != []
    decreases n
  {
    if n == 0 then [] else [active[c % |active|]] + Picks(active, Up(c), n - 1)
  }

  lemma {:induction false} CopiesArePicks(active: seq<string>, c: nat, m: nat, n: nat)
    requires |active| >= 2 && n == 2 * m
    ensures Copies(active, c, m) == Picks(active, c, n)
    decreases m
  {
    if m > 0 {
      CopiesArePicks(active, Up(Up(c)), m - 1, n - 1 - 1);
      assert Picks(active, c, n)
          == [active[c % |active|]] + ([active[Up(c) % |active|]] + Picks(active, Up(Up(c)), n - 1 - 1));
    }
  }

  /** How far server s is from the next pick. */
  function Distance(k: nat, c: nat, s: nat): nat
    requires s < k
  {
    if s >= c % k then s - c % k else s + k - c % k
  }

  /** The n copies from counter c on that server s gets: every k-th. */
  function Share(k: nat, c: nat, s: nat, n: nat): nat
    requires s < k
  {
    n / k + (if Distance(k, c, s) < n % k then 1 else 0)
  }

  /** The counter does not wrap on the way, or wraps without a seam. */
  predicate Smooth(k: nat, c: nat, n: nat)
    requires k > 0
  {
    c + n <= WRAP || WRAP % k == 0
  }

  lemma {:induction false} SmoothStep(k: nat, c: nat, s: nat)
    requires s < k && c < WRAP && (c + 1 < WRAP || WRAP % k == 0)
    ensures Distance(k, Up(c), s) == if Distance(k, c, s) == 0 then k - 1 else Distance(k, c, s) - 1
  {
    NextRemainder(c, k);
    if c + 1 == WRAP {
      assert Up(c) % k == 0;
    }
  }

  lemma {:induction false} LessOne(n: nat, k: nat)
    requires k > 0 && n > 0
    ensures n % k > 0 ==> (n - 1) / k == n / k && (n - 1) % k == n % k - 1
    ensures n % k == 0 ==> (n - 1) / k == n / k - 1 && (n - 1) % k == k - 1
  {
    var q, p := n / k, n % k;
    assert n == q * k + p;
    if p > 0 {
      Remainder(q, k, p - 1);
    } else {
      assert q * k > 0 ==> q > 0;
      assert n - 1 == (q - 1) * k + (k - 1);
      Remainder(q - 1, k, k - 1);
    }
  }

  /** Every server's number of copies, exactly. */
  lemma {:induction false} PicksShare(active: seq<string>, c: nat, n: nat, s: nat)
    requires Distinct(active) && s < |active| && c < WRAP && Smooth(|active|, c, n)
    ensures Times(Picks(active, c, n), active[s]) == Share(|active|, c, s, n)
    decreases n
  {
    if n > 0 {
      ShareStep(|active|, c, s, n);
      TimesFirst(active, c, n, s);
      if n > 1 {
        PicksShare(active, Up(c), n - 1, s);
      } else {
        NoShare(|active|, Up(c), s);
      }
    } else {
      NoShare(|active|, c, s);
    }
  }

  lemma {:induction false} TimesFirst(active: seq<string>, c: nat, n: nat, s: nat)
    requires Distinct(active) && s < |active| && n > 0
    ensures Times(Picks(active, c, n), active[s])
         == (if c % |active| == s then 1 else 0) + Times(Picks(active, Up(c), n - 1), active[s])
  {
    assert Picks(active, c, n)[1..] == Picks(active, Up(c), n - 1);
    assert active[c % |active|] == active[s] <==> c % |active| == s;
  }

  lemma {:induction false} NoShare(k: nat, c: nat, s: nat)
    requires s < k
    ensures Share(k, c, s, 0) == 0
  {
    Remainder(0, k, 0);
  }

  lemma {:induction false} ShareStep(k: nat, c: nat, s: nat, n: nat)
    requires s < k && c < WRAP && n > 0 && Smooth(k, c, n)
    ensures Share(k, c, s, n) == (if c % k == s then 1 else 0) + Share(k, Up(c), s, n - 1)
  {
    if n == 1 {
      LastShare(k, c, s);
      NoShare(k, Up(c), s);
    } else {
      LessOne(n, k);
      SmoothStep(k, c, s);
    }
  }

  lemma {:induction false} LastShare(k: nat, c: nat, s: nat)
    requires s < k
    ensures Share(k, c, s, 1) == if c % k == s then 1 else 0
  {
    if k == 1 {
    } else {
      Remainder(0, k, 1);
    }
  }

  ghost predicate Balanced(active: seq<string>, c: nat, m: nat)
    requires active != []
  {
    forall i, j :: 0 <= i < |active| && 0 <= j < |active| ==>
      Times(Copies(active, c, m), active[i]) <= Times(Copies(active, c, m), active[j]) + 1
  }

  /** After any number of CREATEs, as long as the counter has not wrapped, the servers differ by at most one copy. */
  lemma {:induction false} CopiesAreBalanced(active: seq<string>, c: nat, m: nat)
    requires Distinct(active) && |active| >= 2 && c < WRAP && Smooth(|active|, c, 2 * m)
    ensures Balanced(active, c, m)
    ensures forall s :: 0 <= s < |active| ==> Times(Copies(active, c, m), active[s]) == Share(|active|, c, s, 2 * m)
  {
    CopiesArePicks(active, c, m, 2 * m);
    forall s | 0 <= s < |active| ensures Times(Copies(active, c, m), active[s]) == Share(|active|, c, s, 2 * m) {
      PicksShare(active, c, 2 * m, s);
    }
  }

  // ----- across a wrap

  lemma {:induction false} TimesConcat(a: seq<string>, b: seq<string>, id: string)
    ensures Times(a + b, id) == Times(a, id) + Times(b, id)
    decreases |a|
  {
    if a == [] {
      assert a + b == b;
    } else {
      assert (a + b)[1..] == a[1..] + b;
      TimesConcat(a[1..], b, id);
    }
  }

  lemma {:induction false} PicksSplit(active: seq<string>, c: nat, a: nat, b: nat)
    requires active != [] && a > 0 && c + a == WRAP
    ensures Picks(active, c, a + b) == Picks(active, c, a) + Picks(active, 0, b)
    decreases a
  {
    PicksFirst(active, c, a);
    PicksFirst(active, c, a + b);
    if a > 1 {
      PicksSplit(active, c + 1, a - 1, b);
      assert a - 1 + b == a + b - 1;
    }
  }

  lemma {:induction false} PicksFirst(active: seq<string>, c: nat, n: nat)
    requires active != [] && n > 0 && c < WRAP
    ensures Picks(active, c, n) == [active[c % |active|]] + Picks(active, if c == WRAP - 1 then 0 else c + 1, n - 1)
  {
    UpIs(c);
  }

  lemma {:induction false} UpIs(c: nat)
    requires c < WRAP
    ensures Up(c) == if c == WRAP - 1 then 0 else c + 1
  {
  }

  /** A seam: r copies up to the wrap and r after it, all on the first r servers. */
  lemma {:induction false} Seam(active: seq<string>)
    requires Distinct(active) && |active| >= 2 && WRAP % |active| != 0
    ensures var r := WRAP % |active|; r <= WRAP && !Balanced(active, WRAP - r, r)
  {
    var r := WRAP % |active|;
    WholePart(WRAP, |active|);
    SeamAt(active, r);
  }

  lemma {:induction false} WholePart(w: nat, k: nat)
    requires k > 0
    ensures w % k <= w && (w - w % k) % k == 0
  {
    Remainder(w / k, k, 0);
  }

  lemma {:induction false} SeamAt(active: seq<string>, r: nat)
    requires Distinct(active) && 0 < r < |active| && r <= WRAP && (WRAP - r) % |active| == 0
    ensures !Balanced(active, WRAP - r, r)
  {
    var copies := SeamCopies(active, WRAP - r, r);
  }

  lemma {:induction false} SeamCopies(active: seq<string>, c: nat, r: nat) returns (copies: seq<string>)
    requires Distinct(active) && 0 < r < |active| && c + r == WRAP && c % |active| == 0
    ensures copies == Copies(active, c, r) && Times(copies, active[0]) == 2 && Times(copies, active[r]) == 0
  {
    copies := CopiesSplit(active, c, r);
    SeamShare(active, c, r, copies, 0);
    SeamShare(active, c, r, copies, r);
  }

  lemma {:induction false} CopiesSplit(active: seq<string>, c: nat, r: nat) returns (copies: seq<string>)
    requires |active| >= 2 && r > 0 && c + r == WRAP
    ensures copies == Copies(active, c, r) && copies == Picks(active, c, r) + Picks(active, 0, r)
  {
    PicksSplit(active, c, r, r);
    copies := Picks(active, c, r) + Picks(active, 0, r);
    CopiesArePicks(active, c, r, r + r);
  }

  lemma {:induction false} SeamShare(active: seq<string>, c: nat, r: nat, copies: seq<string>, s: nat)
    requires Distinct(active) && 0 < r < |active| && s < |active| && c + r == WRAP && c % |active| == 0
    requires copies == Picks(active, c, r) + Picks(active, 0, r)
    ensures Times(copies, active[s]) == if s < r then 2 else 0
  {
    TimesConcat(Picks(active, c, r), Picks(active, 0, r), active[s]);
    PicksShare(active, c, r, s);
    PicksShare(active, 0, r, s);
    Remainder(0, |active|, r);
  }

  /** Balance survives every counter value and every wrap exactly when the number of servers divides 2^32. */
  lemma {:induction false} BalancedExactly(active: seq<string>)
    requires Distinct(active) && |active| >= 2
    ensures (forall c: nat, m: nat :: c < WRAP ==> Balanced(active, c, m)) <==> WRAP % |active| == 0
  {
    if WRAP % |active| == 0 {
      forall c: nat, m: nat | c < WRAP ensures Balanced(active, c, m) {
        CopiesAreBalanced(active, c, m);
      }
    } else {
      Seam(active);
    }
  }
}
