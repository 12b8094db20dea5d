/** The name server's handlers on index and cache. */
module NameServer {
  // The server is single-threaded, so each handler is one step.

  import opened Text
  import opened FileIndex
  import opened LruCache
  import opened MovePath

  // ----- the cache against the index

  /** Every item's name is in the index, at the item's address. */
  ghost predicate Agrees(items: seq<Item>, files: map<Name, Allocated>) {
    forall i :: 0 <= i < |items| ==> items[i].name in files && files[items[i].name].address == items[i].address
  }

  /** Every file other than name is still there, its record at the same address; so is name, if it stayed. */
  ghost predicate SamePlaces(before: map<Name, Allocated>, after: map<Name, Allocated>, name: Name) {
    && (forall k :: k in before && k != name ==> k in after && after[k].address == before[k].address)
    && (name in before && name in after ==> after[name].address == before[name].address)
  }

  /** The order of successful look-ups, most recent first, once each, after one more. */
  function Recent(recency: seq<Item>, item: Item): seq<Item> {
    [item] + Drop(recency, item.name)
  }

  function Noted(recency: seq<Item>, name: Name, found: Option<nat>): seq<Item> {
    if found.Some? then Recent(recency, Item(name, found.value)) else recency
  }

  ghost predicate CacheInv(items: seq<Item>, recency: seq<Item>, files: map<Name, Allocated>, capacity: nat) {
    && items <= recency && |items| <= capacity
    && DistinctNames(recency) && Agrees(recency, files)
  }

  lemma {:induction false} PositionIs(items: seq<Item>, name: Name, k: nat)
    requires k <= |items| && (k < |items| ==> items[k].name == name) && forall i :: 0 <= i < k ==> items[i].name != name
    ensures Position(items, name) == k
  {
  }

  /** Dropping a name from a list of distinct names takes out exactly that name. */
  lemma {:induction false} DropIs(items: seq<Item>, name: Name)
    requires DistinctNames(items)
    ensures DistinctNames(Drop(items, name))
    ensures forall x :: x in Drop(items, name) <==> x in items && x.name != name
  {
    var k := Position(items, name);
    if k < |items| {
      OmitDistinct(items, k);
      OmitMembers(items, k);
    } else {
      assert forall x :: x in items ==> x.name != name;
    }
  }

  lemma {:induction false} OmitDistinct(items: seq<Item>, k: nat)
    requires DistinctNames(items) && k < |items|
    ensures DistinctNames(Omit(items, k))
  {
    var r := Omit(items, k);
    forall i, j | 0 <= i < j < |r| ensures r[i].name != r[j].name {
      assert r[i] == items[if i < k then i else i + 1] && r[j] == items[if j < k then j else j + 1];
    }
  }

  lemma {:induction false} OmitMembers(items: seq<Item>, k: nat)
    requires DistinctNames(items) && k < |items|
    ensures forall x :: x in Omit(items, k) <==> x in items && x.name != items[k].name
  {
    assert items == items[..k] + [items[k]] + items[k + 1..];
    assert forall i :: 0 <= i < k ==> items[i].name != items[k].name;
    assert forall i :: k < i < |items| ==> items[k].name != items[i].name;
    assert forall x :: x in items[..k] || x in items[k + 1..] ==> x.name != items[k].name;
  }

  lemma {:induction false} DropPrefix(items: seq<Item>, recency: seq<Item>, name: Name)
    requires items <= recency && DistinctNames(recency)
    ensures Drop(items, name) <= Drop(recency, name)
  {
    var k := Position(recency, name);
    if k < |items| {
      PositionIs(items, name, k);
      assert Omit(recency, k)[..|items| - 1] == Omit(items, k);
    } else {
      PositionIs(items, name, |items|);
      assert k < |recency| ==> Omit(recency, k)[..|items|] == items;
    }
  }

  lemma {:induction false} AgreesSubset(some: seq<Item>, items: seq<Item>, files: map<Name, Allocated>)
    requires Agrees(items, files) && forall x :: x in some ==> x in items
    ensures Agrees(some, files)
  {
    forall i | 0 <= i < |some| ensures some[i].name in files && files[some[i].name].address == some[i].address {
      assert some[i] in items;
    }
  }

  /** Invalidating a name, whatever becomes of it in the index. */
  lemma {:induction false} InvalidateInv(items: seq<Item>, recency: seq<Item>, files: map<Name, Allocated>,
                                         after: map<Name, Allocated>, capacity: nat, name: Name)
    requires CacheInv(items, recency, files, capacity)
    requires SamePlaces(files, after, name)
    ensures CacheInv(Drop(items, name), Drop(recency, name), after, capacity)
  {
    DropIs(recency, name);
    DropPrefix(items, recency, name);
    AgreesSubset(Drop(recency, name), recency, files);
    forall i | 0 <= i < |Drop(recency, name)|
      ensures var x := Drop(recency, name)[i]; x.name in after && after[x.name].address == x.address
    {
      assert Drop(recency, name)[i] in Drop(recency, name);
    }
  }

  lemma {:induction false} InvalidateBothInv(items: seq<Item>, recency: seq<Item>, files: map<Name, Allocated>,
                                             after: map<Name, Allocated>, capacity: nat, name: Name, target: Name)
    requires CacheInv(items, recency, files, capacity) && SamePlaces(files - {name}, after, target)
    ensures CacheInv(Drop(Drop(items, name), target), Drop(Drop(recency, name), target), after, capacity)
  {
    InvalidateInv(items, recency, files, files - {name}, capacity, name);
    InvalidateInv(Drop(items, name), Drop(recency, name), files - {name}, after, capacity, target);
  }

  /** A look-up answers as the index would, and keeps the cache a prefix of the look-up history. */
  lemma {:induction false} FetchInv(items: seq<Item>, recency: seq<Item>, files: map<Name, Allocated>,
                                    capacity: nat, name: Name)
    requires CacheInv(items, recency, files, capacity) && capacity > 0
    ensures var found := if name in files then Some(files[name].address) else None;
            && Answer(items, name, found) == found
            && CacheInv(Fetched(items, name, found, capacity), Noted(recency, name, found), files, capacity)
  {
    var k := Position(items, name);
    if k < |items| {
      assert items[k] == recency[k];
      PositionIs(recency, name, k);
    }
    if name in files {
      var item := Item(name, files[name].address);
      DropIs(recency, name);
      RecentInv(recency, files, item);
      FetchPrefix(items, recency, item, capacity);
    } else {
      assert k == |items|;
    }
  }

  predicate Caches(items: seq<Item>, name: Name) {
    exists i :: 0 <= i < |items| && items[i].name == name
  }

  /** A look-up forgets nothing it need not: the cache grows by a new name until it is full. */
  ghost predicate GrowsToCapacity(before: seq<Item>, after: seq<Item>, name: Name, r: Option<nat>, capacity: nat) {
    |after| == if Caches(before, name) || r.None? || |before| == capacity then |before| else |before| + 1
  }

  lemma {:induction false} FetchSize(items: seq<Item>, name: Name, found: Option<nat>, capacity: nat)
    requires |items| <= capacity && capacity > 0
    ensures GrowsToCapacity(items, Fetched(items, name, found, capacity), name, found, capacity)
  {
    var k := Position(items, name);
    if k < |items| {
      assert Caches(items, name);
    }
  }

  /** All of it, for the answer of the index. */
  lemma {:induction false} FetchLaws(items: seq<Item>, recency: seq<Item>, files: map<Name, Allocated>,
                                     capacity: nat, name: Name) returns (found: Option<nat>, after: seq<Item>)
    requires CacheInv(items, recency, files, capacity) && capacity > 0
    ensures found == if name in files then Some(files[name].address) else None
    ensures after == Fetched(items, name, found, capacity) && Answer(items, name, found) == found
    ensures CacheInv(after, Noted(recency, name, found), files, capacity)
    ensures GrowsToCapacity(items, after, name, found, capacity)
  {
    found := if name in files then Some(files[name].address) else None;
    after := Fetched(items, name, found, capacity);
    FetchInv(items, recency, files, capacity, name);
    FetchSize(items, name, found, capacity);
  }

  lemma {:induction false} RecentInv(recency: seq<Item>, files: map<Name, Allocated>, item: Item)
    requires DistinctNames(recency) && Agrees(recency, files)
    requires item.name in files && files[item.name].address == item.address
    ensures DistinctNames(Recent(recency, item)) && Agrees(Recent(recency, item), files)
  {
    var rest := Drop(recency, item.name);
    DropIs(recency, item.name);
    AgreesSubset(rest, recency, files);
    forall i | 0 <= i < |rest| ensures rest[i].name != item.name {
      assert rest[i] in rest;
    }
  }

  lemma {:induction false} FetchPrefix(items: seq<Item>, recency: seq<Item>, item: Item, capacity: nat)
    requires items <= recency && DistinctNames(recency) && |items| <= capacity && capacity > 0
    requires forall x :: x in recency && x.name == item.name ==> x == item
    ensures Fetched(items, item.name, Some(item.address), capacity) <= Recent(recency, item)
    ensures |Fetched(items, item.name, Some(item.address), capacity)| <= capacity
  {
    var k := Position(items, item.name);
    DropPrefix(items, recency, item.name);
    if k < |items| {
      assert items[k] in recency;
    } else {
      assert Drop(items, item.name) == items;
    }
  }

  // ----- registering and CREATE, as maps

  /** Only this file's record changes, and of it only the server table, by the one server at most. */
  ghost predicate GainsAtMost(before: map<Name, Record>, after: map<Name, Record>, name: Name, id: string)
    requires name in before
  {
    && name in after && after == before[name := before[name].(servers := after[name].servers)]
    && (after[name].servers == before[name].servers || after[name].servers == before[name].servers + [id])
  }

  lemma {:induction false} RegisterAgain(view: map<Name, Record>, name: Name, owner: string, id: string, now: int)
    ensures name in view ==> GainsAtMost(view, AddTo(view, name, owner, id, now), name, id)
  {
    AddExactly(view, name, owner, id, now);
  }

  /** A created file has its owner, both copies, no access list and no counts; all other files stay. */
  lemma {:induction false} CreatedRecord(view: map<Name, Record>, name: Name, owner: string, primary: string,
                                         replica: Option<string>, now: int)
    ensures var others := if replica.Some? then [replica.value] else [];
            var copies := [primary] + (if replica.Some? && replica.value != primary then [replica.value] else []);
            name !in view ==>
              AddReplicas(AddTo(view, name, owner, primary, now), name, others)
              == view[name := Record(Stored(name), owner, copies, [], now, now, 0, 0, 0)]
  {
    if name !in view {
      AddExactly(view, name, owner, primary, now);
      var added := AddTo(view, name, owner, primary, now);
      assert [primary] + [] == [primary];
      if replica.Some? {
        var id := replica.value;
        assert [id][1..] == [];
        assert AddReplicas(added, name, [id]) == AddReplicaTo(added, name, id);
        assert WithServer([primary], id) == if id != primary then [primary] + [id] else [primary];
      }
    }
  }

  // ----- replica tables

  predicate DistinctServers(servers: seq<string>) {
    forall i, j :: 0 <= i < j < |servers| ==> servers[i] != servers[j]
  }

  /** Between one and eight servers, no server twice. */
  predicate GoodServers(servers: seq<string>) {
    0 < |servers| <= MAX_SERVERS && DistinctServers(servers)
  }

  ghost predicate GoodView(view: map<Name, Record>) {
    forall k :: k in view ==> GoodServers(view[k].servers)
  }

  lemma {:induction false} WithServerGood(servers: seq<string>, id: string)
    requires servers == [] || GoodServers(servers)
    ensures GoodServers(WithServer(servers, id))
  {
  }

  lemma {:induction false} AddGood(view: map<Name, Record>, name: Name, owner: string, id: string, now: int)
    requires GoodView(view)
    ensures GoodView(AddTo(view, name, owner, id, now))
  {
    WithServerGood(if name in view then view[name].servers else [], id);
  }

  lemma {:induction false} SameServersGood(view: map<Name, Record>, name: Name, r: Record)
    requires GoodView(view) && name in view && r.servers == view[name].servers
    ensures GoodView(view[name := r])
  {
  }

  // ----- MOVE, as a map

  function AddReplicas(view: map<Name, Record>, name: Name, ids: seq<string>): map<Name, Record>
    decreases |ids|
  {
    if ids == [] then view else AddReplicas(AddReplicaTo(view, name, ids[0]), name, ids[1..])
  }

  /** The copied fields; an empty access list is not copied. */
  function Restored(fresh_: Record, r: Record): Record {
    fresh_.(createdAt := r.createdAt, modifiedAt := r.modifiedAt, wordCount := r.wordCount,
            charCount := r.charCount, sentenceCount := r.sentenceCount,
            acl := if r.acl != [] then r.acl else fresh_.acl)
  }

  /** Remove, add again under the new key, replay the replicas, copy the rest. */
  function Moved(view: map<Name, Record>, name: Name, target: Name, now: int): map<Name, Record>
    requires name in view && view[name].servers != []
  {
    var r := view[name];
    var added := AddReplicas(AddTo(view - {name}, target, r.owner, r.servers[0], now), target, r.servers[1..]);
    if target in added then added[target := Restored(added[target], r)] else added
  }

  lemma {:induction false} NextReplica(view: map<Name, Record>, name: Name, ids: seq<string>, i: nat)
    requires GoodView(view) && i < |ids|
    ensures GoodView(AddReplicaTo(view, name, ids[i]))
    ensures AddReplicas(view, name, ids[i..]) == AddReplicas(AddReplicaTo(view, name, ids[i]), name, ids[i + 1..])
  {
    assert ids[i..][0] == ids[i] && ids[i..][1..] == ids[i + 1..];
  }

  /** Replaying the replicas builds the same table when it starts empty. */
  lemma {:induction false} ReplayServers(view: map<Name, Record>, name: Name, done: seq<string>, rest: seq<string>)
    requires name in view && view[name].servers == done && GoodServers(done + rest)
    ensures AddReplicas(view, name, rest) == view[name := view[name].(servers := done + rest)]
    decreases |rest|
  {
    if rest == [] {
      assert done + rest == done;
    } else {
      var id := rest[0];
      assert id !in done by {
        assert (done + rest)[|done|] == id;
        assert forall i :: 0 <= i < |done| ==> (done + rest)[i] == done[i];
      }
      assert done + rest == (done + [id]) + rest[1..];
      ReplayServers(AddReplicaTo(view, name, id), name, done + [id], rest[1..]);
    }
  }

  lemma {:induction false} ReplicasKeys(view: map<Name, Record>, name: Name, ids: seq<string>)
    ensures AddReplicas(view, name, ids).Keys == view.Keys
    ensures forall k :: k in view && k != name ==> AddReplicas(view, name, ids)[k] == view[k]
    decreases |ids|
  {
    if ids != [] {
      ReplicasKeys(AddReplicaTo(view, name, ids[0]), name, ids[1..]);
    }
  }

  /** The destination is free: nobody is there, or it is the file itself. */
  predicate Free(view: map<Name, Record>, name: Name, target: Name) {
    target == name || target !in view
  }

  /** MOVE to a free destination is a rename: the record keeps everything but its name field, all other files stay. */
  lemma {:induction false} MoveIsRename(view: map<Name, Record>, name: Name, target: Name, now: int)
    requires name in view && GoodServers(view[name].servers) && Free(view, name, target)
    ensures Moved(view, name, target, now) == (view - {name})[target := view[name].(filename := Stored(target))]
  {
    var r := view[name];
    var base := AddTo(view - {name}, target, r.owner, r.servers[0], now);
    assert target !in view - {name};
    assert base[target].servers == [r.servers[0]];
    assert [r.servers[0]] + r.servers[1..] == r.servers;
    ReplayServers(base, target, [r.servers[0]], r.servers[1..]);
  }

  /** It is a rename only then: otherwise one file is lost. */
  lemma {:induction false} RenameExactly(view: map<Name, Record>, name: Name, target: Name, now: int)
    requires name in view && GoodServers(view[name].servers)
    ensures |Moved(view, name, target, now)| == |view| <==> Free(view, name, target)
    ensures !Free(view, name, target) ==> Moved(view, name, target, now).Keys == view.Keys - {name}
  {
    var rest := view - {name};
    assert view.Keys == rest.Keys + {name};
    var r := view[name];
    var base := AddTo(rest, target, r.owner, r.servers[0], now);
    ReplicasKeys(base, target, r.servers[1..]);
    assert Moved(view, name, target, now).Keys == rest.Keys + {target};
  }

  /** After MOVE the file is under a key that says where it is, and if nobody was there, the map is the old one with
      the record under that key. */
  ghost predicate RenamedTo(before: map<Name, Record>, after: map<Name, Record>, folder: Name, name: Name, key: Name) {
    && name in before && Locates(key, folder, name) && key in after
    && (Free(before, name, key) ==> after == (before - {name})[key := before[name].(filename := Stored(key))])
  }

  lemma {:induction false} MovedTo(view: map<Name, Record>, folder: Name, name: Name, now: int)
    requires name in view && GoodServers(view[name].servers)
    ensures RenamedTo(view, Moved(view, name, NewPath(folder, name), now), folder, name, NewPath(folder, name))
  {
    var key, r := NewPath(folder, name), view[name];
    NewPathLocates(folder, name);
    ReplicasKeys(AddTo(view - {name}, key, r.owner, r.servers[0], now), key, r.servers[1..]);
    if Free(view, name, key) {
      MoveIsRename(view, name, key, now);
    }
  }

  // ----- the server

  datatype Status = Done | Duplicate | NotFound | NotOwner

  class Server {
    const index: Index
    const cache: Cache
    /** The successful look-ups not invalidated since, most recent first. */
    ghost var recency: seq<Item>

    ghost predicate Valid()
      reads this, index, cache, cache.Entries
    {
      && index.Valid() && cache.Valid()
      && CacheInv(cache.Items(), recency, index.files, cache.capacity)
      && GoodView(index.View())
    }

    constructor ()
      ensures Valid() && index.View() == map[] && recency == [] && fresh(index) && fresh(cache)
    {
      index := new Index();
      cache := new Cache(128);
      recency := [];
    }

    /** A cached look-up answers exactly what the index would. */
    method LookupFile(name: Name) returns (r: Option<nat>)
      requires Valid()
      modifies this`recency, cache, cache.Entries
      ensures Valid() && cache.Grows()
      ensures r == if name in index.files then Some(index.files[name].address) else None
      ensures recency == Noted(old(recency), name, r)
      ensures GrowsToCapacity(old(cache.Items()), cache.Items(), name, r, cache.capacity)
    {
      ghost var recency0 := recency;
      ghost var found, after := FetchLaws(cache.Items(), recency, index.files, cache.capacity, name);
      r := cache.Get(index, name);
      recency := Noted(recency0, name, r);
    }

    /** Drop a name from the cache, which agrees with before, when after differs from it at that name only. */
    method Invalidate(name: Name, ghost before: map<Name, Allocated>, ghost after: map<Name, Allocated>)
      requires cache.Valid() && CacheInv(cache.Items(), recency, before, cache.capacity)
      requires SamePlaces(before, after, name)
      modifies this`recency, cache, cache.Entries
      ensures cache.Valid() && cache.Shrinks()
      ensures CacheInv(cache.Items(), recency, after, cache.capacity)
      ensures recency == Drop(old(recency), name)
    {
      InvalidateInv(cache.Items(), recency, before, after, cache.capacity, name);
      cache.Invalidate(name);
      recency := Drop(recency, name);
    }

    /** A registering storage server lists its files; the cache is not touched. */
    method RegisterFile(name: Name, id: string, now: int)
      requires Valid()
      modifies index
      ensures Valid() && index.View() == AddTo(old(index.View()), name, "system", id, now)
      ensures name in old(index.View()) ==> GainsAtMost(old(index.View()), index.View(), name, id)
    {
      RegisterAgain(index.View(), name, "system", id, now);
      AddGood(index.View(), name, "system", id, now);
      index.Add(name, "system", id, now);
    }

    method CreateFile(name: Name, owner: string, primary: string, replica: Option<string>, now: int) returns (s: Status)
      requires Valid()
      modifies this`recency, index, cache, cache.Entries
      ensures Valid() && cache.Shrinks()
      ensures s == if name in old(index.View()) then Duplicate else Done
      ensures s == Duplicate ==> index.View() == old(index.View())
      ensures recency == if s == Done then Drop(old(recency), name) else old(recency)
      ensures s == Done ==>
                index.View() == AddReplicas(AddTo(old(index.View()), name, owner, primary, now), name,
                                            if replica.Some? then [replica.value] else [])
      ensures s == Done ==>
                var copies := [primary] + (if replica.Some? && replica.value != primary then [replica.value] else []);
                index.View() == old(index.View())[name := Record(Stored(name), owner, copies, [], now, now, 0, 0, 0)]
    {
      CreatedRecord(index.View(), name, owner, primary, replica, now);
      var existing := index.Lookup(name);
      if existing.Some? {
        return Duplicate;
      }
      var others := if replica.Some? then [replica.value] else [];
      assert ([primary] + others)[1..] == others;
      AddFile(name, owner, [primary] + others, now);
      return Done;
    }

    method AddFile(name: Name, owner: string, servers: seq<string>, now: int)
      requires Valid() && servers != []
      modifies this`recency, index, cache, cache.Entries
      ensures Valid() && cache.Shrinks() && recency == Drop(old(recency), name)
      ensures index.View() == AddReplicas(AddTo(old(index.View()), name, owner, servers[0], now), name, servers[1..])
    {
      ghost var before := index.files;
      AddCopies(name, owner, servers, now);
      Invalidate(name, before, index.files);
    }

    /** Add the file at its first server and replay the others; only the file's own record changes, and a record
        that was there keeps its address. */
    method AddCopies(name: Name, owner: string, servers: seq<string>, now: int)
      requires index.Valid() && GoodView(index.View()) && servers != []
      modifies index
      ensures index.Valid() && GoodView(index.View())
      ensures index.View() == AddReplicas(AddTo(old(index.View()), name, owner, servers[0], now), name, servers[1..])
      ensures SamePlaces(old(index.files), index.files, name) && name in index.files
    {
      AddGood(index.View(), name, owner, servers[0], now);
      ghost var before := index.files;
      index.Add(name, owner, servers[0], now);
      assert SamePlaces(before, index.files, name);
      AddOthers(name, servers);
    }

    method AddOthers(name: Name, servers: seq<string>)
      requires index.Valid() && GoodView(index.View()) && servers != [] && name in index.files
      modifies index
      ensures index.Valid() && GoodView(index.View())
      ensures index.View() == AddReplicas(old(index.View()), name, servers[1..])
      ensures SamePlaces(old(index.files), index.files, name) && name in index.files
    {
      ghost var view := index.View();
      for i := 1 to |servers|
        invariant index.Valid() && GoodView(index.View())
        invariant AddReplicas(index.View(), name, servers[i..]) == AddReplicas(view, name, servers[1..])
        invariant SamePlaces(old(index.files), index.files, name) && name in index.files
      {
        NextReplica(index.View(), name, servers, i);
        var _ := index.AddReplica(name, servers[i]);
      }
    }

    method DeleteFile(name: Name, user: string) returns (s: Status)
      requires Valid()
      modifies this`recency, index, cache, cache.Entries
      ensures Valid() && cache.Shrinks()
      ensures var view := old(index.View());
              s == if name !in view then NotFound else if view[name].owner != user then NotOwner else Done
      ensures index.View() == if s == Done then old(index.View()) - {name} else old(index.View())
      ensures recency == if s == Done then Drop(old(recency), name) else old(recency)
    {
      var existing := index.Lookup(name);
      if existing.None? {
        return NotFound;
      }
      if existing.value.record.owner != user {
        return NotOwner;
      }
      RemoveFile(name);
      return Done;
    }

    method RemoveFile(name: Name)
      requires Valid()
      modifies this`recency, index, cache, cache.Entries
      ensures Valid() && cache.Shrinks()
      ensures index.View() == old(index.View()) - {name} && recency == Drop(old(recency), name)
    {
      ghost var before := index.files;
      var _ := index.Remove(name);
      Invalidate(name, before, index.files);
    }

    /** The common end of the handlers that change an access list. */
    method ChangeAcl(name: Name, acl: seq<AclEntry>)
      requires Valid() && name in index.View()
      modifies this`recency, index, cache, cache.Entries
      ensures Valid() && cache.Shrinks()
      ensures index.View() == old(index.View())[name := old(index.View())[name].(acl := acl)]
      ensures recency == Drop(old(recency), name)
    {
      ghost var before := index.files;
      var existing := index.Lookup(name);
      SameServersGood(index.View(), name, existing.value.record.(acl := acl));
      index.Update(name, existing.value.record.(acl := acl));
      Invalidate(name, before, index.files);
    }

    /** MOVE, once the storage server has agreed: an unknown name changes nothing. */
    method MoveFile(name: Name, folder: Name, now: int) returns (s: Status)
      requires Valid()
      modifies this`recency, index, cache, cache.Entries
      ensures Valid() && cache.Shrinks()
      ensures s == if name in old(index.View()) then Done else NotFound
      ensures index.View() == if s == Done then Moved(old(index.View()), name, NewPath(folder, name), now)
                              else old(index.View())
      ensures recency == if s == Done then Drop(Drop(old(recency), name), NewPath(folder, name)) else old(recency)
      ensures s == Done ==> exists key :: RenamedTo(old(index.View()), index.View(), folder, name, key)
    {
      var existing := index.Lookup(name);
      if existing.None? {
        return NotFound;
      }
      MovedTo(index.View(), folder, name, now);
      Relocate(name, NewPath(folder, name), existing.value.record, now);
      return Done;
    }

    method Relocate(name: Name, target: Name, r: Record, now: int)
      requires Valid() && name in index.View() && index.View()[name] == r
      modifies this`recency, index, cache, cache.Entries
      ensures Valid() && cache.Shrinks()
      ensures index.View() == Moved(old(index.View()), name, target, now)
      ensures recency == Drop(Drop(old(recency), name), target)
    {
      ghost var before := index.files;
      Reinsert(name, target, r, now);
      InvalidateBoth(name, target, before);
    }

    method InvalidateBoth(name: Name, target: Name, ghost before: map<Name, Allocated>)
      requires cache.Valid() && CacheInv(cache.Items(), recency, before, cache.capacity)
      requires SamePlaces(before - {name}, index.files, target)
      modifies this`recency, cache, cache.Entries
      ensures cache.Valid() && cache.Shrinks()
      ensures CacheInv(cache.Items(), recency, index.files, cache.capacity)
      ensures recency == Drop(Drop(old(recency), name), target)
    {
      ghost var items, lookups := cache.Items(), recency;
      DropBoth(name, target);
      recency := Drop(Drop(lookups, name), target);
      InvalidateBothInv(items, lookups, before, index.files, cache.capacity, name, target);
    }

    method DropBoth(name: Name, target: Name)
      requires cache.Valid()
      modifies cache, cache.Entries
      ensures cache.Valid() && cache.Shrinks() && cache.Items() == Drop(Drop(old(cache.Items()), name), target)
    {
      ghost var entries := cache.Entries;
      cache.Invalidate(name);
      assert forall i :: 0 <= i < |cache.Entries| ==> cache.Entries[i] in entries;
      cache.Invalidate(target);
    }

    /** Remove, add again, copy the fields. */
    method Reinsert(name: Name, target: Name, r: Record, now: int)
      requires index.Valid() && GoodView(index.View())
      requires name in index.View() && index.View()[name] == r
      modifies index
      ensures index.Valid() && GoodView(index.View())
      ensures index.View() == Moved(old(index.View()), name, target, now)
      ensures SamePlaces(old(index.files) - {name}, index.files, target)
    {
      var _ := index.Remove(name);
      AddCopies(target, r.owner, r.servers, now);
      CopyFields(target, r);
    }

    method CopyFields(target: Name, r: Record)
      requires index.Valid() && GoodView(index.View()) && target in index.files
      modifies index
      ensures index.Valid() && GoodView(index.View())
      ensures index.View() == old(index.View())[target := Restored(old(index.View())[target], r)]
      ensures SamePlaces(old(index.files), index.files, target) && target in index.files
    {
      var added := index.Lookup(target);
      SameServersGood(index.View(), target, Restored(added.value.record, r));
      index.Update(target, Restored(added.value.record, r));
    }
  }
}
