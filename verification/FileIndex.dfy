/** The name server's index: file records in a 256-way trie keyed by file name. The trie is proved to be a map from
    names to records: every operation is a map operation, and listing the trie lists the map in byte order. */
module FileIndex {
  import opened Text

  type Byte = b: int | 0 <= b < 256
  type Name = seq<Byte>

  const ALPHABET := 256
  const MAX_SERVERS := 8

  datatype AclEntry = AclEntry(username: string, canRead: bool, canWrite: bool)

  /** The contents of a file record. */
  datatype Record = Record(filename: Name, owner: string, servers: seq<string>, acl: seq<AclEntry>,
                           createdAt: int, modifiedAt: int, wordCount: nat, charCount: nat, sentenceCount: nat)

  // ----- specification: a plain map

  /** The record field is a 256-byte buffer. */
  function Stored(name: Name): Name {
    if |name| > 255 then name[..255] else name
  }

  function NewRecord(name: Name, owner: string, now: int): Record {
    Record(Stored(name), owner, [], [], now, now, 0, 0, 0)
  }

  /** One more replica, unless it is there already or the table is full. */
  function WithServer(servers: seq<string>, id: string): seq<string> {
    if |servers| < MAX_SERVERS && id !in servers then servers + [id] else servers
  }

  function AddTo(m: map<Name, Record>, name: Name, owner: string, id: string, now: int): map<Name, Record> {
    var r := if name in m then m[name] else NewRecord(name, owner, now);
    m[name := r.(servers := WithServer(r.servers, id))]
  }

  function AddReplicaTo(m: map<Name, Record>, name: Name, id: string): map<Name, Record> {
    if name in m then m[name := m[name].(servers := WithServer(m[name].servers, id))] else m
  }

  /** Registering a file touches its own record only. A new record has the one server and no access list; an old one
      keeps name, owner, access list, counters and times, and its servers grow by the one at most. */
  lemma {:induction false} AddExactly(m: map<Name, Record>, name: Name, owner: string, id: string, now: int)
    ensures AddTo(m, name, owner, id, now).Keys == m.Keys + {name}
    ensures forall k :: k in m && k != name ==> AddTo(m, name, owner, id, now)[k] == m[k]
    ensures name !in m ==>
              AddTo(m, name, owner, id, now)[name] == Record(Stored(name), owner, [id], [], now, now, 0, 0, 0)
    ensures name in m ==>
              var servers := m[name].servers;
              AddTo(m, name, owner, id, now)[name]
              == m[name].(servers := if id in servers || |servers| >= 8 then servers else servers + [id])
  {
  }

  /** The replica table scan shared by add and add_ss_replica. */
  method AddServer(servers: seq<string>, id: string) returns (r: seq<string>)
    ensures r == WithServer(servers, id)
  {
    r := servers;
    if |servers| < MAX_SERVERS {
      for i := 0 to |servers|
        invariant id !in servers[..i]
      {
        if servers[i] == id {
          return;
        }
        assert servers[..i + 1] == servers[..i] + [servers[i]];
      }
      assert servers[..|servers|] == servers;
      r := servers + [id];
    }
  }

  // ----- memory

  /** An allocated record: its address, never used twice, and what it holds. */
  datatype Allocated = Allocated(address: nat, record: Record)

  const NULL := -1

  /** A trie node: 256 child slots, -1 when unset, and a record or none. Nodes are numbered in the order they are
      allocated, the root being 0. */
  datatype TrieNode = TrieNode(children: seq<int>, record: Option<Allocated>)

  function EmptyNode(): TrieNode {
    TrieNode(seq(ALPHABET, _ => NULL), None)
  }

  // ----- the shape of the trie

  /** The node number of the path p + [c], if there is one. */
  function ChildNumber(paths: map<Name, nat>, p: Name, c: Byte): int {
    if Extend(p, c) in paths then paths[Extend(p, c)] else NULL
  }

  /** Paths start at node 0, are closed under taking parents, and number the nodes without sharing: names is the
      inverse of paths. */
  ghost predicate Rooted(paths: map<Name, nat>, names: seq<Name>) {
    && [] in paths && paths[[]] == 0
    && (forall p :: p in paths ==> paths[p] < |names| && names[paths[p]] == p)
    && (forall p {:trigger Parent(p)} :: p in paths && p != [] ==> Parent(p) in paths)
  }

  /** Child links are exactly the one-byte extensions of paths. */
  ghost predicate Linked(nodes: seq<TrieNode>, paths: map<Name, nat>, names: seq<Name>) {
    && |names| == |nodes| && Rooted(paths, names)
    && (forall p :: p in paths ==> |nodes[paths[p]].children| == ALPHABET)
    && (forall p, c: Byte :: p in paths ==> nodes[paths[p]].children[c] == ChildNumber(paths, p, c))
  }

  /** files lists the records of the trie by name. */
  ghost predicate Recorded(nodes: seq<TrieNode>, paths: map<Name, nat>, files: map<Name, Allocated>)
    requires forall p :: p in paths ==> paths[p] < |nodes|
  {
    && (forall p :: p in files ==> p in paths && nodes[paths[p]].record == Some(files[p]))
    && (forall p :: p in paths && nodes[paths[p]].record.Some? ==> p in files)
  }

  /** Addresses in use are below the next one. */
  ghost predicate Allocates(files: map<Name, Allocated>, next: nat) {
    forall p :: p in files ==> files[p].address < next
  }

  ghost function Contents(files: map<Name, Allocated>): map<Name, Record> {
    map p | p in files :: files[p].record
  }

  class Index {
    var nodes: seq<TrieNode>
    var next: nat
    var fileCount: nat
    /** The number of every node, by the path that leads to it, and the inverse. */
    ghost var paths: map<Name, nat>
    ghost var names: seq<Name>
    /** The records by name: what the trie stands for. */
    ghost var files: map<Name, Allocated>

    ghost predicate Valid()
      reads this
    {
      && Linked(nodes, paths, names) && Recorded(nodes, paths, files)
      && Allocates(files, next)
      && fileCount == |files|
    }

    /** The index as a plain map. */
    ghost function View(): map<Name, Record>
      reads this`files
    {
      Contents(files)
    }

    constructor ()
      ensures Valid() && files == map[] && View() == map[]
    {
      nodes := [EmptyNode()];
      next, fileCount := 0, 0;
      paths, names := map[[] := 0], [[]];
      files := map[];
    }

    /** The node at the end of the name, if the path exists. */
    method Walk(name: Name) returns (node: int)
      requires Valid()
      ensures node == if name in paths then paths[name] else NULL
    {
      node := 0;
      for i := 0 to |name|
        invariant name[..i] in paths && node == paths[name[..i]]
      {
        Down(nodes, paths, names, name, i);
        if nodes[node].children[name[i]] == NULL {
          return NULL;
        }
        node := nodes[node].children[name[i]];
      }
      assert name[..|name|] == name;
    }

    method Lookup(name: Name) returns (r: Option<Allocated>)
      requires Valid()
      ensures r == if name in files then Some(files[name]) else None
    {
      var node := Walk(name);
      return if node == NULL then None else nodes[node].record;
    }

    /** Hang a new empty node under an existing one: one more path, the same records. */
    method AddChild(node: nat, c: Byte, ghost p: Name) returns (n: nat)
      requires Valid() && p in paths && paths[p] == node && Extend(p, c) !in paths
      modifies this`nodes, this`paths, this`names
      ensures Valid() && paths == old(paths)[Extend(p, c) := n]
    {
      n := |nodes|;
      ChildAdded(nodes, paths, names, files, p, c);
      nodes := nodes[node := nodes[node].(children := nodes[node].children[c := n])] + [EmptyNode()];
      paths, names := paths[Extend(p, c) := n], names + [Extend(p, c)];
    }

    /** Walk down the name, creating what is missing. */
    method EnsurePath(name: Name) returns (node: nat)
      requires Valid()
      modifies this`nodes, this`paths, this`names
      ensures Valid() && name in paths && node == paths[name]
    {
      node := 0;
      for i := 0 to |name|
        invariant Valid()
        invariant name[..i] in paths && node == paths[name[..i]]
      {
        Down(nodes, paths, names, name, i);
        ExtendPrefix(name, i);
        if nodes[node].children[name[i]] == NULL {
          node := AddChild(node, name[i], name[..i]);
        } else {
          node := nodes[node].children[name[i]];
        }
      }
      assert name[..|name|] == name;
    }

    /** Write the record of a node, counting it if it is new. */
    method PutRecord(node: nat, r: Allocated, ghost name: Name)
      requires Valid() && name in paths && paths[name] == node && r.address < next
      modifies this`nodes, this`files, this`fileCount
      ensures Valid() && files == old(files)[name := r]
      ensures View() == old(View())[name := r.record]
    {
      RecordPut(nodes, paths, names, files, name, Some(r));
      FilesPut(files, name, r);
      if nodes[node].record.None? {
        fileCount := fileCount + 1;
      }
      nodes := nodes[node := nodes[node].(record := Some(r))];
      files := files[name := r];
    }

    method Add(name: Name, owner: string, id: string, now: int)
      requires Valid()
      modifies this
      ensures Valid()
      ensures View() == AddTo(old(View()), name, owner, id, now)
      ensures name in files && files == old(files)[name := files[name]]
      ensures name in old(files) ==> files[name].address == old(files)[name].address
    {
      var node := EnsurePath(name);
      var r := if nodes[node].record.None? then Allocated(next, NewRecord(name, owner, now))
               else nodes[node].record.value;
      if nodes[node].record.None? {
        next := next + 1;
      }
      var servers := AddServer(r.record.servers, id);
      PutRecord(node, r.(record := r.record.(servers := servers)), name);
    }

    /** Unlink and free the record; the trie nodes stay. */
    method Remove(name: Name) returns (found: bool)
      requires Valid()
      modifies this
      ensures Valid()
      ensures found <==> name in old(files)
      ensures files == old(files) - {name} && View() == old(View()) - {name}
    {
      var node := Walk(name);
      if node != NULL && nodes[node].record.Some? {
        ClearRecord(node, name);
        return true;
      }
      FilesCleared(files, name);
      return false;
    }

    method ClearRecord(node: nat, ghost name: Name)
      requires Valid() && name in paths && paths[name] == node && nodes[node].record.Some?
      modifies this`nodes, this`files, this`fileCount
      ensures Valid() && name in old(files) && files == old(files) - {name}
      ensures View() == old(View()) - {name}
    {
      RecordPut(nodes, paths, names, files, name, None);
      FilesCleared(files, name);
      nodes := nodes[node := nodes[node].(record := None)];
      files := files - {name};
      fileCount := fileCount - 1;
    }

    /** Write through a record pointer. */
    method Update(name: Name, record: Record)
      requires Valid() && name in files
      modifies this
      ensures Valid() && View() == old(View())[name := record]
      ensures files == old(files)[name := old(files)[name].(record := record)]
    {
      var node := Walk(name);
      PutRecord(node, nodes[node].record.value.(record := record), name);
    }

    /** Errors (no such file, table full) leave everything as it is. */
    method AddReplica(name: Name, id: string) returns (ok: bool)
      requires Valid()
      modifies this
      ensures Valid()
      ensures View() == AddReplicaTo(old(View()), name, id)
      ensures name in old(files) ==> name in files && files[name].address == old(files)[name].address
      ensures files == if name in old(files) then old(files)[name := files[name]] else old(files)
      ensures ok <==> name in old(View()) && |old(View())[name].servers| < MAX_SERVERS
    {
      var r := Lookup(name);
      if r.None? || |r.value.record.servers| >= MAX_SERVERS {
        return false;
      }
      var servers := AddServer(r.value.record.servers, id);
      Update(name, r.value.record.(servers := servers));
      return true;
    }

    /** The records below a node, own record first, then child by child in byte order. */
    method Collect(node: nat, ghost p: Name, found: seq<Allocated>, ghost depth: nat)
      returns (all: seq<Allocated>, ghost keys: seq<Name>)
      requires Valid() && p in paths && paths[p] == node
      requires forall q :: q in paths ==> |q| <= depth
      ensures Increasing(keys) && forall k :: k in keys <==> k in files && p <= k
      ensures all == found + Listed(files, keys)
      decreases depth - |p|, 1
    {
      all, keys := found, [];
      if nodes[node].record.Some? {
        all, keys := found + [nodes[node].record.value], [p];
      }
      OwnFirst(files, p, keys);
      for c := 0 to ALPHABET
        invariant Collected(files, p, c, keys)
        invariant all == found + Listed(files, keys)
      {
        all, keys := CollectChild(node, p, c, found, all, keys, depth);
      }
    }

    /** One turn of the loop over the children. */
    method CollectChild(node: nat, ghost p: Name, c: Byte, ghost found: seq<Allocated>, before: seq<Allocated>,
                        ghost seen: seq<Name>, ghost depth: nat)
      returns (all: seq<Allocated>, ghost keys: seq<Name>)
      requires Valid() && p in paths && paths[p] == node
      requires forall q :: q in paths ==> |q| <= depth
      requires Collected(files, p, c, seen) && before == found + Listed(files, seen)
      ensures Collected(files, p, c + 1, keys) && all == found + Listed(files, keys)
      decreases depth - |p|, 0
    {
      all, keys := before, seen;
      var child := nodes[node].children[c];
      assert child == ChildNumber(paths, p, c);
      if child != NULL {
        ghost var more;
        all, more := Collect(child, Extend(p, c), before, depth);
        NextChild(files, p, c, seen, more);
        ListedMore(files, found, seen, before, more);
        keys := seen + more;
      } else {
        NoChild(nodes, paths, names, files, p, c, seen);
      }
    }

    /** Every record exactly once, in increasing order of name. */
    method GetAll() returns (all: seq<Allocated>, ghost keys: seq<Name>)
      requires Valid()
      ensures Increasing(keys) && forall k :: k in keys <==> k in files
      ensures all == Listed(files, keys) && |all| == fileCount
    {
      ghost var depth := MaxLength(paths.Keys);
      all, keys := Collect(0, [], [], depth);
      CountKeys(keys, files.Keys);
    }
  }

  // ----- listing

  /** Lexicographic order of unsigned bytes. */
  ghost predicate Less(a: Name, b: Name) {
    exists i :: 0 <= i <= |a| && i < |b| && a[..i] == b[..i] && (i == |a| || a[i] < b[i])
  }

  ghost predicate Increasing(keys: seq<Name>) {
    forall x, y :: 0 <= x < y < |keys| ==> Less(keys[x], keys[y])
  }

  /** Names below p whose next byte is below c, and p itself. */
  predicate Before(p: Name, c: int, k: Name) {
    p <= k && (|k| == |p| || k[|p|] < c)
  }

  /** keys lists, in order, the names of files that come before byte c below p. */
  ghost predicate Collected(files: map<Name, Allocated>, p: Name, c: int, keys: seq<Name>) {
    Increasing(keys) && forall k :: k in keys <==> k in files && Before(p, c, k)
  }

  ghost function Listed(files: map<Name, Allocated>, keys: seq<Name>): seq<Allocated>
    requires forall k :: k in keys ==> k in files
  {
    seq(|keys|, i requires 0 <= i < |keys| => files[keys[i]])
  }

  lemma {:induction false} ListedMore(files: map<Name, Allocated>, found: seq<Allocated>, seen: seq<Name>,
                                      before: seq<Allocated>, more: seq<Name>)
    requires (forall k :: k in seen ==> k in files) && (forall k :: k in more ==> k in files)
    requires before == found + Listed(files, seen)
    ensures forall k :: k in seen + more ==> k in files
    ensures before + Listed(files, more) == found + Listed(files, seen + more)
  {
    assert Listed(files, seen + more) == Listed(files, seen) + Listed(files, more);
  }

  lemma {:induction false} OwnFirst(files: map<Name, Allocated>, p: Name, keys: seq<Name>)
    requires keys == if p in files then [p] else []
    ensures Collected(files, p, 0, keys)
  {
    assert forall k :: Before(p, 0, k) ==> k == p;
  }

  lemma {:induction false} NoChild(nodes: seq<TrieNode>, paths: map<Name, nat>, names: seq<Name>,
                                   files: map<Name, Allocated>, p: Name, c: Byte, keys: seq<Name>)
    requires Linked(nodes, paths, names) && Recorded(nodes, paths, files) && Extend(p, c) !in paths
    requires Collected(files, p, c, keys)
    ensures Collected(files, p, c + 1, keys)
  {
    forall k | k in files && Before(p, c + 1, k) ensures Before(p, c, k) {
      if |k| > |p| && k[|p|] == c {
        assert k[..|p| + 1] == Extend(p, c);
        PrefixesPresent(paths, names, k, |p| + 1);
        assert false;
      }
    }
  }

  lemma {:induction false} NextChild(files: map<Name, Allocated>, p: Name, c: Byte, before: seq<Name>, more: seq<Name>)
    requires Collected(files, p, c, before)
    requires Increasing(more) && forall k :: k in more <==> k in files && Extend(p, c) <= k
    ensures Collected(files, p, c + 1, before + more)
  {
    var keys := before + more;
    forall x, y | 0 <= x < |before| <= y < |keys| ensures Less(keys[x], keys[y]) {
      assert keys[x] in before && keys[y] in more;
      assert keys[x][..|p|] == p && keys[y][..|p|] == p;
    }
    forall k | k in files && Before(p, c + 1, k) ensures k in keys {
      assert |k| > |p| && k[|p|] == c ==> Extend(p, c) <= k;
    }
  }

  ghost function MaxLength(s: set<Name>): (n: nat)
    ensures forall p :: p in s ==> |p| <= n
  {
    if s == {} then 0
    else
      var p :| p in s;
      var n := MaxLength(s - {p});
      if |p| > n then |p| else n
  }

  /** A strictly increasing list has as many entries as the set it lists. */
  lemma {:induction false} CountKeys(keys: seq<Name>, s: set<Name>)
    requires Increasing(keys) && forall k :: k in keys <==> k in s
    ensures |keys| == |s|
    decreases |keys|
  {
    if keys != [] {
      var last := keys[|keys| - 1];
      var init := keys[..|keys| - 1];
      assert keys == init + [last];
      forall x | 0 <= x < |init| ensures init[x] != last {
        assert Less(keys[x], keys[|keys| - 1]);
      }
      CountKeys(init, s - {last});
    } else {
      assert s == {};
    }
  }

  lemma {:induction false} FilesPut(files: map<Name, Allocated>, name: Name, r: Allocated)
    ensures |files[name := r]| == |files| + (if name in files then 0 else 1)
    ensures Contents(files[name := r]) == Contents(files)[name := r.record]
  {
    if name in files {
      assert files == (files - {name})[name := files[name]];
      assert files[name := r] == (files - {name})[name := r];
    }
  }

  lemma {:induction false} FilesCleared(files: map<Name, Allocated>, name: Name)
    ensures |files - {name}| == |files| - (if name in files then 1 else 0)
    ensures Contents(files - {name}) == Contents(files) - {name}
    ensures name !in files ==> files - {name} == files
  {
    if name in files {
      assert files == (files - {name})[name := files[name]];
    }
  }

  // ----- the trie as a value

  lemma {:induction false} PrefixesPresent(paths: map<Name, nat>, names: seq<Name>, p: Name, i: nat)
    requires Rooted(paths, names) && i <= |p|
    ensures p in paths ==> p[..i] in paths
    decreases |p| - i
  {
    if i < |p| {
      PrefixesPresent(paths, names, p, i + 1);
      assert Parent(p[..i + 1]) == p[..i];
    } else {
      assert p[..i] == p;
    }
  }

  /** One step down the trie. */
  lemma {:induction false} Down(nodes: seq<TrieNode>, paths: map<Name, nat>, names: seq<Name>, name: Name, i: nat)
    requires Linked(nodes, paths, names) && i < |name| && name[..i] in paths
    ensures |nodes[paths[name[..i]]].children| == ALPHABET
    ensures nodes[paths[name[..i]]].children[name[i]] == if name[..i + 1] in paths then paths[name[..i + 1]] else NULL
    ensures name[..i + 1] !in paths ==> name !in paths
  {
    ExtendPrefix(name, i);
    assert nodes[paths[name[..i]]].children[name[i]] == ChildNumber(paths, name[..i], name[i]);
    PrefixesPresent(paths, names, name, i + 1);
  }

  /** The nodes after hanging a new one below a node at byte c. */
  function WithChild(nodes: seq<TrieNode>, node: nat, c: Byte): seq<TrieNode>
    requires node < |nodes| && |nodes[node].children| == ALPHABET
  {
    nodes[node := nodes[node].(children := nodes[node].children[c := |nodes|])] + [EmptyNode()]
  }

  /** A new leaf changes one child slot and nothing else. */
  lemma {:induction false} ChildAdded(nodes: seq<TrieNode>, paths: map<Name, nat>, names: seq<Name>,
                                      files: map<Name, Allocated>, p: Name, c: Byte)
    requires Linked(nodes, paths, names) && Recorded(nodes, paths, files) && p in paths && Extend(p, c) !in paths
    ensures var paths', nodes' := paths[Extend(p, c) := |nodes|], WithChild(nodes, paths[p], c);
            Linked(nodes', paths', names + [Extend(p, c)]) && Recorded(nodes', paths', files)
  {
    ExtendInjective();
    var nodes', paths' := WithChild(nodes, paths[p], c), paths[Extend(p, c) := |nodes|];
    forall q, d: Byte | q in paths' ensures nodes'[paths'[q]].children[d] == ChildNumber(paths', q, d) {
      assert Parent(Extend(q, d)) == q;
      assert q in paths ==> nodes[paths[q]].children[d] == ChildNumber(paths, q, d);
    }
  }

  lemma {:induction false} RecordPut(nodes: seq<TrieNode>, paths: map<Name, nat>, names: seq<Name>,
                                     files: map<Name, Allocated>, p: Name, r: Option<Allocated>)
    requires Linked(nodes, paths, names) && Recorded(nodes, paths, files) && p in paths
    ensures var nodes' := nodes[paths[p] := nodes[paths[p]].(record := r)];
            && Linked(nodes', paths, names)
            && Recorded(nodes', paths, if r.None? then files - {p} else files[p := r.value])
  {
    var nodes' := nodes[paths[p] := nodes[paths[p]].(record := r)];
    forall q, d: Byte | q in paths ensures nodes'[paths[q]].children[d] == ChildNumber(paths, q, d) {
      assert nodes[paths[q]].children[d] == ChildNumber(paths, q, d);
    }
  }

  // ----- paths

  function Extend(p: Name, c: Byte): Name {
    p + [c]
  }

  function Parent(p: Name): Name
    requires p != []
  {
    p[..|p| - 1]
  }

  lemma {:induction false} ExtendInjective()
    ensures forall p, q, c: Byte, d: Byte :: Extend(p, c) == Extend(q, d) ==> p == q && c == d
    ensures forall p, c: Byte :: Parent(Extend(p, c)) == p
  {
    forall p, c: Byte ensures Parent(Extend(p, c)) == p {
      assert (p + [c])[..|p|] == p;
    }
    forall p, q, c: Byte, d: Byte | Extend(p, c) == Extend(q, d) ensures p == q && c == d {
      assert Parent(Extend(p, c)) == p && Parent(Extend(q, d)) == q;
      assert Extend(p, c)[|p|] == c && Extend(q, d)[|q|] == d;
    }
  }

  lemma {:induction false} ExtendPrefix(name: Name, i: nat)
    requires i < |name|
    ensures name[..i + 1] == Extend(name[..i], name[i])
  {
  }
}
