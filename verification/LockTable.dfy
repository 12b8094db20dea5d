/** The server's list of locked sentences. */
module LockTable {
  import opened Text

  /** version is the file's modification time when the lock was granted. */
  datatype LockEntry = LockEntry(file: string, sentence: nat, version: int)

  predicate IsFor(e: LockEntry, file: string, sentence: nat) {
    e.file == file && e.sentence == sentence
  }

  /** The version in the first entry for this sentence. */
  function VersionOf(entries: seq<LockEntry>, file: string, sentence: nat): Option<int> {
    if entries == [] then None
    else if IsFor(entries[0], file, sentence) then Some(entries[0].version)
    else VersionOf(entries[1..], file, sentence)
  }

  /** The list without its first entry for this sentence. */
  function Without(entries: seq<LockEntry>, file: string, sentence: nat): seq<LockEntry> {
    if entries == [] then []
    else if IsFor(entries[0], file, sentence) then entries[1..]
    else [entries[0]] + Without(entries[1..], file, sentence)
  }

  predicate DistinctKeys(entries: seq<LockEntry>) {
    forall a, b :: 0 <= a < b < |entries| ==> !IsFor(entries[a], entries[b].file, entries[b].sentence)
  }

  // ----- the list

  class LockNode {
    const entry: LockEntry
    var next: LockNode?

    constructor (entry: LockEntry, next: LockNode?)
      ensures this.entry == entry && this.next == next
    {
      this.entry := entry;
      this.next := next;
    }
  }

  class SentenceLocks {
    var head: LockNode?
    ghost var nodes: seq<LockNode>

    /** Node i, or null past the end. */
    ghost function NodeAt(i: nat): LockNode?
      reads this
    {
      if i < |nodes| then nodes[i] else null
    }

    /** The list from head on runs through nodes, no node twice. */
    ghost predicate Valid()
      reads this, nodes
    {
      && head == NodeAt(0)
      && (forall i {:trigger nodes[i].next} :: 0 <= i < |nodes| ==> nodes[i].next == NodeAt(i + 1))
      && (forall i, j :: 0 <= i < j < |nodes| ==> nodes[i] != nodes[j])
    }

    /** The list as values. */
    ghost function Entries(): (r: seq<LockEntry>)
      reads this
      ensures |r| == |nodes|
    {
      seq(|nodes|, i requires 0 <= i < |nodes| reads this => nodes[i].entry)
    }

    constructor ()
      ensures Valid() && Entries() == [] && nodes == []
    {
      head := null;
      nodes := [];
    }

    /** Walk the list from its head to the first entry for this sentence. */
    method Find(file: string, sentence: nat) returns (prev: LockNode?, node: LockNode?, ghost k: nat)
      requires Valid()
      ensures k <= |nodes| && node == NodeAt(k)
      ensures prev == if 0 < k <= |nodes| then nodes[k - 1] else null
      ensures FirstFor(Entries(), file, sentence) == k
    {
      prev, node, k := null, head, 0;
      ghost var entries := Entries();
      assert entries[0..] == entries;
      while node != null
        invariant k <= |nodes| && node == NodeAt(k)
        invariant prev == if 0 < k <= |nodes| then nodes[k - 1] else null
        invariant FirstFor(entries, file, sentence) == k + FirstFor(entries[k..], file, sentence)
        decreases |nodes| - k
      {
        assert entries[k] == node.entry;
        if node.entry.file == file && node.entry.sentence == sentence {
          return;
        }
        assert entries[k..][1..] == entries[k + 1..];
        prev, node, k := node, node.next, k + 1;
      }
    }

    method IsSentenceLocked(file: string, sentence: nat) returns (locked: bool)
      requires Valid()
      ensures locked == VersionOf(Entries(), file, sentence).Some?
    {
      var prev, node;
      ghost var k;
      prev, node, k := Find(file, sentence);
      FirstIs(Entries(), file, sentence);
      return node != null;
    }

    method GetLockedVersion(file: string, sentence: nat) returns (version: Option<int>)
      requires Valid()
      ensures version == VersionOf(Entries(), file, sentence)
    {
      var prev, node;
      ghost var k;
      prev, node, k := Find(file, sentence);
      FirstIs(Entries(), file, sentence);
      return if node == null then None else Some(node.entry.version);
    }

    /** A new node in front. Its version is found from now on, the other sentences' versions stay, and if the sentence
        was not locked no key occurs twice. */
    method AddSentenceLock(file: string, sentence: nat, version: int)
      requires Valid()
      modifies this
      ensures Valid() && Entries() == [LockEntry(file, sentence, version)] + old(Entries())
      ensures fresh(nodes[0]) && nodes[1..] == old(nodes)
      ensures VersionOf(Entries(), file, sentence) == Some(version)
      ensures forall g, j :: g != file || j != sentence ==>
                VersionOf(Entries(), g, j) == VersionOf(old(Entries()), g, j)
      ensures DistinctKeys(old(Entries())) && VersionOf(old(Entries()), file, sentence).None? ==>
                DistinctKeys(Entries())
    {
      ghost var before := Entries();
      AddedKeeps(before, LockEntry(file, sentence, version));
      var node := new LockNode(LockEntry(file, sentence, version), head);
      head := node;
      nodes := [node] + nodes;
      assert Entries() == [LockEntry(file, sentence, version)] + before;
    }

    /** The first node for the sentence is unlinked; the other nodes and their order stay. */
    method RemoveSentenceLock(file: string, sentence: nat)
      requires Valid()
      modifies this, nodes
      ensures Valid() && Entries() == Without(old(Entries()), file, sentence)
      ensures forall n :: n in nodes ==> n in old(nodes)
    {
      var prev, node;
      ghost var k;
      prev, node, k := Find(file, sentence);
      FirstIs(Entries(), file, sentence);
      if node != null {
        Unlink(prev, node, k);
      }
    }

    method Unlink(prev: LockNode?, node: LockNode, ghost k: nat)
      requires Valid() && k < |nodes| && node == nodes[k] && prev == if k > 0 then nodes[k - 1] else null
      modifies this, nodes
      ensures Valid() && nodes == old(nodes)[..k] + old(nodes)[k + 1..]
      ensures Entries() == old(Entries())[..k] + old(Entries())[k + 1..]
    {
      if prev == null {
        head := node.next;
      } else {
        prev.next := node.next;
      }
      nodes := nodes[..k] + nodes[k + 1..];
    }
  }

  // ----- the specification

  /** Index of the first entry for this sentence, or the length. */
  function FirstFor(entries: seq<LockEntry>, file: string, sentence: nat): nat {
    if entries == [] || IsFor(entries[0], file, sentence) then 0 else 1 + FirstFor(entries[1..], file, sentence)
  }

  lemma {:induction false} FirstIs(entries: seq<LockEntry>, file: string, sentence: nat)
    ensures var k := FirstFor(entries, file, sentence);
            && k <= |entries|
            && VersionOf(entries, file, sentence) == (if k < |entries| then Some(entries[k].version) else None)
            && Without(entries, file, sentence) == (if k < |entries| then entries[..k] + entries[k + 1..] else entries)
    decreases |entries|
  {
    if entries != [] && !IsFor(entries[0], file, sentence) {
      var rest := entries[1..];
      FirstIs(rest, file, sentence);
      var k := FirstFor(rest, file, sentence);
      assert entries == [entries[0]] + rest;
      if k < |rest| {
        assert entries[..k + 1] == [entries[0]] + rest[..k] && entries[k + 2..] == rest[k + 1..];
      }
    }
  }

  lemma {:induction false} AddedKeeps(entries: seq<LockEntry>, e: LockEntry)
    ensures VersionOf([e] + entries, e.file, e.sentence) == Some(e.version)
    ensures forall g, j :: g != e.file || j != e.sentence ==> VersionOf([e] + entries, g, j) == VersionOf(entries, g, j)
    ensures DistinctKeys(entries) && VersionOf(entries, e.file, e.sentence).None? ==> DistinctKeys([e] + entries)
  {
    assert ([e] + entries)[1..] == entries;
    FoundExactly(entries, e.file, e.sentence);
  }

  /** A version is found exactly when some entry is for the sentence. */
  lemma {:induction false} FoundExactly(entries: seq<LockEntry>, file: string, sentence: nat)
    ensures VersionOf(entries, file, sentence).Some?
       <==> exists k :: 0 <= k < |entries| && IsFor(entries[k], file, sentence)
    decreases |entries|
  {
    if entries != [] {
      var rest := entries[1..];
      FoundExactly(rest, file, sentence);
      assert forall k :: 0 < k < |entries| ==> entries[k] == rest[k - 1];
      assert forall k :: 0 <= k < |rest| ==> rest[k] == entries[k + 1];
      if VersionOf(rest, file, sentence).Some? {
        var k :| 0 <= k < |rest| && IsFor(rest[k], file, sentence);
        assert IsFor(entries[k + 1], file, sentence);
      }
    }
  }

  /** With distinct keys, removal takes out exactly the one entry for the sentence. */
  lemma {:induction false} WithoutIsExact(entries: seq<LockEntry>, file: string, sentence: nat)
    requires DistinctKeys(entries) && VersionOf(entries, file, sentence).Some?
    ensures DistinctKeys(Without(entries, file, sentence))
    ensures |Without(entries, file, sentence)| == |entries| - 1
    ensures forall e :: e in Without(entries, file, sentence) <==> e in entries && !IsFor(e, file, sentence)
    decreases |entries|
  {
    var rest := entries[1..];
    assert entries == [entries[0]] + rest;
    assert forall k :: 0 <= k < |rest| ==> rest[k] == entries[k + 1];
    if !IsFor(entries[0], file, sentence) {
      WithoutIsExact(rest, file, sentence);
      var less := Without(rest, file, sentence);
      forall b | 0 < b < |less| + 1
        ensures !IsFor(entries[0], ([entries[0]] + less)[b].file, ([entries[0]] + less)[b].sentence)
      {
        assert less[b - 1] in rest;
      }
    }
  }

  /** The other sentences keep their versions. */
  lemma {:induction false} WithoutKeepsOthers(entries: seq<LockEntry>, file: string, sentence: nat, g: string, j: nat)
    requires g != file || j != sentence
    ensures VersionOf(Without(entries, file, sentence), g, j) == VersionOf(entries, g, j)
    decreases |entries|
  {
    if entries != [] && !IsFor(entries[0], file, sentence) {
      WithoutKeepsOthers(entries[1..], file, sentence, g, j);
      assert ([entries[0]] + Without(entries[1..], file, sentence))[1..] == Without(entries[1..], file, sentence);
    }
  }
}
