/** The name server's look-up cache: a doubly linked list, most recently used first. Each method is proved against a
    function on the list of items; that the cache agrees with the index is proved where both are used. */
module LruCache {
  import opened Text
  import opened FileIndex

  /** What a cache entry says: this name's record is at this address. */
  datatype Item = Item(name: Name, address: nat)

  // ----- specification: a list of items

  predicate DistinctNames(items: seq<Item>) {
    forall i, j :: 0 <= i < j < |items| ==> items[i].name != items[j].name
  }

  /** Position of the name, or the length of the list. */
  function Position(items: seq<Item>, name: Name): (k: nat)
    ensures k <= |items|
    ensures k < |items| ==> items[k].name == name
    ensures forall i :: 0 <= i < k ==> items[i].name != name
  {
    if items == [] || items[0].name == name then 0 else 1 + Position(items[1..], name)
  }

  function Omit(items: seq<Item>, k: nat): seq<Item>
    requires k < |items|
  {
    items[..k] + items[k + 1..]
  }

  function Drop(items: seq<Item>, name: Name): seq<Item> {
    var k := Position(items, name);
    if k == |items| then items else Omit(items, k)
  }

  /** The list after a look-up of name, for which the index would answer found. */
  function Fetched(items: seq<Item>, name: Name, found: Option<nat>, capacity: nat): seq<Item> {
    var k := Position(items, name);
    if k < |items| then [items[k]] + Omit(items, k)
    else if found.None? then items
    else [Item(name, found.value)] + (if |items| >= capacity && items != [] then items[..|items| - 1] else items)
  }

  /** The answer: the cached address if there is one. */
  function Answer(items: seq<Item>, name: Name, found: Option<nat>): Option<nat> {
    var k := Position(items, name);
    if k < |items| then Some(items[k].address) else found
  }

  // ----- the list

  class Entry {
    const item: Item
    var prev: Entry?
    var next: Entry?

    constructor (item: Item)
      ensures this.item == item && prev == null && next == null
    {
      this.item := item;
      prev, next := null, null;
    }
  }

  class Cache {
    const capacity: nat
    var head: Entry?
    var tail: Entry?
    var size: nat
    ghost var Entries: seq<Entry>

    /** Linked both ways, ends marked by null. */
    ghost predicate Linked()
      reads this, Entries
    {
      && (|Entries| == 0 ==> head == null && tail == null)
      && (|Entries| > 0 ==>
            && head == Entries[0] && tail == Entries[|Entries| - 1]
            && Entries[0].prev == null && Entries[|Entries| - 1].next == null)
      && (forall i {:trigger Entries[i].prev} :: 1 <= i < |Entries| ==> Entries[i].prev == Entries[i - 1])
      && (forall i {:trigger Entries[i].next} :: 0 <= i < |Entries| - 1 ==> Entries[i].next == Entries[i + 1])
    }

    ghost predicate Distinct()
      reads this
    {
      forall i, j :: 0 <= i < j < |Entries| ==> Entries[i] != Entries[j]
    }

    ghost predicate Valid()
      reads this, Entries
    {
      Linked() && Distinct() && size == |Entries| && capacity > 0
    }

    /** The list as values, most recently used first. */
    ghost function Items(): (r: seq<Item>)
      reads this
      ensures |r| == |Entries|
    {
      seq(|Entries|, i requires 0 <= i < |Entries| reads this => Entries[i].item)
    }

    constructor (capacity: nat)
      requires capacity > 0
      ensures Valid() && Items() == [] && Entries == [] && this.capacity == capacity
    {
      this.capacity := capacity;
      head, tail, size := null, null, 0;
      Entries := [];
    }

    method RemoveEntry(entry: Entry, ghost k: nat)
      requires Valid() && k < |Entries| && Entries[k] == entry
      modifies this, Entries
      ensures Valid() && Entries == old(Entries)[..k] + old(Entries)[k + 1..]
      ensures Items() == Omit(old(Items()), k)
    {
      assert k > 0 ==> Entries[k].prev == Entries[k - 1];
      assert k < |Entries| - 1 ==> Entries[k].next == Entries[k + 1];
      if entry.prev != null {
        entry.prev.next := entry.next;
      } else {
        head := entry.next;
      }
      if entry.next != null {
        entry.next.prev := entry.prev;
      } else {
        tail := entry.prev;
      }
      size := size - 1;
      Entries := Entries[..k] + Entries[k + 1..];
    }

    method AddToFront(entry: Entry)
      requires Valid() && entry !in Entries
      modifies this, Entries, entry
      ensures Valid() && Entries == [entry] + old(Entries)
      ensures Items() == [entry.item] + old(Items())
    {
      entry.prev := null;
      entry.next := head;
      if head != null {
        head.prev := entry;
      }
      head := entry;
      if tail == null {
        tail := entry;
      }
      size := size + 1;
      Entries := [entry] + Entries;
    }

    /** Entries other than the old ones are newly allocated. */
    twostate predicate Grows()
      reads this
    {
      forall e :: e in Entries ==> e in old(Entries) || fresh(e)
    }

    twostate predicate Shrinks()
      reads this
    {
      forall e :: e in Entries ==> e in old(Entries)
    }

    /** Walk the list from its head. */
    method Find(name: Name) returns (entry: Entry?, ghost k: nat)
      requires Valid()
      ensures k == Position(Items(), name)
      ensures entry == if k < |Entries| then Entries[k] else null
    {
      entry, k := head, 0;
      ghost var items := Items();
      assert items[0..] == items;
      while entry != null
        invariant k <= |Entries| && entry == (if k < |Entries| then Entries[k] else null)
        invariant Position(items, name) == k + Position(items[k..], name)
        decreases |Entries| - k
      {
        assert items[k] == entry.item;
        if entry.item.name == name {
          return;
        }
        assert items[k..][1..] == items[k + 1..];
        assert k < |Entries| - 1 ==> Entries[k].next == Entries[k + 1];
        entry, k := entry.next, k + 1;
      }
    }

    /** A hit moves the entry to the front; a miss asks the index and caches the answer, evicting the tail if full. */
    method Get(index: Index, name: Name) returns (r: Option<nat>)
      requires Valid() && index.Valid()
      modifies this, Entries
      ensures Valid() && Grows()
      ensures var found := if name in index.files then Some(index.files[name].address) else None;
              && r == Answer(old(Items()), name, found)
              && Items() == Fetched(old(Items()), name, found, capacity)
    {
      ghost var k;
      var entry;
      entry, k := Find(name);
      if entry != null {
        MoveToFront(entry, k);
        return Some(entry.item.address);
      }
      var record := index.Lookup(name);
      if record.None? {
        return None;
      }
      Insert(Item(name, record.value.address));
      return Some(record.value.address);
    }

    method MoveToFront(entry: Entry, ghost k: nat)
      requires Valid() && k < |Entries| && Entries[k] == entry
      modifies this, Entries
      ensures Valid() && Grows()
      ensures Items() == [entry.item] + Omit(old(Items()), k)
    {
      RemoveEntry(entry, k);
      AddToFront(entry);
    }

    /** A new entry in front, the last one evicted if the cache is full. */
    method Insert(item: Item)
      requires Valid()
      modifies this, Entries
      ensures Valid() && Grows()
      ensures var items := old(Items());
              Items() == [item] + (if |items| >= capacity && items != [] then items[..|items| - 1] else items)
    {
      var entry := new Entry(item);
      if size >= capacity && tail != null {
        RemoveEntry(tail, |Entries| - 1);
      }
      AddToFront(entry);
    }

    method Invalidate(name: Name)
      requires Valid()
      modifies this, Entries
      ensures Valid() && Shrinks()
      ensures Items() == Drop(old(Items()), name)
    {
      ghost var k;
      var entry;
      entry, k := Find(name);
      if entry != null {
        RemoveEntry(entry, k);
      }
    }
  }
}
