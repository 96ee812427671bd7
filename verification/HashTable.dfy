/** The chained hash table of lib/common/hash.c. */
module HashTable {
  import opened Bits
  import opened Collections
  import opened Strings
  import opened HashSpec

  /** PiHashEntry. */
  class Entry {
    var key: PiString
    var value: Word
    var next: Entry?

    constructor (key: PiString, value: Word)
      ensures this.key == key && this.value == value && next == null
    {
      this.key, this.value, next := key, value, null;
    }
  }

  ghost function At(c: seq<Entry>, j: nat): Entry? { if j < |c| then c[j] else null }

  /** `c` is the chain that starts at `head`. */
  ghost predicate Chain(head: Entry?, c: seq<Entry>)
    reads c`next
  {
    && head == At(c, 0)
    && (forall j {:trigger c[j].next} :: 0 <= j < |c| ==> c[j].next == At(c, j + 1))
  }

  /** The bucket a key belongs to. */
  function Slot(hash: Hash, capacity: nat): nat { if capacity > 0 then BucketIndex(hash, capacity) else 0 }

  /** Every key outside `todo` is filed once, in the chain of its slot, and nothing else is. */
  ghost predicate Filed(entries: map<Key, Entry>, nodes: set<Entry>, chains: seq<seq<Entry>>, todo: set<Key>)
    reads nodes`key
  {
    && (forall k :: k in entries ==> entries[k] in nodes && entries[k].key.chars == k && entries[k].key.Hashed())
    && (forall e :: e in nodes ==> e.key.chars in entries && entries[e.key.chars] == e)
    && (forall k :: k in entries && k !in todo ==>
          var i := Slot(entries[k].key.hash, |chains|); i < |chains| && entries[k] in chains[i])
    && (forall i :: 0 <= i < |chains| ==> Distinct(chains[i]))
    && (forall i, e :: 0 <= i < |chains| && e in chains[i] ==>
          e in nodes && e.key.chars !in todo && Slot(e.key.hash, |chains|) == i)
  }

  ghost predicate Linked(buckets: array<Entry?>, chains: seq<seq<Entry>>, nodes: set<Entry>)
    reads buckets, nodes`next
  {
    && buckets.Length == |chains|
    && forall i :: 0 <= i < |chains| ==> (forall e :: e in chains[i] ==> e in nodes) && Chain(buckets[i], chains[i])
  }

  /** Entry e at the head of chain i. */
  ghost function Pushed(chains: seq<seq<Entry>>, i: nat, e: Entry): seq<seq<Entry>>
    requires i < |chains|
  {
    chains[i := [e] + chains[i]]
  }

  /** Chain i without position j. */
  ghost function Bypassed(chains: seq<seq<Entry>>, i: nat, j: nat): seq<seq<Entry>>
    requires i < |chains| && j < |chains[i]|
  {
    chains[i := chains[i][..j] + chains[i][j + 1..]]
  }

  lemma ChainCons(e: Entry, c: seq<Entry>)
    requires e !in c && Chain(e.next, c)
    ensures Chain(e, [e] + c)
  {
  }

  lemma DistinctCons(e: Entry, c: seq<Entry>)
    requires e !in c && Distinct(c)
    ensures Distinct([e] + c)
  {
  }

  lemma FiledPush(entries: map<Key, Entry>, nodes: set<Entry>, chains: seq<seq<Entry>>, todo: set<Key>, e: Entry,
                  b: nat)
    requires Filed(entries, nodes, chains, todo) && b == Slot(e.key.hash, |chains|) < |chains|
    requires e.key.chars in todo && e.key.chars in entries && entries[e.key.chars] == e
    ensures Filed(entries, nodes, Pushed(chains, b, e), todo - {e.key.chars})
    ensures forall i :: 0 <= i < |chains| ==> e !in chains[i]
  {
    hide HashOf, Distinct, Slot;
    DistinctCons(e, chains[b]);
  }

  // ---- The keys a rehash has still to move ----

  /** Those of chain i from position j on, and those of the later chains. */
  ghost function Left(entries: map<Key, Entry>, nodes: set<Entry>, chains: seq<seq<Entry>>, i: nat, j: nat): set<Key>
    reads nodes`key
  {
    set k | k in entries && entries[k] in nodes &&
      var s := Slot(entries[k].key.hash, |chains|);
      s > i || (s == i < |chains| && j <= |chains[i]| && entries[k] in chains[i][j..])
  }

  lemma EntryOf(entries: map<Key, Entry>, nodes: set<Entry>, chains: seq<seq<Entry>>, todo: set<Key>, e: Entry)
    requires Filed(entries, nodes, chains, todo) && e in nodes
    ensures e.key.chars in entries && entries[e.key.chars] == e && e.key.Hashed()
  {
  }

  lemma LeftStep(entries: map<Key, Entry>, nodes: set<Entry>, chains: seq<seq<Entry>>, i: nat, j: nat)
    requires Filed(entries, nodes, chains, {}) && i < |chains| && j < |chains[i]|
    ensures var k := chains[i][j].key.chars;
      && k in entries && k in Left(entries, nodes, chains, i, j) && entries[k] == chains[i][j] && chains[i][j] in nodes
      && Left(entries, nodes, chains, i, j + 1) == Left(entries, nodes, chains, i, j) - {k}
  {
    var c, e := chains[i], chains[i][j];
    EntryOf(entries, nodes, chains, {}, e);
    assert c[j..] == [e] + c[j + 1..];
    assert e !in c[j + 1..];
  }

  lemma LeftNext(entries: map<Key, Entry>, nodes: set<Entry>, chains: seq<seq<Entry>>, i: nat)
    requires Filed(entries, nodes, chains, {}) && i < |chains|
    ensures Left(entries, nodes, chains, i, |chains[i]|) == Left(entries, nodes, chains, i + 1, 0)
  {
    if i + 1 < |chains| { assert chains[i + 1][0..] == chains[i + 1]; }
  }

  lemma LeftEnds(entries: map<Key, Entry>, nodes: set<Entry>, chains: seq<seq<Entry>>)
    requires Filed(entries, nodes, chains, {}) && |chains| > 0
    ensures Left(entries, nodes, chains, 0, 0) == entries.Keys && Left(entries, nodes, chains, |chains|, 0) == {}
  {
    assert chains[0][0..] == chains[0];
  }

  // ---- Chain surgery ----

  lemma LinkedMore(buckets: array<Entry?>, chains: seq<seq<Entry>>, nodes: set<Entry>, nodes': set<Entry>)
    requires Linked(buckets, chains, nodes) && nodes <= nodes'
    ensures Linked(buckets, chains, nodes')
  {
  }

  lemma InNodes(buckets: array<Entry?>, chains: seq<seq<Entry>>, nodes: set<Entry>, i: nat)
    requires Linked(buckets, chains, nodes) && i < |chains|
    ensures buckets.Length == |chains| && Chain(buckets[i], chains[i]) && forall e :: e in chains[i] ==> e in nodes
  {
  }

  lemma NextOf(buckets: array<Entry?>, chains: seq<seq<Entry>>, nodes: set<Entry>, i: nat, j: nat)
    requires Linked(buckets, chains, nodes) && i < |chains| && j < |chains[i]|
    ensures if j + 1 < |chains[i]| then chains[i][j].next == chains[i][j + 1]
            else chains[i][j].next == null && chains[i][j + 1..] == []
  {
  }

  lemma ChainsOf(buckets: array<Entry?>, chains: seq<seq<Entry>>, nodes: set<Entry>)
    requires Linked(buckets, chains, nodes)
    ensures buckets.Length == |chains| && forall i :: 0 <= i < |chains| ==> Chain(buckets[i], chains[i])
    ensures forall i, e :: 0 <= i < |chains| && e in chains[i] ==> e in nodes
  {
  }

  /** Push an entry on chain i. */
  method LinkHead(buckets: array<Entry?>, ghost chains: seq<seq<Entry>>, i: nat, entry: Entry, ghost nodes: set<Entry>)
    requires Linked(buckets, chains, nodes) && i < buckets.Length && entry in nodes
    requires forall l :: 0 <= l < |chains| ==> entry !in chains[l]
    modifies buckets, entry`next
    ensures Linked(buckets, Pushed(chains, i, entry), nodes)
  {
    entry.next := buckets[i];
    buckets[i] := entry;
    ChainCons(entry, chains[i]);
  }

  /** Bypass position j of chain i. */
  method UnlinkAt(buckets: array<Entry?>, ghost chains: seq<seq<Entry>>, i: nat, ghost j: nat, entry: Entry,
                  prev: Entry?, ghost nodes: set<Entry>)
    requires Linked(buckets, chains, nodes) && i < buckets.Length && j < |chains[i]| && entry == chains[i][j]
    requires prev == if j == 0 then null else chains[i][j - 1]
    requires Distinct(chains[i]) && forall l, e :: 0 <= l < |chains| && l != i && e in chains[l] ==> e !in chains[i]
    modifies buckets, nodes`next
    ensures Linked(buckets, Bypassed(chains, i, j), nodes - {entry})
  {
    ghost var c := chains[i];
    DistinctRemove(c, j);
    if prev != null { prev.next := entry.next; } else { buckets[i] := entry.next; }
    ghost var c' := c[..j] + c[j + 1..];
    assert forall l :: 0 <= l < |c'| ==> c'[l] == c[if l < j then l else l + 1];
    assert Chain(buckets[i], c');
    forall l | 0 <= l < |chains| && l != i ensures Chain(buckets[l], chains[l]) {
      assert old(Chain(buckets[l], chains[l]));
      forall m | 0 <= m < |chains[l]| ensures chains[l][m].next == At(chains[l], m + 1) { assert chains[l][m] !in c; }
    }
    ghost var chains' := chains[i := c'];
    forall l, e | 0 <= l < |chains'| && e in chains'[l] ensures e in nodes && e != entry {
      if l != i { assert e in chains[l] && entry in chains[i]; } else { assert e in c'; }
    }
  }

  class HashTable {
    var buckets: array<Entry?>
    var capacity: nat
    var count: nat
    /** The chains, the entry of every key, all entries, and the numbers of entries moved and of buckets
        looked into by rehashing. */
    ghost var chains: seq<seq<Entry>>
    ghost var entries: map<Key, Entry>
    ghost var nodes: set<Entry>
    ghost var relinked: nat
    ghost var scanned: nat

    ghost predicate Valid()
      reads this`buckets, this`capacity, this`count, this`chains, this`entries, this`nodes
      reads buckets, nodes`key, nodes`next
    {
      && capacity == |chains| && IsPow2(capacity) && capacity >= DEFAULT_CAPACITY
      && Filed(entries, nodes, chains, {}) && Linked(buckets, chains, nodes)
      && count == |entries| && 4 * count <= 3 * capacity
    }

    ghost function Contents(): map<Key, Word>
      reads this`entries, this`nodes, nodes`value
    {
      map k | k in entries && entries[k] in nodes :: entries[k].value
    }

    /** The table as `HashSpec` sees it. */
    ghost function Model(): Table
      reads this`capacity, this`entries, this`nodes, this`relinked, this`scanned, nodes`value
    {
      Table(capacity, Contents(), relinked, scanned)
    }

    /** piInitHashTableWithCapacity. */
    constructor (capacity: nat)
      requires capacity < WORD32
      ensures Valid() <==> capacity <= 0x8000_0000
      ensures fresh(buckets) && nodes == {} && Model() == Fresh(InitCapacity(capacity))
    {
      hide InitCapacity, IsPow2;
      var actualCapacity := InitCapacity(capacity);
      InitGood(capacity);
      buckets := new Entry?[actualCapacity](_ => null);
      this.capacity, count := actualCapacity, 0;
      chains, entries, nodes := seq(actualCapacity, _ => []), map[], {};
      relinked, scanned := 0, 0;
    }

    // ---- Rehash ----

    /** Push one entry on its new chain. */
    method Relink(entry: Entry, nb: array<Entry?>, ghost nc: seq<seq<Entry>>, ghost todo: set<Key>)
      returns (ghost nc': seq<seq<Entry>>)
      requires Filed(entries, nodes, nc, todo) && Linked(nb, nc, nodes) && IsPow2(nb.Length)
      requires entry.key.chars in todo && entry.key.chars in entries && entries[entry.key.chars] == entry
      requires entry in nodes
      modifies nb, entry`next, this`relinked
      ensures Filed(entries, nodes, nc', todo - {entry.key.chars}) && Linked(nb, nc', nodes)
      ensures |nc'| == |nc| && relinked == old(relinked) + 1
    {
      hide HashOf, BucketIndex, IsPow2, Filed;
      BucketIndexIsMod(entry.key.hash, nb.Length);
      var newIndex := BucketIndex(entry.key.hash, nb.Length);
      FiledPush(entries, nodes, nc, todo, entry, newIndex);
      LinkHead(nb, nc, newIndex, entry, nodes);
      relinked := relinked + 1;
      nc' := Pushed(nc, newIndex, entry);
    }

    /** The inner loop of pi_HashTableResize: move chain i. */
    method MoveChain(i: nat, nb: array<Entry?>, ghost nc: seq<seq<Entry>>) returns (ghost nc': seq<seq<Entry>>)
      requires i < |chains| && i < buckets.Length && Filed(entries, nodes, chains, {}) && Chain(buckets[i], chains[i])
      requires Filed(entries, nodes, nc, Left(entries, nodes, chains, i, 0)) && Linked(nb, nc, nodes)
      requires IsPow2(nb.Length) && nb != buckets
      modifies nb, this`relinked, chains[i]`next
      ensures Filed(entries, nodes, nc', Left(entries, nodes, chains, i + 1, 0)) && Linked(nb, nc', nodes)
      ensures |nc'| == |nc|
      ensures relinked ==
        old(relinked) + |Left(entries, nodes, chains, i, 0)| - |Left(entries, nodes, chains, i + 1, 0)|
    {
      hide HashOf, BucketIndex, IsPow2, Filed, Linked, Left;
      ghost var c := chains[i];
      var entry := buckets[i];
      ghost var j := 0;
      nc' := nc;
      while entry != null
        invariant j <= |c| && entry == At(c, j)
        invariant forall l {:trigger c[l].next} :: j <= l < |c| ==> c[l].next == At(c, l + 1)
        invariant Filed(entries, nodes, nc', Left(entries, nodes, chains, i, j)) && Linked(nb, nc', nodes)
        invariant |nc'| == |nc|
        invariant Filed(entries, nodes, chains, {})
        invariant relinked ==
          old(relinked) + |Left(entries, nodes, chains, i, 0)| - |Left(entries, nodes, chains, i, j)|
        decreases |c| - j
      {
        var next := entry.next;
        LeftStep(entries, nodes, chains, i, j);
        DistinctChain(entries, nodes, chains, i);
        nc' := Relink(entry, nb, nc', Left(entries, nodes, chains, i, j));
        j := j + 1;
        entry := next;
      }
      LeftNext(entries, nodes, chains, i);
    }

    /** Relinking the entries of chain i leaves the later chains as they were. */
    twostate lemma ChainsKept(new i: nat)
      requires i < |chains| == buckets.Length && buckets == old(buckets) && chains == old(chains)
      requires forall l :: 0 <= l < buckets.Length ==> buckets[l] == old(buckets[l])
      requires forall l :: i < l < |chains| ==> old(Chain(buckets[l], chains[l]))
      requires forall l, e :: i < l < |chains| && e in chains[l] ==> e !in chains[i]
      requires forall e: Entry :: old(allocated(e)) && e !in chains[i] ==> e.next == old(e.next)
      ensures forall l :: i < l < |chains| ==> Chain(buckets[l], chains[l])
    {
      forall l | i < l < |chains| ensures Chain(buckets[l], chains[l]) {
        assert forall j :: 0 <= j < |chains[l]| ==> chains[l][j] in chains[l];
      }
    }

    /** Moving chain i leaves the later chains of the old array as they were. */
    method MoveBucket(i: nat, nb: array<Entry?>, ghost nc: seq<seq<Entry>>) returns (ghost nc': seq<seq<Entry>>)
      requires i < |chains| == buckets.Length && Filed(entries, nodes, chains, {})
      requires forall l :: i <= l < |chains| ==> Chain(buckets[l], chains[l])
      requires Filed(entries, nodes, nc, Left(entries, nodes, chains, i, 0)) && Linked(nb, nc, nodes)
      requires IsPow2(nb.Length) && nb != buckets
      modifies nb, this`relinked, chains[i]`next
      ensures forall l :: i < l < |chains| ==> Chain(buckets[l], chains[l])
      ensures Filed(entries, nodes, nc', Left(entries, nodes, chains, i + 1, 0)) && Linked(nb, nc', nodes)
      ensures |nc'| == |nc|
      ensures relinked ==
        old(relinked) + |Left(entries, nodes, chains, i, 0)| - |Left(entries, nodes, chains, i + 1, 0)|
    {
      hide HashOf, BucketIndex, IsPow2, Filed, Left, Chain, Linked;
      ChainsApart(entries, nodes, chains, i);
      nc' := MoveChain(i, nb, nc);
      ChainsKept(i);
    }

    lemma CountIsEntries()
      requires Filed(entries, nodes, chains, {})
      ensures |Contents()| == |entries.Keys| == |entries|
    {
      hide HashOf, Slot;
      assert Contents().Keys == entries.Keys && |Contents()| == |Contents().Keys|;
    }

    /** The outer loop of pi_HashTableResize: move every chain. */
    method MoveChains(nb: array<Entry?>, ghost empty: seq<seq<Entry>>) returns (ghost nc: seq<seq<Entry>>)
      requires Filed(entries, nodes, chains, {}) && Linked(buckets, chains, nodes) && capacity == |chains| > 0
      requires Filed(entries, nodes, empty, entries.Keys) && Linked(nb, empty, nodes) && IsPow2(nb.Length)
      requires nb != buckets
      modifies nb, this`relinked, this`scanned, nodes`next
      ensures Filed(entries, nodes, nc, {}) && Linked(nb, nc, nodes) && |nc| == |empty|
      ensures relinked == old(relinked) + |entries| && scanned == old(scanned) + capacity
    {
      hide HashOf, BucketIndex, IsPow2, Filed, Left, Linked, Chain;
      nc := empty;
      ChainsOf(buckets, chains, nodes);
      LeftEnds(entries, nodes, chains);
      var i := 0;
      while i < capacity
        invariant 0 <= i <= capacity && Filed(entries, nodes, chains, {}) && |nc| == |empty|
        invariant Filed(entries, nodes, nc, Left(entries, nodes, chains, i, 0)) && Linked(nb, nc, nodes)
        invariant forall l :: i <= l < |chains| ==> Chain(buckets[l], chains[l])
        invariant relinked == old(relinked) + |entries.Keys| - |Left(entries, nodes, chains, i, 0)|
        invariant scanned == old(scanned) + i
      {
        scanned := scanned + 1;
        nc := MoveBucket(i, nb, nc);
        i := i + 1;
      }
      LeftEnds(entries, nodes, chains);
    }

    /** pi_HashTableResize: every entry is pushed on the chain of its slot in the new array. */
    method Resize(newCapacity: nat)
      requires Valid() && IsPow2(newCapacity) && newCapacity >= DEFAULT_CAPACITY && 4 * count <= 3 * newCapacity
      modifies this, nodes`next
      ensures Valid() && fresh(buckets) && entries == old(entries) && nodes == old(nodes)
      ensures Model() == HashSpec.Resize(old(Model()), newCapacity)
    {
      hide HashOf, BucketIndex, IsPow2, Filed, Linked, Contents;
      var newBuckets := new Entry?[newCapacity](_ => null);
      ghost var nc: seq<seq<Entry>> := seq(newCapacity, _ => []);
      NothingFiled(entries, nodes, chains, newBuckets, nc);
      nc := MoveChains(newBuckets, nc);
      CountIsEntries();
      Adopt(newBuckets, nc);
    }

    method Adopt(newBuckets: array<Entry?>, ghost newChains: seq<seq<Entry>>)
      modifies this`buckets, this`capacity, this`chains
      ensures buckets == newBuckets && capacity == newBuckets.Length && chains == newChains
    {
      buckets := newBuckets;
      capacity := newBuckets.Length;
      chains := newChains;
    }

    // ---- Operations ----

    /** piHashTableGet. */
    method Get(key: PiString) returns (value: Option<Word>)
      requires Valid() && key.Hashed()
      ensures value == if key.chars in Contents() then Some(Contents()[key.chars]) else None
    {
      hide HashOf, BucketIndex, IsPow2, Filed;
      if count == 0 { return None; }
      BucketIndexIsMod(key.hash, capacity);
      var index := BucketIndex(key.hash, capacity);
      var entry, prev, j := FindEntry(buckets[index], key, chains[index]);
      Lookup(entries, nodes, chains, key, index, j);
      if entry == null { return None; }
      return Some(entry.value);
    }

    /** Put a new entry at the head of its chain. */
    method Insert(key: PiString, value: Word, index: nat)
      requires Valid() && key.Hashed() && index == Slot(key.hash, capacity) < capacity
      requires key.chars !in entries && 4 * (count + 1) <= 3 * capacity
      modifies this, buckets
      ensures Valid() && fresh(nodes - old(nodes)) && buckets == old(buckets)
      ensures Model() == old(Model()).(contents := old(Contents())[key.chars := value])
      ensures key.chars in entries && chains == old(chains)[index := [entries[key.chars]] + old(chains)[index]]
    {
      hide HashOf, BucketIndex, IsPow2, Slot, Filed, Linked, Contents, Chain, Distinct;
      var newEntry := new Entry(key, value);
      ghost var es, cs, ns := entries[key.chars := newEntry], Pushed(chains, index, newEntry), nodes + {newEntry};
      FiledInsert(entries, nodes, chains, newEntry, index);
      LinkedMore(buckets, chains, nodes, ns);
      ghost var c0 := chains;
      chains, entries, nodes, count := cs, es, ns, count + 1;
      LinkHead(buckets, c0, index, newEntry, ns);
      ContentsInsert(newEntry);
    }

    twostate lemma ContentsInsert(new e: Entry)
      requires entries == old(entries)[e.key.chars := e] && e.key.chars !in old(entries)
      requires nodes == old(nodes) + {e} && forall k :: k in old(entries) ==> old(entries[k]) in old(nodes)
      requires forall o :: o in old(nodes) ==> o.value == old(o.value)
      ensures Contents() == old(Contents())[e.key.chars := e.value]
    {
    }

    /** Replace the key (an equal one) and the value of an entry. */
    method Update(entry: Entry, key: PiString, value: Word)
      requires Valid() && key.Hashed() && key.chars in entries && entries[key.chars] == entry
      modifies entry`key, entry`value
      ensures Valid() && Model() == old(Model()).(contents := old(Contents())[key.chars := value])
    {
      hide HashOf, BucketIndex, IsPow2, Slot, Filed, Linked, Contents;
      Holds(key.chars);
      SameKey(entry, key);
      entry.key := key;
      entry.value := value;
      ContentsUpdate(entry);
    }

    /** A string with its hash is determined by its characters: replacing the key of an entry changes nothing. */
    lemma SameKey(entry: Entry, key: PiString)
      requires Valid() && key.Hashed() && key.chars in entries && entries[key.chars] == entry
      ensures entry.key == key && forall k :: k in entries ==> entries[k] in nodes && entries[k].key.chars == k
    {
      hide HashOf, IsPow2, Slot, Linked;
    }

    twostate lemma ContentsUpdate(new e: Entry)
      requires entries == old(entries) && nodes == old(nodes)
      requires forall k :: k in entries ==> entries[k] in nodes && entries[k].key.chars == k
      requires e.key.chars in entries && entries[e.key.chars] == e
      requires forall o :: o in nodes && o != e ==> o.value == old(o.value)
      ensures Contents() == old(Contents())[e.key.chars := e.value]
    {
    }

    /** Unlink position j of chain `index`. */
    method Remove(entry: Entry, prev: Entry?, index: nat, ghost j: nat)
      requires Valid() && index < capacity && j < |chains[index]| && entry == chains[index][j]
      requires prev == if j == 0 then null else chains[index][j - 1]
      modifies this, buckets, nodes`next
      ensures Valid() && entries == old(entries) - {entry.key.chars} && entry.key.chars in old(entries)
      ensures nodes <= old(nodes) && buckets == old(buckets)
      ensures Model() == old(Model()).(contents := old(Contents()) - {entry.key.chars})
    {
      hide HashOf, BucketIndex, IsPow2, Slot, Filed, Linked, Distinct, Contents;
      InNodes(buckets, chains, nodes, index);
      EntryOf(entries, nodes, chains, {}, entry);
      ChainsApart(entries, nodes, chains, index);
      DistinctChain(entries, nodes, chains, index);
      FiledRemove(entries, nodes, chains, index, j);
      OneLess(entries, entry.key.chars);
      ghost var c0, n0 := chains, nodes;
      chains, entries := Bypassed(chains, index, j), entries - {entry.key.chars};
      nodes, count := nodes - {entry}, count - 1;
      UnlinkAt(buckets, c0, index, j, entry, prev, n0);
      ContentsRemove(entry);
    }

    twostate lemma ContentsRemove(new e: Entry)
      requires entries == old(entries) - {e.key.chars} && nodes == old(nodes) - {e}
      requires old(Filed(entries, nodes, chains, {}))
      requires e.key.chars in old(entries) && old(entries)[e.key.chars] == e
      requires forall o :: o in old(nodes) ==> o.value == old(o.value)
      ensures Contents() == old(Contents()) - {e.key.chars}
    {
    }

    lemma CountIsSize()
      requires Valid()
      ensures count == |Contents()| && Contents().Keys == entries.Keys && HashSpec.Good(Model())
    {
      hide HashOf, IsPow2, Slot, Linked;
      assert Contents().Keys == entries.Keys;
      assert |Contents()| == |Contents().Keys| && |entries| == |entries.Keys|;
    }

    lemma Parts()
      requires Valid()
      ensures Filed(entries, nodes, chains, {}) && Linked(buckets, chains, nodes)
      ensures capacity == |chains| == buckets.Length > 0
    {
      hide Filed, IsPow2;
    }

    /** What every reachable table looks like: a power-of-two number of buckets, each entry in the bucket of its hash
        modulo that number, no key twice, the count equal to the lengths of the chains and at most three quarters. */
    lemma Shape()
      requires Valid()
      ensures IsPow2(capacity) && capacity >= DEFAULT_CAPACITY && 4 * count <= 3 * capacity
      ensures forall i, e :: 0 <= i < |chains| && e in chains[i] ==>
        e.key.hash == HashOf(e.key.chars) && i == e.key.hash % capacity
      ensures forall e, f :: e in nodes && f in nodes && e.key.chars == f.key.chars ==> e == f
      ensures count == LengthFrom(chains, 0)
    {
      hide IsPow2, BucketIndex, Linked, HashOf;
      forall i, e | 0 <= i < |chains| && e in chains[i] ensures i == e.key.hash % capacity {
        BucketIndexIsMod(e.key.hash, capacity);
      }
      LengthOfLeft(entries, nodes, chains, 0, 0);
      LeftEnds(entries, nodes, chains);
    }

    /** piHashTableSet: whether the key was present, and its previous value (0 for a new key). */
    method Set(key: PiString, value: Word) returns (present: bool, oldValue: Word)
      requires Valid() && key.Hashed()
      requires count + 1 > MaxLoad(capacity) ==> capacity < 0x8000_0000
      modifies this, buckets, nodes
      ensures Valid() && Model() == HashSpec.Set(old(Model()), key.chars, value)
      ensures present <==> key.chars in old(Contents())
      ensures oldValue == if present then old(Contents())[key.chars] else 0
      ensures fresh(nodes - old(nodes)) && (buckets == old(buckets) || fresh(buckets))
    {
      hide HashOf, BucketIndex, IsPow2, Filed, Linked, Contents;
      CountIsSize();
      if count + 1 > MaxLoad(capacity) {
        Pow2Steps(capacity);
        Resize(2 * capacity);
      }
      Room(old(Model()));
      BucketIndexIsMod(key.hash, capacity);
      var index := BucketIndex(key.hash, capacity);
      InNodes(buckets, chains, nodes, index);
      var entry, prev, j := FindEntry(buckets[index], key, chains[index]);
      Lookup(entries, nodes, chains, key, index, j);
      Holds(key.chars);
      if entry != null {
        present, oldValue := true, entry.value;
        Update(entry, key, value);
      } else {
        present, oldValue := false, 0;
        Insert(key, value, index);
      }
    }

    lemma Holds(k: Key)
      requires Valid()
      ensures k in entries <==> k in Contents()
      ensures k in entries ==> entries[k] in nodes && Contents()[k] == entries[k].value
    {
      hide HashOf, IsPow2, Slot, Linked;
    }

    /** piHashTableDelete: the removed value, if the key was present. */
    method Delete(key: PiString) returns (removed: Option<Word>)
      requires Valid() && key.Hashed()
      modifies this, buckets, nodes
      ensures Valid() && Model() == HashSpec.Delete(old(Model()), key.chars)
      ensures removed == if key.chars in old(Contents()) then Some(old(Contents())[key.chars]) else None
      ensures nodes <= old(nodes) && (buckets == old(buckets) || fresh(buckets))
    {
      hide HashOf, BucketIndex, IsPow2, Filed, Linked, Contents;
      Holds(key.chars);
      if count == 0 { return None; }
      BucketIndexIsMod(key.hash, capacity);
      var index := BucketIndex(key.hash, capacity);
      InNodes(buckets, chains, nodes, index);
      var entry, prev, j := FindEntry(buckets[index], key, chains[index]);
      Lookup(entries, nodes, chains, key, index, j);
      if entry == null { return None; }
      removed := Some(entry.value);
      Remove(entry, prev, index, j);
      CountIsSize();
      if count < MinLoad(capacity) {
        if capacity / 2 >= DEFAULT_CAPACITY {
          Pow2Steps(capacity);
          Resize(capacity / 2);
        }
      }
    }

    /** piHashTableClear keeps the buckets. */
    method Clear()
      requires Valid()
      modifies this, buckets
      ensures Valid() && Model() == HashSpec.Clear(old(Model())) && buckets == old(buckets)
    {
      hide IsPow2, Filed, Linked, Contents;
      InNodes(buckets, chains, nodes, 0);
      var i := 0;
      while i < capacity
        invariant 0 <= i <= capacity && unchanged(this)
        invariant forall l :: 0 <= l < i ==> buckets[l] == null
      {
        buckets[i] := null;
        i := i + 1;
      }
      count := 0;
      chains, entries, nodes := seq(capacity, _ => []), map[], {};
      NothingThere(buckets, chains);
      assert Contents() == map[] by { Nothing(); }
    }

    lemma Nothing()
      requires entries == map[]
      ensures Contents() == map[]
    {
    }
  }

  /** The entries of the chains from i on, chain by chain. */
  ghost function Flat(chains: seq<seq<Entry>>, i: nat): seq<Entry>
    decreases |chains| - i
  {
    if i < |chains| then chains[i] + Flat(chains, i + 1) else []
  }

  lemma FlatStep(chains: seq<seq<Entry>>, i: nat)
    requires i < |chains|
    ensures Flat(chains, i) == chains[i][0..] + Flat(chains, i + 1)
    ensures chains[i] == [] ==> Flat(chains, i) == Flat(chains, i + 1)
  {
    assert chains[i][0..] == chains[i];
  }

  /** What iterating over `s` yields. */
  ghost function Pairs(s: seq<Entry>): seq<(PiString, Word)>
    reads s
  {
    if s == [] then [] else [(s[0].key, s[0].value)] + Pairs(s[1..])
  }

  lemma {:induction false} FlatNodes(buckets: array<Entry?>, chains: seq<seq<Entry>>, nodes: set<Entry>, i: nat)
    requires Linked(buckets, chains, nodes) && i <= |chains|
    ensures forall e :: e in Flat(chains, i) ==> e in nodes
    decreases |chains| - i
  {
    if i == |chains| {
    } else {
      FlatNodes(buckets, chains, nodes, i + 1);
    }
  }

  lemma FlatEnds(chains: seq<seq<Entry>>)
    ensures Pairs(Flat(chains, |chains|)) == []
  {
  }

  lemma FirstOfRest(c: seq<Entry>, j: nat, rest: seq<Entry>)
    requires j < |c|
    ensures Pairs(c[j..] + rest) == [(c[j].key, c[j].value)] + Pairs(c[j + 1..] + rest)
  {
    assert c[j..] == [c[j]] + c[j + 1..];
    assert (c[j..] + rest)[1..] == c[j + 1..] + rest;
  }

  /** The number of entries in the chains from i on. */
  ghost function LengthFrom(chains: seq<seq<Entry>>, i: nat): nat
    decreases |chains| - i
  {
    if i < |chains| then |chains[i]| + LengthFrom(chains, i + 1) else 0
  }

  lemma {:induction false} LengthOfLeft(entries: map<Key, Entry>, nodes: set<Entry>, chains: seq<seq<Entry>>, i: nat,
                                        j: nat)
    requires Filed(entries, nodes, chains, {}) && |chains| > 0 && i <= |chains| && (i < |chains| ==> j <= |chains[i]|)
    requires i == |chains| ==> j == 0
    ensures |Left(entries, nodes, chains, i, j)| == LengthFrom(chains, i) - j
    decreases |chains| - i, if i < |chains| then |chains[i]| - j else 0
  {
    hide Filed, Left;
    if i == |chains| {
      LeftEnds(entries, nodes, chains);
    } else if j == |chains[i]| {
      LeftNext(entries, nodes, chains, i);
      LengthOfLeft(entries, nodes, chains, i + 1, 0);
    } else {
      LeftStep(entries, nodes, chains, i, j);
      LengthOfLeft(entries, nodes, chains, i, j + 1);
    }
  }

  /** After the load check there is room for one more entry. */
  lemma Room(t: Table)
    requires Good(t)
    ensures 4 * (|t.contents| + 1) <= 3 * MaybeGrow(t).capacity
  {
    Pow2Steps(t.capacity);
  }

  // ---- Iteration ----

  /** PiHashTableIterator. */
  class HashTableIterator {
    const table: HashTable
    var bucketIndex: nat
    var current: Entry?
    /** The chain position after `current`. */
    ghost var position: nat

    ghost predicate Valid()
      reads this, table, table.buckets, table.nodes
    {
      && table.Valid() && bucketIndex <= table.capacity
      && match current
         case null => bucketIndex == 0 || bucketIndex == table.capacity
         case e => 0 < bucketIndex && 0 < position <= |table.chains[bucketIndex - 1]| &&
                   e == table.chains[bucketIndex - 1][position - 1]
    }

    /** The keys still to come. */
    ghost function Remaining(): set<Key>
      requires Valid()
      reads this, table, table.buckets, table.nodes
    {
      if current == null then Left(table.entries, table.nodes, table.chains, bucketIndex, 0)
      else Left(table.entries, table.nodes, table.chains, bucketIndex - 1, position)
    }

    /** The entries still to come, in order: bucket by bucket, each chain from its head. */
    ghost function Rest(): seq<Entry>
      requires Valid()
      reads this, table, table.buckets, table.nodes
    {
      if current == null then Flat(table.chains, bucketIndex)
      else table.chains[bucketIndex - 1][position..] + Flat(table.chains, bucketIndex)
    }

    /** piHashTableIterInit. */
    constructor (table: HashTable)
      requires table.Valid()
      ensures this.table == table && Valid() && Remaining() == table.Contents().Keys
      ensures Rest() == Flat(table.chains, 0)
    {
      hide HashTable.Valid, Left, HashTable.Contents;
      this.table, bucketIndex, current := table, 0, null;
      new;
      table.Parts();
      LeftEnds(table.entries, table.nodes, table.chains);
      table.CountIsSize();
    }

    lemma RestNodes()
      requires Valid()
      ensures forall e :: e in Rest() ==> e in table.nodes
    {
      FlatNodes(table.buckets, table.chains, table.nodes, bucketIndex);
    }

    /** Where the search for the next entry stands: the entries in `line`, with the keys in `rest`, lie ahead. */
    ghost predicate Ahead(rest: set<Key>, line: seq<Entry>)
      reads this, table, table.nodes
    {
      var cs := table.chains;
      && bucketIndex <= |cs|
      && (if current == null then
            rest == Left(table.entries, table.nodes, cs, bucketIndex, 0) && line == Flat(cs, bucketIndex)
          else
            && 0 < bucketIndex && position < |cs[bucketIndex - 1]| && current == cs[bucketIndex - 1][position]
            && rest == Left(table.entries, table.nodes, cs, bucketIndex - 1, position)
            && line == cs[bucketIndex - 1][position..] + Flat(cs, bucketIndex))
    }

    /** The next bucket that is not empty. */
    method Seek(ghost rest: set<Key>, ghost line: seq<Entry>)
      requires Filed(table.entries, table.nodes, table.chains, {})
      requires Linked(table.buckets, table.chains, table.nodes)
      requires table.capacity == |table.chains| == table.buckets.Length
      requires Ahead(rest, line)
      modifies this
      ensures Ahead(rest, line) && (current == null ==> bucketIndex == table.capacity)
    {
      hide Filed, Left, Linked, Flat;
      while current == null && bucketIndex < table.capacity
        invariant Ahead(rest, line)
      {
        InNodes(table.buckets, table.chains, table.nodes, bucketIndex);
        LeftNext(table.entries, table.nodes, table.chains, bucketIndex);
        FlatStep(table.chains, bucketIndex);
        current := table.buckets[bucketIndex];
        position := 0;
        bucketIndex := bucketIndex + 1;
      }
    }

    /** piHashTableIterNext. */
    method Next() returns (item: Option<(PiString, Word)>)
      requires Valid()
      modifies this
      ensures Valid()
      ensures old(Pairs(Rest())) == if item.None? then [] else [item.value] + Pairs(Rest())
      ensures item.None? ==> old(Remaining()) == Remaining() == {}
      ensures item.Some? ==>
        var k := item.value.0.chars;
        && k in old(Remaining()) && Remaining() == old(Remaining()) - {k}
        && k in table.Contents() && table.Contents()[k] == item.value.1
    {
      hide HashTable.Valid, Filed, Left, Linked, HashTable.Contents, Flat, Pairs, Slot, Chain;
      table.Parts();
      ghost var rest, line := Remaining(), Rest();
      ghost var cs, pairs := table.chains, Pairs(line);
      RestNodes();
      if current != null {
        NextOf(table.buckets, cs, table.nodes, bucketIndex - 1, position - 1);
        LeftNext(table.entries, table.nodes, cs, bucketIndex - 1);
        current := current.next;
      } else {
        position := 0;
      }
      Seek(rest, line);
      assert Pairs(line) == pairs;
      if current == null {
        LeftEnds(table.entries, table.nodes, cs);
        FlatEnds(cs);
        return None;
      }
      LeftStep(table.entries, table.nodes, cs, bucketIndex - 1, position);
      FirstOfRest(cs[bucketIndex - 1], position, Flat(cs, bucketIndex));
      position := position + 1;
      table.Holds(current.key.chars);
      return Some((current.key, current.value));
    }
  }

  ghost function AsMap(items: seq<(PiString, Word)>): map<Key, Word> {
    if items == [] then map[]
    else var last := items[|items| - 1]; AsMap(items[..|items| - 1])[last.0.chars := last.1]
  }

  /** All of `all` but the keys in `rest`. */
  ghost predicate Taken(items: seq<(PiString, Word)>, all: map<Key, Word>, rest: set<Key>) {
    rest <= all.Keys && AsMap(items) == all - rest && |items| == |all| - |rest|
  }

  lemma TakenNext(items: seq<(PiString, Word)>, kv: (PiString, Word), all: map<Key, Word>, rest: set<Key>)
    requires Taken(items, all, rest) && kv.0.chars in rest && all[kv.0.chars] == kv.1
    ensures Taken(items + [kv], all, rest - {kv.0.chars})
  {
    assert (items + [kv])[..|items|] == items;
    assert all - (rest - {kv.0.chars}) == (all - rest)[kv.0.chars := kv.1];
  }

  lemma TakenEnds(items: seq<(PiString, Word)>, all: map<Key, Word>)
    ensures Taken([], all, all.Keys)
    ensures Taken(items, all, {}) ==> AsMap(items) == all && |items| == |all|
  {
    assert all - {} == all;
  }

  /** PI_HASH_TABLE_FOREACH: each key once, with its value, bucket by bucket and each chain from its head. */
  method Items(table: HashTable) returns (items: seq<(PiString, Word)>)
    requires table.Valid()
    ensures AsMap(items) == table.Contents() && |items| == |table.Contents()|
    ensures items == Pairs(Flat(table.chains, 0))
  {
    hide HashTable.Valid, HashTable.Contents, HashTableIterator.Valid, HashTableIterator.Rest, Flat, AsMap, Pairs;
    hide HashTableIterator.Remaining, Linked, Filed, Taken;
    items := [];
    ghost var line := Pairs(Flat(table.chains, 0));
    table.Parts();
    FlatNodes(table.buckets, table.chains, table.nodes, 0);
    var iter := new HashTableIterator(table);
    ghost var all := table.Contents();
    TakenEnds(items, all);
    var more := true;
    while more
      invariant iter.Valid() && fresh(iter) && iter.table == table && table.Valid() && table.Contents() == all
      invariant Taken(items, all, iter.Remaining())
      invariant if more then items + Pairs(iter.Rest()) == line else items == line
      invariant !more ==> iter.Remaining() == {}
      decreases iter.Remaining(), more
    {
      ghost var rest := iter.Remaining();
      var item := iter.Next();
      match item
      case None => more := false;
      case Some(kv) =>
        TakenNext(items, kv, all, rest);
        items := items + [kv];
    }
    TakenEnds(items, all);
  }

  lemma DistinctChain(entries: map<Key, Entry>, nodes: set<Entry>, chains: seq<seq<Entry>>, i: nat)
    requires Filed(entries, nodes, chains, {}) && i < |chains|
    ensures Distinct(chains[i])
  {
  }

  lemma NothingFiled(entries: map<Key, Entry>, nodes: set<Entry>, chains: seq<seq<Entry>>, nb: array<Entry?>,
                     nc: seq<seq<Entry>>)
    requires Filed(entries, nodes, chains, {}) && nb.Length == |nc|
    requires forall i :: 0 <= i < |nc| ==> nc[i] == [] && nb[i] == null
    ensures Filed(entries, nodes, nc, entries.Keys) && Linked(nb, nc, nodes)
  {
  }

  lemma NothingThere(buckets: array<Entry?>, chains: seq<seq<Entry>>)
    requires buckets.Length == |chains| && forall i :: 0 <= i < |chains| ==> chains[i] == [] && buckets[i] == null
    ensures Filed(map[], {}, chains, {}) && Linked(buckets, chains, {})
  {
  }

  lemma ChainsApart(entries: map<Key, Entry>, nodes: set<Entry>, chains: seq<seq<Entry>>, i: nat)
    requires Filed(entries, nodes, chains, {}) && i < |chains|
    ensures forall l, e :: 0 <= l < |chains| && l != i && e in chains[l] ==> e !in chains[i]
  {
    forall l, e | 0 <= l < |chains| && l != i && e in chains[l] ensures e !in chains[i] {
      assert Slot(e.key.hash, |chains|) == l;
    }
  }

  /** pi_FindEntry: the first entry of the chain whose key equals `key`, and its predecessor. */
  method FindEntry(head: Entry?, key: PiString, ghost c: seq<Entry>) returns (entry: Entry?, prev: Entry?, ghost j: nat)
    requires Chain(head, c)
    ensures entry != null ==> entry in c && StringEquals(entry.key, key)
    ensures entry == null ==> forall i :: 0 <= i < |c| ==> !StringEquals(c[i].key, key)
    ensures j <= |c| && entry == At(c, j)
    ensures entry != null ==> prev == (if j == 0 then null else c[j - 1])
    ensures forall i :: 0 <= i < j ==> !StringEquals(c[i].key, key)
  {
    entry, prev, j := head, null, 0;
    while entry != null
      invariant j <= |c| && entry == At(c, j)
      invariant entry != null ==> prev == if j == 0 then null else c[j - 1]
      invariant forall i :: 0 <= i < j ==> !StringEquals(c[i].key, key)
      decreases |c| - j
    {
      if StringEquals(entry.key, key) { return; }
      prev, entry, j := entry, entry.next, j + 1;
    }
  }

  /** Searching the chain of the key's slot finds the key's entry, or shows that there is none. */
  lemma Lookup(entries: map<Key, Entry>, nodes: set<Entry>, chains: seq<seq<Entry>>, key: PiString, i: nat, j: nat)
    requires Filed(entries, nodes, chains, {}) && key.Hashed() && i == Slot(key.hash, |chains|) < |chains|
    requires j <= |chains[i]| && (j < |chains[i]| ==> StringEquals(chains[i][j].key, key))
    requires forall l :: 0 <= l < j ==> !StringEquals(chains[i][l].key, key)
    ensures j < |chains[i]| <==> key.chars in entries
    ensures j < |chains[i]| ==> entries[key.chars] == chains[i][j]
  {
    if key.chars in entries {
      var e := entries[key.chars];
      assert e.key == key;
      var l :| 0 <= l < |chains[i]| && chains[i][l] == e;
    }
    if j < |chains[i]| { EntryOf(entries, nodes, chains, {}, chains[i][j]); }
  }

  lemma FiledInsert(entries: map<Key, Entry>, nodes: set<Entry>, chains: seq<seq<Entry>>, e: Entry, i: nat)
    requires Filed(entries, nodes, chains, {}) && e.key.Hashed() && e.key.chars !in entries
    requires i == Slot(e.key.hash, |chains|) < |chains|
    ensures Filed(entries[e.key.chars := e], nodes + {e}, Pushed(chains, i, e), {})
    ensures e !in nodes && forall l :: 0 <= l < |chains| ==> e !in chains[l]
    ensures forall k :: k in entries ==> entries[k] in nodes
  {
    hide HashOf, Distinct, Slot;
    DistinctCons(e, chains[i]);
  }

  lemma DistinctRemove(c: seq<Entry>, j: nat)
    requires Distinct(c) && j < |c|
    ensures Distinct(c[..j] + c[j + 1..])
    ensures forall x :: x in c[..j] + c[j + 1..] <==> x in c && x != c[j]
  {
    var c' := c[..j] + c[j + 1..];
    assert forall l :: 0 <= l < |c'| ==> c'[l] == c[if l < j then l else l + 1];
    forall x | x in c && x != c[j] ensures x in c' {
      var l :| 0 <= l < |c| && c[l] == x;
      assert c'[if l < j then l else l - 1] == x;
    }
  }

  lemma OneLess(entries: map<Key, Entry>, k: Key)
    requires k in entries
    ensures |entries - {k}| == |entries| - 1
  {
    assert (entries - {k}).Keys == entries.Keys - {k};
  }

  lemma FiledRemove(entries: map<Key, Entry>, nodes: set<Entry>, chains: seq<seq<Entry>>, i: nat, j: nat)
    requires Filed(entries, nodes, chains, {}) && i < |chains| && j < |chains[i]|
    ensures Filed(entries - {chains[i][j].key.chars}, nodes - {chains[i][j]}, Bypassed(chains, i, j), {})
  {
    hide HashOf, Distinct, Slot;
    DistinctRemove(chains[i], j);
    ChainsApart(entries, nodes, chains, i);
  }
}
