/** The hybrid collector of lib/runtime/gc.c: an intrusive doubly linked list, mark and sweep, reference counts. */
module Gc {
  import opened Bits
  import opened Collections
  import opened GcModel
  import opened Values
  import opened Svm

  const HEADER_SIZE := 32
  const HEAP_GROWTH_FACTOR := 2
  const FIRST_THRESHOLD := 1024 * 1024

  datatype ObjectKind = STRING | ARRAY | NATIVE

  /** PiObject, at address `addr`. `calls` is the history of its retains and releases. */
  class Object {
    const addr: nat
    const kind: ObjectKind
    const size: nat
    var gcNext: Object?
    var gcPrev: Object?
    var marked: bool
    var gray: bool
    var frozen: bool
    var refCount: nat
    ghost var calls: seq<bool>

    constructor (addr: nat, kind: ObjectKind, size: nat, gcNext: Object?)
      ensures this.addr == addr && this.kind == kind && this.size == size
      ensures this.gcNext == gcNext && gcPrev == null && !marked && !gray && !frozen && refCount == 1 && calls == []
      ensures Counted(this)
    {
      this.addr, this.kind, this.size, this.gcNext := addr, kind, size, gcNext;
      gcPrev, marked, gray, frozen, refCount, calls := null, false, false, false, 1, [];
    }
  }

  /** A PiObject** registered as a root. */
  class Root {
    var target: Object?

    constructor (target: Object?)
      ensures this.target == target
    {
      this.target := target;
    }
  }

  ghost function At(c: seq<Object>, j: int): Object? { if 0 <= j < |c| then c[j] else null }

  /** c is the doubly linked list that starts at `head`. */
  ghost predicate Listed(head: Object?, c: seq<Object>)
    reads c`gcNext, c`gcPrev
  {
    && Distinct(c) && head == At(c, 0)
    && (forall j {:trigger c[j].gcNext} :: 0 <= j < |c| ==> c[j].gcNext == At(c, j + 1))
    && (forall j {:trigger c[j].gcPrev} :: 0 <= j < |c| ==> c[j].gcPrev == At(c, j - 1))
  }

  ghost function Cut(c: seq<Object>, i: nat): seq<Object>
    requires i < |c|
  {
    c[..i] + c[i + 1..]
  }

  ghost predicate Elements(c: seq<Object>, nodes: set<Object>) {
    (forall o :: o in c ==> o in nodes) && (forall o :: o in nodes ==> o in c)
  }

  lemma ElementsCut(c: seq<Object>, nodes: set<Object>, i: nat)
    requires Elements(c, nodes) && Distinct(c) && i < |c|
    ensures Elements(Cut(c, i), nodes - {c[i]}) && forall j :: 0 <= j < |c| ==> c[j] in nodes
  {
    CutIs(c, i);
  }

  ghost function SizeSum(c: seq<Object>): nat {
    if c == [] then 0 else c[0].size + SizeSum(c[1..])
  }

  lemma SizeSumCons(o: Object, c: seq<Object>)
    ensures SizeSum([o] + c) == o.size + SizeSum(c)
  {
    assert ([o] + c)[1..] == c;
  }

  lemma {:induction false} SizeSumCut(c: seq<Object>, i: nat)
    requires i < |c|
    ensures SizeSum(c) == SizeSum(Cut(c, i)) + c[i].size
  {
    if i == 0 {
      assert Cut(c, 0) == c[1..];
    } else {
      SizeSumCut(c[1..], i - 1);
      var w := Cut(c, i);
      assert w[0] == c[0] && w[1..] == Cut(c[1..], i - 1);
    }
  }

  lemma CutIs(c: seq<Object>, i: nat)
    requires Distinct(c) && i < |c|
    ensures Distinct(Cut(c, i))
    ensures forall o :: o in Cut(c, i) <==> o in c && o != c[i]
  {
    var w := Cut(c, i);
    assert forall l :: 0 <= l < |w| ==> w[l] == c[if l < i then l else l + 1];
    forall o | o in c && o != c[i] ensures o in w {
      var l :| 0 <= l < |c| && c[l] == o;
      assert w[if l < i then l else l - 1] == o;
    }
  }

  /** A list whose neighbours of position i are linked to each other is the list without that position. */
  lemma ListedCut(head: Object?, c: seq<Object>, i: nat)
    requires Distinct(c) && i < |c| && head == (if i == 0 then At(c, 1) else At(c, 0))
    requires forall j {:trigger c[j].gcNext} :: 0 <= j < |c| && j != i ==>
      c[j].gcNext == At(c, if j == i - 1 then i + 1 else j + 1)
    requires forall j {:trigger c[j].gcPrev} :: 0 <= j < |c| && j != i ==>
      c[j].gcPrev == At(c, if j == i + 1 then i - 1 else j - 1)
    ensures Listed(head, Cut(c, i))
  {
    CutIs(c, i);
    var w := Cut(c, i);
    forall j {:trigger w[j].gcNext} | 0 <= j < |w| ensures w[j].gcNext == At(w, j + 1) {
      assert w[j] == c[if j < i then j else j + 1];
    }
    forall j {:trigger w[j].gcPrev} | 0 <= j < |w| ensures w[j].gcPrev == At(w, j - 1) {
      assert w[j] == c[if j < i then j else j + 1];
    }
  }

  /** Every listed object is found at its address, and only those are. */
  ghost predicate Mapped(memory: map<nat, Object>, nodes: set<Object>) {
    && (forall o :: o in nodes ==> o.addr != 0 && o.addr in memory && memory[o.addr] == o)
    && (forall a :: a in memory ==> memory[a] in nodes && memory[a].addr == a)
  }

  lemma MappedWith(memory: map<nat, Object>, nodes: set<Object>, obj: Object)
    requires Mapped(memory, nodes) && obj.addr != 0 && obj.addr !in memory
    ensures Mapped(memory[obj.addr := obj], nodes + {obj})
  {
  }

  lemma MappedWithout(memory: map<nat, Object>, nodes: set<Object>, obj: Object)
    requires Mapped(memory, nodes) && obj in nodes
    ensures obj.addr in memory && Mapped(memory - {obj.addr}, nodes - {obj})
  {
  }

  /** The reference count and the frozen flag are what the calls on the object have left. */
  ghost predicate Counted(o: Object)
    reads o`refCount, o`frozen, o`calls
  {
    Life(o.calls) == Kept(RefCount(o.refCount, o.frozen))
  }

  // ---- Roots ----

  /** A boxed value on the stack holds the address of o. */
  ghost predicate HeldBy(words: seq<nat>, o: Object) {
    exists w :: w in words && IsObject(w) && AsObject(w) == o.addr
  }

  /** A boxed reference on the stack holds its object if and only if the address is below 2^50. */
  lemma BoxedIsHeld(o: Object)
    requires 0 < o.addr < WORD64
    ensures HeldBy([PiObject(o.addr)], o) <==> o.addr < FIELD50
  {
    hide PiObject, IsObject, AsObject, TypeOf;
    ObjectRoundTrip(o.addr);
    assert PiObject(o.addr) in [PiObject(o.addr)];
  }

  /** Any other value on the stack holds nothing. */
  lemma NumbersHoldNothing(words: seq<nat>, w: Word, o: Object)
    requires TypeOf(w) != OBJC
    ensures HeldBy(words + [w], o) <==> HeldBy(words, o)
  {
    hide TypeOf, IsObject, AsObject;
    ObjectTest(w);
    HeldByStep(words + [w], |words|);
    assert (words + [w])[..|words|] == words && (words + [w])[..|words| + 1] == words + [w];
  }

  /** What the registered roots point to. */
  ghost function Targets(roots: seq<Root?>): set<Object?>
    reads roots
  {
    set r | r in roots && r != null :: r.target
  }

  /** The objects among `nodes` that a boxed value holds or a registered root points to. */
  ghost function RootedIn(nodes: set<Object>, words: seq<nat>, targets: set<Object?>): (r: set<Object>)
    ensures r <= nodes
  {
    set o | o in nodes && (HeldBy(words, o) || o in targets)
  }

  /** Boxed references hold the given addresses, and roots point to the given objects, unless they are NULL. */
  ghost predicate RootsIn(words: seq<nat>, targets: set<Object?>, addresses: set<nat>, nodes: set<Object>) {
    && (forall w :: w in words && IsObject(w) ==> AsObject(w) == 0 || AsObject(w) in addresses)
    && (forall o: Object? :: o in targets ==> o == null || o in nodes)
  }

  /** No root refers to an object that is not listed yet. */
  lemma RootsWith(words: seq<nat>, targets: set<Object?>, addresses: set<nat>, nodes: set<Object>, obj: Object)
    requires RootsIn(words, targets, addresses, nodes) && obj.addr != 0 && obj.addr !in addresses && obj !in nodes
    ensures RootsIn(words, targets, addresses + {obj.addr}, nodes + {obj})
    ensures RootedIn(nodes + {obj}, words, targets) == RootedIn(nodes, words, targets)
  {
    hide IsObject, AsObject;
  }

  /** The roots stay good without an object if and only if none of them refers to it. */
  lemma RootsWithout(words: seq<nat>, targets: set<Object?>, addresses: set<nat>, nodes: set<Object>, obj: Object)
    requires obj in nodes && obj.addr != 0
    ensures RootedIn(nodes - {obj}, words, targets) == RootedIn(nodes, words, targets) - {obj}
    ensures RootsIn(words, targets, addresses - {obj.addr}, nodes - {obj}) <==>
      RootsIn(words, targets, addresses, nodes) && obj !in RootedIn(nodes, words, targets)
  {
    hide IsObject, AsObject;
  }

  /** After a collection the roots refer to what they referred to. */
  lemma RootsSurvive(words: seq<nat>, targets: set<Object?>, memory: map<nat, Object>, nodes: set<Object>,
                     memory': map<nat, Object>)
    requires Mapped(memory, nodes) && RootsIn(words, targets, memory.Keys, nodes)
    requires Mapped(memory', RootedIn(nodes, words, targets))
    ensures RootsIn(words, targets, memory'.Keys, RootedIn(nodes, words, targets))
    ensures RootedIn(RootedIn(nodes, words, targets), words, targets) == RootedIn(nodes, words, targets)
  {
    hide IsObject, AsObject;
    forall w | w in words && IsObject(w) && AsObject(w) != 0 ensures AsObject(w) in memory' {
      var o := memory[AsObject(w)];
      assert HeldBy(words, o);
    }
  }

  /** A boxed reference is resolved to the one listed object it holds. */
  lemma Resolved(words: seq<nat>, targets: set<Object?>, memory: map<nat, Object>, nodes: set<Object>, i: nat)
    requires Mapped(memory, nodes) && RootsIn(words, targets, memory.Keys, nodes)
    requires i < |words| && IsObject(words[i])
    ensures var a := AsObject(words[i]);
      && (a != 0 ==> a in memory && memory[a] in nodes)
      && forall o :: o in nodes ==> (o.addr == a <==> a != 0 && o == memory[a])
  {
    hide IsObject, AsObject;
  }

  class Collector {
    var objectList: Object?
    var vmStack: ValueArray?
    var globalRoots: array<Root?>
    var globalRootCount: nat
    var globalRootCap: nat
    var nextGcThreshold: nat
    var objectCount: nat
    var bytesAllocated: nat
    var collectionCount: nat
    var objectsFreed: nat
    var bytesFreed: nat
    var isPaused: bool
    /** What an address found in a boxed value points to. */
    var memory: map<nat, Object>

    /** The list, and its elements. */
    ghost var objects: seq<Object>
    ghost var nodes: set<Object>
    /** Every object ever allocated, newest first, the bytes ever requested, and the bytes lost by storing sizes in 32
        bits. */
    ghost var history: seq<Object>
    ghost var requested: nat
    ghost var drift: nat

    /** The counters agree with the list, and nothing allocated is forgotten. */
    ghost predicate Exact()
      reads this`objects, this`objectCount, this`objectsFreed, this`bytesAllocated, this`bytesFreed
      reads this`history, this`requested, this`drift
    {
      && objectCount == |objects| && objectCount + objectsFreed == |history|
      && bytesAllocated == SizeSum(objects) + drift && bytesAllocated + bytesFreed == requested
    }

    ghost predicate Valid()
      reads this`objectList, this`objects, this`nodes, this`objectCount, this`objectsFreed, this`bytesAllocated
      reads this`bytesFreed, this`history, this`requested, this`drift, this`memory
      reads this`globalRoots, this`globalRootCount, this`globalRootCap
      reads objects`gcNext, objects`gcPrev, globalRoots, nodes`refCount, nodes`frozen, nodes`calls
    {
      Sound() && forall o :: o in nodes ==> Counted(o)
    }

    ghost predicate Sound()
      reads this`objectList, this`objects, this`nodes, this`objectCount, this`objectsFreed, this`bytesAllocated
      reads this`bytesFreed, this`history, this`requested, this`drift, this`memory
      reads this`globalRoots, this`globalRootCount, this`globalRootCap, objects`gcNext, objects`gcPrev, globalRoots
    {
      && Listed(objectList, objects) && Elements(objects, nodes) && Exact() && Mapped(memory, nodes)
      && globalRootCount <= globalRootCap == globalRoots.Length
      && (forall i :: 0 <= i < globalRootCount ==> globalRoots[i] != null)
    }

    ghost function Roots(): seq<Root?>
      requires globalRootCount <= globalRoots.Length
      reads this`globalRoots, this`globalRootCount, globalRoots
    {
      globalRoots[..globalRootCount]
    }

    ghost function Words(): seq<nat>
      reads this`vmStack, vmStack, if vmStack == null then {} else {vmStack.data}
    {
      if vmStack == null || !vmStack.Valid() then [] else vmStack.Contents()
    }

    /** The listed objects that the VM stack holds or a global root points to. */
    ghost function Rooted(): set<Object>
      requires globalRootCount <= globalRoots.Length
      reads this`nodes, this`vmStack, this`globalRoots, this`globalRootCount, globalRoots, Roots()
      reads vmStack, if vmStack == null then {} else {vmStack.data}
    {
      RootedIn(nodes, Words(), Targets(Roots()))
    }

    /** Every root is NULL or points to a listed object. */
    ghost predicate RootsListed()
      requires globalRootCount <= globalRoots.Length
      reads this`nodes, this`memory, this`vmStack, this`globalRoots, this`globalRootCount, globalRoots, Roots()
      reads vmStack, if vmStack == null then {} else {vmStack.data}
    {
      (vmStack != null ==> vmStack.Valid()) && RootsIn(Words(), Targets(Roots()), memory.Keys, nodes)
    }

    constructor ()
      ensures Valid() && objects == [] && nodes == {} && Roots() == [] && vmStack == null && !isPaused
      ensures fresh(globalRoots)
      ensures nextGcThreshold == 0x10_0000 && collectionCount == requested == drift == 0 && history == []
    {
      objectList, vmStack, isPaused, memory, objects, nodes := null, null, false, map[], [], {};
      globalRoots, globalRootCount, globalRootCap := new Root?[0], 0, 0;
      nextGcThreshold, objectCount, bytesAllocated := FIRST_THRESHOLD, 0, 0;
      collectionCount, objectsFreed, bytesFreed := 0, 0, 0;
      history, requested, drift := [], 0, 0;
    }

    // ---- Freeing ----

    /** Unlink an object from the list. */
    method Unlink(obj: Object, ghost i: nat)
      requires Listed(objectList, objects) && Elements(objects, nodes) && i < |objects| && obj == objects[i]
      modifies this`objectList, this`objects, this`nodes, nodes`gcNext, nodes`gcPrev
      ensures Listed(objectList, objects) && objects == Cut(old(objects), i)
      ensures Elements(objects, nodes) && nodes == old(nodes) - {obj}
    {
      hide Elements;
      ElementsCut(objects, nodes, i);
      ghost var c := objects;
      assert obj.gcNext == At(c, i + 1) && obj.gcPrev == At(c, i - 1);
      if obj.gcNext != null { obj.gcNext.gcPrev := obj.gcPrev; }
      if obj.gcPrev != null { obj.gcPrev.gcNext := obj.gcNext; } else { objectList := obj.gcNext; }
      objects, nodes := Cut(c, i), nodes - {obj};
      ListedCut(objectList, c, i);
    }

    /** pi_GcFreeObject. */
    method FreeObject(obj: Object, ghost i: nat)
      requires Sound() && i < |objects| && obj == objects[i]
      modifies this`objectList, this`objects, this`nodes, nodes`gcNext, nodes`gcPrev
      modifies this`objectCount, this`bytesAllocated, this`objectsFreed, this`bytesFreed, this`memory
      ensures Sound() && objects == Cut(old(objects), i) && nodes == old(nodes) - {obj}
      ensures memory == old(memory) - {obj.addr}
    {
      hide Listed, Mapped, SizeSum;
      SizeSumCut(objects, i);
      MappedWithout(memory, nodes, obj);
      objectCount := objectCount - 1;
      bytesAllocated := bytesAllocated - obj.size;
      objectsFreed := objectsFreed + 1;
      bytesFreed := bytesFreed + obj.size;
      memory := memory - {obj.addr};
      Unlink(obj, i);
    }

    lemma SoundList()
      requires Sound()
      ensures Distinct(objects) && objectList == At(objects, 0) && Elements(objects, nodes)
      ensures forall i {:trigger objects[i].gcNext} :: 0 <= i < |objects| ==> objects[i].gcNext == At(objects, i + 1)
    {
    }

    // ---- Mark and sweep ----

    /** pi_GcClearMarks. */
    method ClearMarks()
      requires Valid()
      modifies nodes`marked, nodes`gray
      ensures Valid() && forall o :: o in nodes ==> !o.marked && !o.gray
    {
      hide Sound, Counted;
      SoundList();
      var obj := objectList;
      ghost var k := 0;
      while obj != null
        invariant k <= |objects| && obj == At(objects, k) && Valid()
        invariant forall j :: 0 <= j < k ==> !objects[j].marked && !objects[j].gray
        decreases |objects| - k
      {
        obj.marked, obj.gray := false, false;
        obj := obj.gcNext;
        k := k + 1;
      }
    }

    /** pi_GcMarkObject follows no references. */
    method MarkObject(obj: Object?)
      requires obj != null ==> obj in nodes
      modifies nodes`marked
      ensures forall o :: o in nodes ==> (o.marked <==> old(o.marked) || o == obj)
    {
      if obj == null || obj.marked { return; }
      obj.marked := true;
    }

    /** The roots on the VM stack. */
    method MarkStack()
      requires Valid() && RootsListed() && forall o :: o in nodes ==> !o.marked
      modifies nodes`marked
      ensures Valid() && forall o :: o in nodes ==> (o.marked <==> HeldBy(Words(), o))
    {
      hide Valid, HeldBy, RootsIn, IsObject, AsObject, Targets;
      ValidMap();
      ghost var words, targets := Words(), Targets(Roots());
      NoRoots();
      if vmStack == null { return; }
      var i := 0;
      while i < vmStack.count
        invariant i <= vmStack.count && Valid()
        invariant forall o :: o in nodes ==> (o.marked <==> HeldBy(words[..i], o))
      {
        HeldByStep(words, i);
        var val := vmStack.data[i];
        assert val == words[i];
        if IsObject(val) {
          Resolved(words, targets, memory, nodes, i);
          var addr := AsObject(val);
          MarkObject(if addr == 0 then null else memory[addr]);
        }
        i := i + 1;
      }
      assert words[..i] == words;
    }

    /** pi_GcMarkRoots. */
    method MarkRoots()
      requires Valid() && RootsListed() && forall o :: o in nodes ==> !o.marked
      modifies nodes`marked
      ensures Valid() && forall o :: o in nodes ==> (o.marked <==> o in Rooted())
    {
      hide Valid, HeldBy, RootsIn, Words, Targets;
      ValidMap();
      NoRoots();
      ghost var words, roots := Words(), Roots();
      MarkStack();
      var i := 0;
      while i < globalRootCount
        invariant i <= globalRootCount && Valid()
        invariant forall o :: o in nodes ==> (o.marked <==> HeldBy(words, o) || o in Targets(roots[..i]))
      {
        TargetsStep(words, roots, memory.Keys, nodes, i);
        var root := globalRoots[i];
        if root.target != null { MarkObject(root.target); }
        i := i + 1;
      }
      assert roots[..i] == roots;
    }

    /** One turn of the sweep: the object at position k of the list c stays or goes. */
    method SweepOne(obj: Object, ghost c: seq<Object>, ghost keep: set<Object>, ghost k: nat) returns (next: Object?)
      requires Sound() && k < |c| && obj == c[k] && (obj.marked <==> obj in keep)
      requires objects == Survivors(c[..k], keep) + c[k..]
      modifies this`objectList, this`objects, this`nodes, nodes`gcNext, nodes`gcPrev
      modifies this`objectCount, this`bytesAllocated, this`objectsFreed, this`bytesFreed, this`memory
      ensures Sound() && nodes <= old(nodes) && next == At(c, k + 1)
      ensures objects == Survivors(c[..k + 1], keep) + c[k + 1..]
    {
      hide Sound, Survivors, Cut;
      ghost var done := Survivors(c[..k], keep);
      SoundList();
      SweepStep(c, keep, k);
      next := obj.gcNext;
      if !obj.marked { FreeObject(obj, |done|); }
    }

    /** pi_GcSweep. */
    method Sweep(ghost keep: set<Object>)
      requires Valid() && forall o :: o in nodes ==> (o.marked <==> o in keep)
      modifies this`objectList, this`objects, this`nodes, nodes`gcNext, nodes`gcPrev
      modifies this`objectCount, this`bytesAllocated, this`objectsFreed, this`bytesFreed, this`memory
      ensures Valid() && objects == Survivors(old(objects), keep) && nodes == old(nodes) * keep
    {
      hide Sound, Counted, Survivors, Cut;
      ghost var c := objects;
      var obj := objectList;
      ghost var k := 0;
      SurvivorsNone(keep);
      SoundList();
      while obj != null
        invariant k <= |c| && obj == At(c, k) && Sound() && nodes <= old(nodes)
        invariant forall j :: k <= j < |c| ==> c[j] in old(nodes)
        invariant objects == Survivors(c[..k], keep) + c[k..]
        decreases |c| - k
      {
        obj := SweepOne(obj, c, keep, k);
        k := k + 1;
      }
      assert c[..k] == c && objects == Survivors(c, keep);
      SoundList();
      SurvivorsExact(c, keep);
    }

    // ---- Collection ----

    /** piGcCollect: the number of objects freed. */
    method Collect() returns (freed: nat)
      requires Valid() && (isPaused || RootsListed())
      modifies this`objectList, this`objects, this`nodes, nodes`gcNext, nodes`gcPrev, nodes`marked, nodes`gray
      modifies this`objectCount, this`bytesAllocated, this`objectsFreed, this`bytesFreed, this`memory
      modifies this`collectionCount, this`nextGcThreshold
      ensures Valid() && (RootsListed() <==> old(RootsListed())) && Rooted() == old(Rooted())
      ensures nodes == if isPaused then old(nodes) else old(Rooted())
      ensures objects == if isPaused then old(objects) else Survivors(old(objects), old(Rooted()))
      ensures freed == |old(objects)| - |objects|
      ensures collectionCount == old(collectionCount) + if isPaused then 0 else 1
      ensures nextGcThreshold == if isPaused then old(nextGcThreshold) else bytesAllocated * 2 % 0x1_0000_0000_0000_0000
      ensures isPaused ==> unchanged(this) && unchanged(nodes)
    {
      hide Sound, Counted, Survivors, RootedIn, RootsIn, Words, Targets;
      SoundMap();
      if isPaused { return 0; }
      var objectsBefore := objectCount;
      SurvivorsExact(objects, Rooted());
      MarkAndSweep();
      SoundMap();
      NextThreshold();
      return objectsBefore - objectCount;
    }

    method NextThreshold()
      modifies this`collectionCount, this`nextGcThreshold
      ensures collectionCount == old(collectionCount) + 1
      ensures nextGcThreshold == bytesAllocated * HEAP_GROWTH_FACTOR % WORD64
    {
      collectionCount := collectionCount + 1;
      nextGcThreshold := bytesAllocated * HEAP_GROWTH_FACTOR % WORD64;
    }

    /** The three phases. */
    method MarkAndSweep()
      requires Valid() && RootsListed()
      modifies this`objectList, this`objects, this`nodes, nodes`gcNext, nodes`gcPrev, nodes`marked, nodes`gray
      modifies this`objectCount, this`bytesAllocated, this`objectsFreed, this`bytesFreed, this`memory
      ensures Valid() && RootsListed() && Rooted() == old(Rooted())
      ensures nodes == old(Rooted()) && objects == Survivors(old(objects), old(Rooted()))
    {
      hide Sound, Counted, Survivors, RootedIn, RootsIn, Words, Targets;
      SoundMap();
      ghost var words, targets, memory0, nodes0 := Words(), Targets(Roots()), memory, nodes;
      ClearMarks();
      assert Words() == words && Targets(Roots()) == targets;
      MarkRoots();
      assert Words() == words && Targets(Roots()) == targets;
      Sweep(Rooted());
      assert Words() == words && Targets(Roots()) == targets;
      assert nodes == RootedIn(nodes0, words, targets);
      SoundMap();
      RootsSurvive(words, targets, memory0, nodes0, memory);
    }

    lemma ValidMap()
      requires Valid()
      ensures Mapped(memory, nodes) && globalRootCount <= globalRoots.Length
      ensures forall i :: 0 <= i < globalRootCount ==> globalRoots[i] != null
    {
    }

    lemma SoundMap()
      requires Sound()
      ensures Mapped(memory, nodes) && globalRootCount <= globalRoots.Length
      ensures objectCount == |objects|
    {
    }

    // ---- Allocation ----

    /** An allocation of the size asks for no collection. */
    ghost predicate Quiet(size: nat, handler: (nat, set<nat>, nat) -> Option<nat>)
      reads this`isPaused, this`bytesAllocated, this`nextGcThreshold, this`nodes
    {
      isPaused || (bytesAllocated < nextGcThreshold && handler(1, Addresses(nodes), size).Some?)
    }

    /** piGcAlloc. `handler` is the environment's allocator, asked first and, after an emergency collection, once more;
        it never returns NULL or the address of a live object. */
    method Alloc(kind: ObjectKind, size: nat, handler: (nat, set<nat>, nat) -> Option<nat>)
      returns (result: Option<Object>)
      requires Valid() && size >= HEADER_SIZE && (RootsListed() || Quiet(size, handler))
      requires forall attempt, live, n ::
        var a := handler(attempt, live, n); a.Some? ==> a.value != 0 && a.value !in live
      modifies this`objectList, this`objects, this`nodes, nodes`gcNext, nodes`gcPrev, nodes`marked, nodes`gray
      modifies this`objectCount, this`bytesAllocated, this`objectsFreed, this`bytesFreed, this`memory
      modifies this`collectionCount, this`nextGcThreshold, this`history, this`requested, this`drift
      ensures Valid() && (old(RootsListed()) ==> RootsListed() && Rooted() == old(Rooted()))
      ensures nodes == (if collectionCount == old(collectionCount) then old(nodes) else old(Rooted())) +
                       (if result.Some? then {result.value} else {})
      ensures var kept :=
          if collectionCount == old(collectionCount) then old(objects) else Survivors(old(objects), old(Rooted()));
        match result
        case None => objects == kept
        case Some(o) => fresh(o) && objects == [o] + kept && o.kind == kind && o.size == size % WORD32 && o.calls == []
      ensures var due := !isPaused && old(bytesAllocated >= nextGcThreshold);
        var live := if due then old(Rooted()) else old(nodes);
        var short := handler(1, Addresses(live), size).None?;
        && collectionCount == old(collectionCount) + (if due then 1 else 0) + (if short && !isPaused then 1 else 0)
        && (result.None? <==>
              short && handler(2, Addresses(if isPaused then old(nodes) else old(Rooted())), size).None?)
      ensures history == if result.Some? then [result.value] + old(history) else old(history)
      ensures requested == old(requested) + if result.Some? then size else 0
      ensures drift == old(drift) + if result.Some? then size - size % WORD32 else 0
    {
      hide Sound, Counted, Survivors, RootedIn, RootsIn, Words, Targets;
      SoundMap();
      var addr := Obtain(size, handler);
      if addr.None? { return None; }
      var obj := Link(addr.value, kind, size);
      return Some(obj);
    }

    /** Collect if it is time to, ask for memory, and collect and ask again if there is none. */
    method Obtain(size: nat, handler: (nat, set<nat>, nat) -> Option<nat>) returns (addr: Option<nat>)
      requires Valid() && (RootsListed() || Quiet(size, handler))
      requires forall attempt, live, n ::
        var a := handler(attempt, live, n); a.Some? ==> a.value != 0 && a.value !in live
      modifies this`objectList, this`objects, this`nodes, nodes`gcNext, nodes`gcPrev, nodes`marked, nodes`gray
      modifies this`objectCount, this`bytesAllocated, this`objectsFreed, this`bytesFreed, this`memory
      modifies this`collectionCount, this`nextGcThreshold
      ensures Valid() && (RootsListed() <==> old(RootsListed())) && Rooted() == old(Rooted())
      ensures nodes == if collectionCount == old(collectionCount) then old(nodes) else old(Rooted())
      ensures objects ==
        if collectionCount == old(collectionCount) then old(objects) else Survivors(old(objects), old(Rooted()))
      ensures addr.Some? ==> addr.value != 0 && addr.value !in memory
      ensures var due := !isPaused && old(bytesAllocated >= nextGcThreshold);
        var live := if due then old(Rooted()) else old(nodes);
        var short := handler(1, Addresses(live), size).None?;
        && collectionCount == old(collectionCount) + (if due then 1 else 0) + (if short && !isPaused then 1 else 0)
        && (addr.None? <==> short && handler(2, Addresses(if isPaused then old(nodes) else old(Rooted())), size).None?)
    {
      hide Sound, Counted, Survivors, RootsListed, RootedIn, RootsIn, Words, Targets;
      SoundMap();
      ghost var keep := Rooted();
      SurvivorsTwice(objects, keep, keep);
      if bytesAllocated >= nextGcThreshold { var _ := Collect(); SoundMap(); }
      Apart(memory, nodes);
      addr := handler(1, memory.Keys, size);
      if addr.None? {
        var _ := Collect();
        SoundMap();
        Apart(memory, nodes);
        addr := handler(2, memory.Keys, size);
      }
    }

    /** The new object becomes the head of the list. */
    method Link(addr: nat, kind: ObjectKind, size: nat) returns (obj: Object)
      requires Valid() && addr != 0 && addr !in memory
      modifies this`objectList, this`objects, this`nodes, this`objectCount, this`bytesAllocated, this`memory
      modifies this`history, this`requested, this`drift, nodes`gcPrev
      ensures Valid() && (old(RootsListed()) ==> RootsListed() && Rooted() == old(Rooted()))
      ensures fresh(obj) && obj.kind == kind && obj.size == size % WORD32 && obj.calls == []
      ensures objects == [obj] + old(objects) && nodes == old(nodes) + {obj}
      ensures history == [obj] + old(history) && requested == old(requested) + size
      ensures drift == old(drift) + size - size % WORD32
    {
      hide Counted, Listed, Elements, Mapped, SizeSum, RootedIn, RootsIn, Words, Targets;
      obj := Prepend(addr, kind, size);
      Record(obj, size);
      SizeSumCons(obj, old(objects));
      MappedWith(old(memory), old(nodes), obj);
      if RootsIn(Words(), Targets(Roots()), old(memory.Keys), old(nodes)) {
        RootsWith(Words(), Targets(Roots()), old(memory.Keys), old(nodes), obj);
      }
      assert memory.Keys == old(memory.Keys) + {obj.addr};
    }

    method Prepend(addr: nat, kind: ObjectKind, size: nat) returns (obj: Object)
      requires Listed(objectList, objects) && Elements(objects, nodes)
      modifies this`objectList, this`objects, this`nodes, nodes`gcPrev
      ensures fresh(obj) && obj.addr == addr && obj.kind == kind && obj.size == size % WORD32
      ensures obj.calls == [] && Counted(obj) && Listed(objectList, objects) && Elements(objects, nodes)
      ensures objects == [obj] + old(objects) && nodes == old(nodes) + {obj}
    {
      hide Counted;
      obj := new Object(addr, kind, size % WORD32, objectList);
      if objectList != null { objectList.gcPrev := obj; }
      objectList := obj;
      objects, nodes := [obj] + objects, nodes + {obj};
    }

    method Record(obj: Object, size: nat)
      modifies this`objectCount, this`bytesAllocated, this`memory, this`history, this`requested, this`drift
      ensures objectCount == old(objectCount) + 1 && bytesAllocated == old(bytesAllocated) + size
      ensures memory == old(memory)[obj.addr := obj] && history == [obj] + old(history)
      ensures requested == old(requested) + size && drift == old(drift) + size - size % WORD32
    {
      objectCount, bytesAllocated := objectCount + 1, bytesAllocated + size;
      memory := memory[obj.addr := obj];
      history, requested, drift := [obj] + history, requested + size, drift + size - size % WORD32;
    }

    // ---- Reference counts ----

    /** piGcRetain. */
    method Retain(obj: Object?) returns (same: Object?)
      requires Valid() && (obj != null ==> obj in nodes)
      modifies nodes`refCount, nodes`frozen, nodes`calls
      ensures Valid() && same == obj && Rooted() == old(Rooted()) && RootsListed() == old(RootsListed())
      ensures obj != null ==> obj.calls == old(obj.calls) + [true]
      ensures forall o :: o in nodes && o != obj ==> unchanged(o)
    {
      hide Sound, Life;
      same := obj;
      if obj == null { return; }
      LifeStep(obj.calls, true);
      obj.calls := obj.calls + [true];
      if obj.refCount >= UINT16_MAX - 1 {
        obj.frozen := true;
        return;
      }
      obj.refCount := obj.refCount + 1;
    }

    /** Free one object: a root that refers to it dangles. */
    method Discard(obj: Object, ghost i: nat)
      requires Sound() && i < |objects| && obj == objects[i]
      modifies this`objectList, this`objects, this`nodes, nodes`gcNext, nodes`gcPrev
      modifies this`objectCount, this`bytesAllocated, this`objectsFreed, this`bytesFreed, this`memory
      ensures Sound() && objects == Cut(old(objects), i) && nodes == old(nodes) - {obj}
      ensures Rooted() == old(Rooted()) - {obj}
      ensures RootsListed() <==> old(RootsListed()) && obj !in old(Rooted())
    {
      hide Sound, RootedIn, RootsIn, Words, Targets;
      SoundMap();
      assert obj in nodes && obj.addr != 0 by { SoundList(); }
      RootsWithout(Words(), Targets(Roots()), memory.Keys, nodes, obj);
      FreeObject(obj, i);
      assert memory.Keys == old(memory.Keys) - {obj.addr};
    }

    /** piGcRelease frees the object exactly when its calls leave nothing of it. */
    method Release(obj: Object?)
      requires Valid() && (obj != null ==> obj in nodes)
      modifies this`objectList, this`objects, this`nodes, nodes`gcNext, nodes`gcPrev, nodes`refCount, nodes`calls
      modifies this`objectCount, this`bytesAllocated, this`objectsFreed, this`bytesFreed, this`memory
      ensures Valid()
      ensures obj != null ==> obj.calls == old(obj.calls) + [false]
      ensures objects ==
        if obj != null && Life(obj.calls).Freed? then Survivors(old(objects), Others(old(nodes), obj)) else old(objects)
      ensures forall o :: o in old(nodes) && o != obj ==> o.calls == old(o.calls)
      ensures var freed := obj != null && !old(obj.frozen) && old(obj.refCount) == 1;
        && (freed <==> obj != null && Life(obj.calls).Freed?)
        && nodes == (if freed then old(nodes) - {obj} else old(nodes))
        && Rooted() == (if freed then old(Rooted()) - {obj} else old(Rooted()))
        && (RootsListed() <==> old(RootsListed()) && (!freed || obj !in old(Rooted())))
    {
      hide Sound, Counted, Life, Survivors, RootedIn, RootsIn, Words, Targets, Others;
      SoundMap();
      if obj == null { return; }
      var gone := CountDown(obj);
      if gone {
        SoundList();
        ghost var i :| 0 <= i < |objects| && objects[i] == obj;
        CutSurvives(objects, nodes, i);
        Discard(obj, i);
      }
    }

    /** One release is taken from the count unless it is frozen; the answer is whether nothing is left. */
    method CountDown(obj: Object) returns (gone: bool)
      requires Valid() && obj in nodes
      modifies obj`refCount, obj`calls
      ensures Sound() && obj.calls == old(obj.calls) + [false]
      ensures gone <==> Life(obj.calls).Freed?
      ensures gone <==> !old(obj.frozen) && old(obj.refCount) == 1
      ensures forall o :: o in nodes && (o != obj || !gone) ==> Counted(o)
    {
      hide Sound, Life;
      LifeStep(obj.calls, false);
      assert obj.refCount > 0;
      obj.calls := obj.calls + [false];
      if obj.frozen { return false; }
      obj.refCount := obj.refCount - 1;
      return obj.refCount == 0;
    }

    // ---- Roots ----

    /** The root array has room for 8 roots at first, then doubles. */
    method GrowRoots()
      requires globalRootCount <= globalRootCap == globalRoots.Length
      modifies this`globalRoots, this`globalRootCap
      ensures fresh(globalRoots) && globalRootCap == globalRoots.Length
      ensures globalRootCap == if old(globalRootCap) == 0 then 8 else 2 * old(globalRootCap)
      ensures globalRootCount <= globalRootCap && Roots() == old(Roots())
    {
      var newCap := if globalRootCap == 0 then 8 else globalRootCap * 2;
      var newRoots := new Root?[newCap](_ => null);
      var i := 0;
      while i < globalRootCount
        invariant 0 <= i <= globalRootCount && newRoots[..i] == globalRoots[..i]
        modifies newRoots
      {
        newRoots[i] := globalRoots[i];
        i := i + 1;
      }
      assert newRoots[..i] == Roots();
      globalRoots, globalRootCap := newRoots, newCap;
    }

    /** piGcAddGlobalRoot. */
    method AddGlobalRoot(root: Root)
      requires Valid()
      modifies this`globalRoots, this`globalRootCount, this`globalRootCap, globalRoots
      ensures Valid() && Roots() == old(Roots()) + [root]
      ensures globalRoots == old(globalRoots) || fresh(globalRoots)
    {
      hide Listed, SizeSum, Mapped, Elements, Counted;
      if globalRootCount >= globalRootCap { GrowRoots(); }
      globalRoots[globalRootCount] := root;
      globalRootCount := globalRootCount + 1;
    }

    /** piGcRemoveGlobalRoot: the last root takes the place of the removed one. */
    method RemoveGlobalRoot(root: Root)
      requires Valid()
      modifies this`globalRootCount, globalRoots
      ensures Valid() && Roots() == SwapRemoved(old(Roots()), root)
    {
      hide Listed, SizeSum, Mapped, Elements, Counted;
      ghost var roots := Roots();
      var i := 0;
      while i < globalRootCount
        invariant 0 <= i <= globalRootCount && unchanged(this) && unchanged(globalRoots) && root !in roots[..i]
      {
        assert roots[..i + 1] == roots[..i] + [roots[i]];
        if globalRoots[i] == root {
          FirstAtIs(roots, root, i);
          globalRoots[i] := globalRoots[globalRootCount - 1];
          globalRootCount := globalRootCount - 1;
          assert Roots() == SwapRemoved(roots, root);
          return;
        }
        i := i + 1;
      }
      assert roots[..i] == roots;
    }

    /** piGcSetVmStack. */
    method SetVmStack(stack: ValueArray?)
      requires Valid()
      modifies this`vmStack
      ensures Valid() && vmStack == stack
    {
      hide Listed, SizeSum, Mapped, Elements, Counted;
      vmStack := stack;
    }

    /** piGcSetPaused. */
    method SetPaused(paused: bool)
      requires Valid()
      modifies this`isPaused
      ensures Valid() && isPaused == paused
    {
      hide Listed, SizeSum, Mapped, Elements, Counted;
      isPaused := paused;
    }
  }

  ghost function Addresses(nodes: set<Object>): set<nat> { set o | o in nodes :: o.addr }

  lemma Apart(memory: map<nat, Object>, nodes: set<Object>)
    requires Mapped(memory, nodes)
    ensures memory.Keys == Addresses(nodes) && 0 !in memory
  {
    forall a | a in memory ensures a in Addresses(nodes) { assert memory[a] in nodes; }
  }

  ghost function Others(nodes: set<Object>, obj: Object?): set<Object> { set o | o in nodes && o != obj }

  /** All but one survive. */
  lemma CutSurvives(c: seq<Object>, nodes: set<Object>, i: nat)
    requires Distinct(c) && Elements(c, nodes) && i < |c|
    ensures Cut(c, i) == Survivors(c, Others(nodes, c[i]))
  {
    hide Survivors;
    AllSurvive(c, Others(nodes, c[i]), i);
    OthersSurvive(c, nodes, i, |c|);
    assert c[..|c|] == c;
  }

  lemma {:induction false} AllSurvive(c: seq<Object>, keep: set<Object>, k: nat)
    requires k <= |c| && forall l :: 0 <= l < k ==> c[l] in keep
    ensures Survivors(c[..k], keep) == c[..k]
  {
    if k == 0 {
    } else {
      AllSurvive(c, keep, k - 1);
      SurvivorsStep(c, keep, k - 1);
      assert c[..k] == c[..k - 1] + [c[k - 1]];
    }
  }

  lemma {:induction false} OthersSurvive(c: seq<Object>, nodes: set<Object>, i: nat, k: nat)
    requires Distinct(c) && Elements(c, nodes) && i < k <= |c|
    ensures Survivors(c[..k], Others(nodes, c[i])) == c[..i] + c[i + 1..k]
    decreases k
  {
    hide Survivors;
    SurvivorsStep(c, Others(nodes, c[i]), k - 1);
    if k == i + 1 {
      AllSurvive(c, Others(nodes, c[i]), i);
    } else {
      OthersSurvive(c, nodes, i, k - 1);
      assert c[i + 1..k] == c[i + 1..k - 1] + [c[k - 1]];
    }
  }

  lemma NoRoots()
    ensures forall o :: !HeldBy([], o)
    ensures Targets([]) == {}
  {
  }

  lemma HeldByStep(words: seq<nat>, i: nat)
    requires i < |words|
    ensures forall o: Object :: HeldBy(words[..i + 1], o) <==>
      HeldBy(words[..i], o) || (IsObject(words[i]) && AsObject(words[i]) == o.addr)
  {
    hide IsObject, AsObject;
    var more := words[..i + 1];
    assert more == words[..i] + [words[i]];
    assert forall w :: w in more <==> w in words[..i] || w == words[i];
    assert words[i] in more;
    forall o: Object
      ensures HeldBy(more, o) <==> HeldBy(words[..i], o) || (IsObject(words[i]) && AsObject(words[i]) == o.addr)
    {
      if HeldBy(words[..i], o) {
        var w :| w in words[..i] && IsObject(w) && AsObject(w) == o.addr;
        assert w in more;
      }
    }
  }

  lemma TargetsStep(words: seq<nat>, roots: seq<Root?>, addresses: set<nat>, nodes: set<Object>, i: nat)
    requires RootsIn(words, Targets(roots), addresses, nodes) && i < |roots| && roots[i] != null
    ensures Targets(roots[..i + 1]) == Targets(roots[..i]) + {roots[i].target}
    ensures roots[i].target != null ==> roots[i].target in nodes
  {
    hide IsObject, AsObject;
    assert roots[..i + 1] == roots[..i] + [roots[i]];
    assert roots[i].target in Targets(roots);
  }

  lemma SurvivorsNone<T>(keep: set<T>)
    ensures Survivors([], keep) == []
  {
  }

  /** One step of the sweep: what is done, and what is left. */
  lemma SweepStep(c: seq<Object>, keep: set<Object>, k: nat)
    requires k < |c|
    ensures var done := Survivors(c[..k], keep);
      var now, then' := done + c[k..], Survivors(c[..k + 1], keep) + c[k + 1..];
      && |done| < |now| && now[|done|] == c[k] && At(now, |done| + 1) == At(c, k + 1)
      && then' == if c[k] in keep then now else Cut(now, |done|)
  {
    SurvivorsStep(c, keep, k);
  }
}
