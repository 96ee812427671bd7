/** The hash table of lib/common/hash.c seen from outside: a finite map, a bucket count, and the work its
    rehashes have done. `HashTable` is the chained structure proved to take exactly these steps. */
module HashSpec {
  import opened Bits

  const DEFAULT_CAPACITY := 8

  // ---- Capacities ----

  ghost predicate IsPow2(n: nat) { exists k: nat :: n == Exp2(k) }

  /** One line of pi_NextPowerOf2: n |= n >> s. */
  function SmearBy(n: nat, s: nat): nat { Or(n, Shr(n, s)) }

  /** pi_NextPowerOf2 on a uint32_t. */
  function NextPowerOf2(n: nat): nat
    requires n < WORD32
  {
    if n == 0 then 1
    else (Smear(n - 1) + 1) % WORD32
  }

  /** The five lines that copy the leading one into every lower bit. */
  function Smear(m: nat): nat { SmearBy(SmearBy(SmearBy(SmearBy(SmearBy(m, 1), 2), 4), 8), 16) }

  /** v has at most L bits, and the top t of them are ones. */
  ghost predicate TopOnes(v: nat, t: nat, L: nat)
    decreases L
  {
    if L <= t then v == Exp2(L) - 1 else TopOnes(v / 2, t, L - 1)
  }

  lemma {:induction false} ShiftKeepsOnes(v: nat, t: nat, L: nat, s: nat)
    requires TopOnes(v, t, L) && s <= L
    ensures TopOnes(Shr(v, s), t, L - s)
    decreases s
  {
    if s == 0 {
    } else {
      ShiftKeepsOnes(v / 2, t, L - 1, s - 1);
    }
  }

  lemma {:induction false} ShiftAway(v: nat, s: nat, L: nat)
    requires v < Exp2(L) && L <= s
    ensures Shr(v, s) == 0
    decreases s
  {
    if L > 0 { ShiftAway(v / 2, s - 1, L - 1); } else if s > 0 { ShiftAway(0, s - 1, 0); }
  }

  lemma {:induction false} OrDoublesOnes(v: nat, u: nat, t: nat, L: nat)
    requires TopOnes(v, t, L) && t <= L && TopOnes(u, t, L - t)
    ensures TopOnes(Or(v, u), 2 * t, L)
    decreases L
  {
    if L == t {
      Zero(OR, v);
    } else {
      Unfold(OR, v, u);
      OrDoublesOnes(v / 2, u / 2, t, L - 1);
    }
  }

  lemma {:induction false} SmearStep(v: nat, t: nat, L: nat)
    requires TopOnes(v, t, L)
    ensures TopOnes(SmearBy(v, t), 2 * t, L)
  {
    if t <= L {
      ShiftKeepsOnes(v, t, L, t);
      OrDoublesOnes(v, Shr(v, t), t, L);
    } else {
      ShiftAway(v, t, L);
      Zero(OR, v);
    }
  }

  /** The number of bits of m. */
  lemma {:induction false} BitLength(m: nat) returns (L: nat)
    ensures m < Exp2(L) && TopOnes(m, 1, L) && (L > 0 ==> Exp2(L - 1) <= m)
  {
    if m == 0 {
      L := 0;
    } else {
      L := BitLength(m / 2);
      L := L + 1;
    }
  }

  lemma SmearFills(m: nat, L: nat)
    requires TopOnes(m, 1, L) && L <= 32
    ensures Smear(m) == Exp2(L) - 1
  {
    hide SmearBy, TopOnes;
    var v1 := SmearBy(m, 1); SmearStep(m, 1, L);
    var v2 := SmearBy(v1, 2); SmearStep(v1, 2, L);
    var v3 := SmearBy(v2, 4); SmearStep(v2, 4, L);
    var v4 := SmearBy(v3, 8); SmearStep(v3, 8, L);
    var v5 := SmearBy(v4, 16); SmearStep(v4, 16, L);
    AllOnes(v5, 32, L);
  }

  lemma AllOnes(v: nat, t: nat, L: nat)
    requires TopOnes(v, t, L) && L <= t
    ensures v == Exp2(L) - 1
  {
  }

  lemma NoSmallerPower(L: nat, k: nat, n: nat)
    requires (L > 0 ==> Exp2(L - 1) < n) && n <= Exp2(k)
    ensures Exp2(L) <= Exp2(k)
  {
    if k < L { ExpMono(k, L - 1); } else { ExpMono(L, k); }
  }

  lemma LengthBounds(m: nat, L: nat)
    requires L > 0 ==> Exp2(L - 1) <= m
    requires m < Exp2(L) && m < WORD32
    ensures L <= 32 && (L == 32 <==> m >= 0x8000_0000)
  {
    hide Exp2;
    ExpValues();
    ExpSum(1, 31);
    assert Exp2(1) == 2 by { ExpOne(); }
    if L > 32 { ExpMono(32, L - 1); }
    if L < 32 { ExpMono(L, 31); }
  }

  lemma ExpOne() ensures Exp2(1) == 2 {}

  lemma NextIsPower(n: nat) returns (L: nat)
    requires 0 < n < WORD32
    ensures NextPowerOf2(n) == (if n <= 0x8000_0000 then Exp2(L) else 0)
    ensures n <= Exp2(L) && (L > 0 ==> Exp2(L - 1) < n)
  {
    hide Exp2, Smear, TopOnes;
    L := BitLength(n - 1);
    LengthBounds(n - 1, L);
    SmearFills(n - 1, L);
    ExpValues();
    if L < 32 {
      ExpMono(L, 31); ExpSum(1, 31); ExpOne();
      assert Exp2(L) < WORD32;
    }
  }

  /** pi_NextPowerOf2 is the least power of two at least n when that fits in 32 bits (n at most 2^31);
      for every larger n it wraps to 0. */
  lemma NextPowerOf2Least(n: nat)
    requires n < WORD32
    ensures n <= 0x8000_0000 <==> NextPowerOf2(n) != 0
    ensures n <= 0x8000_0000 ==>
      IsPow2(NextPowerOf2(n)) && n <= NextPowerOf2(n) && forall k: nat :: n <= Exp2(k) ==> NextPowerOf2(n) <= Exp2(k)
  {
    hide NextPowerOf2;
    if n == 0 {
      assert NextPowerOf2(n) == Exp2(0) == 1 by { NextOfZero(); }
    } else {
      var L := NextIsPower(n);
      forall k: nat | n <= Exp2(k) ensures Exp2(L) <= Exp2(k) { NoSmallerPower(L, k, n); }
    }
  }

  lemma NextOfZero() ensures NextPowerOf2(0) == 1 {}

  /** pi_BucketIndex. */
  function BucketIndex(hash: nat, capacity: nat): nat
    requires capacity > 0
  {
    And(hash, capacity - 1)
  }

  /** On a power of two the mask is the remainder. */
  lemma BucketIndexIsMod(hash: nat, capacity: nat)
    requires IsPow2(capacity)
    ensures BucketIndex(hash, capacity) == hash % capacity < capacity
  {
    var k: nat :| capacity == Exp2(k);
    LowMask(hash, k);
  }

  // ---- Steps ----

  type Key = seq<byte>

  /** `relinked` counts the entries that rehashing has moved so far, `scanned` the buckets it has looked into. */
  datatype Table = Table(capacity: nat, contents: map<Key, Word>, relinked: nat, scanned: nat) {
    function Work(): nat { relinked + scanned }
  }

  function Fresh(capacity: nat): Table { Table(capacity, map[], 0, 0) }

  ghost predicate Good(t: Table) {
    IsPow2(t.capacity) && t.capacity >= DEFAULT_CAPACITY && 4 * |t.contents| <= 3 * t.capacity
  }

  /** piInitHashTableWithCapacity. */
  function InitCapacity(capacity: nat): nat
    requires capacity < WORD32
  {
    NextPowerOf2(if capacity < DEFAULT_CAPACITY then DEFAULT_CAPACITY else capacity)
  }

  /** pi_HashTableResize. */
  function Resize(t: Table, capacity: nat): Table {
    Table(capacity, t.contents, t.relinked + |t.contents|, t.scanned + t.capacity)
  }

  /** The truncated products with the load factors 0.75 and 0.25. */
  function MaxLoad(capacity: nat): nat { 3 * capacity / 4 }
  function MinLoad(capacity: nat): nat { capacity / 4 }

  function MaybeGrow(t: Table): Table {
    if |t.contents| + 1 > MaxLoad(t.capacity) then Resize(t, 2 * t.capacity) else t
  }

  function MaybeShrink(t: Table): Table {
    if |t.contents| < MinLoad(t.capacity) && t.capacity / 2 >= DEFAULT_CAPACITY then Resize(t, t.capacity / 2) else t
  }

  /** piHashTableSet: the load is checked before the key is looked up. */
  function Set(t: Table, k: Key, v: Word): Table {
    var t1 := MaybeGrow(t);
    t1.(contents := t1.contents[k := v])
  }

  /** piHashTableDelete: an absent key changes nothing. */
  function Delete(t: Table, k: Key): Table {
    if k in t.contents then MaybeShrink(t.(contents := t.contents - {k})) else t
  }

  /** piHashTableClear keeps the capacity. */
  function Clear(t: Table): Table { t.(contents := map[]) }

  // ---- Whole runs ----

  datatype Op = SetOp(k: Key, v: Word) | DeleteOp(k: Key) | ClearOp

  function Apply(t: Table, op: Op): Table {
    match op
    case SetOp(k, v) => Set(t, k, v)
    case DeleteOp(k) => Delete(t, k)
    case ClearOp => Clear(t)
  }

  function Run(t: Table, ops: seq<Op>): Table
    decreases ops
  {
    if ops == [] then t else Run(Apply(t, ops[0]), ops[1..])
  }

  /** The same calls on a plain map. */
  function OnMap(m: map<Key, Word>, ops: seq<Op>): map<Key, Word>
    decreases ops
  {
    if ops == [] then m
    else
      var m' := match ops[0] case SetOp(k, v) => m[k := v] case DeleteOp(k) => m - {k} case ClearOp => map[];
      OnMap(m', ops[1..])
  }

  lemma {:induction false} RunIsMap(t: Table, ops: seq<Op>)
    ensures Run(t, ops).contents == OnMap(t.contents, ops)
    decreases ops
  {
    if ops == [] {
    } else {
      assert ops[0].DeleteOp? && ops[0].k !in t.contents ==> t.contents - {ops[0].k} == t.contents;
      RunIsMap(Apply(t, ops[0]), ops[1..]);
    }
  }

  lemma SizeAfter(m: map<Key, Word>, k: Key, v: Word)
    ensures |m[k := v]| == if k in m then |m| else |m| + 1
    ensures |m - {k}| == if k in m then |m| - 1 else |m|
  {
    var m1, m2 := m[k := v], m - {k};
    assert m1.Keys == m.Keys + {k};
    assert m2.Keys == m.Keys - {k};
    assert |m1| == |m1.Keys| && |m2| == |m2.Keys| && |m| == |m.Keys|;
  }

  /** Capacities double and halve inside the powers of two. */
  lemma Pow2Steps(c: nat)
    requires IsPow2(c) && c >= 8
    ensures c % 8 == 0 && IsPow2(2 * c) && (c >= 16 ==> c % 16 == 0 && IsPow2(c / 2))
  {
    hide Exp2;
    var k: nat :| c == Exp2(k);
    PowerSteps(k);
  }

  lemma PowerSteps(k: nat)
    ensures Exp2(k + 1) == 2 * Exp2(k)
    ensures if k < 3 then Exp2(k) < 8 else Exp2(k) % 8 == 0
    ensures if k < 4 then Exp2(k) < 16 else Exp2(k) % 16 == 0 && Exp2(k) == 2 * Exp2(k - 1)
  {
    ExpSmall();
    hide Exp2;
    ExpSum(1, k);
    if k >= 3 { ExpSum(3, k - 3); }
    if k >= 4 { ExpSum(4, k - 4); ExpSum(1, k - 1); }
  }

  lemma ExpSmall()
    ensures Exp2(0) == 1 && Exp2(1) == 2 && Exp2(2) == 4 && Exp2(3) == 8 && Exp2(4) == 16
  {
    assert Exp2(3) == 2 * Exp2(2);
  }

  /** A table made for some capacity is good unless the capacity exceeds 2^31; beyond, it has no bucket. */
  lemma InitGood(capacity: nat)
    requires capacity < WORD32
    ensures Good(Fresh(InitCapacity(capacity))) <==> capacity <= 0x8000_0000
    ensures capacity > 0x8000_0000 ==> InitCapacity(capacity) == 0
    ensures capacity <= 0x8000_0000 ==>
      && InitCapacity(capacity) >= 8 && InitCapacity(capacity) >= capacity
      && forall k: nat :: Exp2(k) >= 8 && Exp2(k) >= capacity ==> InitCapacity(capacity) <= Exp2(k)
  {
    hide NextPowerOf2, IsPow2, Exp2;
    NextPowerOf2Least(if capacity < DEFAULT_CAPACITY then DEFAULT_CAPACITY else capacity);
  }

  /** The doubled capacity, in 32 bits, is that of a good table unless there are 2^31 buckets already. */
  lemma GrowthFits(t: Table)
    requires Good(t) && t.capacity <= 0x8000_0000
    ensures Good(Resize(t, 2 * t.capacity % WORD32)) <==> t.capacity < 0x8000_0000
  {
    hide IsPow2;
    Pow2Steps(t.capacity);
  }

  /** The stored-up work: three units per entry above half load, two per entry below three eighths. */
  function Potential(t: Table): nat {
    3 * Monus(|t.contents|, t.capacity / 2) + 2 * Monus(3 * t.capacity / 8, |t.contents|)
  }

  /** The same when clearing is among the calls: five units per entry above half load, and half the capacity. */
  function Reserve(t: Table): nat {
    5 * Monus(|t.contents|, t.capacity / 2) + t.capacity / 2
  }

  function Monus(a: nat, b: nat): nat { if a >= b then a - b else 0 }

  /** What a call may add to the stored-up work: a clear adds nothing. */
  function Price(op: Op): nat { if op.ClearOp? then 0 else 1 }

  lemma StepKeeps(t: Table, op: Op)
    requires Good(t)
    ensures Good(Apply(t, op))
  {
    hide IsPow2;
    Pow2Steps(t.capacity);
    match op
    case SetOp(k, v) =>
      SizeAfter(MaybeGrow(t).contents, k, v);
    case DeleteOp(k) =>
      SizeAfter(t.contents, k, 0);
    case ClearOp =>
  }

  lemma SetReserve(t: Table, k: Key, v: Word)
    requires Good(t)
    ensures Set(t, k, v).relinked - t.relinked + Reserve(Set(t, k, v)) <= Reserve(t) + 5
  {
    hide IsPow2;
    Pow2Steps(t.capacity);
    SizeAfter(MaybeGrow(t).contents, k, v);
  }

  lemma DeleteReserve(t: Table, k: Key)
    requires Good(t)
    ensures Delete(t, k).relinked - t.relinked + Reserve(Delete(t, k)) <= Reserve(t) + 5
  {
    hide IsPow2;
    Pow2Steps(t.capacity);
    SizeAfter(t.contents, k, 0);
  }

  lemma StepReserve(t: Table, op: Op)
    requires Good(t)
    ensures Apply(t, op).relinked - t.relinked + Reserve(Apply(t, op)) <= Reserve(t) + 5 * Price(op)
  {
    hide Good, Set, Delete;
    match op
    case SetOp(k, v) => SetReserve(t, k, v);
    case DeleteOp(k) => DeleteReserve(t, k);
    case ClearOp =>
  }

  lemma SetPotential(t: Table, k: Key, v: Word)
    requires Good(t)
    ensures Set(t, k, v).relinked - t.relinked + Potential(Set(t, k, v)) <= Potential(t) + 3
  {
    hide IsPow2;
    Pow2Steps(t.capacity);
    SizeAfter(MaybeGrow(t).contents, k, v);
  }

  lemma DeletePotential(t: Table, k: Key)
    requires Good(t)
    ensures Delete(t, k).relinked - t.relinked + Potential(Delete(t, k)) <= Potential(t) + 3
  {
    hide IsPow2;
    Pow2Steps(t.capacity);
    SizeAfter(t.contents, k, 0);
  }

  /** Each call keeps the table good and pays for its rehash out of a constant. */
  lemma StepGood(t: Table, op: Op)
    requires Good(t)
    ensures Good(Apply(t, op))
    ensures Apply(t, op).relinked - t.relinked + Reserve(Apply(t, op)) <= Reserve(t) + 5 * Price(op)
    ensures !op.ClearOp? ==>
      Apply(t, op).relinked - t.relinked + Potential(Apply(t, op)) <= Potential(t) + 3
  {
    hide Good, Set, Delete, Clear, Reserve, Potential, Price;
    StepKeeps(t, op);
    StepReserve(t, op);
    match op
    case SetOp(k, v) => SetPotential(t, k, v);
    case DeleteOp(k) => DeletePotential(t, k);
    case ClearOp =>
  }

  /** The insertions and deletions of a run. */
  function Calls(ops: seq<Op>): nat {
    if ops == [] then 0 else Price(ops[0]) + Calls(ops[1..])
  }

  ghost predicate NoClears(ops: seq<Op>) {
    forall i :: 0 <= i < |ops| ==> !ops[i].ClearOp?
  }

  lemma {:induction false} RunGood(t: Table, ops: seq<Op>)
    requires Good(t)
    ensures Good(Run(t, ops))
    ensures Run(t, ops).relinked - t.relinked + Reserve(Run(t, ops)) <= Reserve(t) + 5 * Calls(ops)
    ensures NoClears(ops) ==>
      Run(t, ops).relinked - t.relinked + Potential(Run(t, ops)) <= Potential(t) + 3 * |ops|
    decreases ops
  {
    hide Good, Apply, Reserve, Potential, Price;
    if ops == [] {
    } else {
      StepGood(t, ops[0]);
      RunGood(Apply(t, ops[0]), ops[1..]);
    }
  }

  /** Any n insertions and deletions on a fresh table of capacity C, with any number of clears between them, relink at
      most 5n + C/2 entries, and at most 3n + 3C/4 without a clear. */
  lemma RehashingIsAmortised(capacity: nat, ops: seq<Op>)
    requires capacity <= 0x8000_0000
    ensures var c := InitCapacity(capacity);
      && Run(Fresh(c), ops).relinked <= 5 * Calls(ops) + c / 2
      && (NoClears(ops) ==> Run(Fresh(c), ops).relinked <= 3 * |ops| + 3 * c / 4)
  {
    hide Run, IsPow2, InitCapacity, Calls, NoClears;
    InitGood(capacity);
    var t := Fresh(InitCapacity(capacity));
    Pow2Steps(t.capacity);
    RunGood(t, ops);
  }

  // ---- The whole work of rehashing: entries moved and buckets looked into ----

  function Effort(t: Table): nat {
    7 * Monus(|t.contents|, t.capacity / 2) + 10 * Monus(3 * t.capacity / 8, |t.contents|)
  }

  /** The same when clearing is among the calls. */
  function EffortReserve(t: Table): nat {
    17 * Monus(|t.contents|, t.capacity / 2) + 5 * t.capacity / 2
  }

  lemma SetEffort(t: Table, k: Key, v: Word)
    requires Good(t)
    ensures Set(t, k, v).Work() - t.Work() + Effort(Set(t, k, v)) <= Effort(t) + 10
    ensures Set(t, k, v).Work() - t.Work() + EffortReserve(Set(t, k, v)) <= EffortReserve(t) + 17
  {
    hide IsPow2;
    Pow2Steps(t.capacity);
    SizeAfter(MaybeGrow(t).contents, k, v);
  }

  lemma DeleteEffort(t: Table, k: Key)
    requires Good(t)
    ensures Delete(t, k).Work() - t.Work() + Effort(Delete(t, k)) <= Effort(t) + 10
    ensures Delete(t, k).Work() - t.Work() + EffortReserve(Delete(t, k)) <= EffortReserve(t) + 17
  {
    hide IsPow2;
    Pow2Steps(t.capacity);
    SizeAfter(t.contents, k, 0);
  }

  /** Each insertion or deletion pays for the moves and the looks of its rehash out of a constant. */
  lemma StepEffort(t: Table, op: Op)
    requires Good(t)
    ensures Apply(t, op).Work() - t.Work() + EffortReserve(Apply(t, op)) <= EffortReserve(t) + 17 * Price(op)
    ensures !op.ClearOp? ==>
      Apply(t, op).Work() - t.Work() + Effort(Apply(t, op)) <= Effort(t) + 10
  {
    hide Good, Set, Delete, Effort;
    match op
    case SetOp(k, v) => SetEffort(t, k, v);
    case DeleteOp(k) => DeleteEffort(t, k);
    case ClearOp =>
  }

  lemma {:induction false} RunEffort(t: Table, ops: seq<Op>)
    requires Good(t)
    ensures Run(t, ops).Work() - t.Work() + EffortReserve(Run(t, ops)) <= EffortReserve(t) + 17 * Calls(ops)
    ensures NoClears(ops) ==>
      Run(t, ops).Work() - t.Work() + Effort(Run(t, ops)) <= Effort(t) + 10 * |ops|
    decreases ops
  {
    hide Good, Apply, Effort, EffortReserve, Price;
    if ops == [] {
    } else {
      StepGood(t, ops[0]);
      StepEffort(t, ops[0]);
      RunEffort(Apply(t, ops[0]), ops[1..]);
    }
  }

  /** Any n insertions and deletions on a fresh table of capacity C, with any number of clears between them, relink
      entries and look into old buckets at most 17n + 5C/2 times together, and at most 10n + 15C/4 times without a
      clear. */
  lemma WorkIsAmortised(capacity: nat, ops: seq<Op>)
    requires capacity <= 0x8000_0000
    ensures var c := InitCapacity(capacity);
      && Run(Fresh(c), ops).Work() <= 17 * Calls(ops) + 5 * c / 2
      && (NoClears(ops) ==> Run(Fresh(c), ops).Work() <= 10 * |ops| + 15 * c / 4)
  {
    hide Run, IsPow2, InitCapacity, Calls, NoClears;
    InitGood(capacity);
    var t := Fresh(InitCapacity(capacity));
    Pow2Steps(t.capacity);
    RunEffort(t, ops);
  }

  // ---- When the table grows and shrinks ----

  /** Set doubles the capacity if and only if one more entry would fill more than three quarters of it. */
  lemma SetGrows(t: Table, k: Key, v: Word)
    requires Good(t)
    ensures Set(t, k, v).capacity ==
      if 4 * (|t.contents| + 1) > 3 * t.capacity then 2 * t.capacity else t.capacity
    ensures Set(t, k, v).contents == t.contents[k := v]
    ensures Set(t, k, v).relinked == t.relinked + if Set(t, k, v).capacity != t.capacity then |t.contents| else 0
  {
    hide IsPow2;
    Pow2Steps(t.capacity);
  }

  /** Deleting a present key halves the capacity if and only if the new count is below a quarter of it and half of it is
      at least 8; an absent key changes nothing. */
  lemma DeleteShrinks(t: Table, k: Key)
    requires Good(t)
    ensures k !in t.contents ==> Delete(t, k) == t
    ensures k in t.contents ==>
      Delete(t, k).capacity ==
      if 4 * (|t.contents| - 1) < t.capacity && t.capacity >= 16 then t.capacity / 2 else t.capacity
    ensures Delete(t, k).contents == t.contents - {k}
  {
    hide IsPow2, MinLoad;
    Pow2Steps(t.capacity);
    SizeAfter(t.contents, k, 0);
    Quarter(t.capacity, |t.contents - {k}|);
    Absent(t.contents, k);
  }

  lemma Absent(m: map<Key, Word>, k: Key)
    ensures k !in m ==> m - {k} == m
  {
  }

  lemma Quarter(c: nat, n: nat)
    requires c % 8 == 0
    ensures n < MinLoad(c) <==> 4 * n < c
    ensures c / 2 >= 8 <==> c >= 16
  {
  }

  /** At most c buckets, or a quarter of them in use. */
  predicate Tight(t: Table, c: nat) { t.capacity <= c || 4 * |t.contents| >= t.capacity }

  /** Every step keeps that but a clear of a table that has grown beyond c. */
  lemma StepTight(t: Table, op: Op, c: nat)
    requires Good(t) && Tight(t, c) && c >= 8
    ensures Tight(Apply(t, op), c) <==> (op.ClearOp? ==> t.capacity <= c)
  {
    hide IsPow2, Set, Delete;
    Pow2Steps(t.capacity);
    match op
    case SetOp(k, v) =>
      SetGrows(t, k, v);
      SizeAfter(t.contents, k, v);
    case DeleteOp(k) =>
      DeleteShrinks(t, k);
      SizeAfter(t.contents, k, 0);
    case ClearOp => assert |Apply(t, op).contents| == 0;
  }

  lemma {:induction false} RunTight(t: Table, ops: seq<Op>, c: nat)
    requires Good(t) && Tight(t, c) && NoClears(ops) && c >= 8
    ensures Tight(Run(t, ops), c)
    decreases ops
  {
    hide Good, Tight, Apply;
    if ops == [] {
    } else {
      StepGood(t, ops[0]);
      StepTight(t, ops[0], c);
      RunTight(Apply(t, ops[0]), ops[1..], c);
    }
  }

  /** A table made with C buckets, in a run without a clear, has at most C buckets or uses at least a quarter of those
      it has; made with 8, it has 8 or uses a quarter. */
  lemma RunShrinks(capacity: nat, ops: seq<Op>)
    requires capacity <= 0x8000_0000 && NoClears(ops)
    ensures var (c, t) := (InitCapacity(capacity), Run(Fresh(InitCapacity(capacity)), ops));
      && (t.capacity <= c || 4 * |t.contents| >= t.capacity)
      && (c == 8 ==> t.capacity == 8 || 4 * |t.contents| >= t.capacity)
  {
    hide Run, IsPow2, InitCapacity, NoClears;
    InitGood(capacity);
    var t := Fresh(InitCapacity(capacity));
    RunGood(t, ops);
    RunTight(t, ops, t.capacity);
  }

  /** A clear leaves its buckets behind: 7 insertions, a clear, and 16 buckets without an entry. */
  lemma NotAlwaysTight(t: Table, k: Key, v: Word)
    requires Good(t) && t.capacity == 8 && |t.contents| == 6 && k !in t.contents
    ensures Set(t, k, v).capacity == 16 && |Set(t, k, v).contents| == 7
    ensures Clear(Set(t, k, v)).capacity == 16 && |Clear(Set(t, k, v)).contents| == 0
  {
    hide IsPow2;
    SizeAfter(t.contents, k, v);
  }

  /** With 4 of 16 buckets in use the next deletion halves them. */
  lemma ShrinksAtQuarter(t: Table, k: Key)
    requires Good(t) && t.capacity == 16 && |t.contents| == 4 && k in t.contents
    ensures Delete(t, k).capacity == 8
  {
    DeleteShrinks(t, k);
  }
}
