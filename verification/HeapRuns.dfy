/** Whole runs of the heap: safety, refinement of a map of live regions, LIFO runs, coalescing. */
module HeapRuns {
  import opened Bits
  import opened HeapModel
  import opened HeapSafety

  datatype Op = AllocOp(size: Size) | FreeOp(ptr: int) | ReallocOp(ptr: int, size: Size)

  /** What the C caller owes: free gets NULL or a block's pointer, realloc NULL or a live pointer. */
  predicate Allowed(h: Heap, op: Op) {
    match op
    case AllocOp(_) => true
    case FreeOp(ptr) => KnownPtr(h, ptr)
    case ReallocOp(ptr, _) => ptr == 0 || LivePtr(h, ptr)
  }

  /** The new heap and the returned pointer (0 for free). */
  function Apply(h: Heap, op: Op): (Heap, int)
    requires Allowed(h, op)
  {
    match op
    case AllocOp(size) => Alloc(h, size)
    case FreeOp(ptr) => (Free(h, ptr), 0)
    case ReallocOp(ptr, size) => Realloc(h, ptr, size)
  }

  predicate AllowedRun(h: Heap, ops: seq<Op>)
    decreases ops
  {
    ops != [] ==> Allowed(h, ops[0]) && AllowedRun(Apply(h, ops[0]).0, ops[1..])
  }

  function Run(h: Heap, ops: seq<Op>): Heap
    requires AllowedRun(h, ops)
    decreases ops
  {
    if ops == [] then h else Run(Apply(h, ops[0]).0, ops[1..])
  }

  // ---- Refinement of a map of live regions ----

  /** The region at header address `a`, new to `m`, gets at least `n` bytes; nothing else changes. */
  ghost predicate Granted(m: map<int, int>, n: int, m': map<int, int>, a: int) {
    a !in m && a in m' && m'[a] >= n && m' == m[a := m'[a]]
  }

  /** What each operation may do to the live regions, seen from the caller. */
  ghost predicate RegionStep(m: map<int, int>, op: Op, m': map<int, int>, ptr: int) {
    var a := ptr - HEADER_SIZE;
    match op
    case AllocOp(size) =>
      if ptr == 0 then m' == m else size != 0 && Granted(m, BlockSize(size), m', a)
    case FreeOp(freed) =>
      m' == m - {freed - HEADER_SIZE}
    case ReallocOp(prev, size) =>
      if prev == 0 then (if ptr == 0 then m' == m else size != 0 && Granted(m, BlockSize(size), m', a))
      else if size == 0 then ptr == 0 && m' == m - {prev - HEADER_SIZE}
      else if ptr == 0 then m' == m
      else (ptr == prev || a !in m) && Granted(m - {prev - HEADER_SIZE}, BlockSize(size), m', a)
  }

  lemma StepRefines(h: Heap, op: Op, lo: int, hi: int)
    requires Inv(h, lo, hi) && Allowed(h, op)
    ensures Inv(Apply(h, op).0, lo, hi)
    ensures RegionStep(Regions(h), op, Regions(Apply(h, op).0), Apply(h, op).1)
  {
    hide Inv, Regions, Alloc, Free, KnownPtr;
    match op
    case AllocOp(size) =>
      AllocSafe(h, size, lo, hi);
    case FreeOp(ptr) =>
      FreeSafe(h, ptr, lo, hi);
      LiveIsRegion(h, ptr, lo, hi);
    case ReallocOp(ptr, size) =>
      LiveIsRegion(h, ptr, lo, hi);
      if ptr == 0 {
        AllocSafe(h, size, lo, hi);
      } else if size == 0 {
        var k := LiveBlockAt(h, ptr, lo, hi);
        FreeSafe(h, ptr, lo, hi);
      } else {
        ReallocSafe(h, ptr, size, lo, hi);
      }
  }

  /** Over every run: the blocks tile the mapping, the free list is exactly the free blocks without
      repetition, and usedSize is the sum of the used blocks. */
  lemma {:induction false} RunSafe(h: Heap, ops: seq<Op>, lo: int, hi: int)
    requires Inv(h, lo, hi) && AllowedRun(h, ops)
    ensures Inv(Run(h, ops), lo, hi)
    decreases ops
  {
    if ops == [] {
    } else {
      StepRefines(h, ops[0], lo, hi);
      RunSafe(Apply(h, ops[0]).0, ops[1..], lo, hi);
    }
  }

  // ---- Free undoes alloc ----

  lemma FreeUndoesSplit(h: Heap, p: nat, n: int, lo: int, hi: int)
    requires Inv(h, lo, hi) && p < |h.free| && Rounded(n)
    requires var k := IndexOf(h.blocks, h.free[p]); k < |h.blocks| && Splits(h.blocks[k], n)
    ensures var h1 := Take(h, p, n); var ptr := h.free[p] + HEADER_SIZE;
      && KnownPtr(h1, ptr)
      && Free(h1, ptr).blocks == h.blocks && Free(h1, ptr).free == [h.free[p]] + Without(h.free, h.free[p])
  {
    var h1 := Take(h, p, n);
    var k := FreeBlockAt(h, p, lo, hi);
    TakeSplitStep(h, p, n, lo, hi);
    BlockAt(h, k, lo, hi);
    IndexOfIs(h1.blocks, k, lo, hi);
    var rest := h1.blocks[k + 1];
    assert h1.free == h.free[p := rest.addr];
    WithoutIs(h.free, p);
    WithoutIs(h1.free, p);
    assert h1.free[..p] + h1.free[p + 1..] == h.free[..p] + h.free[p + 1..];
    assert h1.blocks[..k] == h.blocks[..k] && h1.blocks[k + 2..] == h.blocks[k + 1..];
  }

  lemma FreeUndoesWhole(h: Heap, p: nat, n: int, lo: int, hi: int)
    requires Inv(h, lo, hi) && p < |h.free|
    requires var k := IndexOf(h.blocks, h.free[p]); k < |h.blocks| && !Splits(h.blocks[k], n)
    ensures var h1 := Take(h, p, n); var ptr := h.free[p] + HEADER_SIZE;
      && KnownPtr(h1, ptr)
      && (Free(h1, ptr).blocks == h.blocks <==> !NextIsFree(h.blocks, IndexOf(h.blocks, h.free[p])))
      && (Free(h1, ptr).blocks == h.blocks ==> Free(h1, ptr).free == [h.free[p]] + Without(h.free, h.free[p]))
  {
    hide Tiles, Table, UsedSum, IndexOf, Middle, Elems, FreeAddrs, Without;
    var h1 := Take(h, p, n);
    var k := FreeBlockAt(h, p, lo, hi);
    TakeWholeStep(h, p, n, lo, hi);
    BlockAt(h, k, lo, hi);
    IndexOfIs(h1.blocks, k, lo, hi);
    WithoutIs(h.free, p);
    assert h1.blocks[..k] == h.blocks[..k] && h1.blocks[k + 1..] == h.blocks[k + 1..];
    assert k + 1 < |h.blocks| ==> h1.blocks[k + 1] == h.blocks[k + 1];
    if NextIsFree(h.blocks, k) {
      assert |Free(h1, h.free[p] + HEADER_SIZE).blocks| == |h.blocks| - 1;
    }
  }

  /** Freeing what was just allocated restores the blocks exactly when the block was split or its successor
      was not free (otherwise free merges two blocks that were apart); the block moves to the list's front. */
  lemma FreeUndoesAlloc(h: Heap, request: Size, lo: int, hi: int)
    requires Inv(h, lo, hi) && Alloc(h, request).1 != 0
    ensures var (h1, ptr) := Alloc(h, request); var k := IndexOf(h.blocks, ptr - HEADER_SIZE);
      && k < |h.blocks| && KnownPtr(h1, ptr)
      && (Free(h1, ptr).blocks == h.blocks <==> Splits(h.blocks[k], BlockSize(request)) || !NextIsFree(h.blocks, k))
      && (Free(h1, ptr).blocks == h.blocks ==>
            Free(h1, ptr).free == [ptr - HEADER_SIZE] + Without(h.free, ptr - HEADER_SIZE))
  {
    var n := BlockSize(request);
    BlockSizeCovers(request);
    var p := FirstFit(h.blocks, h.free, n);
    var k := FreeBlockAt(h, p, lo, hi);
    if Splits(h.blocks[k], n) {
      FreeUndoesSplit(h, p, n, lo, hi);
    } else {
      FreeUndoesWhole(h, p, n, lo, hi);
    }
  }

  // ---- Coalescing ----

  ghost predicate Coalesced(bs: seq<Block>) {
    forall i :: 0 <= i < |bs| && !bs[i].used ==> !NextIsFree(bs, i)
  }

  /** Free merges forward only: it keeps the heap coalesced exactly when the block's predecessor is in use. */
  lemma FreeCoalesces(h: Heap, ptr: int, lo: int, hi: int)
    requires Inv(h, lo, hi) && LivePtr(h, ptr) && Coalesced(h.blocks)
    ensures var k := IndexOf(h.blocks, ptr - HEADER_SIZE);
      Coalesced(Free(h, ptr).blocks) <==> k == 0 || h.blocks[k - 1].used
  {
    var k := LiveBlockAt(h, ptr, lo, hi);
    var bs, bs' := h.blocks, Free(h, ptr).blocks;
    var d := if NextIsFree(bs, k) then 1 else 0;
    assert forall i :: 0 <= i < k ==> bs'[i] == bs[i];
    assert forall i :: k < i < |bs'| ==> bs'[i] == bs[i + d];
    if k > 0 && !bs[k - 1].used {
      assert NextIsFree(bs', k - 1);
    } else {
      forall i | 0 <= i < |bs'| && !bs'[i].used ensures !NextIsFree(bs', i) {
        if i == k {
          if d == 1 { assert !NextIsFree(bs, k + 1); }
        } else if i < k {
          assert !NextIsFree(bs, i);
        } else {
          assert !NextIsFree(bs, i + d);
        }
      }
    }
  }

  lemma TakeCoalesces(h: Heap, p: nat, n: int, lo: int, hi: int)
    requires Inv(h, lo, hi) && Coalesced(h.blocks) && p < |h.free| && IndexOf(h.blocks, h.free[p]) < |h.blocks|
    ensures Coalesced(Take(h, p, n).blocks)
  {
    var k := FreeBlockAt(h, p, lo, hi);
    var bs, bs' := h.blocks, Take(h, p, n).blocks;
    var d := if Splits(bs[k], n) then 1 else 0;
    assert |bs'| == |bs| + d && bs'[k].used;
    assert forall i :: 0 <= i < k ==> bs'[i] == bs[i];
    assert forall i :: k + d < i < |bs'| ==> bs'[i] == bs[i - d];
    forall i | 0 <= i < |bs'| && !bs'[i].used ensures !NextIsFree(bs', i) {
      if i < k { assert !NextIsFree(bs, i); } else { assert !NextIsFree(bs, i - d); }
    }
  }

  /** Alloc never leaves two adjacent free blocks where there were none. */
  lemma AllocCoalesces(h: Heap, request: Size, lo: int, hi: int)
    requires Inv(h, lo, hi) && Coalesced(h.blocks)
    ensures Coalesced(Alloc(h, request).0.blocks)
  {
    var n := BlockSize(request);
    var p := FirstFit(h.blocks, h.free, n);
    if request != 0 && p < |h.free| {
      var k := FreeBlockAt(h, p, lo, hi);
      TakeCoalesces(h, p, n, lo, hi);
    }
  }

  /** Alloc on a heap whose only free block is the last one splits it. */
  lemma AllocTop(pre: seq<Block>, a: int, size: int, used: int, request: Size, bs: seq<Block>, n: int)
    requires forall i :: 0 <= i < |pre| ==> pre[i].addr != a
    requires bs == pre + [Block(a, size, false)]
    requires request != 0 && n == BlockSize(request) && size - n >= HEADER_SIZE + MIN_BLOCK_SIZE
    ensures var rest := Block(a + HEADER_SIZE + n, size - n - HEADER_SIZE, false);
      Alloc(Heap(bs, [a], used), request) ==
      (Heap(pre + [Block(a, n, true), rest], [rest.addr], used + n), a + HEADER_SIZE)
  {
    hide BlockSize, IndexOf;
    var h := Heap(bs, [a], used);
    var rest := Block(a + HEADER_SIZE + n, size - n - HEADER_SIZE, false);
    LastIndex(pre, Block(a, size, false));
    assert bs[..|pre|] == pre && bs[|pre| + 1..] == [];
    assert Fits(bs, a, n);
    FirstFitIs(bs, [a], n, 0);
    assert bs[..|pre|] + [Block(a, n, true), rest] + bs[|pre| + 1..] == pre + [Block(a, n, true), rest];
    assert [a][0 := rest.addr] == [rest.addr];
    assert Splits(bs[|pre|], n);
    assert Take(h, 0, n) == Heap(pre + [Block(a, n, true), rest], [rest.addr], used + n);
  }

  lemma {:induction false} LastIndex(pre: seq<Block>, b: Block)
    requires forall i :: 0 <= i < |pre| ==> pre[i].addr != b.addr
    ensures IndexOf(pre + [b], b.addr) == |pre|
    decreases pre
  {
    if pre == [] {
    } else {
      assert (pre + [b])[1..] == pre[1..] + [b];
      LastIndex(pre[1..], b);
    }
  }

  // ---- A run after which two free blocks are adjacent ----

  const P_USED := Block(4096, 32, true)
  const P_FREE := Block(4096, 32, false)
  const Q_USED := Block(4160, 32, true)
  const Q_FREE := Block(4160, 4000, false)
  const R_FREE := Block(4224, 3936, false)

  lemma ExampleAllocs()
    ensures Alloc(InitHeap(4096, 8192), 32) == (Heap([P_USED, Q_FREE], [4160], 32), 4128)
    ensures Alloc(Heap([P_USED, Q_FREE], [4160], 32), 32) == (Heap([P_USED, Q_USED, R_FREE], [4224], 64), 4192)
  {
    hide Alloc;
    AllocTop([], 4096, 4064, 0, 32, InitHeap(4096, 8192).blocks, 32);
    assert [] + [P_USED, Q_FREE] == [P_USED, Q_FREE];
    AllocTop([P_USED], 4160, 4000, 32, 32, [P_USED, Q_FREE], 32);
    assert [P_USED] + [Q_USED, R_FREE] == [P_USED, Q_USED, R_FREE];
  }

  lemma ExampleFrees()
    ensures KnownPtr(Heap([P_USED, Q_USED, R_FREE], [4224], 64), 4128)
    ensures Free(Heap([P_USED, Q_USED, R_FREE], [4224], 64), 4128) ==
            Heap([P_FREE, Q_USED, R_FREE], [4096, 4224], 32)
    ensures KnownPtr(Heap([P_FREE, Q_USED, R_FREE], [4096, 4224], 32), 4192)
    ensures Free(Heap([P_FREE, Q_USED, R_FREE], [4096, 4224], 32), 4192) ==
            Heap([P_FREE, Q_FREE], [4160, 4096], 0)
  {
    var h3 := Heap([P_FREE, Q_USED, R_FREE], [4096, 4224], 32);
    assert h3.blocks[1..] == [Q_USED, R_FREE];
    assert IndexOf(h3.blocks, 4160) == 1;
    assert Without(h3.free, 4224) == [4096] by { assert h3.free[1..] == [4224]; }
  }

  /** Two allocations freed in allocation order leave two adjacent free blocks. */
  lemma NotAlwaysCoalesced()
    ensures var ops := [AllocOp(32), AllocOp(32), FreeOp(4128), FreeOp(4192)];
      AllowedRun(InitHeap(4096, 8192), ops) && !Coalesced(Run(InitHeap(4096, 8192), ops).blocks)
  {
    hide Alloc, Free, InitHeap, KnownPtr;
    ExampleAllocs();
    ExampleFrees();
    var ops := [AllocOp(32), AllocOp(32), FreeOp(4128), FreeOp(4192)];
    var h4 := Heap([P_FREE, Q_FREE], [4160, 4096], 0);
    assert NextIsFree(h4.blocks, 0);
    assert ops[1..] == [AllocOp(32), FreeOp(4128), FreeOp(4192)];
    assert ops[1..][1..] == [FreeOp(4128), FreeOp(4192)];
    assert [FreeOp(4128), FreeOp(4192)][1..] == [FreeOp(4192)];
    assert [FreeOp(4192)][1..] == [];
    assert Run(h4, []) == h4;
    assert AllowedRun(h4, []);
  }

  /** A request within fifteen bytes of 2^64 gets 32 bytes. */
  lemma WrappedRequest()
    ensures Alloc(InitHeap(4096, 8192), WORD64 - 1) ==
            (Heap([Block(4096, 32, true), Block(4160, 4000, false)], [4160], 32), 4128)
  {
    hide Alloc;
    AllocTop([], 4096, 4064, 0, WORD64 - 1, InitHeap(4096, 8192).blocks, 32);
    assert [] + [Block(4096, 32, true), Block(4160, 4000, false)] == [Block(4096, 32, true), Block(4160, 4000, false)];
  }

  // ---- A run after which free does not undo alloc ----

  const A_USED := Block(4096, 64, true)
  const A_FREE := Block(4096, 64, false)
  const B_USED := Block(4192, 32, true)
  const B_FREE := Block(4192, 32, false)
  const C_USED := Block(4256, 32, true)
  const D_FREE := Block(4320, 3840, false)

  lemma UndoneAllocs()
    ensures Alloc(InitHeap(4096, 8192), 64) == (Heap([A_USED, Block(4192, 3968, false)], [4192], 64), 4128)
    ensures Alloc(Heap([A_USED, Block(4192, 3968, false)], [4192], 64), 32) ==
            (Heap([A_USED, B_USED, Block(4256, 3904, false)], [4256], 96), 4224)
    ensures Alloc(Heap([A_USED, B_USED, Block(4256, 3904, false)], [4256], 96), 32) ==
            (Heap([A_USED, B_USED, C_USED, D_FREE], [4320], 128), 4288)
  {
    hide Alloc;
    var b, c := Block(4192, 3968, false), Block(4256, 3904, false);
    AllocTop([], 4096, 4064, 0, 64, InitHeap(4096, 8192).blocks, 64);
    assert [] + [A_USED, b] == [A_USED, b];
    AllocTop([A_USED], 4192, 3968, 64, 32, [A_USED, b], 32);
    assert [A_USED] + [B_USED, c] == [A_USED, B_USED, c];
    AllocTop([A_USED, B_USED], 4256, 3904, 96, 32, [A_USED, B_USED, c], 32);
    assert [A_USED, B_USED] + [C_USED, D_FREE] == [A_USED, B_USED, C_USED, D_FREE];
  }

  lemma UndoneFrees()
    ensures KnownPtr(Heap([A_USED, B_USED, C_USED, D_FREE], [4320], 128), 4128)
    ensures Free(Heap([A_USED, B_USED, C_USED, D_FREE], [4320], 128), 4128) ==
            Heap([A_FREE, B_USED, C_USED, D_FREE], [4096, 4320], 64)
    ensures KnownPtr(Heap([A_FREE, B_USED, C_USED, D_FREE], [4096, 4320], 64), 4224)
    ensures Free(Heap([A_FREE, B_USED, C_USED, D_FREE], [4096, 4320], 64), 4224) ==
            Heap([A_FREE, B_FREE, C_USED, D_FREE], [4192, 4096, 4320], 32)
  {
    var h4 := Heap([A_FREE, B_USED, C_USED, D_FREE], [4096, 4320], 64);
    assert h4.blocks[1..] == [B_USED, C_USED, D_FREE];
    assert IndexOf(h4.blocks, 4192) == 1;
  }

  lemma UndoneAgain()
    ensures Alloc(Heap([A_FREE, B_FREE, C_USED, D_FREE], [4192, 4096, 4320], 32), 64) ==
            (Heap([A_USED, B_FREE, C_USED, D_FREE], [4192, 4320], 96), 4128)
    ensures KnownPtr(Heap([A_USED, B_FREE, C_USED, D_FREE], [4192, 4320], 96), 4128)
    ensures Free(Heap([A_USED, B_FREE, C_USED, D_FREE], [4192, 4320], 96), 4128) ==
            Heap([Block(4096, 128, false), C_USED, D_FREE], [4096, 4320], 32)
  {
    var h5 := Heap([A_FREE, B_FREE, C_USED, D_FREE], [4192, 4096, 4320], 32);
    assert BlockSize(64) == 64;
    assert IndexOf(h5.blocks, 4192) == 1 by { assert h5.blocks[1..] == [B_FREE, C_USED, D_FREE]; }
    FirstFitIs(h5.blocks, h5.free, 64, 1);
    assert Take(h5, 1, 64) == Heap([A_USED, B_FREE, C_USED, D_FREE], [4192, 4320], 96);
    assert Without([4192, 4320], 4192) == [4320];
  }

  /** Three blocks, the first two freed in that order: an alloc takes the first whole, and the free that follows merges
      it with the second. */
  lemma NotAlwaysUndone()
    ensures var h := InitHeap(4096, 8192);
      var ops := [AllocOp(64), AllocOp(32), AllocOp(32), FreeOp(4128), FreeOp(4224)];
      && AllowedRun(h, ops)
      && Alloc(Run(h, ops), 64).1 == 4128 && KnownPtr(Alloc(Run(h, ops), 64).0, 4128)
      && Free(Alloc(Run(h, ops), 64).0, 4128).blocks != Run(h, ops).blocks
  {
    hide Alloc, Free, InitHeap, KnownPtr;
    UndoneAllocs();
    UndoneFrees();
    UndoneAgain();
    var ops := [AllocOp(64), AllocOp(32), AllocOp(32), FreeOp(4128), FreeOp(4224)];
    assert ops[1..] == [AllocOp(32), AllocOp(32), FreeOp(4128), FreeOp(4224)];
    assert ops[1..][1..] == [AllocOp(32), FreeOp(4128), FreeOp(4224)];
    assert [AllocOp(32), FreeOp(4128), FreeOp(4224)][1..] == [FreeOp(4128), FreeOp(4224)];
    assert [FreeOp(4128), FreeOp(4224)][1..] == [FreeOp(4224)];
    assert [FreeOp(4224)][1..] == [];
    var h5 := Heap([A_FREE, B_FREE, C_USED, D_FREE], [4192, 4096, 4320], 32);
    assert AllowedRun(h5, []);
    assert Run(h5, []) == h5;
    assert Run(InitHeap(4096, 8192), ops) == h5;
  }

  // ---- LIFO runs ----

  datatype Lifo = Push(size: Size) | Pop

  /** The heap with its live pointers in allocation order. */
  datatype Stacked = Stacked(h: Heap, ptrs: seq<int>)

  function LifoStep(s: Stacked, op: Lifo): Stacked {
    match op
    case Push(size) =>
      var (h', ptr) := Alloc(s.h, size);
      Stacked(h', if ptr == 0 then s.ptrs else s.ptrs + [ptr])
    case Pop =>
      if s.ptrs == [] || !KnownPtr(s.h, s.ptrs[|s.ptrs| - 1]) then s
      else Stacked(Free(s.h, s.ptrs[|s.ptrs| - 1]), s.ptrs[..|s.ptrs| - 1])
  }

  function LifoRun(s: Stacked, ops: seq<Lifo>): Stacked
    decreases ops
  {
    if ops == [] then s else LifoRun(LifoStep(s, ops[0]), ops[1..])
  }

  /** The live blocks in allocation order, then at most one free block, which is the whole free list. */
  ghost predicate StackShaped(s: Stacked) {
    var (bs, n) := (s.h.blocks, |s.ptrs|);
    && n <= |bs| <= n + 1
    && (forall i :: 0 <= i < n ==> bs[i].used && bs[i].Ptr() == s.ptrs[i])
    && (if |bs| == n then s.h.free == [] else !bs[n].used && s.h.free == [bs[n].addr])
  }

  /** In a stack-shaped heap the only block that can be free is the last one. */
  lemma FreeIsLast(s: Stacked, lo: int, hi: int)
    requires Inv(s.h, lo, hi) && StackShaped(s) && s.h.free != []
    ensures |s.h.free| == 1 && |s.h.blocks| == |s.ptrs| + 1
    ensures IndexOf(s.h.blocks, s.h.free[0]) == |s.ptrs|
  {
    hide Tiles, IndexOf, Table;
    IndexOfIs(s.h.blocks, |s.ptrs|, lo, hi);
  }

  lemma PushShape(s: Stacked, size: Size, lo: int, hi: int)
    requires Inv(s.h, lo, hi) && StackShaped(s)
    ensures StackShaped(LifoStep(s, Push(size)))
  {
    hide Inv, IndexOf, BlockSize;
    var n := BlockSize(size);
    if size != 0 && FirstFit(s.h.blocks, s.h.free, n) < |s.h.free| {
      FreeIsLast(s, lo, hi);
      assert s.h.free[0] > 0 by { FreeAddrPositive(s.h, lo, hi); }
      var k, bs := |s.ptrs|, s.h.blocks;
      var taken := Take(s.h, 0, n);
      assert bs[k + 1..] == [];
      assert forall i :: 0 <= i < k ==> taken.blocks[i] == bs[i];
      assert taken.blocks[k].used && taken.blocks[k].Ptr() == s.h.free[0] + HEADER_SIZE;
      assert LifoStep(s, Push(size)) == Stacked(taken, s.ptrs + [s.h.free[0] + HEADER_SIZE]);
    }
  }

  lemma FreeAddrPositive(h: Heap, lo: int, hi: int)
    requires Inv(h, lo, hi) && h.free != []
    ensures h.free[0] > 0
  {
    var k := FreeBlockAt(h, 0, lo, hi);
    TilesOrdered(h.blocks, lo, hi);
  }

  lemma PopShape(s: Stacked, lo: int, hi: int)
    requires Inv(s.h, lo, hi) && StackShaped(s)
    ensures StackShaped(LifoStep(s, Pop)) && |LifoStep(s, Pop).ptrs| == if s.ptrs == [] then 0 else |s.ptrs| - 1
    ensures s.ptrs != [] ==> LivePtr(s.h, s.ptrs[|s.ptrs| - 1])
  {
    hide Tiles, Table, UsedSum, IndexOf, Elems, FreeAddrs;
    if s.ptrs != [] {
      var k := |s.ptrs| - 1;
      var h, h' := s.h, LifoStep(s, Pop).h;
      IndexOfIs(h.blocks, k, lo, hi);
      TilesOrdered(h.blocks, lo, hi);
      assert LivePtr(h, s.ptrs[k]) && s.ptrs[k] != 0;
      assert h' == Free(h, s.ptrs[k]);
      assert k + 2 == |h.blocks| ==> Without(h.free, h.blocks[k + 1].addr) == [];
      assert forall i :: 0 <= i < k ==> h'.blocks[i] == h.blocks[i];
      assert |h'.blocks| == k + 1 && h'.blocks[k].addr == h.blocks[k].addr && !h'.blocks[k].used;
      assert h'.free == [h.blocks[k].addr];
    }
  }

  lemma {:induction false} LifoRunShape(s: Stacked, ops: seq<Lifo>, lo: int, hi: int)
    requires Inv(s.h, lo, hi) && StackShaped(s)
    ensures Inv(LifoRun(s, ops).h, lo, hi) && StackShaped(LifoRun(s, ops))
    decreases ops
  {
    if ops == [] {
    } else {
      match ops[0] {
        case Push(size) =>
          PushShape(s, size, lo, hi);
          AllocSafe(s.h, size, lo, hi);
        case Pop =>
          PopShape(s, lo, hi);
          if s.ptrs != [] { FreeSafe(s.h, s.ptrs[|s.ptrs| - 1], lo, hi); }
      }
      LifoRunShape(LifoStep(s, ops[0]), ops[1..], lo, hi);
    }
  }

  /** With nothing live, a stack-shaped heap is the fresh heap. */
  lemma NothingLive(s: Stacked, lo: int, hi: int)
    requires Inv(s.h, lo, hi) && StackShaped(s) && s.ptrs == []
    ensures s.h == InitHeap(lo, hi)
  {
    TilesOrdered(s.h.blocks, lo, hi);
    assert s.h.blocks == [s.h.blocks[0]];
    OneBlock(s.h.blocks[0]);
  }

  /** Over every LIFO run from the fresh heap the layout is used blocks in allocation order and at most one
      free block, and whenever nothing is live the heap is the fresh heap again. */
  lemma LifoRestores(ops: seq<Lifo>, lo: int, hi: int)
    requires Inv(InitHeap(lo, hi), lo, hi)
    ensures var s := LifoRun(Stacked(InitHeap(lo, hi), []), ops);
      StackShaped(s) && (s.ptrs == [] ==> s.h == InitHeap(lo, hi))
  {
    LifoRunShape(Stacked(InitHeap(lo, hi), []), ops, lo, hi);
    var s := LifoRun(Stacked(InitHeap(lo, hi), []), ops);
    if s.ptrs == [] { NothingLive(s, lo, hi); }
  }

  function Pops(n: nat): seq<Lifo> { seq(n, _ => Pop) }

  /** Popping everything, in the reverse order of allocation, always gets there. */
  lemma {:induction false} PopAllEmpties(s: Stacked, lo: int, hi: int)
    requires Inv(s.h, lo, hi) && StackShaped(s)
    ensures LifoRun(s, Pops(|s.ptrs|)) == Stacked(InitHeap(lo, hi), [])
    decreases |s.ptrs|
  {
    hide Inv, StackShaped, LivePtr, Free;
    if s.ptrs == [] {
      NothingLive(s, lo, hi);
    } else {
      PopShape(s, lo, hi);
      LiveIsKnown(s.h, s.ptrs[|s.ptrs| - 1]);
      FreeSafe(s.h, s.ptrs[|s.ptrs| - 1], lo, hi);
      PopAllEmpties(LifoStep(s, Pop), lo, hi);
      assert Pops(|s.ptrs|)[1..] == Pops(|s.ptrs| - 1);
    }
  }
}
