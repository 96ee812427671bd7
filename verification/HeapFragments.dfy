/** How fragmented the heap gets: the number of adjacent free blocks, over any run. */
module HeapFragments {
  import opened HeapModel
  import opened HeapSafety
  import opened HeapRuns

  function Bit(b: bool): (r: int)
    ensures r >= 0
  {
    if b then 1 else 0
  }

  /** The free blocks whose successor is free too: the merges that were missed. */
  function FreePairs(bs: seq<Block>): nat {
    if bs == [] then 0 else Bit(!bs[0].used && NextIsFree(bs, 0)) + FreePairs(bs[1..])
  }

  predicate EndsFree(bs: seq<Block>) { bs != [] && !bs[|bs| - 1].used }
  predicate StartsFree(bs: seq<Block>) { bs != [] && !bs[0].used }

  predicate PrevIsFree(bs: seq<Block>, k: nat)
    requires k <= |bs|
  {
    EndsFree(bs[..k])
  }

  lemma {:induction false} PairsConcat(a: seq<Block>, b: seq<Block>)
    ensures FreePairs(a + b) == FreePairs(a) + FreePairs(b) + Bit(EndsFree(a) && StartsFree(b))
    decreases a
  {
    if a == [] {
      assert a + b == b;
    } else {
      assert (a + b)[1..] == a[1..] + b;
      PairsConcat(a[1..], b);
      if a[1..] == [] {
        assert a[1..] + b == b;
      }
    }
  }

  /** No missed merge is left if and only if the heap is coalesced. */
  lemma {:induction false} NoPairs(bs: seq<Block>)
    ensures FreePairs(bs) == 0 <==> Coalesced(bs)
  {
    if bs == [] {
    } else {
      var t := bs[1..];
      NoPairs(t);
      assert forall i :: 0 <= i < |t| ==> t[i] == bs[i + 1] && (NextIsFree(t, i) <==> NextIsFree(bs, i + 1));
      if Coalesced(bs) {
        assert forall i :: 0 <= i < |t| && !t[i].used ==> !NextIsFree(bs, i + 1);
      }
      if FreePairs(bs) == 0 {
        forall i | 0 <= i < |bs| && !bs[i].used ensures !NextIsFree(bs, i) {
          if i > 0 { assert !t[i - 1].used && !NextIsFree(t, i - 1); }
        }
      }
    }
  }

  /** The pairs around a replaced stretch of blocks. */
  lemma PairsOf(pre: seq<Block>, mid: seq<Block>, post: seq<Block>)
    requires mid != []
    ensures FreePairs(pre + mid + post) ==
      FreePairs(pre) + FreePairs(mid) + FreePairs(post) +
      Bit(EndsFree(pre) && StartsFree(mid)) + Bit(EndsFree(mid) && StartsFree(post))
  {
    PairsConcat(pre, mid);
    PairsConcat(pre + mid, post);
    assert (pre + mid)[|pre + mid| - 1] == mid[|mid| - 1];
  }

  lemma PairsOfOne(b: Block)
    ensures FreePairs([b]) == 0 && StartsFree([b]) == EndsFree([b]) == !b.used
  {
    assert [b][1..] == [];
  }

  lemma PairsOfTwo(b: Block, c: Block)
    ensures FreePairs([b, c]) == Bit(!b.used && !c.used)
    ensures StartsFree([b, c]) == !b.used && EndsFree([b, c]) == !c.used
  {
    assert [b, c][1..] == [c];
    PairsOfOne(c);
  }

  // ---- Single operations ----

  /** The pairs that taking the block at free-list position p ends. */
  function TakeCloses(h: Heap, p: nat, n: int): int
    requires p < |h.free| && IndexOf(h.blocks, h.free[p]) < |h.blocks|
  {
    var k := IndexOf(h.blocks, h.free[p]);
    Bit(PrevIsFree(h.blocks, k)) + Bit(!Splits(h.blocks[k], n) && NextIsFree(h.blocks, k))
  }

  lemma TakePairs(h: Heap, p: nat, n: int, lo: int, hi: int)
    requires Inv(h, lo, hi) && p < |h.free| && IndexOf(h.blocks, h.free[p]) < |h.blocks|
    ensures FreePairs(Take(h, p, n).blocks) == FreePairs(h.blocks) - TakeCloses(h, p, n)
  {
    hide Inv, IndexOf, FreePairs, Splits;
    var k := FreeBlockAt(h, p, lo, hi);
    var b, pre, post := h.blocks[k], h.blocks[..k], h.blocks[k + 1..];
    assert h.blocks == pre + [b] + post;
    assert NextIsFree(h.blocks, k) == StartsFree(post);
    PairsOf(pre, [b], post);
    PairsOfOne(b);
    if Splits(b, n) {
      var c, d := Block(b.addr, n, true), Block(b.addr + HEADER_SIZE + n, b.size - n - HEADER_SIZE, false);
      PairsOf(pre, [c, d], post);
      PairsOfTwo(c, d);
    } else {
      PairsOf(pre, [b.(used := true)], post);
      PairsOfOne(b.(used := true));
    }
  }

  function AllocCloses(h: Heap, request: Size): int {
    var p := FirstFit(h.blocks, h.free, BlockSize(request));
    if request == 0 || p == |h.free| then 0 else TakeCloses(h, p, BlockSize(request))
  }

  /** Alloc opens no pair; it closes the one with the predecessor of the block it takes, and, when it takes the whole
      block, the one with its successor. */
  lemma AllocPairs(h: Heap, request: Size, lo: int, hi: int)
    requires Inv(h, lo, hi)
    ensures FreePairs(Alloc(h, request).0.blocks) == FreePairs(h.blocks) - AllocCloses(h, request)
  {
    hide Inv, FreePairs, TakeCloses, Take, BlockSize;
    var p := FirstFit(h.blocks, h.free, BlockSize(request));
    if request != 0 && p < |h.free| { TakePairs(h, p, BlockSize(request), lo, hi); }
  }

  function FreeOpens(h: Heap, ptr: int): int {
    if LivePtr(h, ptr) then Bit(PrevIsFree(h.blocks, IndexOf(h.blocks, ptr - HEADER_SIZE))) else 0
  }

  /** Free opens a pair exactly when the predecessor of the block is free. */
  lemma FreePairsOpen(h: Heap, ptr: int, lo: int, hi: int)
    requires Inv(h, lo, hi) && KnownPtr(h, ptr)
    ensures FreePairs(Free(h, ptr).blocks) == FreePairs(h.blocks) + FreeOpens(h, ptr)
  {
    hide Inv, IndexOf, FreePairs;
    FreeSafe(h, ptr, lo, hi);
    if LivePtr(h, ptr) {
      var k := LiveBlockAt(h, ptr, lo, hi);
      MergePairs(h.blocks, k, false);
      if !NextIsFree(h.blocks, k) { FlagPairs(h.blocks, k); }
    }
  }

  lemma FlagPairs(bs: seq<Block>, k: nat)
    requires k < |bs| && bs[k].used && !NextIsFree(bs, k)
    ensures FreePairs(bs[..k] + [bs[k].(used := false)] + bs[k + 1..]) == FreePairs(bs) + Bit(PrevIsFree(bs, k))
  {
    hide FreePairs;
    var b, pre, post := bs[k], bs[..k], bs[k + 1..];
    assert bs == pre + [b] + post;
    assert !StartsFree(post);
    PairsOf(pre, [b], post);
    PairsOfOne(b);
    PairsOf(pre, [b.(used := false)], post);
    PairsOfOne(b.(used := false));
  }

  /** A block in use absorbs its free successor: freed, it pairs with its predecessor; in use, the successor's pair with
      the block after it ends. */
  lemma MergePairs(bs: seq<Block>, k: nat, used: bool)
    requires k < |bs| && bs[k].used
    ensures NextIsFree(bs, k) ==>
      FreePairs(Absorb(bs, k, used)) ==
      FreePairs(bs) + (if used then -Bit(NextIsFree(bs, k + 1)) else Bit(PrevIsFree(bs, k)))
  {
    hide FreePairs;
    if NextIsFree(bs, k) {
      var b, c, pre, post := bs[k], bs[k + 1], bs[..k], bs[k + 2..];
      var m := Block(b.addr, b.size + HEADER_SIZE + c.size, used);
      assert bs == pre + [b, c] + post;
      assert NextIsFree(bs, k + 1) == StartsFree(post);
      PairsOf(pre, [b, c], post);
      PairsOfTwo(b, c);
      PairsOf(pre, [m], post);
      PairsOfOne(m);
    }
  }

  // ---- Realloc ----

  function MoveChange(h: Heap, ptr: int, n: Size): int {
    var (h', ptr') := Alloc(h, n);
    if ptr' == 0 || !KnownPtr(h', ptr) then 0 else FreeOpens(h', ptr) - AllocCloses(h, n)
  }

  function ReallocChange(h: Heap, ptr: int, request: Size): int
    requires ptr != 0 ==> LivePtr(h, ptr)
  {
    if ptr == 0 then -AllocCloses(h, request)
    else if request == 0 then FreeOpens(h, ptr)
    else
      var n := BlockSize(request);
      var k := IndexOf(h.blocks, ptr - HEADER_SIZE);
      if h.blocks[k].size >= n then 0
      else if CanExpand(h.blocks, k, n) then -Bit(NextIsFree(h.blocks, k + 1))
      else MoveChange(h, ptr, n)
  }

  lemma MovePairs(h: Heap, ptr: int, n: Size, lo: int, hi: int)
    requires Inv(h, lo, hi) && LivePtr(h, ptr)
    ensures FreePairs(Move(h, ptr, n).0.blocks) == FreePairs(h.blocks) + MoveChange(h, ptr, n)
  {
    hide Inv, FreePairs, Free, Alloc, Regions, FreeOpens, AllocCloses, KnownPtr, LivePtr;
    AllocSafe(h, n, lo, hi);
    AllocPairs(h, n, lo, hi);
    var (h', ptr') := Alloc(h, n);
    if ptr' != 0 {
      LiveIsRegion(h, ptr, lo, hi);
      LiveIsRegion(h', ptr, lo, hi);
      LiveIsKnown(h', ptr);
      FreePairsOpen(h', ptr, lo, hi);
    }
  }

  lemma ReallocPairs(h: Heap, ptr: int, request: Size, lo: int, hi: int)
    requires Inv(h, lo, hi) && (ptr != 0 ==> LivePtr(h, ptr))
    ensures FreePairs(Realloc(h, ptr, request).0.blocks) == FreePairs(h.blocks) + ReallocChange(h, ptr, request)
  {
    hide Inv, FreePairs, Free, Alloc, Move, FreeOpens, AllocCloses, MoveChange, IndexOf;
    if ptr == 0 {
      AllocPairs(h, request, lo, hi);
    } else {
      LiveIsKnown(h, ptr);
      FreePairsOpen(h, ptr, lo, hi);
      var k := LiveBlockAt(h, ptr, lo, hi);
      MergePairs(h.blocks, k, true);
      MovePairs(h, ptr, BlockSize(request), lo, hi);
    }
  }

  // ---- Runs ----

  /** What one operation does to the number of pairs. */
  function Change(h: Heap, op: Op): int
    requires Allowed(h, op)
  {
    match op
    case AllocOp(size) => -AllocCloses(h, size)
    case FreeOp(ptr) => FreeOpens(h, ptr)
    case ReallocOp(ptr, size) => ReallocChange(h, ptr, size)
  }

  function Changes(h: Heap, ops: seq<Op>): int
    requires AllowedRun(h, ops)
    decreases ops
  {
    if ops == [] then 0 else Change(h, ops[0]) + Changes(Apply(h, ops[0]).0, ops[1..])
  }

  lemma StepPairs(h: Heap, op: Op, lo: int, hi: int)
    requires Inv(h, lo, hi) && Allowed(h, op)
    ensures FreePairs(Apply(h, op).0.blocks) == FreePairs(h.blocks) + Change(h, op)
  {
    hide Inv, FreePairs, Alloc, Free, Realloc, AllocCloses, FreeOpens, ReallocChange;
    match op
    case AllocOp(size) => AllocPairs(h, size, lo, hi);
    case FreeOp(ptr) => FreePairsOpen(h, ptr, lo, hi);
    case ReallocOp(ptr, size) => ReallocPairs(h, ptr, size, lo, hi);
  }

  /** Over every run the number of adjacent free blocks is what it was, plus one for every free of a block behind a free
      block, less what the allocations and growths took. */
  lemma {:induction false} RunPairs(h: Heap, ops: seq<Op>, lo: int, hi: int)
    requires Inv(h, lo, hi) && AllowedRun(h, ops)
    ensures FreePairs(Run(h, ops).blocks) == FreePairs(h.blocks) + Changes(h, ops)
    decreases ops
  {
    hide Inv, Allowed, Apply, Change, FreePairs;
    if ops == [] {
    } else {
      StepRefines(h, ops[0], lo, hi);
      StepPairs(h, ops[0], lo, hi);
      RunPairs(Apply(h, ops[0]).0, ops[1..], lo, hi);
    }
  }

  /** A heap with nothing live has one block more than it has adjacent pairs. */
  lemma {:induction false} AllFreePairs(bs: seq<Block>)
    requires bs != [] && forall i :: 0 <= i < |bs| ==> !bs[i].used
    ensures FreePairs(bs) == |bs| - 1
  {
    if |bs| == 1 {
      PairsOfOne(bs[0]);
      assert bs == [bs[0]];
    } else {
      AllFreePairs(bs[1..]);
    }
  }

  /** After a run on a fresh heap that frees everything, in any order, one block is left for every missed merge and one
      more; the heap is the fresh heap again if and only if no merge was missed for good. */
  lemma Leftovers(ops: seq<Op>, lo: int, hi: int)
    requires Inv(InitHeap(lo, hi), lo, hi) && AllowedRun(InitHeap(lo, hi), ops)
    requires Regions(Run(InitHeap(lo, hi), ops)) == map[]
    ensures var h := Run(InitHeap(lo, hi), ops);
      && |h.blocks| == 1 + Changes(InitHeap(lo, hi), ops)
      && (h == InitHeap(lo, hi) <==> Changes(InitHeap(lo, hi), ops) == 0)
  {
    hide Run, Changes, AllowedRun;
    var h0 := InitHeap(lo, hi);
    var h := Run(h0, ops);
    RunSafe(h0, ops, lo, hi);
    RunPairs(h0, ops, lo, hi);
    assert FreePairs(h0.blocks) == 0 by { PairsOfOne(h0.blocks[0]); }
    NothingUsed(h, lo, hi);
    AllFreePairs(h.blocks);
    if |h.blocks| == 1 { OnlyBlock(h, lo, hi); }
  }

  lemma NothingUsed(h: Heap, lo: int, hi: int)
    requires Inv(h, lo, hi) && Regions(h) == map[]
    ensures h.blocks != [] && forall i :: 0 <= i < |h.blocks| ==> !h.blocks[i].used
  {
    forall i | 0 <= i < |h.blocks| ensures !h.blocks[i].used {
      BlockAt(h, i, lo, hi);
      assert h.blocks[i].addr !in Regions(h);
    }
  }

  lemma OnlyBlock(h: Heap, lo: int, hi: int)
    requires Inv(h, lo, hi) && |h.blocks| == 1 && !h.blocks[0].used
    ensures h == InitHeap(lo, hi)
  {
    var b := h.blocks[0];
    assert h.blocks == [b];
    TilesOrdered(h.blocks, lo, hi);
    OneBlock(b);
    BlockAt(h, 0, lo, hi);
    assert FreeAddrs(Table(h.blocks)) == {lo};
    OneElement(h.free, lo);
  }

  lemma OneElement(s: seq<int>, x: int)
    requires Elems(s) == {x} && forall i, j :: 0 <= i < j < |s| ==> s[i] != s[j]
    ensures s == [x]
  {
    assert x in Elems(s);
    assert s[0] in Elems(s) && s[|s| - 1] in Elems(s);
    SameIndex(s, 0, |s| - 1);
  }

  lemma SameIndex(s: seq<int>, i: nat, j: nat)
    requires i < |s| && j < |s| && s[i] == s[j] && forall i, j :: 0 <= i < j < |s| ==> s[i] != s[j]
    ensures i == j
  {
  }
}
