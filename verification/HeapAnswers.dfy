/** What alloc and realloc answer, in terms of the sizes of the blocks. */
module HeapAnswers {
  import opened Bits
  import opened HeapModel
  import opened HeapSafety

  /** The rounded size is the least multiple of 16, and at least 32, that holds the request. */
  lemma BlockSizeLeast(request: Size, m: int)
    requires request <= WORD64 - 16 && m % 16 == 0 && m >= request && m >= 32
    ensures BlockSize(request) % 16 == 0 && BlockSize(request) >= request && BlockSize(request) >= 32
    ensures BlockSize(request) <= m
  {
    assert AlignUp(request) % 16 == 0 && AlignUp(request) < request + 16;
    Multiples(AlignUp(request), m, request);
  }

  lemma Multiples(a: int, m: int, x: int)
    requires a % 16 == 0 && m % 16 == 0 && a < x + 16 && m >= x
    ensures a <= m
  {
    var i, j := a / 16, m / 16;
    assert a == 16 * i && m == 16 * j;
  }

  /** The free list names exactly the free blocks. */
  lemma FreeListIs(h: Heap, lo: int, hi: int, n: int)
    requires Inv(h, lo, hi)
    ensures (forall f :: f in h.free ==> !Fits(h.blocks, f, n)) <==>
      (forall i :: 0 <= i < |h.blocks| && !h.blocks[i].used ==> h.blocks[i].size < n)
  {
    hide Tiles;
    if forall f :: f in h.free ==> !Fits(h.blocks, f, n) {
      forall i | 0 <= i < |h.blocks| && !h.blocks[i].used ensures h.blocks[i].size < n {
        BlockAt(h, i, lo, hi);
        assert h.blocks[i].addr in FreeAddrs(Table(h.blocks));
        assert h.blocks[i].addr in Elems(h.free);
        assert !Fits(h.blocks, h.blocks[i].addr, n);
      }
    }
    if forall i :: 0 <= i < |h.blocks| && !h.blocks[i].used ==> h.blocks[i].size < n {
      forall f | f in h.free ensures !Fits(h.blocks, f, n) {
        var p :| 0 <= p < |h.free| && h.free[p] == f;
        var k := FreeBlockAt(h, p, lo, hi);
      }
    }
  }

  /** Alloc answers NULL if and only if the size is 0 or every free block is smaller than the rounded size. */
  lemma AllocFails(h: Heap, request: Size, lo: int, hi: int)
    requires Inv(h, lo, hi)
    ensures Alloc(h, request).1 == 0 <==>
      request == 0 || forall i :: 0 <= i < |h.blocks| && !h.blocks[i].used ==> h.blocks[i].size < BlockSize(request)
  {
    hide Inv, Alloc, BlockSize, Fits;
    AllocSafe(h, request, lo, hi);
    FreeListIs(h, lo, hi, BlockSize(request));
  }

  /** The block that alloc takes keeps the rounded size and gives the rest, 64 bytes or more, to a new free block behind
      it; a block with less to spare is taken whole. */
  lemma AllocTakes(h: Heap, request: Size, k: nat, lo: int, hi: int)
    requires Inv(h, lo, hi) && k < |h.blocks| && Alloc(h, request).1 == h.blocks[k].addr + 32
    ensures var (bs, n, h') := (h.blocks, BlockSize(request), Alloc(h, request).0); var b := bs[k];
      && request != 0 && !b.used && b.size >= n
      && h'.blocks ==
         (if b.size - n >= 64
          then bs[..k] + [Block(b.addr, n, true), Block(b.addr + 32 + n, b.size - n - 32, false)] + bs[k + 1..]
          else bs[..k] + [Block(b.addr, b.size, true)] + bs[k + 1..])
  {
    hide Inv, BlockSize, IndexOf;
    BlockAt(h, k, lo, hi);
    var p := FirstFit(h.blocks, h.free, BlockSize(request));
    assert request != 0 && p < |h.free| by { AllocSafe(h, request, lo, hi); }
    var j := FreeBlockAt(h, p, lo, hi);
  }

  /** The successor of the block is free, and the two with the header between them hold n bytes. */
  predicate Joins(bs: seq<Block>, k: nat, n: int) {
    k + 1 < |bs| && !bs[k + 1].used && bs[k].size + 32 + bs[k + 1].size >= n
  }

  /** Realloc of the data of block k answers the same pointer if and only if the block holds the rounded size or joins
      its successor to hold it, and NULL if and only if neither is so and every free block is smaller. */
  lemma ReallocAnswers(h: Heap, k: nat, request: Size, lo: int, hi: int)
    requires Inv(h, lo, hi) && k < |h.blocks| && h.blocks[k].used && request != 0
    ensures LivePtr(h, h.blocks[k].addr + 32)
    ensures var (bs, n, ptr) := (h.blocks, BlockSize(request), h.blocks[k].addr + 32);
      var p' := Realloc(h, ptr, request).1;
      && (p' == ptr <==> bs[k].size >= n || Joins(bs, k, n))
      && (p' == 0 <==>
            && bs[k].size < n && !Joins(bs, k, n)
            && forall i :: 0 <= i < |bs| && !bs[i].used ==> bs[i].size < n)
  {
    hide Inv, BlockSize, IndexOf, Alloc, Free, Expand, KnownPtr;
    var n, ptr := BlockSize(request), h.blocks[k].addr + 32;
    BlockAt(h, k, lo, hi);
    var k' := LiveBlockAt(h, ptr, lo, hi);
    if h.blocks[k].size < n && !Joins(h.blocks, k, n) { MoveAnswers(h, ptr, request, lo, hi); }
  }

  lemma MoveAnswers(h: Heap, ptr: int, request: Size, lo: int, hi: int)
    requires Inv(h, lo, hi) && LivePtr(h, ptr) && request != 0
    ensures var p' := Move(h, ptr, BlockSize(request)).1;
      && p' != ptr
      && (p' == 0 <==> forall i :: 0 <= i < |h.blocks| && !h.blocks[i].used ==> h.blocks[i].size < BlockSize(request))
  {
    hide Inv, BlockSize, IndexOf, Alloc, Free, LivePtr, Regions, KnownPtr;
    var n := BlockSize(request);
    BlockSizeCovers(request);
    AllocSafe(h, n, lo, hi);
    AllocFails(h, n, lo, hi);
    LiveIsRegion(h, ptr, lo, hi);
    var k := LiveBlockAt(h, ptr, lo, hi);
    var (h1, p1) := Alloc(h, n);
    if p1 != 0 {
      LiveIsRegion(h1, ptr, lo, hi);
      LiveIsKnown(h1, ptr);
    }
  }

  /** Otherwise realloc is an alloc of the rounded size and, if that is granted, a free of the old block. */
  lemma ReallocMoves(h: Heap, k: nat, request: Size, lo: int, hi: int)
    requires Inv(h, lo, hi) && k < |h.blocks| && h.blocks[k].used && request != 0
    requires h.blocks[k].size < BlockSize(request) && !Joins(h.blocks, k, BlockSize(request))
    ensures LivePtr(h, h.blocks[k].addr + 32)
    ensures var ptr := h.blocks[k].addr + 32; var (h1, p1) := Alloc(h, BlockSize(request));
      if p1 == 0 then Realloc(h, ptr, request) == (h, 0)
      else KnownPtr(h1, ptr) && Realloc(h, ptr, request) == (Free(h1, ptr), p1)
  {
    hide Inv, BlockSize, IndexOf, Alloc, Free, LivePtr, Regions, KnownPtr, Expand;
    var n, ptr := BlockSize(request), h.blocks[k].addr + 32;
    BlockAt(h, k, lo, hi);
    BlockIsLive(h, k);
    AllocSafe(h, n, lo, hi);
    LiveIsRegion(h, ptr, lo, hi);
    var (h1, p1) := Alloc(h, n);
    if p1 != 0 {
      LiveIsRegion(h1, ptr, lo, hi);
      LiveIsKnown(h1, ptr);
    }
  }

  lemma BlockIsLive(h: Heap, k: nat)
    requires k < |h.blocks| && h.blocks[k].used && IndexOf(h.blocks, h.blocks[k].addr) == k
    ensures LivePtr(h, h.blocks[k].addr + 32)
  {
  }

  /** Free makes the block, with its successor if that is free, one free block at the front of the free list. */
  lemma FreeGives(h: Heap, k: nat, lo: int, hi: int)
    requires Inv(h, lo, hi) && k < |h.blocks| && h.blocks[k].used
    ensures KnownPtr(h, h.blocks[k].addr + 32)
    ensures var (bs, h') := (h.blocks, Free(h, h.blocks[k].addr + 32));
      if k + 1 < |bs| && !bs[k + 1].used then
        && h'.blocks == bs[..k] + [Block(bs[k].addr, bs[k].size + 32 + bs[k + 1].size, false)] + bs[k + 2..]
        && exists p :: 0 <= p < |h.free| && h.free[p] == bs[k + 1].addr
             && h'.free == [bs[k].addr] + (h.free[..p] + h.free[p + 1..])
      else
        && h'.blocks == bs[..k] + [Block(bs[k].addr, bs[k].size, false)] + bs[k + 1..]
        && h'.free == [bs[k].addr] + h.free
  {
    hide Inv, IndexOf, Without;
    BlockAt(h, k, lo, hi);
    if NextIsFree(h.blocks, k) {
      NextAt(h, k, lo, hi);
      var p := WithoutSplits(h.free, h.blocks[k + 1].addr);
    }
  }

  /** In place, a block that is large enough stays as it is, and one that joins its successor takes it whole; the free
      list only loses the successor. */
  lemma ReallocInPlace(h: Heap, k: nat, request: Size, lo: int, hi: int)
    requires Inv(h, lo, hi) && k < |h.blocks| && h.blocks[k].used && request != 0
    requires h.blocks[k].size >= BlockSize(request) || Joins(h.blocks, k, BlockSize(request))
    ensures LivePtr(h, h.blocks[k].addr + 32)
    ensures var (bs, h') := (h.blocks, Realloc(h, h.blocks[k].addr + 32, request).0);
      if bs[k].size >= BlockSize(request) then h' == h
      else
        && h'.blocks == bs[..k] + [Block(bs[k].addr, bs[k].size + 32 + bs[k + 1].size, true)] + bs[k + 2..]
        && exists p :: 0 <= p < |h.free| && h.free[p] == bs[k + 1].addr && h'.free == h.free[..p] + h.free[p + 1..]
  {
    hide Inv, BlockSize, IndexOf, Alloc, Move, Without;
    BlockAt(h, k, lo, hi);
    if h.blocks[k].size < BlockSize(request) {
      NextAt(h, k, lo, hi);
      var p := WithoutSplits(h.free, h.blocks[k + 1].addr);
    }
  }

  /** Realloc of NULL is alloc, and realloc to size 0 is free. */
  lemma ReallocEdges(h: Heap, ptr: int, request: Size)
    ensures Realloc(h, 0, request) == Alloc(h, request)
    ensures ptr != 0 && LivePtr(h, ptr) ==> KnownPtr(h, ptr) && Realloc(h, ptr, 0) == (Free(h, ptr), 0)
  {
    hide Alloc, Free;
  }

  /** After alloc(64) on 4096 bytes, realloc to 4000 bytes grows in place: the two blocks hold them together only. */
  lemma GrowsInPlace(h: Heap)
    requires h == Heap([Block(4096, 64, true), Block(4192, 3968, false)], [4192], 64)
    ensures LivePtr(h, 4128) && Realloc(h, 4128, 4000) == (Heap([Block(4096, 4064, true)], [], 4064), 4128)
  {
    assert BlockSize(4000) == 4000;
    assert IndexOf(h.blocks, 4096) == 0;
    assert h.blocks[..0] + [Block(4096, 4064, true)] + h.blocks[2..] == [Block(4096, 4064, true)];
    assert Without([4192], 4192) == [];
    assert Expand(h, 0) == Heap([Block(4096, 4064, true)], [], 4064);
  }
}
