/** What every heap step does to the blocks by address, that it keeps the invariant, and how it changes
    the map of live regions. */
module HeapSafety {
  import opened Bits
  import opened Collections
  import opened HeapModel

  /** The sizes of the live data regions, keyed by header address (the data begins HEADER_SIZE later). */
  function LiveOf(t: map<int, Block>): map<int, int> {
    map a | a in t && t[a].used :: t[a].size
  }

  function Regions(h: Heap): map<int, int> { LiveOf(Table(h.blocks)) }

  /** Live regions are 16-aligned, inside the mapping, and pairwise disjoint, their headers between them. */
  lemma LiveRegionsDisjoint(h: Heap, lo: int, hi: int, a: int, b: int)
    requires Inv(h, lo, hi) && a in Regions(h) && b in Regions(h)
    ensures (a + HEADER_SIZE) % HEAP_ALIGNMENT == 0 && Regions(h)[a] >= MIN_BLOCK_SIZE
    ensures lo <= a && a + HEADER_SIZE + Regions(h)[a] <= hi
    ensures a < b ==> a + HEADER_SIZE + Regions(h)[a] <= b
  {
    TilesOrdered(h.blocks, lo, hi);
    var i := TableFind(h.blocks, a);
    var j := TableFind(h.blocks, b);
    TilesAligned(h.blocks, lo, hi, i);
    assert i == j || i < j || j < i;
  }

  // ---- Finding blocks ----

  ghost predicate Rounded(n: int) { n % HEAP_ALIGNMENT == 0 && n >= MIN_BLOCK_SIZE }

  /** Block k of the heap: where it is, and that addresses find it. */
  lemma BlockAt(h: Heap, k: nat, lo: int, hi: int)
    requires Inv(h, lo, hi) && k < |h.blocks|
    ensures h.blocks[k].addr in Table(h.blocks) && Table(h.blocks)[h.blocks[k].addr] == h.blocks[k]
    ensures IndexOf(h.blocks, h.blocks[k].addr) == k
    ensures WellSized(h.blocks[k]) && h.blocks[k].addr >= lo > 0
    ensures Middle(h.blocks, h.blocks[..k], [h.blocks[k]], h.blocks[k + 1..], lo, hi)
  {
    TilesOrdered(h.blocks, lo, hi);
    TableIndex(h.blocks, k, lo, hi);
    IndexOfIs(h.blocks, k, lo, hi);
    assert h.blocks == h.blocks[..k] + [h.blocks[k]] + h.blocks[k + 1..];
  }

  lemma DistinctOf(h: Heap, lo: int, hi: int)
    requires Inv(h, lo, hi)
    ensures forall i, j :: 0 <= i < j < |h.free| ==> h.free[i] != h.free[j]
    ensures forall i :: 0 <= i < |h.free| ==> h.free[i] in Table(h.blocks) && !Table(h.blocks)[h.free[i]].used
  {
    forall i | 0 <= i < |h.free| ensures h.free[i] in FreeAddrs(Table(h.blocks)) {
      assert h.free[i] in Elems(h.free);
    }
  }

  /** No two blocks end at the same address. */
  ghost predicate NoSharedEnd(t: map<int, Block>) {
    forall a, b :: a in t && b in t && a != b ==> t[a].End() != t[b].End()
  }

  lemma EndsDistinct(h: Heap, lo: int, hi: int)
    requires Inv(h, lo, hi)
    ensures NoSharedEnd(Table(h.blocks))
  {
    TilesOrdered(h.blocks, lo, hi);
    forall a, b | a in Table(h.blocks) && b in Table(h.blocks) && a != b
      ensures Table(h.blocks)[a].End() != Table(h.blocks)[b].End()
    {
      var i := TableFind(h.blocks, a);
      var j := TableFind(h.blocks, b);
      assert i < j || j < i;
    }
  }

  lemma FreeBlockAt(h: Heap, p: nat, lo: int, hi: int) returns (k: nat)
    requires Inv(h, lo, hi) && p < |h.free|
    ensures k == IndexOf(h.blocks, h.free[p]) < |h.blocks|
    ensures h.blocks[k].addr == h.free[p] && !h.blocks[k].used
  {
    assert h.free[p] in Elems(h.free);
    k := TableFind(h.blocks, h.free[p]);
    BlockAt(h, k, lo, hi);
  }

  lemma LiveBlockAt(h: Heap, ptr: int, lo: int, hi: int) returns (k: nat)
    requires Inv(h, lo, hi) && LivePtr(h, ptr)
    ensures k == IndexOf(h.blocks, ptr - HEADER_SIZE) < |h.blocks|
    ensures h.blocks[k].Ptr() == ptr > 0 && h.blocks[k].used
    ensures ptr - HEADER_SIZE in Regions(h) && Regions(h)[ptr - HEADER_SIZE] == h.blocks[k].size
    ensures ptr - HEADER_SIZE !in h.free
  {
    k := IndexOf(h.blocks, ptr - HEADER_SIZE);
    BlockAt(h, k, lo, hi);
    assert ptr - HEADER_SIZE in h.free ==> ptr - HEADER_SIZE in Elems(h.free);
  }

  lemma LiveIsKnown(h: Heap, ptr: int)
    requires LivePtr(h, ptr)
    ensures KnownPtr(h, ptr)
  {
  }

  lemma LiveIsRegion(h: Heap, p: int, lo: int, hi: int)
    requires Inv(h, lo, hi)
    ensures LivePtr(h, p) <==> p - HEADER_SIZE in Regions(h)
  {
    if p - HEADER_SIZE in Regions(h) {
      var k := TableFind(h.blocks, p - HEADER_SIZE);
      BlockAt(h, k, lo, hi);
    } else if LivePtr(h, p) {
      var k := LiveBlockAt(h, p, lo, hi);
    }
  }

  /** The successor in address order lies where the block ends. */
  lemma NextAt(h: Heap, k: nat, lo: int, hi: int)
    requires Inv(h, lo, hi) && k < |h.blocks|
    ensures h.blocks[k].End() in Table(h.blocks) <==> k + 1 < |h.blocks|
    ensures k + 1 < |h.blocks| ==>
      h.blocks[k + 1].addr == h.blocks[k].End() && Table(h.blocks)[h.blocks[k].End()] == h.blocks[k + 1]
    ensures NextIsFree(h.blocks, k) ==> h.blocks[k + 1].addr in h.free
    ensures k + 1 < |h.blocks| ==>
      Middle(h.blocks, h.blocks[..k], [h.blocks[k], h.blocks[k + 1]], h.blocks[k + 2..], lo, hi)
  {
    TilesOrdered(h.blocks, lo, hi);
    if k + 1 < |h.blocks| {
      TableIndex(h.blocks, k + 1, lo, hi);
      assert h.blocks == h.blocks[..k] + [h.blocks[k], h.blocks[k + 1]] + h.blocks[k + 2..];
      if !h.blocks[k + 1].used { assert h.blocks[k + 1].addr in FreeAddrs(Table(h.blocks)); }
    } else if h.blocks[k].End() in Table(h.blocks) {
      var j := TableFind(h.blocks, h.blocks[k].End());
    }
  }

  // ---- Free-list edits ----

  lemma ElemsSet(s: seq<int>, p: nat, a: int)
    requires Distinct(s) && p < |s| && a !in s
    ensures Distinct(s[p := a]) && Elems(s[p := a]) == Elems(s) - {s[p]} + {a}
  {
    var t := s[p := a];
    forall x ensures x in t <==> x in Elems(s) - {s[p]} + {a} {
      if x in s && x != s[p] {
        var i :| 0 <= i < |s| && s[i] == x;
        assert t[i] == x;
      }
      assert t[p] == a;
    }
  }

  lemma ElemsRemove(s: seq<int>, p: nat)
    requires Distinct(s) && p < |s|
    ensures Distinct(s[..p] + s[p + 1..]) && Elems(s[..p] + s[p + 1..]) == Elems(s) - {s[p]}
  {
    WithoutElems(s, s[p]);
    WithoutIs(s, p);
  }

  lemma ElemsCons(s: seq<int>, a: int)
    requires Distinct(s) && a !in s
    ensures Distinct([a] + s) && Elems([a] + s) == Elems(s) + {a}
  {
  }

  // ---- Steps, header by header ----

  lemma OneBlock(b: Block)
    ensures UsedSum([b]) == (if b.used then b.size else 0)
    ensures Table([b]) == map[b.addr := b]
    ensures WellSized(b) ==> Tiles([b], b.addr, b.End())
  {
    assert [b][1..] == [];
  }

  lemma TwoBlocks(b: Block, c: Block)
    ensures UsedSum([b, c]) == (if b.used then b.size else 0) + (if c.used then c.size else 0)
    ensures Table([b, c]) == map[b.addr := b, c.addr := c]
    ensures WellSized(b) && WellSized(c) && b.End() == c.addr ==> Tiles([b, c], b.addr, c.End())
  {
    assert [b] + [c] == [b, c];
    Concat([b], [c]);
    OneBlock(b);
    OneBlock(c);
    if WellSized(b) && WellSized(c) && b.End() == c.addr { TilesConcat([b], [c], b.addr, c.addr, c.End()); }
  }

  function Rest(b: Block, n: int): Block { Block(b.addr + HEADER_SIZE + n, b.size - n - HEADER_SIZE, false) }

  lemma TakeSplitStep(h: Heap, p: nat, n: int, lo: int, hi: int)
    requires Inv(h, lo, hi) && p < |h.free| && Rounded(n)
    requires var k := IndexOf(h.blocks, h.free[p]); k < |h.blocks| && Splits(h.blocks[k], n)
    ensures var b := h.blocks[IndexOf(h.blocks, h.free[p])]; var h' := Take(h, p, n);
      && Inv(h', lo, hi) && Rest(b, n).addr !in Table(h.blocks)
      && Table(h'.blocks) == Table(h.blocks)[b.addr := Block(b.addr, n, true)][Rest(b, n).addr := Rest(b, n)]
  {
    hide Table, Tiles, UsedSum, Middle, IndexOf;
    var k := FreeBlockAt(h, p, lo, hi);
    BlockAt(h, k, lo, hi);
    var b := h.blocks[k];
    var taken, rest := Block(b.addr, n, true), Rest(b, n);
    OneBlock(b); OneBlock(taken); OneBlock(rest); TwoBlocks(taken, rest);
    Replaced(h.blocks, h.blocks[..k], [b], h.blocks[k + 1..], [taken, rest], lo, hi);
    assert rest.addr !in Elems(h.free);
    ElemsSet(h.free, p, rest.addr);
    hide Distinct;
    var t, t' := Table(h.blocks), Table(Take(h, p, n).blocks);
    assert t' == t[b.addr := taken][rest.addr := rest];
    assert FreeAddrs(t') == FreeAddrs(t) - {b.addr} + {rest.addr};
  }

  /** Only the flag of block k changes. */
  lemma FlagStep(h: Heap, k: nat, u: bool, lo: int, hi: int)
    requires Inv(h, lo, hi) && k < |h.blocks| && h.blocks[k].used != u
    ensures var b := h.blocks[k]; var bs' := h.blocks[..k] + [b.(used := u)] + h.blocks[k + 1..];
      && Tiles(bs', lo, hi) && Table(bs') == Table(h.blocks)[b.addr := b.(used := u)]
      && UsedSum(bs') == h.usedSize + (if u then b.size else -b.size)
      && FreeAddrs(Table(bs')) ==
         if u then FreeAddrs(Table(h.blocks)) - {b.addr} else FreeAddrs(Table(h.blocks)) + {b.addr}
  {
    var b := h.blocks[k];
    BlockAt(h, k, lo, hi);
    OneBlock(b); OneBlock(b.(used := u));
    Replaced(h.blocks, h.blocks[..k], [b], h.blocks[k + 1..], [b.(used := u)], lo, hi);
    assert (Table(h.blocks) - {b.addr}) + map[b.addr := b.(used := u)] == Table(h.blocks)[b.addr := b.(used := u)];
  }

  lemma TakeWholeStep(h: Heap, p: nat, n: int, lo: int, hi: int)
    requires Inv(h, lo, hi) && p < |h.free|
    requires var k := IndexOf(h.blocks, h.free[p]); k < |h.blocks| && !Splits(h.blocks[k], n)
    ensures var b := h.blocks[IndexOf(h.blocks, h.free[p])]; var h' := Take(h, p, n);
      Inv(h', lo, hi) && Table(h'.blocks) == Table(h.blocks)[b.addr := b.(used := true)]
  {
    var k := FreeBlockAt(h, p, lo, hi);
    FlagStep(h, k, true, lo, hi);
    ElemsRemove(h.free, p);
  }

  /** Block k, in use, absorbs its free successor and ends up with flag `u`. */
  lemma AbsorbStep(h: Heap, k: nat, u: bool, lo: int, hi: int)
    requires Inv(h, lo, hi) && NextIsFree(h.blocks, k) && h.blocks[k].used
    ensures var (b, c) := (h.blocks[k], h.blocks[k + 1]); var bs' := Absorb(h.blocks, k, u);
      && b.addr != c.addr
      && Tiles(bs', lo, hi) && Table(bs') == (Table(h.blocks) - {c.addr})[b.addr := bs'[k]]
      && UsedSum(bs') == h.usedSize - b.size + (if u then bs'[k].size else 0)
      && FreeAddrs(Table(bs')) == FreeAddrs(Table(h.blocks)) - {c.addr} + if u then {} else {b.addr}
  {
    hide Table, Tiles, UsedSum, Middle, IndexOf, Distinct, Elems;
    BlockAt(h, k, lo, hi);
    BlockAt(h, k + 1, lo, hi);
    NextAt(h, k, lo, hi);
    var b, c, merged := h.blocks[k], h.blocks[k + 1], Absorb(h.blocks, k, u)[k];
    TwoBlocks(b, c); OneBlock(merged);
    Replaced(h.blocks, h.blocks[..k], [b, c], h.blocks[k + 2..], [merged], lo, hi);
    AbsorbMap(Table(h.blocks), b, c, merged);
  }

  lemma AbsorbMap(t: map<int, Block>, b: Block, c: Block, m: Block)
    requires b.addr == m.addr != c.addr && b.addr in t && t[b.addr].used
    ensures (t - {b.addr, c.addr}) + map[m.addr := m] == (t - {c.addr})[b.addr := m]
    ensures FreeAddrs((t - {c.addr})[b.addr := m]) == FreeAddrs(t) - {c.addr} + if m.used then {} else {b.addr}
  {
  }

  lemma FreePlainStep(h: Heap, ptr: int, lo: int, hi: int)
    requires Inv(h, lo, hi) && LivePtr(h, ptr) && !NextIsFree(h.blocks, IndexOf(h.blocks, ptr - HEADER_SIZE))
    ensures var b := h.blocks[IndexOf(h.blocks, ptr - HEADER_SIZE)]; var h' := Free(h, ptr);
      Inv(h', lo, hi) && Table(h'.blocks) == Table(h.blocks)[b.addr := b.(used := false)]
  {
    var k := LiveBlockAt(h, ptr, lo, hi);
    FlagStep(h, k, false, lo, hi);
    ElemsCons(h.free, h.blocks[k].addr);
  }

  lemma FreeMergeStep(h: Heap, ptr: int, lo: int, hi: int)
    requires Inv(h, lo, hi) && LivePtr(h, ptr) && NextIsFree(h.blocks, IndexOf(h.blocks, ptr - HEADER_SIZE))
    ensures var k := IndexOf(h.blocks, ptr - HEADER_SIZE); var h' := Free(h, ptr);
      && Inv(h', lo, hi)
      && Table(h'.blocks) ==
         (Table(h.blocks) - {h.blocks[k + 1].addr})[h.blocks[k].addr := Absorb(h.blocks, k, false)[k]]
  {
    var k := LiveBlockAt(h, ptr, lo, hi);
    NextAt(h, k, lo, hi);
    AbsorbStep(h, k, false, lo, hi);
    WithoutElems(h.free, h.blocks[k + 1].addr);
    assert h.blocks[k].addr !in Elems(Without(h.free, h.blocks[k + 1].addr));
    ElemsCons(Without(h.free, h.blocks[k + 1].addr), h.blocks[k].addr);
  }

  lemma ExpandStep(h: Heap, ptr: int, lo: int, hi: int)
    requires Inv(h, lo, hi) && LivePtr(h, ptr) && NextIsFree(h.blocks, IndexOf(h.blocks, ptr - HEADER_SIZE))
    ensures var k := IndexOf(h.blocks, ptr - HEADER_SIZE); var h' := Expand(h, k);
      && Inv(h', lo, hi)
      && Table(h'.blocks) ==
         (Table(h.blocks) - {h.blocks[k + 1].addr})[h.blocks[k].addr := Absorb(h.blocks, k, true)[k]]
  {
    var k := LiveBlockAt(h, ptr, lo, hi);
    NextAt(h, k, lo, hi);
    AbsorbStep(h, k, true, lo, hi);
    WithoutElems(h.free, h.blocks[k + 1].addr);
  }

  // ---- Steps, region by region ----

  lemma LiveUpdate(t: map<int, Block>, b: Block)
    ensures LiveOf(t[b.addr := b]) == if b.used then LiveOf(t)[b.addr := b.size] else LiveOf(t) - {b.addr}
  {
    var l := LiveOf(t[b.addr := b]);
    var r := if b.used then LiveOf(t)[b.addr := b.size] else LiveOf(t) - {b.addr};
    forall p ensures p in l <==> p in r {}
    forall p | p in l ensures l[p] == r[p] {}
  }

  lemma LiveDrop(t: map<int, Block>, a: int)
    requires a in t && !t[a].used
    ensures LiveOf(t - {a}) == LiveOf(t)
  {
    var l, r := LiveOf(t - {a}), LiveOf(t);
    forall p ensures p in l <==> p in r {}
  }

  lemma TakeSafe(h: Heap, p: nat, n: int, lo: int, hi: int)
    requires Inv(h, lo, hi) && p < |h.free| && Rounded(n) && Fits(h.blocks, h.free[p], n)
    ensures var a := h.free[p]; var h' := Take(h, p, n);
      && Inv(h', lo, hi) && a > 0 && a !in Regions(h) && a in Regions(h')
      && n <= Regions(h')[a] < n + HEADER_SIZE + MIN_BLOCK_SIZE
      && Regions(h') == Regions(h)[a := Regions(h')[a]]
  {
    var k := FreeBlockAt(h, p, lo, hi);
    BlockAt(h, k, lo, hi);
    var b := h.blocks[k];
    if Splits(b, n) {
      TakeSplitStep(h, p, n, lo, hi);
      LiveUpdate(Table(h.blocks), Block(b.addr, n, true));
      LiveUpdate(Table(h.blocks)[b.addr := Block(b.addr, n, true)], Rest(b, n));
      assert Rest(b, n).addr !in Regions(h);
    } else {
      TakeWholeStep(h, p, n, lo, hi);
      LiveUpdate(Table(h.blocks), b.(used := true));
    }
  }

  /** Alloc: NULL exactly for size 0 or when no free block holds the rounded size; otherwise one new live
      region, at least the rounded size, and every other region as before. */
  lemma AllocSafe(h: Heap, request: Size, lo: int, hi: int)
    requires Inv(h, lo, hi)
    ensures var (h', ptr) := Alloc(h, request); var n := BlockSize(request); var a := ptr - HEADER_SIZE;
      && Inv(h', lo, hi)
      && (ptr == 0 <==> request == 0 || forall f :: f in h.free ==> !Fits(h.blocks, f, n))
      && (ptr == 0 ==> h' == h)
      && (ptr != 0 ==>
            && a !in Regions(h) && a in Regions(h') && n <= Regions(h')[a] < n + HEADER_SIZE + MIN_BLOCK_SIZE
            && Regions(h') == Regions(h)[a := Regions(h')[a]])
  {
    hide Inv, Take, Regions, Fits, Table;
    if request != 0 {
      var n := BlockSize(request);
      BlockSizeCovers(request);
      var p := FirstFit(h.blocks, h.free, n);
      if p < |h.free| { TakeSafe(h, p, n, lo, hi); }
    }
  }

  /** Alloc is first-fit: no earlier block of the free list fits; the taken entry disappears or is
      replaced in place by the remainder, and the rest of the list keeps its order. */
  lemma AllocFirstFit(h: Heap, request: Size, lo: int, hi: int)
    requires Inv(h, lo, hi) && Alloc(h, request).1 != 0
    ensures var (h', ptr) := Alloc(h, request); var n := BlockSize(request); var a := ptr - HEADER_SIZE;
      exists p :: 0 <= p < |h.free| && h.free[p] == a && Fits(h.blocks, a, n)
        && (forall j :: 0 <= j < p ==> !Fits(h.blocks, h.free[j], n))
        && (h'.free == h.free[..p] + h.free[p + 1..] || h'.free == h.free[p := a + HEADER_SIZE + n])
        && (h'.free == h.free[p := a + HEADER_SIZE + n] <==> Splits(h.blocks[IndexOf(h.blocks, a)], n))
  {
    var n := BlockSize(request);
    var p := FirstFit(h.blocks, h.free, n);
    var k := FreeBlockAt(h, p, lo, hi);
    assert |h.free[p := 0]| != |h.free[..p] + h.free[p + 1..]|;
  }

  /** A region that alloc returns is at least as large as requested if and only if the request is at most 2^64 - 16;
      for the fifteen larger sizes the rounding wraps and the region is smaller than 96 bytes. */
  lemma AllocHolds(h: Heap, request: Size, lo: int, hi: int)
    requires Inv(h, lo, hi) && Alloc(h, request).1 != 0
    ensures var (h', ptr) := Alloc(h, request); var a := ptr - HEADER_SIZE;
      && a in Regions(h') && (Regions(h')[a] >= request <==> request <= WORD64 - HEAP_ALIGNMENT)
      && (request > WORD64 - HEAP_ALIGNMENT ==> Regions(h')[a] < HEADER_SIZE + 2 * MIN_BLOCK_SIZE)
  {
    hide Inv, Take, Regions, Fits;
    var n := BlockSize(request);
    BlockSizeCovers(request);
    TakeSafe(h, FirstFit(h.blocks, h.free, n), n, lo, hi);
  }

  /** Free of a live pointer removes exactly its region; NULL and already-free pointers change nothing. */
  lemma FreeSafe(h: Heap, ptr: int, lo: int, hi: int)
    requires Inv(h, lo, hi) && KnownPtr(h, ptr)
    ensures Inv(Free(h, ptr), lo, hi)
    ensures LivePtr(h, ptr) ==> Regions(Free(h, ptr)) == Regions(h) - {ptr - HEADER_SIZE}
    ensures !LivePtr(h, ptr) ==> Free(h, ptr) == h
  {
    if LivePtr(h, ptr) {
      var k := LiveBlockAt(h, ptr, lo, hi);
      var b := h.blocks[k];
      BlockAt(h, k, lo, hi);
      if NextIsFree(h.blocks, k) {
        FreeMergeStep(h, ptr, lo, hi);
        BlockAt(h, k + 1, lo, hi);
        LiveDrop(Table(h.blocks), h.blocks[k + 1].addr);
        LiveUpdate(Table(h.blocks) - {h.blocks[k + 1].addr}, Absorb(h.blocks, k, false)[k]);
      } else {
        FreePlainStep(h, ptr, lo, hi);
        LiveUpdate(Table(h.blocks), b.(used := false));
      }
    }
  }

  lemma ExpandSafe(h: Heap, ptr: int, lo: int, hi: int)
    requires Inv(h, lo, hi) && LivePtr(h, ptr) && NextIsFree(h.blocks, IndexOf(h.blocks, ptr - HEADER_SIZE))
    ensures var k := IndexOf(h.blocks, ptr - HEADER_SIZE); var h' := Expand(h, k);
      && Inv(h', lo, hi) && ptr - HEADER_SIZE in Regions(h)
      && Regions(h') == Regions(h)[ptr - HEADER_SIZE := h.blocks[k].size + HEADER_SIZE + h.blocks[k + 1].size]
  {
    var k := LiveBlockAt(h, ptr, lo, hi);
    ExpandStep(h, ptr, lo, hi);
    BlockAt(h, k + 1, lo, hi);
    LiveDrop(Table(h.blocks), h.blocks[k + 1].addr);
    LiveUpdate(Table(h.blocks) - {h.blocks[k + 1].addr}, Absorb(h.blocks, k, true)[k]);
  }

  lemma MoveSafe(h: Heap, ptr: int, n: Size, lo: int, hi: int)
    requires Inv(h, lo, hi) && ptr - HEADER_SIZE in Regions(h) && BlockSize(n) == n
    ensures var (h', ptr') := Move(h, ptr, n); var a' := ptr' - HEADER_SIZE;
      && Inv(h', lo, hi)
      && (ptr' == 0 ==> h' == h)
      && (ptr' != 0 ==>
            && a' in Regions(h') && n <= Regions(h')[a'] && a' !in Regions(h)
            && Regions(h') == (Regions(h) - {ptr - HEADER_SIZE})[a' := Regions(h')[a']])
  {
    hide Inv, Regions, Table;
    AllocSafe(h, n, lo, hi);
    var (h1, p1) := Alloc(h, n);
    if p1 != 0 {
      LiveIsRegion(h1, ptr, lo, hi);
      FreeSafe(h1, ptr, lo, hi);
    }
  }

  /** Realloc of a live pointer to a non-zero size: on failure nothing changes; on success the old region is
      gone (or the same one, grown), the returned one holds the rounded size, and no other region changes. */
  lemma ReallocSafe(h: Heap, ptr: int, request: Size, lo: int, hi: int)
    requires Inv(h, lo, hi) && LivePtr(h, ptr) && request != 0
    ensures var (h', ptr') := Realloc(h, ptr, request); var n := BlockSize(request); var a' := ptr' - HEADER_SIZE;
      && Inv(h', lo, hi)
      && (ptr' == 0 ==> h' == h)
      && (ptr' != 0 ==>
            && a' in Regions(h') && n <= Regions(h')[a']
            && (ptr' == ptr || a' !in Regions(h))
            && Regions(h') == (Regions(h) - {ptr - HEADER_SIZE})[a' := Regions(h')[a']])
  {
    hide Inv, Regions, Table, Move, Expand;
    var n := BlockSize(request);
    BlockSizeCovers(request);
    var k := LiveBlockAt(h, ptr, lo, hi);
    if h.blocks[k].size >= n {
    } else if CanExpand(h.blocks, k, n) {
      ExpandSafe(h, ptr, lo, hi);
    } else {
      MoveSafe(h, ptr, n, lo, hi);
    }
  }

  /** The same of realloc, on a mapping inside the address space. */
  lemma ReallocHolds(h: Heap, ptr: int, request: Size, lo: int, hi: int)
    requires Inv(h, lo, hi) && hi <= WORD64 && LivePtr(h, ptr) && request != 0 && Realloc(h, ptr, request).1 != 0
    ensures var (h', ptr') := Realloc(h, ptr, request); var a' := ptr' - HEADER_SIZE;
      a' in Regions(h') && (Regions(h')[a'] >= request <==> request <= WORD64 - HEAP_ALIGNMENT)
  {
    hide Inv, Regions, Realloc, LivePtr;
    var (h', ptr') := Realloc(h, ptr, request);
    BlockSizeCovers(request);
    ReallocSafe(h, ptr, request, lo, hi);
    LiveRegionsDisjoint(h', lo, hi, ptr' - HEADER_SIZE, ptr' - HEADER_SIZE);
    assert lo > 0 by { InvLow(h, lo, hi); }
  }

  lemma InvLow(h: Heap, lo: int, hi: int)
    requires Inv(h, lo, hi)
    ensures lo >= HEAP_ALIGNMENT
  {
  }
}
