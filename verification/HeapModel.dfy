/** The first-fit heap of lib/runtime/env.c, as a value: the blocks in address order,
    the free list (header addresses, in list order) and the used-byte counter.
    `PosixHeap` is the pointer structure; its methods are proved to take exactly
    the steps defined here. */
module HeapModel {
  import opened Bits
  import opened Collections

  const HEADER_SIZE := 32
  const HEAP_ALIGNMENT := 16
  const MIN_BLOCK_SIZE := 32

  /** A `size_t`. */
  type Size = Word

  datatype Block = Block(addr: int, size: int, used: bool) {
    function Ptr(): int { addr + HEADER_SIZE }
    function End(): int { addr + HEADER_SIZE + size }
  }

  datatype Heap = Heap(blocks: seq<Block>, free: seq<int>, usedSize: int)

  // ---- Request rounding ----

  /** pi_AlignUp: the sum wraps modulo 2^64, the mask drops the remainder. */
  function AlignTo(size: Size, alignment: nat): Size
    requires alignment > 0
  {
    var sum := (size + alignment - 1) % WORD64;
    sum - sum % alignment
  }

  function AlignUp(size: Size): Size { AlignTo(size, HEAP_ALIGNMENT) }

  function BlockSize(request: Size): Size {
    var size := AlignUp(request);
    if size < MIN_BLOCK_SIZE then MIN_BLOCK_SIZE else size
  }

  /** The rounding is the mask of pi_AlignUp, in 64 bits, for every alignment that is a power of two. */
  lemma AlignToIsMask(size: Size, k: nat)
    requires k <= 64
    ensures Exp2(k) <= WORD64
    ensures AlignTo(size, Exp2(k)) == And((size + Exp2(k) - 1) % WORD64, WORD64 - Exp2(k))
  {
    hide Exp2, And;
    ExpValues();
    ExpMono(k, 64);
    ClearLow((size + Exp2(k) - 1) % WORD64, k, 64 - k);
  }

  /** Rounding covers the request unless the 64-bit sum wraps: exactly the last fifteen sizes fail. */
  lemma BlockSizeCovers(request: Size)
    ensures BlockSize(request) % HEAP_ALIGNMENT == 0 && BlockSize(request) >= MIN_BLOCK_SIZE
    ensures BlockSize(request) >= request <==> request <= WORD64 - HEAP_ALIGNMENT
    ensures request <= WORD64 - HEAP_ALIGNMENT ==> BlockSize(request) <= request + MIN_BLOCK_SIZE
    ensures BlockSize(BlockSize(request)) == BlockSize(request)
  {
    var n := BlockSize(request);
    assert n <= WORD64 - HEAP_ALIGNMENT;
    assert n % HEAP_ALIGNMENT == 0;
    assert (n + 15) % 16 == 15;
  }

  // ---- Address order ----

  ghost predicate WellSized(b: Block) {
    b.size % HEAP_ALIGNMENT == 0 && b.size >= MIN_BLOCK_SIZE
  }

  /** `bs` covers [lo, hi) exactly: each block is a header and its data, each starts where the previous ends. */
  ghost predicate Tiles(bs: seq<Block>, lo: int, hi: int) {
    if bs == [] then lo == hi
    else bs[0].addr == lo && WellSized(bs[0]) && Tiles(bs[1..], bs[0].End(), hi)
  }

  function UsedSum(bs: seq<Block>): int {
    if bs == [] then 0 else (if bs[0].used then bs[0].size else 0) + UsedSum(bs[1..])
  }

  /** The blocks by header address. */
  function Table(bs: seq<Block>): map<int, Block> {
    if bs == [] then map[] else map[bs[0].addr := bs[0]] + Table(bs[1..])
  }

  /** Position of the block with header address `a`, or |bs|. */
  function IndexOf(bs: seq<Block>, a: int): (k: nat)
    ensures k <= |bs| && (k < |bs| ==> bs[k].addr == a)
  {
    if bs == [] || bs[0].addr == a then 0 else 1 + IndexOf(bs[1..], a)
  }

  lemma {:induction false} Concat(a: seq<Block>, b: seq<Block>)
    ensures UsedSum(a + b) == UsedSum(a) + UsedSum(b)
    ensures Table(a + b) == Table(a) + Table(b)
  {
    if a == [] {
      assert a + b == b;
    } else {
      assert (a + b)[1..] == a[1..] + b;
      Concat(a[1..], b);
      MapAssoc(map[a[0].addr := a[0]], Table(a[1..]), Table(b));
    }
  }

  lemma MapAssoc<K, V>(a: map<K, V>, b: map<K, V>, c: map<K, V>)
    ensures a + (b + c) == (a + b) + c
  {
  }

  lemma {:induction false} TilesConcat(a: seq<Block>, b: seq<Block>, lo: int, mid: int, hi: int)
    requires Tiles(a, lo, mid)
    ensures Tiles(a + b, lo, hi) <==> Tiles(b, mid, hi)
  {
    if a == [] {
      assert a + b == b;
    } else {
      assert (a + b)[1..] == a[1..] + b;
      TilesConcat(a[1..], b, a[0].End(), mid, hi);
    }
  }

  lemma {:induction false} TilesPrefix(a: seq<Block>, b: seq<Block>, lo: int, hi: int)
    requires Tiles(a + b, lo, hi) && b != []
    ensures Tiles(a, lo, b[0].addr) && Tiles(b, b[0].addr, hi)
  {
    if a == [] {
      assert a + b == b;
    } else {
      assert (a + b)[1..] == a[1..] + b;
      TilesPrefix(a[1..], b, a[0].End(), hi);
    }
  }

  /** Blocks of a tiling are in bounds and pairwise disjoint, headers included. */
  lemma {:induction false} TilesOrdered(bs: seq<Block>, lo: int, hi: int)
    requires Tiles(bs, lo, hi)
    ensures lo <= hi
    ensures forall i :: 0 <= i < |bs| ==> WellSized(bs[i]) && lo <= bs[i].addr && bs[i].End() <= hi
    ensures forall i, j :: 0 <= i < j < |bs| ==> bs[i].End() <= bs[j].addr
    ensures forall i, j :: 0 <= i < |bs| && j == i + 1 && j < |bs| ==> bs[i].End() == bs[j].addr
    ensures bs != [] ==> bs[|bs| - 1].End() == hi
  {
    if bs == [] {
    } else {
      var t := bs[1..];
      TilesOrdered(t, bs[0].End(), hi);
      assert forall i :: 0 < i < |bs| ==> bs[i] == t[i - 1];
    }
  }

  lemma {:induction false} TilesAligned(bs: seq<Block>, lo: int, hi: int, i: nat)
    requires Tiles(bs, lo, hi) && lo % HEAP_ALIGNMENT == 0 && i < |bs|
    ensures bs[i].addr % HEAP_ALIGNMENT == 0
  {
    if i == 0 {
    } else {
      TilesAligned(bs[1..], bs[0].End(), hi, i - 1);
    }
  }

  lemma {:induction false} TableFind(bs: seq<Block>, a: int) returns (k: nat)
    requires a in Table(bs)
    ensures k < |bs| && bs[k] == Table(bs)[a] && bs[k].addr == a
  {
    if a in Table(bs[1..]) {
      k := TableFind(bs[1..], a);
      k := k + 1;
    } else {
      k := 0;
    }
  }

  lemma {:induction false} TableIndex(bs: seq<Block>, k: nat, lo: int, hi: int)
    requires Tiles(bs, lo, hi) && k < |bs|
    ensures bs[k].addr in Table(bs) && Table(bs)[bs[k].addr] == bs[k]
  {
    if k == 0 {
    } else {
      TableIndex(bs[1..], k - 1, bs[0].End(), hi);
    }
    TilesOrdered(bs, lo, hi);
    if bs[k].addr in Table(bs[1..]) {
      var j := TableFind(bs[1..], bs[k].addr);
      assert bs[1..][j] == bs[j + 1];
    }
  }

  lemma {:induction false} IndexOfMiss(bs: seq<Block>, a: int, i: nat)
    requires i < IndexOf(bs, a)
    ensures bs[i].addr != a
  {
    if i == 0 {
    } else {
      IndexOfMiss(bs[1..], a, i - 1);
    }
  }

  /** In a tiling, addresses name blocks. */
  lemma IndexOfIs(bs: seq<Block>, k: nat, lo: int, hi: int)
    requires Tiles(bs, lo, hi) && k < |bs|
    ensures IndexOf(bs, bs[k].addr) == k
  {
    TilesOrdered(bs, lo, hi);
    if k < IndexOf(bs, bs[k].addr) { IndexOfMiss(bs, bs[k].addr, k); }
  }

  // ---- Replacing consecutive blocks ----

  /** `bs` is a tiling with `mid` in the middle. */
  ghost predicate Middle(bs: seq<Block>, pre: seq<Block>, mid: seq<Block>, post: seq<Block>, lo: int, hi: int) {
    bs == pre + mid + post && mid != [] && Tiles(bs, lo, hi)
  }

  /** `mid'` covers the same bytes as `mid`. */
  ghost predicate SameSpan(mid: seq<Block>, mid': seq<Block>) {
    mid != [] && Tiles(mid', mid[0].addr, mid[|mid| - 1].End())
  }

  lemma {:induction false} Splice(bs: seq<Block>, pre: seq<Block>, mid: seq<Block>, post: seq<Block>,
                                  mid': seq<Block>, lo: int, hi: int)
    requires Middle(bs, pre, mid, post, lo, hi) && SameSpan(mid, mid')
    ensures Tiles(pre + mid' + post, lo, hi)
  {
    var x := mid[0].addr;
    assert pre + mid + post == pre + (mid + post);
    TilesPrefix(pre, mid + post, lo, hi);
    var y := if post == [] then hi else post[0].addr;
    if post == [] {
      assert mid + post == mid;
    } else {
      TilesPrefix(mid, post, x, hi);
    }
    TilesOrdered(mid, x, y);
    TilesConcat(mid, post, x, y, hi);
    TilesConcat(mid', post, x, y, hi);
    TilesConcat(pre, mid' + post, lo, x, hi);
    assert pre + mid' + post == pre + (mid' + post);
  }

  /** Addresses before and after the middle lie outside its bytes. */
  lemma {:induction false} Elsewhere(bs: seq<Block>, pre: seq<Block>, mid: seq<Block>, post: seq<Block>, lo: int,
                                     hi: int, a: int)
    requires Middle(bs, pre, mid, post, lo, hi) && (a in Table(pre) || a in Table(post))
    ensures a < mid[0].addr || a >= mid[|mid| - 1].End()
  {
    TilesOrdered(bs, lo, hi);
    var last := |pre| + |mid| - 1;
    assert bs[|pre|] == mid[0] && bs[last] == mid[|mid| - 1];
    if a in Table(pre) {
      var i := TableFind(pre, a);
      assert bs[i] == pre[i];
    } else {
      var j := TableFind(post, a);
      assert bs[last + 1 + j] == post[j];
    }
  }

  lemma {:induction false} Within(mid: seq<Block>, mid': seq<Block>, a: int)
    requires SameSpan(mid, mid') && a in Table(mid')
    ensures mid[0].addr <= a < mid[|mid| - 1].End()
  {
    var i := TableFind(mid', a);
    TilesOrdered(mid', mid[0].addr, mid[|mid| - 1].End());
  }

  lemma {:induction false} MiddleSpan(bs: seq<Block>, pre: seq<Block>, mid: seq<Block>, post: seq<Block>, lo: int,
                                      hi: int)
    requires Middle(bs, pre, mid, post, lo, hi)
    ensures SameSpan(mid, mid)
  {
    assert pre + mid + post == pre + (mid + post);
    TilesPrefix(pre, mid + post, lo, hi);
    if post == [] {
      assert mid + post == mid;
      TilesOrdered(mid, mid[0].addr, hi);
    } else {
      TilesPrefix(mid, post, mid[0].addr, hi);
      TilesOrdered(mid, mid[0].addr, post[0].addr);
    }
  }

  lemma SwapMiddle<K, V>(p: map<K, V>, m: map<K, V>, q: map<K, V>, m': map<K, V>)
    requires (m.Keys + m'.Keys) !! (p.Keys + q.Keys)
    ensures p + m' + q == ((p + m + q) - m.Keys) + m'
  {
    var l, r := p + m' + q, ((p + m + q) - m.Keys) + m';
    forall k ensures k in l <==> k in r {}
    forall k | k in l ensures l[k] == r[k] {}
  }

  /** Everything that follows from replacing `mid` by `mid'`. */
  lemma {:induction false} Replaced(bs: seq<Block>, pre: seq<Block>, mid: seq<Block>, post: seq<Block>,
                                    mid': seq<Block>, lo: int, hi: int)
    requires Middle(bs, pre, mid, post, lo, hi) && SameSpan(mid, mid')
    ensures Tiles(pre + mid' + post, lo, hi)
    ensures UsedSum(pre + mid' + post) == UsedSum(bs) - UsedSum(mid) + UsedSum(mid')
    ensures Table(pre + mid' + post) == (Table(bs) - Table(mid).Keys) + Table(mid')
    ensures forall a :: a in Table(mid') && a !in Table(mid) ==> a !in Table(bs)
    ensures Table(mid).Keys <= Table(bs).Keys
  {
    hide Tiles, Table, UsedSum;
    Splice(bs, pre, mid, post, mid', lo, hi);
    Concat(pre, mid); Concat(pre + mid, post);
    Concat(pre, mid'); Concat(pre + mid', post);
    MiddleSpan(bs, pre, mid, post, lo, hi);
    forall a | a in Table(pre) || a in Table(post) ensures a !in Table(mid) && a !in Table(mid') {
      Elsewhere(bs, pre, mid, post, lo, hi, a);
      if a in Table(mid) { Within(mid, mid, a); }
      if a in Table(mid') { Within(mid, mid', a); }
    }
    SwapMiddle(Table(pre), Table(mid), Table(post), Table(mid'));
  }

  // ---- The invariant ----

  function Elems(s: seq<int>): set<int> { set a | a in s }

  /** The header addresses of the free blocks. */
  function FreeAddrs(t: map<int, Block>): set<int> { set a | a in t && !t[a].used }

  ghost predicate Inv(h: Heap, lo: int, hi: int) {
    && lo % HEAP_ALIGNMENT == 0 && 0 < lo < hi
    && Tiles(h.blocks, lo, hi)
    && Distinct(h.free) && Elems(h.free) == FreeAddrs(Table(h.blocks))
    && h.usedSize == UsedSum(h.blocks)
  }

  /** One free block spanning the region (pi_PosixHeapCreate). */
  function InitHeap(lo: int, hi: int): Heap {
    Heap([Block(lo, hi - lo - HEADER_SIZE, false)], [lo], 0)
  }

  // ---- Alloc ----

  predicate Fits(bs: seq<Block>, a: int, n: int) {
    var k := IndexOf(bs, a);
    k < |bs| && bs[k].size >= n
  }

  /** First position in the free list whose block holds `n` bytes, or |free|. */
  function FirstFit(bs: seq<Block>, free: seq<int>, n: int): (p: nat)
    ensures p <= |free| && (p < |free| ==> Fits(bs, free[p], n))
    ensures forall j :: 0 <= j < p ==> !Fits(bs, free[j], n)
  {
    if free == [] || Fits(bs, free[0], n) then 0
    else
      var q := FirstFit(bs, free[1..], n);
      assert forall j :: 0 < j < |free| ==> free[j] == free[1..][j - 1];
      1 + q
  }

  lemma {:induction false} FirstFitIs(bs: seq<Block>, free: seq<int>, n: int, p: nat)
    requires p <= |free| && (p < |free| ==> Fits(bs, free[p], n))
    requires forall j :: 0 <= j < p ==> !Fits(bs, free[j], n)
    ensures FirstFit(bs, free, n) == p
  {
    if free == [] || p == 0 {
    } else {
      assert forall j :: 0 <= j < p - 1 ==> free[1..][j] == free[j + 1];
      FirstFitIs(bs, free[1..], n, p - 1);
    }
  }

  predicate Splits(b: Block, n: int) { b.size - n >= HEADER_SIZE + MIN_BLOCK_SIZE }

  /** Take the block at free-list position `p` for `n` bytes. */
  function Take(h: Heap, p: nat, n: int): Heap
    requires p < |h.free| && IndexOf(h.blocks, h.free[p]) < |h.blocks|
  {
    var k := IndexOf(h.blocks, h.free[p]);
    var b := h.blocks[k];
    if Splits(b, n) then
      var rest := Block(b.addr + HEADER_SIZE + n, b.size - n - HEADER_SIZE, false);
      Heap(h.blocks[..k] + [Block(b.addr, n, true), rest] + h.blocks[k + 1..], h.free[p := rest.addr], h.usedSize + n)
    else
      Heap(h.blocks[..k] + [b.(used := true)] + h.blocks[k + 1..], h.free[..p] + h.free[p + 1..], h.usedSize + b.size)
  }

  /** pi_PosixHeapAlloc: the new heap and the pointer (0 is NULL). */
  function Alloc(h: Heap, request: Size): (Heap, int) {
    if request == 0 then (h, 0)
    else
      var n := BlockSize(request);
      var p := FirstFit(h.blocks, h.free, n);
      if p == |h.free| then (h, 0) else (Take(h, p, n), h.free[p] + HEADER_SIZE)
  }

  // ---- Free ----

  /** Unlink the first occurrence of `a` from a list. */
  function Without(s: seq<int>, a: int): seq<int> {
    if s == [] then [] else if s[0] == a then s[1..] else [s[0]] + Without(s[1..], a)
  }

  predicate NextIsFree(bs: seq<Block>, k: nat) {
    k + 1 < |bs| && !bs[k + 1].used
  }

  /** Block k absorbs its successor's header and data, and gets the given flag. */
  function Absorb(bs: seq<Block>, k: nat, used: bool): seq<Block>
    requires k + 1 < |bs|
  {
    bs[..k] + [Block(bs[k].addr, bs[k].size + HEADER_SIZE + bs[k + 1].size, used)] + bs[k + 2..]
  }

  /** `ptr` is NULL or the data pointer of some block of the heap. */
  predicate KnownPtr(h: Heap, ptr: int) {
    ptr == 0 || IndexOf(h.blocks, ptr - HEADER_SIZE) < |h.blocks|
  }

  /** pi_PosixHeapFree. */
  function Free(h: Heap, ptr: int): Heap
    requires KnownPtr(h, ptr)
  {
    if ptr == 0 then h
    else
      var k := IndexOf(h.blocks, ptr - HEADER_SIZE);
      var b := h.blocks[k];
      if !b.used then h
      else if NextIsFree(h.blocks, k) then
        Heap(Absorb(h.blocks, k, false), [b.addr] + Without(h.free, h.blocks[k + 1].addr), h.usedSize - b.size)
      else
        Heap(h.blocks[..k] + [b.(used := false)] + h.blocks[k + 1..], [b.addr] + h.free, h.usedSize - b.size)
  }

  // ---- Realloc ----

  /** `ptr` is a pointer the heap handed out and has not taken back. */
  predicate LivePtr(h: Heap, ptr: int) {
    var k := IndexOf(h.blocks, ptr - HEADER_SIZE);
    k < |h.blocks| && h.blocks[k].used
  }

  predicate CanExpand(bs: seq<Block>, k: nat, n: int)
    requires k < |bs|
  {
    NextIsFree(bs, k) && bs[k].size + HEADER_SIZE + bs[k + 1].size >= n
  }

  function Expand(h: Heap, k: nat): Heap
    requires k + 1 < |h.blocks|
  {
    Heap(Absorb(h.blocks, k, true), Without(h.free, h.blocks[k + 1].addr),
         h.usedSize + HEADER_SIZE + h.blocks[k + 1].size)
  }

  /** The move path: allocate, (copy,) free the old block. */
  function Move(h: Heap, ptr: int, n: Size): (Heap, int) {
    var (h', ptr') := Alloc(h, n);
    if ptr' == 0 || !KnownPtr(h', ptr) then (h', 0) else (Free(h', ptr), ptr')
  }

  /** pi_PosixHeapRealloc. */
  function Realloc(h: Heap, ptr: int, request: Size): (Heap, int)
    requires ptr != 0 ==> LivePtr(h, ptr)
  {
    if ptr == 0 then Alloc(h, request)
    else if request == 0 then (Free(h, ptr), 0)
    else
      var n := BlockSize(request);
      var k := IndexOf(h.blocks, ptr - HEADER_SIZE);
      if h.blocks[k].size >= n then (h, ptr)
      else if CanExpand(h.blocks, k, n) then (Expand(h, k), ptr)
      else Move(h, ptr, n)
  }

  // ---- Every step keeps the invariant ----

  lemma {:induction false} WithoutSplits(s: seq<int>, a: int) returns (p: nat)
    requires a in s
    ensures p < |s| && s[p] == a && Without(s, a) == s[..p] + s[p + 1..]
  {
    if s[0] == a {
      p := 0;
    } else {
      assert a in s[1..];
      p := WithoutSplits(s[1..], a);
      p := p + 1;
    }
  }

  lemma {:induction false} WithoutElems(s: seq<int>, a: int)
    requires Distinct(s) && a in s
    ensures Distinct(Without(s, a)) && Elems(Without(s, a)) == Elems(s) - {a}
  {
    var p := WithoutSplits(s, a);
    var t := s[..p] + s[p + 1..];
    forall i | 0 <= i < |t| ensures t[i] == s[if i < p then i else i + 1] {}
    forall x ensures x in Elems(t) <==> x in Elems(s) - {a} {
      if x in s && x != a {
        var i :| 0 <= i < |s| && s[i] == x;
        assert t[if i < p then i else i - 1] == x;
      }
    }
  }

  lemma WithoutIs(s: seq<int>, p: nat)
    requires Distinct(s) && p < |s|
    ensures Without(s, s[p]) == s[..p] + s[p + 1..]
  {
    var q := WithoutSplits(s, s[p]);
  }

  // ---- Creation ----

  /** The size that pi_PosixHeapCreate maps, for the configured default and minimum sizes, which are both 0 unless the
      build says otherwise. */
  function MappingSize(request: Size, defaultSize: Size, minSize: Size, pageSize: nat): Size
    requires pageSize > 0
  {
    AlignTo(Wanted(request, defaultSize, minSize), pageSize)
  }

  function Wanted(request: Size, defaultSize: Size, minSize: Size): Size {
    var size := if request == 0 then defaultSize else request;
    if size < minSize then minSize else size
  }

  /** Rounding up to a multiple holds unless the sum wraps: then it is 0. */
  lemma AlignToHolds(size: Size, a: nat)
    requires 0 < a <= WORD64
    ensures AlignTo(size, a) % a == 0
    ensures if size <= WORD64 - a then size <= AlignTo(size, a) < size + a else AlignTo(size, a) == 0
  {
    var sum := SumWraps(size, a);
    var q, r := sum / a, sum % a;
    assert sum == q * a + r;
    DivSmall(q, 0, a);
    if size > WORD64 - a { DivSmall(0, sum, a); }
  }

  lemma SumWraps(size: Size, a: nat) returns (sum: nat)
    requires 0 < a <= WORD64
    ensures sum == (size + a - 1) % WORD64
    ensures sum == if size <= WORD64 - a then size + a - 1 else size + a - 1 - WORD64
  {
    sum := (size + a - 1) % WORD64;
  }

  /** The mapping is whole pages, at least as many as wanted, if and only if the size wanted is neither 0 nor within a
      page of 2^64; for those the mapping is empty, although a minimum of 0 is documented to stand for one page. What is
      wanted is the size asked for, or the default for 0, or the minimum if that is larger. */
  lemma MappingHolds(request: Size, defaultSize: Size, minSize: Size, page: nat)
    requires 0 < page <= WORD64
    ensures var m := Wanted(request, defaultSize, minSize);
      && m >= minSize && m in {request, defaultSize, minSize}
      && (request != 0 ==> m >= request && (m == request || request < minSize))
      && (request == 0 ==> m >= defaultSize && (m == defaultSize || defaultSize < minSize))
    ensures var m := Wanted(request, defaultSize, minSize); var n := MappingSize(request, defaultSize, minSize, page);
      && n % page == 0
      && (n > 0 <==> 0 < m <= WORD64 - page)
      && (n > 0 ==> page <= n && m <= n < m + page)
  {
    hide AlignTo;
    var m := Wanted(request, defaultSize, minSize);
    AlignToHolds(m, page);
    if m <= WORD64 - page { Multiple(AlignTo(m, page), page); }
  }

  lemma Multiple(n: nat, a: nat)
    requires 0 < a && n % a == 0
    ensures n == 0 || n >= a
  {
    if n < a { DivSmall(0, n, a); }
  }

  lemma InitInv(lo: int, hi: int)
    requires lo % HEAP_ALIGNMENT == 0 && 0 < lo
    requires (hi - lo) % HEAP_ALIGNMENT == 0 && hi - lo >= HEADER_SIZE + MIN_BLOCK_SIZE
    ensures Inv(InitHeap(lo, hi), lo, hi)
  {
    var bs := InitHeap(lo, hi).blocks;
    assert bs[1..] == [];
  }

  /** The heap on a mapping of whole pages of at least 64 bytes is a fresh heap. */
  lemma CreateInv(n: nat, k: nat, lo: int)
    requires k >= 6 && n > 0 && n % Exp2(k) == 0 && lo % HEAP_ALIGNMENT == 0 && 0 < lo
    ensures Inv(InitHeap(lo, lo + n), lo, lo + n)
  {
    hide Exp2, Inv, InitHeap;
    ExpValues();
    SixtyFour();
    ExpMono(6, k);
    Multiple(n, Exp2(k));
    ExpSum(4, k - 4);
    Sixteenth(n, n / Exp2(k), Exp2(k - 4));
    InitInv(lo, lo + n);
  }

  lemma SixtyFour() ensures Exp2(6) == 64 {}

  lemma Sixteenth(n: int, q: int, e: int)
    requires n == q * (16 * e)
    ensures n % 16 == 0
  {
    assert q * (16 * e) == 16 * (q * e);
  }
}
