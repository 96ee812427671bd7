/** pi_PosixHeap*: the linked structure of lib/runtime/env.c. Every method takes exactly the step of
    `HeapModel` and says what becomes of the contents of the live regions. */
module PosixHeap {
  import opened Bits
  import opened HeapModel
  import opened HeapSafety
  import opened HeapView

  /** PiBlockHeader. */
  class BlockHeader {
    const addr: int
    var size: int
    var used: bool
    var next: BlockHeader?
    var nextFree: BlockHeader?

    constructor (addr: int, size: int, next: BlockHeader?, nextFree: BlockHeader?)
      ensures this.addr == addr && this.size == size && !used && this.next == next && this.nextFree == nextFree
    {
      this.addr, this.size, this.used, this.next, this.nextFree := addr, size, false, next, nextFree;
    }
  }

  class PosixHeap {
    const base: int
    const totalSize: int
    var usedSize: int
    var firstBlock: BlockHeader
    var freeList: BlockHeader?
    /** The header structures lying in the mapping, by address. */
    var headers: map<int, BlockHeader>
    /** The mapping itself; byte k is at address base + k. */
    const data: array<byte>
    ghost var blocks: seq<Block>
    ghost var free: seq<int>

    ghost function Model(): Heap
      reads this`blocks, this`free, this`usedSize
    {
      Heap(blocks, free, usedSize)
    }

    ghost function HeaderAt(a: int): BlockHeader?
      reads this`headers
    {
      if a in headers then headers[a] else null
    }

    ghost function FreeAt(i: nat): BlockHeader?
      reads this`headers, this`free
    {
      if i < |free| then HeaderAt(free[i]) else null
    }

    /** The header at `a` is the block at `a`, and its `next` is the header where the block ends. */
    ghost predicate NodeOk(a: int)
      requires a in headers
      reads this`blocks, this`headers, headers.Values`size, headers.Values`used, headers.Values`next
    {
      && headers[a].addr == a && a in Table(blocks)
      && Block(a, headers[a].size, headers[a].used) == Table(blocks)[a]
      && headers[a].next == HeaderAt(a + HEADER_SIZE + headers[a].size)
    }

    ghost predicate AddressChain()
      reads this`blocks, this`headers, headers.Values`size, headers.Values`used, headers.Values`next
    {
      headers.Keys == Table(blocks).Keys && forall a :: a in headers ==> NodeOk(a)
    }

    /** freeList and the `nextFree` links are the free list. */
    ghost predicate FreeChain()
      reads this`free, this`freeList, this`headers, headers.Values`nextFree
    {
      && freeList == FreeAt(0)
      && (forall i :: 0 <= i < |free| ==> free[i] in headers && headers[free[i]].addr == free[i])
      && (forall i {:trigger headers[free[i]].nextFree} :: 0 <= i < |free| ==>
            headers[free[i]].nextFree == FreeAt(i + 1))
      && (forall i, j :: 0 <= i < j < |free| ==> free[i] != free[j])
    }

    ghost predicate Valid()
      reads this, headers.Values
    {
      && AddressChain() && FreeChain() && firstBlock == HeaderAt(base)
      && Inv(Model(), base, base + totalSize) && data.Length == totalSize
    }

    ghost function Contents(): map<int, seq<byte>>
      reads this, data
    {
      View(Model(), data[..], base)
    }

    /** pi_PosixHeapCreate on a mapping of `size` bytes at `base`. */
    constructor (base: int, size: int)
      requires base % HEAP_ALIGNMENT == 0 && 0 < base
      requires size % HEAP_ALIGNMENT == 0 && size >= HEADER_SIZE + MIN_BLOCK_SIZE
      ensures Valid() && fresh(headers.Values) && fresh(data)
      ensures this.base == base && this.totalSize == size && Model() == InitHeap(base, base + size)
    {
      var first := new BlockHeader(base, size - HEADER_SIZE, null, null);
      this.base, this.totalSize, usedSize := base, size, 0;
      data := new byte[size](_ => 0);
      firstBlock, freeList := first, first;
      headers := map[base := first];
      blocks, free := InitHeap(base, base + size).blocks, [base];
      new;
      InitInv(base, base + size);
      OneBlock(blocks[0]);
    }

    // ---- Free-list surgery ----

    /** Position p of the free list goes to `newBlock`, which already points at p's successor. */
    method ReplaceFree(prev: BlockHeader?, newBlock: BlockHeader, ghost p: nat)
      requires p < |free| && prev == if p == 0 then null else FreeAt(p - 1)
      requires HeaderAt(newBlock.addr) == newBlock && newBlock.addr !in free
      requires FreeChain() && newBlock.nextFree == FreeAt(p + 1)
      modifies this`free, this`freeList, headers.Values`nextFree
      ensures FreeChain() && free == old(free)[p := newBlock.addr]
    {
      assert prev != null ==> prev in headers.Values;
      if prev != null { prev.nextFree := newBlock; } else { freeList := newBlock; }
      free := free[p := newBlock.addr];
    }

    /** Position p of the free list is bypassed. */
    method RemoveFree(prev: BlockHeader?, block: BlockHeader, ghost p: nat)
      requires p < |free| && prev == if p == 0 then null else FreeAt(p - 1)
      requires FreeChain() && block == FreeAt(p)
      modifies this`free, this`freeList, headers.Values`nextFree
      ensures FreeChain() && free == old(free)[..p] + old(free)[p + 1..]
    {
      if prev != null { prev.nextFree := block.nextFree; } else { freeList := block.nextFree; }
      free := free[..p] + free[p + 1..];
    }

    /** A block off the free list forgets its link. */
    method ClearLink(block: BlockHeader)
      requires FreeChain() && HeaderAt(block.addr) == block && block.addr !in free
      modifies block`nextFree
      ensures FreeChain()
    {
      block.nextFree := null;
    }

    /** Front insertion. */
    method PushFree(block: BlockHeader)
      requires FreeChain() && HeaderAt(block.addr) == block && block.addr !in free
      modifies this`free, this`freeList, block`nextFree
      ensures FreeChain() && free == [block.addr] + old(free)
    {
      block.nextFree := freeList;
      freeList := block;
      free := [block.addr] + free;
    }

    // ---- Address-order surgery ----

    /** The header of the tail, and what is left of the head. */
    method Divide(block: BlockHeader, size: int) returns (newBlock: BlockHeader)
      modifies block`size, block`used, block`next
      ensures fresh(newBlock) && newBlock.addr == block.addr + HEADER_SIZE + size && !newBlock.used
      ensures newBlock.size == old(block.size) - size - HEADER_SIZE
      ensures newBlock.next == old(block.next) && newBlock.nextFree == block.nextFree
      ensures block.size == size && block.next == newBlock && block.used
    {
      newBlock := new BlockHeader(block.addr + HEADER_SIZE + size, block.size - size - HEADER_SIZE, block.next,
                                  block.nextFree);
      block.size := size;
      block.next := newBlock;
      block.used := true;
    }

    /** Carve a free block out of the tail of `block`, which keeps `size` bytes and becomes used. */
    method Carve(block: BlockHeader, size: int, ghost blocks': seq<Block>) returns (newBlock: BlockHeader)
      requires AddressChain() && HeaderAt(block.addr) == block && !block.used
      requires var b := Block(block.addr, block.size, false);
        && 0 < size < block.size && Rest(b, size).addr !in headers
        && Table(blocks') == Table(blocks)[b.addr := Block(b.addr, size, true)][Rest(b, size).addr := Rest(b, size)]
      requires NoSharedEnd(Table(blocks')) && FreeChain()
      modifies this`headers, this`blocks, block`size, block`used, block`next
      ensures FreeChain() && AddressChain() && blocks == blocks' && fresh(newBlock)
      ensures headers == old(headers)[newBlock.addr := newBlock] && newBlock.addr == block.addr + HEADER_SIZE + size
      ensures newBlock.nextFree == block.nextFree && block.size == size
      ensures newBlock.addr !in free && newBlock.addr !in old(headers) && forall i: nat :: FreeAt(i) == old(FreeAt(i))
    {
      hide Table;
      newBlock := Divide(block, size);
      headers := headers[newBlock.addr := newBlock];
      blocks := blocks';
      forall a | a in headers ensures NodeOk(a) {
        assert old(NodeOk(block.addr));
        if a != newBlock.addr && a != block.addr {
          assert old(NodeOk(a));
          assert Table(blocks')[a].End() != Table(blocks')[block.addr].End();
        }
      }
    }

    /** Set the flag of `block`. */
    method SetUsed(block: BlockHeader, used: bool, ghost blocks': seq<Block>)
      requires AddressChain() && HeaderAt(block.addr) == block
      requires Table(blocks') == Table(blocks)[block.addr := Block(block.addr, block.size, used)]
      modifies this`blocks, block`used
      ensures AddressChain() && blocks == blocks' && block.used == used
    {
      hide Table;
      block.used := used;
      blocks := blocks';
      forall a | a in headers ensures NodeOk(a) { assert old(NodeOk(a)); }
    }

    /** `block` absorbs the header and the data of its successor. */
    method Merge(block: BlockHeader, nextBlock: BlockHeader, used: bool, ghost blocks': seq<Block>)
      requires AddressChain() && HeaderAt(block.addr) == block && block.next == nextBlock
      requires NoSharedEnd(Table(blocks)) && FreeChain() && nextBlock.addr !in free
      requires nextBlock.addr != block.addr && nextBlock.size > 0 && block.size > 0
      requires Table(blocks') == (Table(blocks) - {nextBlock.addr})[block.addr :=
                 Block(block.addr, block.size + HEADER_SIZE + nextBlock.size, used)]
      modifies this`blocks, this`headers, block`size, block`next, block`used
      ensures FreeChain() && AddressChain() && blocks == blocks' && headers == old(headers) - {nextBlock.addr}
      ensures block.size == old(block.size) + HEADER_SIZE + old(nextBlock.size)
    {
      hide Table;
      block.used := used;
      block.size := block.size + HEADER_SIZE + nextBlock.size;
      block.next := nextBlock.next;
      headers := headers - {nextBlock.addr};
      blocks := blocks';
      assert FreeChain() by {
        hide AddressChain, NodeOk;
        assert forall i: nat :: FreeAt(i) == old(FreeAt(i));
      }
      assert AddressChain() by {
        hide FreeChain;
        forall a | a in headers ensures NodeOk(a) {
          assert old(NodeOk(a)) && old(NodeOk(block.addr)) && old(NodeOk(nextBlock.addr));
          if a != block.addr {
            assert old(Table(blocks))[a].End() != old(Table(blocks))[block.addr].End();
          }
        }
      }
      hide *;
    }

    // ---- Alloc ----

    /** The header at free-list position p: its block, and what follows it. */
    lemma AtFree(p: nat) returns (k: nat)
      requires Valid() && p < |free|
      ensures k == IndexOf(blocks, free[p]) < |blocks| && blocks[k].addr == free[p]
      ensures free[p] in headers && headers[free[p]].addr == free[p] && FreeAt(p) == headers[free[p]]
      ensures blocks[k] == Block(free[p], headers[free[p]].size, false) && !headers[free[p]].used
      ensures headers[free[p]].nextFree == FreeAt(p + 1)
      ensures free[p] !in free[..p] + free[p + 1..]
    {
      k := FreeBlockAt(Model(), p, base, base + totalSize);
      BlockAt(Model(), k, base, base + totalSize);
      assert NodeOk(free[p]);
    }

    /** Split the block at free-list position p (its list predecessor is prev) and use its head. */
    method TakeSplit(prev: BlockHeader?, block: BlockHeader, ghost p: nat, size: int)
      requires Valid() && p < |free| && block == FreeAt(p) && prev == if p == 0 then null else FreeAt(p - 1)
      requires Rounded(size) && Splits(Block(block.addr, block.size, false), size)
      modifies this, headers.Values
      ensures Valid() && fresh(headers.Values - old(headers.Values))
      ensures p < |old(free)| && IndexOf(old(blocks), old(free)[p]) < |old(blocks)|
      ensures Model() == Take(old(Model()), p, size) && HeaderAt(block.addr) == block && block.size == size
      ensures forall a :: a in old(headers) ==> HeaderAt(a) == old(headers)[a]
    {
      hide Inv, Table, IndexOf, NoSharedEnd, FreeChain, AddressChain;
      ghost var h, lo, hi := Model(), base, base + totalSize;
      ghost var k := AtFree(p);
      BlockAt(h, k, lo, hi);
      TakeSplitStep(h, p, size, lo, hi);
      ghost var h' := Take(h, p, size);
      EndsDistinct(h', lo, hi);
      HeadersAre();
      var newBlock := Carve(block, size, h'.blocks);
      ReplaceFree(prev, newBlock, p);
      ClearLink(block);
      usedSize := usedSize + block.size;
    }

    lemma HeadersAre()
      requires AddressChain()
      ensures headers.Keys == Table(blocks).Keys
      ensures forall a :: a in headers ==> headers[a].addr == a
    {
      assert forall a :: a in headers ==> NodeOk(a);
    }

    /** Use the whole block at free-list position p. */
    method TakeWhole(prev: BlockHeader?, block: BlockHeader, ghost p: nat, ghost size: int)
      requires Valid() && p < |free| && block == FreeAt(p) && prev == if p == 0 then null else FreeAt(p - 1)
      requires !Splits(Block(block.addr, block.size, false), size)
      modifies this, headers.Values
      ensures Valid() && headers == old(headers)
      ensures p < |old(free)| && IndexOf(old(blocks), old(free)[p]) < |old(blocks)|
      ensures Model() == Take(old(Model()), p, size) && HeaderAt(block.addr) == block
    {
      hide Inv, Table, IndexOf, FreeChain, AddressChain;
      ghost var h, lo, hi := Model(), base, base + totalSize;
      ghost var k := AtFree(p);
      BlockAt(h, k, lo, hi);
      TakeWholeStep(h, p, size, lo, hi);
      SetUsed(block, true, Take(h, p, size).blocks);
      RemoveFree(prev, block, p);
      ClearLink(block);
      usedSize := usedSize + block.size;
    }

    /** The bytes at [ptr, ptr + count) become zero (memset). */
    method Zero(ptr: int, count: nat)
      requires base <= ptr && ptr + count <= base + data.Length
      modifies data
      ensures SameOutside(old(data[..]), data[..], base, ptr, ptr + count)
      ensures Slice(data[..], ptr - base, count) == Zeros(count)
    {
      forall i | ptr - base <= i < ptr - base + count { data[i] := 0; }
    }

    /** The search of pi_PosixHeapAlloc: the first block of the free list that holds `size` bytes. */
    method FindFit(size: int) returns (prev: BlockHeader?, block: BlockHeader?, ghost p: nat)
      requires Valid()
      ensures p == FirstFit(blocks, free, size) && block == FreeAt(p) && (block != null <==> p < |free|)
      ensures block != null ==>
        && prev == (if p == 0 then null else FreeAt(p - 1))
        && block.addr == free[p] && block.size >= size && Fits(blocks, free[p], size)
    {
      hide Inv, Table, IndexOf, AddressChain;
      prev, block, p := null, freeList, 0;
      while block != null
        invariant p <= |free| && block == FreeAt(p)
        invariant block != null ==> prev == if p == 0 then null else FreeAt(p - 1)
        invariant forall j :: 0 <= j < p ==> !Fits(blocks, free[j], size)
        decreases |free| - p
      {
        ghost var k := AtFree(p);
        if block.size >= size { break; }
        prev, block, p := block, block.nextFree, p + 1;
      }
      FirstFitIs(blocks, free, size, p);
    }

    lemma SizeOfLive(a: int)
      requires AddressChain() && a in Regions(Model())
      ensures a in headers && headers[a].size == Regions(Model())[a]
    {
      assert NodeOk(a);
    }

    /** pi_PosixHeapAlloc. A success adds one region of zeros and leaves every other region's bytes. */
    method Alloc(request: Size) returns (ptr: int)
      requires Valid()
      modifies this, headers.Values, data
      ensures Valid() && fresh(headers.Values - old(headers.Values))
      ensures (Model(), ptr) == HeapModel.Alloc(old(Model()), request)
      ensures forall a :: a in old(headers) ==> HeaderAt(a) == old(headers)[a]
      ensures ptr == 0 ==> Contents() == old(Contents())
      ensures ptr != 0 ==> ptr - HEADER_SIZE in Regions(Model()) && ptr - HEADER_SIZE !in old(Contents())
      ensures ptr != 0 ==>
        Contents() == old(Contents())[ptr - HEADER_SIZE := Zeros(Regions(Model())[ptr - HEADER_SIZE])]
    {
      hide Inv, Take, Table, IndexOf, Fits, FreeChain, AddressChain, Regions, SameOutside, Slice, Zeros;
      KeysOfView(Model(), data[..], base);
      if request == 0 { return 0; }
      var size := BlockSize(request);
      BlockSizeCovers(request);
      var prev, block, p := FindFit(size);
      if block == null { return 0; }
      ghost var h, mem := Model(), data[..];
      var remaining := block.size - size;
      if remaining >= HEADER_SIZE + MIN_BLOCK_SIZE {
        TakeSplit(prev, block, p, size);
      } else {
        TakeWhole(prev, block, p, size);
      }
      ptr := block.addr + HEADER_SIZE;
      TakeSafe(h, p, size, base, base + totalSize);
      SizeOfLive(block.addr);
      LiveRegionsDisjoint(Model(), base, base + totalSize, block.addr, block.addr);
      Zero(ptr, block.size);
      GrantView(h, Model(), mem, data[..], base, base + totalSize, block.addr);
      ViewAt(Model(), data[..], base, block.addr);
    }

    // ---- Free ----

    /** The header in front of a known data pointer, and its neighbour. */
    lemma AtPtr(ptr: int) returns (k: nat)
      requires Valid() && KnownPtr(Model(), ptr) && ptr != 0
      ensures k == IndexOf(blocks, ptr - HEADER_SIZE) < |blocks|
      ensures ptr - HEADER_SIZE in headers && headers[ptr - HEADER_SIZE].addr == ptr - HEADER_SIZE
      ensures blocks[k] == Block(ptr - HEADER_SIZE, headers[ptr - HEADER_SIZE].size, headers[ptr - HEADER_SIZE].used)
      ensures blocks[k].size > 0
      ensures var nextBlock := headers[ptr - HEADER_SIZE].next;
        && (nextBlock == null <==> k + 1 == |blocks|)
        && (nextBlock != null ==>
              && HeaderAt(nextBlock.addr) == nextBlock && nextBlock.addr > ptr - HEADER_SIZE >= base
              && nextBlock.size > 0
              && blocks[k + 1] == Block(nextBlock.addr, nextBlock.size, nextBlock.used)
              && (!nextBlock.used <==> nextBlock.addr in free))
    {
      k := IndexOf(blocks, ptr - HEADER_SIZE);
      BlockAt(Model(), k, base, base + totalSize);
      NextAt(Model(), k, base, base + totalSize);
      assert NodeOk(ptr - HEADER_SIZE);
      if k + 1 < |blocks| {
        BlockAt(Model(), k + 1, base, base + totalSize);
        DistinctOf(Model(), base, base + totalSize);
        assert NodeOk(blocks[k + 1].addr);
      }
    }

    /** Search the free list for `target` and unlink it (the loops of pi_PosixHeapFree and pi_PosixHeapRealloc). */
    method Unlink(target: BlockHeader)
      requires FreeChain() && HeaderAt(target.addr) == target && target.addr in free
      modifies this`free, this`freeList, headers.Values`nextFree
      ensures FreeChain() && free == Without(old(free), target.addr)
      ensures forall a :: a in free <==> a in old(free) && a != target.addr
    {
      var prevFree: BlockHeader?, curr := null, freeList;
      ghost var p := 0;
      while curr != null && curr != target
        invariant p <= |free| && curr == FreeAt(p)
        invariant curr != null ==> prevFree == if p == 0 then null else FreeAt(p - 1)
        invariant target.addr !in free[..p]
        invariant FreeChain() && free == old(free) && freeList == old(freeList) && unchanged(headers.Values)
        decreases |free| - p
      {
        prevFree, curr := curr, curr.nextFree;
        p := p + 1;
      }
      assert free == free[..p] + free[p..];
      WithoutIs(free, p);
      WithoutElems(free, target.addr);
      assert forall a :: a in Elems(free) <==> a in free;
      assert forall a :: a in Elems(Without(free, target.addr)) <==> a in Without(free, target.addr);
      if curr == target {
        RemoveFree(prevFree, target, p);
      }
    }

    /** pi_PosixHeapFree: the region of a live pointer disappears, every other region keeps its bytes. */
    method Free(ptr: int)
      requires Valid() && KnownPtr(Model(), ptr)
      modifies this, headers.Values
      ensures Valid() && headers.Values <= old(headers.Values)
      ensures Model() == HeapModel.Free(old(Model()), ptr)
      ensures Contents() ==
        if LivePtr(old(Model()), ptr) then old(Contents()) - {ptr - HEADER_SIZE} else old(Contents())
    {
      hide Inv, Table, IndexOf, FreeChain, AddressChain, NoSharedEnd, Regions;
      ghost var h, lo, hi := Model(), base, base + totalSize;
      FreeSafe(h, ptr, lo, hi);
      if ptr == 0 { return; }
      ghost var k := AtPtr(ptr);
      var block := headers[ptr - HEADER_SIZE];
      if !block.used { return; }
      ghost var k' := LiveBlockAt(h, ptr, lo, hi);
      usedSize := usedSize - block.size;
      var nextBlock := block.next;
      if nextBlock != null && !nextBlock.used {
        FreeMergeStep(h, ptr, lo, hi);
        EndsDistinct(h, lo, hi);
        Unlink(nextBlock);
        Merge(block, nextBlock, false, HeapModel.Free(h, ptr).blocks);
      } else {
        FreePlainStep(h, ptr, lo, hi);
        SetUsed(block, false, HeapModel.Free(h, ptr).blocks);
      }
      PushFree(block);
      DropView(h, Model(), data[..], base, ptr - HEADER_SIZE);
      assert headers.Values <= old(headers.Values);
    }

    // ---- Realloc ----

    /** The absorbed header's bytes become data; what they hold is not known. */
    method Expose(addr: int)
      requires base <= addr && addr + HEADER_SIZE <= base + data.Length
      modifies data
      ensures SameOutside(old(data[..]), data[..], base, addr, addr + HEADER_SIZE)
    {
      var i := 0;
      while i < HEADER_SIZE
        invariant 0 <= i <= HEADER_SIZE
        invariant forall j :: 0 <= j < data.Length && !(addr <= base + j < addr + i) ==> data[j] == old(data[j])
      {
        data[addr - base + i] := *;
        i := i + 1;
      }
    }

    /** memcpy of `count` bytes from `source` to `target`. */
    method Copy(target: int, source: int, count: nat)
      requires base <= target && target + count <= base + data.Length
      requires base <= source && source + count <= base + data.Length
      requires source + count <= target || target + count <= source
      modifies data
      ensures SameOutside(old(data[..]), data[..], base, target, target + count)
      ensures Slice(data[..], target - base, count) == Slice(old(data[..]), source - base, count)
    {
      forall i | 0 <= i < count { data[target - base + i] := data[source - base + i]; }
    }

    /** Expand a live block in place over its free successor. */
    method ExpandInPlace(block: BlockHeader, nextBlock: BlockHeader)
      requires Valid() && LivePtr(Model(), block.addr + HEADER_SIZE) && HeaderAt(block.addr) == block
      requires block.next == nextBlock && NextIsFree(blocks, IndexOf(blocks, block.addr))
      modifies this, headers.Values, data
      ensures Valid() && headers.Values <= old(headers.Values)
      ensures Model() == Expand(old(Model()), IndexOf(old(blocks), block.addr))
      ensures block.addr in old(Contents()) && block.addr in Contents()
      ensures Contents() == old(Contents())[block.addr := Contents()[block.addr]]
      ensures old(Contents())[block.addr] <= Contents()[block.addr]
    {
      hide Inv, Table, IndexOf, FreeChain, AddressChain, NoSharedEnd, Regions, SameOutside, View;
      ghost var h, lo, hi, mem := Model(), base, base + totalSize, data[..];
      ghost var k' := LiveBlockAt(h, block.addr + HEADER_SIZE, lo, hi);
      ghost var k := AtPtr(block.addr + HEADER_SIZE);
      var end := block.addr + HEADER_SIZE + block.size;
      ExpandSafe(h, block.addr + HEADER_SIZE, lo, hi);
      ExpandStep(h, block.addr + HEADER_SIZE, lo, hi);
      EndsDistinct(h, lo, hi);
      ghost var h' := Expand(h, k);
      LiveRegionsDisjoint(h', lo, hi, block.addr, block.addr);
      Unlink(nextBlock);
      usedSize := usedSize - block.size;
      Merge(block, nextBlock, true, h'.blocks);
      usedSize := usedSize + block.size;
      Expose(end);
      GrownView(h, h', mem, data[..], lo, hi, block.addr);
      assert headers.Values <= old(headers.Values);
    }

    /** Allocate elsewhere, copy the whole old block, free it. */
    method MoveBlock(ptr: int, newSize: Size) returns (newPtr: int)
      requires Valid() && LivePtr(Model(), ptr) && BlockSize(newSize) == newSize && newSize != 0
      requires HeaderAt(ptr - HEADER_SIZE) != null && headers[ptr - HEADER_SIZE].size < newSize
      modifies this, headers.Values, data
      ensures Valid() && fresh(headers.Values - old(headers.Values))
      ensures (Model(), newPtr) == Move(old(Model()), ptr, newSize)
      ensures newPtr == 0 ==> Contents() == old(Contents())
      ensures newPtr != 0 ==>
        var (a, a') := (ptr - HEADER_SIZE, newPtr - HEADER_SIZE);
        && a in old(Contents()) && a' in Contents()
        && Contents() == (old(Contents()) - {a})[a' := Contents()[a']]
        && old(Contents())[a] <= Contents()[a']
    {
      hide Inv, Table, IndexOf, FreeChain, AddressChain, NoSharedEnd, Regions, SameOutside, View;
      hide HeapModel.Alloc, HeapModel.Free, Slice, KnownPtr;
      ghost var h, lo, hi, mem := Model(), base, base + totalSize, data[..];
      ghost var a := ptr - HEADER_SIZE;
      var block := headers[ptr - HEADER_SIZE];
      LiveIsRegion(h, ptr, lo, hi);
      KeysOfView(h, mem, lo);
      AllocSafe(h, newSize, lo, hi);
      SizeOfLive(a);
      newPtr := Alloc(newSize);
      if newPtr == 0 { return; }
      ghost var a' := newPtr - HEADER_SIZE;
      ghost var h1, mem1 := Model(), data[..];
      LiveIsRegion(h1, ptr, lo, hi);
      LiveIsKnown(h1, ptr);
      SizeOfLive(a);
      LiveRegionsDisjoint(h1, lo, hi, a, a');
      LiveRegionsDisjoint(h1, lo, hi, a', a);
      assert HeaderAt(a) == block;
      Copy(newPtr, ptr, block.size);
      CopiedView(h, h1, mem, mem1, data[..], lo, hi, a, a');
      Free(ptr);
    }

    /** pi_PosixHeapRealloc. On failure for a non-zero size everything is as before; on success the whole old
        block is a prefix of the returned region and no other region changes. */
    method Realloc(ptr: int, request: Size) returns (newPtr: int)
      requires Valid() && (ptr != 0 ==> LivePtr(Model(), ptr))
      modifies this, headers.Values, data
      ensures Valid() && fresh(headers.Values - old(headers.Values))
      ensures (Model(), newPtr) == HeapModel.Realloc(old(Model()), ptr, request)
      ensures ptr == 0 && newPtr != 0 ==> newPtr - HEADER_SIZE in Regions(Model())
      ensures ptr == 0 && newPtr != 0 ==>
        Contents() == old(Contents())[newPtr - HEADER_SIZE := Zeros(Regions(Model())[newPtr - HEADER_SIZE])]
      ensures ptr != 0 && request == 0 ==> Contents() == old(Contents()) - {ptr - HEADER_SIZE}
      ensures newPtr == 0 && (ptr == 0 || request != 0) ==> Contents() == old(Contents())
      ensures ptr != 0 && newPtr != 0 ==>
        var (a, a') := (ptr - HEADER_SIZE, newPtr - HEADER_SIZE);
        && a in old(Contents()) && a' in Contents()
        && Contents() == (old(Contents()) - {a})[a' := Contents()[a']]
        && old(Contents())[a] <= Contents()[a']
    {
      hide Inv, Table, IndexOf, FreeChain, AddressChain, NoSharedEnd, Regions, SameOutside, View;
      hide HeapModel.Alloc, HeapModel.Free, Slice, KnownPtr, Move, Expand;
      if ptr == 0 {
        newPtr := Alloc(request);
        return;
      }
      ghost var k' := LiveBlockAt(Model(), ptr, base, base + totalSize);
      LiveIsKnown(Model(), ptr);
      if request == 0 {
        Free(ptr);
        return 0;
      }
      ghost var k := AtPtr(ptr);
      var block := headers[ptr - HEADER_SIZE];
      var newSize := BlockSize(request);
      BlockSizeCovers(request);
      KeysOfView(Model(), data[..], base);
      if block.size >= newSize { return ptr; }
      var nextBlock := block.next;
      if nextBlock != null && !nextBlock.used {
        var combinedSize := block.size + HEADER_SIZE + nextBlock.size;
        if combinedSize >= newSize {
          ExpandInPlace(block, nextBlock);
          return ptr;
        }
      }
      newPtr := MoveBlock(ptr, newSize);
    }
  }
}
