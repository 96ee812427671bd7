/** The arena allocator of lib/common/arena.c: bump allocation in a list of malloc'ed blocks. */
module Arena {
  import opened Bits

  const ARENA_ALIGNMENT := 8
  const DEFAULT_BLOCK_SIZE := 4096

  // ---- Sizes ----

  /** pi_ArenaAlignSize on a size_t. */
  function AlignSize(size: Word): nat { And((size + 7) % WORD64, WORD64 - 8) }

  /** Rounding up to the alignment loses nothing, unless the size is within seven bytes of 2^64: then it wraps to 0. */
  lemma AlignSizeIs(size: Word)
    ensures AlignSize(size) % ARENA_ALIGNMENT == 0 && AlignSize(size) <= WORD64 - 8
    ensures if size <= WORD64 - 8 then size <= AlignSize(size) < size + 8 else AlignSize(size) == 0
  {
    hide Exp2, And;
    var x := (size + 7) % WORD64;
    assert Exp2(3) == 8 && Exp2(64) == WORD64 by { ExpFields(); }
    ClearLow(x, 3, 61);
  }

  lemma ExpFields()
    ensures Exp2(3) == 8 && Exp2(64) == WORD64
  {
    assert Exp2(3) == 8;
    ExpValues();
  }

  datatype Placement = Here(start: nat, used: nat) | NewBlock(size: nat, used: nat)

  /** Where piArenaAlloc puts `size` bytes: `block` is the size of the current block (0 if there is none). */
  function Place(used: nat, block: nat, blockSize: nat, size: Word): Placement {
    var aligned := AlignSize(size);
    if block > 0 && (used + aligned) % WORD64 <= block then Here(used, (used + aligned) % WORD64)
    else NewBlock(if aligned > blockSize then aligned else blockSize, aligned)
  }

  /** The end of the bytes asked for lies at most at the new end of the used part, and the used part stays aligned
      and inside its block. The first holds if and only if nothing wrapped: the size is at most 2^64 - 8, less the bytes
      already used when the block is shared. */
  lemma PlaceHolds(used: nat, block: nat, blockSize: nat, size: Word)
    requires used % ARENA_ALIGNMENT == 0 && used <= block < WORD64 && 0 < size && 0 < blockSize < WORD64
    ensures match Place(used, block, blockSize, size)
      case Here(start, end) =>
        && end % ARENA_ALIGNMENT == 0 && end <= block
        && (start + size <= end <==> used + size <= WORD64 - 8)
        && (start + size <= end ==> end == start + AlignSize(size) < start + size + 8)
      case NewBlock(n, end) =>
        && end % ARENA_ALIGNMENT == 0 && end <= n < WORD64 && n >= blockSize
        && end == AlignSize(size) && (size <= end <==> size <= WORD64 - 8)
  {
    hide AlignSize;
    AlignSizeIs(size);
    Multiples(used, AlignSize(size));
  }

  /** Two requests that wrap: the first gives away the whole address space in 4096 bytes and marks the block empty, the
      second reserves nothing. */
  lemma PlaceWraps()
    ensures Place(16, 4096, 4096, WORD64 - 16) == Here(16, 0)
    ensures Place(16, 4096, 4096, WORD64 - 7) == Here(16, 16)
  {
    hide AlignSize;
    AlignSizeIs(WORD64 - 16);
    AlignSizeIs(WORD64 - 7);
  }

  /** A sum of two aligned sizes, in 64 bits. */
  lemma Multiples(a: nat, b: nat)
    requires a < WORD64 && b < WORD64 && a % ARENA_ALIGNMENT == 0 && b % ARENA_ALIGNMENT == 0
    ensures (a + b) % WORD64 == (if a + b < WORD64 then a + b else a + b - WORD64)
    ensures (a + b) % WORD64 % ARENA_ALIGNMENT == 0
  {
    var i, j, k := a / 8, b / 8, WORD64 / 8;
    assert a == 8 * i && b == 8 * j && WORD64 == 8 * k;
    var m := if a + b < WORD64 then i + j else i + j - k;
    assert (a + b) % WORD64 == 8 * m;
  }

  // ---- States ----

  /** A block as a value: its address, its size and the bytes in use. */
  datatype Extent = Extent(data: nat, size: nat, used: nat)

  /** Bytes handed out in the block at `data`: `size` were asked for, `length` are reserved. */
  datatype Grant = Grant(data: nat, start: nat, size: nat, length: nat) {
    function Addr(): nat { data + start }
  }

  /** The blocks, newest first, and the grants since the last reset, oldest first. */
  datatype State = State(blockSize: nat, extents: seq<Extent>, total: nat, live: seq<Grant>) {
    function Used(): nat { if extents == [] then 0 else extents[0].used }
    function Room(): nat { if extents == [] then 0 else extents[0].size }
    function Placed(size: Word): Placement { Place(Used(), Room(), blockSize, size) }
  }

  function Init(blockSize: nat): State { State(blockSize, [], 0, []) }

  /** piArenaAlloc; `base` is the address malloc gives a new block. */
  function Granting(s: State, size: Word, base: nat): State {
    match s.Placed(size)
    case Here(start, used) =>
      if s.extents == [] then s
      else
        var e := s.extents[0];
        s.(extents := s.extents[0 := e.(used := used)], live := s.live + [Grant(e.data, start, size, AlignSize(size))])
    case NewBlock(n, used) =>
      s.(extents := [Extent(base, n, used)] + s.extents, total := s.total + n,
         live := s.live + [Grant(base, 0, size, AlignSize(size))])
  }

  function Emptied(extents: seq<Extent>): (r: seq<Extent>)
    ensures |r| == |extents|
    ensures forall i :: 0 <= i < |r| ==> r[i] == extents[i].(used := 0)
  {
    if extents == [] then [] else [extents[0].(used := 0)] + Emptied(extents[1..])
  }

  /** piArenaReset keeps the blocks and forgets what they hold. */
  function Resetting(s: State): State { s.(extents := Emptied(s.extents), live := []) }

  // ---- What every state keeps ----

  predicate Disjoint(a: nat, n: nat, b: nat, m: nat) { a + n <= b || b + m <= a }

  function SizeSum(extents: seq<Extent>): nat {
    if extents == [] then 0 else extents[0].size + SizeSum(extents[1..])
  }

  /** Blocks are aligned, separate pieces of the address space, and their used parts are aligned and inside. */
  ghost predicate Separate(extents: seq<Extent>) {
    && (forall i :: 0 <= i < |extents| ==>
          && extents[i].data % ARENA_ALIGNMENT == 0 && 0 < extents[i].size < WORD64
          && extents[i].used % ARENA_ALIGNMENT == 0 && extents[i].used <= extents[i].size)
    && forall i, j :: 0 <= i < j < |extents| ==>
         Disjoint(extents[i].data, extents[i].size, extents[j].data, extents[j].size)
  }

  ghost predicate Covers(extents: seq<Extent>, g: Grant) {
    exists i :: 0 <= i < |extents| && extents[i].data == g.data && g.start + g.length <= extents[i].used
  }

  /** The grants are aligned, in the used part of a block, large enough, and apart. */
  ghost predicate Granted(live: seq<Grant>, extents: seq<Extent>) {
    && (forall k :: 0 <= k < |live| ==>
          Covers(extents, live[k]) && live[k].start % ARENA_ALIGNMENT == 0 && 0 < live[k].size <= live[k].length)
    && (forall k, l :: 0 <= k < l < |live| && live[k].data == live[l].data ==>
          Disjoint(live[k].start, live[k].length, live[l].start, live[l].length))
  }

  ghost predicate Good(s: State) {
    && 0 < s.blockSize < WORD64 && Separate(s.extents) && Granted(s.live, s.extents)
    && s.total == SizeSum(s.extents)
  }

  /** Grants are aligned, inside their block, and disjoint as ranges of addresses. */
  lemma GrantsApart(s: State, k: nat, l: nat)
    requires Good(s) && k < l < |s.live|
    ensures forall g :: g in {s.live[k], s.live[l]} ==>
      && g.Addr() % ARENA_ALIGNMENT == 0 && g.size <= g.length
      && exists i :: 0 <= i < |s.extents| && s.extents[i].data <= g.Addr() &&
           g.Addr() + g.length <= s.extents[i].data + s.extents[i].size
    ensures Disjoint(s.live[k].Addr(), s.live[k].length, s.live[l].Addr(), s.live[l].length)
  {
    var i := BlockOf(s, k);
    var j := BlockOf(s, l);
    assert i < j ==> Disjoint(s.extents[i].data, s.extents[i].size, s.extents[j].data, s.extents[j].size);
    assert j < i ==> Disjoint(s.extents[j].data, s.extents[j].size, s.extents[i].data, s.extents[i].size);
  }

  lemma BlockOf(s: State, k: nat) returns (i: nat)
    requires Good(s) && k < |s.live|
    ensures i < |s.extents| && s.extents[i].data == s.live[k].data
    ensures s.live[k].Addr() % ARENA_ALIGNMENT == 0
    ensures s.live[k].Addr() + s.live[k].length <= s.extents[i].data + s.extents[i].size
  {
    i :| 0 <= i < |s.extents| && s.extents[i].data == s.live[k].data &&
      s.live[k].start + s.live[k].length <= s.extents[i].used;
    assert s.live[k].start % ARENA_ALIGNMENT == 0 && s.extents[i].data % ARENA_ALIGNMENT == 0;
    SumAligned(s.live[k].start, s.extents[i].data);
  }

  lemma SumAligned(a: nat, b: nat)
    requires a % ARENA_ALIGNMENT == 0 && b % ARENA_ALIGNMENT == 0
    ensures (a + b) % ARENA_ALIGNMENT == 0
  {
  }

  // ---- Runs ----

  datatype Op = AllocOp(size: Word, base: nat) | ResetOp

  /** The least multiple of 8 that is at least n. */
  function RoundUp8(n: nat): nat { (n + 7) / 8 * 8 }

  /** The newest block has r bytes left. */
  predicate HasRoom(s: State, r: nat) { s.extents != [] && s.extents[0].used + r <= s.extents[0].size }

  function LargerOf(a: nat, b: nat): nat { if a > b then a else b }

  /** The size is not zero, no sum wraps, and malloc's new block, if one is needed, is aligned and apart from the
      others. */
  ghost predicate Allowed(s: State, op: Op) {
    match op
    case ResetOp => true
    case AllocOp(size, base) =>
      && 0 < size <= WORD64 - 8 && s.Used() + size <= WORD64 - 8
      && (!HasRoom(s, RoundUp8(size)) ==>
            && base % ARENA_ALIGNMENT == 0
            && forall i :: 0 <= i < |s.extents| ==>
                 Disjoint(base, LargerOf(RoundUp8(size), s.blockSize), s.extents[i].data, s.extents[i].size))
  }

  function Apply(s: State, op: Op): State {
    match op
    case AllocOp(size, base) => Granting(s, size, base)
    case ResetOp => Resetting(s)
  }

  ghost predicate AllowedRun(s: State, ops: seq<Op>)
    decreases ops
  {
    ops != [] ==> Allowed(s, ops[0]) && AllowedRun(Apply(s, ops[0]), ops[1..])
  }

  function Run(s: State, ops: seq<Op>): State
    decreases ops
  {
    if ops == [] then s else Run(Apply(s, ops[0]), ops[1..])
  }

  lemma SizeSumHead(e: Extent, extents: seq<Extent>)
    ensures SizeSum([e] + extents) == e.size + SizeSum(extents)
  {
    assert ([e] + extents)[1..] == extents;
  }

  lemma {:induction false} SizeSumSame(a: seq<Extent>, b: seq<Extent>)
    requires |a| == |b| && forall i :: 0 <= i < |a| ==> a[i].size == b[i].size
    ensures SizeSum(a) == SizeSum(b)
  {
    if a == [] {
    } else {
      SizeSumSame(a[1..], b[1..]);
    }
  }

  /** A larger used part of the newest block covers the old grants and the new one. */
  lemma BumpKeeps(s: State, used: nat, size: nat)
    requires Good(s) && s.extents != [] && used % ARENA_ALIGNMENT == 0
    requires s.extents[0].used + size <= used <= s.extents[0].size && size > 0
    ensures var e := s.extents[0]; var more := s.extents[0 := e.(used := used)];
      && Separate(more) && SizeSum(more) == SizeSum(s.extents)
      && Granted(s.live + [Grant(e.data, e.used, size, used - e.used)], more)
  {
    var e := s.extents[0];
    var more := s.extents[0 := e.(used := used)];
    var g := Grant(e.data, e.used, size, used - e.used);
    SizeSumSame(s.extents, more);
    assert more[0].data == g.data;
    forall k | 0 <= k < |s.live| ensures Covers(more, s.live[k]) && (s.live[k].data == e.data ==>
      s.live[k].start + s.live[k].length <= e.used)
    {
      var i :| 0 <= i < |s.extents| && s.extents[i].data == s.live[k].data &&
        s.live[k].start + s.live[k].length <= s.extents[i].used;
      assert more[i].data == s.live[k].data;
      assert i > 0 ==> Disjoint(e.data, e.size, s.extents[i].data, s.extents[i].size);
    }
  }

  /** A new block holds the new grant only. */
  lemma NewBlockKeeps(s: State, base: nat, n: nat, used: nat, size: nat)
    requires Good(s) && base % ARENA_ALIGNMENT == 0 && used % ARENA_ALIGNMENT == 0 && 0 < size <= used <= n < WORD64
    requires forall i :: 0 <= i < |s.extents| ==> Disjoint(base, n, s.extents[i].data, s.extents[i].size)
    ensures var more := [Extent(base, n, used)] + s.extents;
      && Separate(more) && SizeSum(more) == SizeSum(s.extents) + n
      && Granted(s.live + [Grant(base, 0, size, used)], more)
  {
    var e := Extent(base, n, used);
    var more := [e] + s.extents;
    SizeSumHead(e, s.extents);
    assert more[0] == e && forall i :: 0 <= i < |s.extents| ==> more[i + 1] == s.extents[i];
    forall k | 0 <= k < |s.live| ensures Covers(more, s.live[k]) && s.live[k].data != base {
      var i :| 0 <= i < |s.extents| && s.extents[i].data == s.live[k].data &&
        s.live[k].start + s.live[k].length <= s.extents[i].used;
      assert more[i + 1].data == s.live[k].data;
    }
    assert Covers(more, Grant(base, 0, size, used));
  }

  /** An allocation that does not wrap goes into the newest block if it has room, and otherwise into a new block. */
  lemma Places(s: State, size: Word, base: nat)
    requires Good(s) && Allowed(s, AllocOp(size, base))
    ensures AlignSize(size) == RoundUp8(size)
    ensures s.Placed(size) ==
      if HasRoom(s, RoundUp8(size)) then Here(s.Used(), s.Used() + RoundUp8(size))
      else NewBlock(LargerOf(RoundUp8(size), s.blockSize), RoundUp8(size))
  {
    hide AlignSize, Separate, Granted, SizeSum;
    AlignSizeIs(size);
    FirstExtent(s.extents);
    RoundUpIs(size, AlignSize(size));
    Multiples(s.Used(), AlignSize(size));
    NoWrap(s.Used(), size);
  }

  lemma RoundUpIs(size: nat, r: nat)
    requires r % 8 == 0 && size <= r < size + 8
    ensures RoundUp8(size) == r
  {
  }

  lemma NoWrap(used: nat, size: nat)
    requires used % 8 == 0 && used + size <= WORD64 - 8
    ensures used + RoundUp8(size) < WORD64
  {
  }

  /** With r the size rounded up to 8: if the newest block has r bytes left, the grant starts at the end of its used
      part, and neither blocks nor total change; otherwise one block is added in front, of r bytes or the block size,
      whichever is larger, counted in the total, and the grant starts at its beginning. */
  lemma AllocPlaces(s: State, size: Word, base: nat, r: nat)
    requires Good(s) && Allowed(s, AllocOp(size, base)) && r % 8 == 0 && size <= r < size + 8
    ensures Apply(s, AllocOp(size, base)).blockSize == s.blockSize
    ensures var t := Apply(s, AllocOp(size, base));
      if s.extents != [] && s.extents[0].used + r <= s.extents[0].size then
        var e := s.extents[0];
        && t.extents == s.extents[0 := Extent(e.data, e.size, e.used + r)] && t.total == s.total
        && t.live == s.live + [Grant(e.data, e.used, size, r)]
      else
        var n := if r > s.blockSize then r else s.blockSize;
        && t.extents == [Extent(base, n, r)] + s.extents && t.total == s.total + n
        && t.live == s.live + [Grant(base, 0, size, r)]
  {
    hide AlignSize, RoundUp8, Place, Good;
    RoundUpIs(size, r);
    Places(s, size, base);
  }

  /** A reset keeps all blocks and empties each. */
  lemma ResetEmpties(s: State)
    ensures var t := Apply(s, ResetOp);
      && |t.extents| == |s.extents| && t.total == s.total && t.blockSize == s.blockSize && t.live == []
      && forall i :: 0 <= i < |t.extents| ==> t.extents[i] == Extent(s.extents[i].data, s.extents[i].size, 0)
  {
    assert forall i :: 0 <= i < |Emptied(s.extents)| ==> Emptied(s.extents)[i] == s.extents[i].(used := 0);
  }

  /** In a block of 4096 bytes with 16 in use, 3000 bytes go behind those. */
  lemma StaysInBlock(base: nat, next: nat)
    requires base % 8 == 0 && next % 8 == 0
    ensures var s := State(4096, [Extent(base, 4096, 16)], 4096, [Grant(base, 0, 16, 16)]);
      Apply(s, AllocOp(3000, next)) ==
      State(4096, [Extent(base, 4096, 3016)], 4096, [Grant(base, 0, 16, 16), Grant(base, 16, 3000, 3000)])
  {
    hide AlignSize;
    AlignSizeIs(3000);
  }

  lemma ApplyGood(s: State, op: Op)
    requires Good(s) && Allowed(s, op)
    ensures Good(Apply(s, op))
    ensures op.AllocOp? ==>
      && |Apply(s, op).live| == |s.live| + 1 && Apply(s, op).live[..|s.live|] == s.live
      && Apply(s, op).live[|s.live|].size == op.size
  {
    hide Separate, Granted, SizeSum, AlignSize;
    match op
    case ResetOp =>
      SizeSumSame(s.extents, Emptied(s.extents));
      EmptiedSeparate(s.extents);
    case AllocOp(size, base) =>
      FirstExtent(s.extents);
      PlaceHolds(s.Used(), s.Room(), s.blockSize, size);
      Places(s, size, base);
      match s.Placed(size)
      case Here(start, used) => BumpKeeps(s, used, size);
      case NewBlock(n, used) => NewBlockKeeps(s, base, n, used, size);
  }

  lemma FirstExtent(extents: seq<Extent>)
    requires Separate(extents)
    ensures extents != [] ==> 0 < extents[0].size < WORD64 && extents[0].used <= extents[0].size
    ensures extents != [] ==> extents[0].used % ARENA_ALIGNMENT == 0
  {
  }

  lemma EmptiedSeparate(extents: seq<Extent>)
    requires Separate(extents)
    ensures Separate(Emptied(extents)) && Granted([], Emptied(extents))
  {
  }

  /** Over every run of alloc and reset the used parts are aligned and inside their blocks, the total is the sum of the
      block sizes, and the grants since the last reset are aligned, in bounds and disjoint. */
  lemma {:induction false} RunGood(s: State, ops: seq<Op>)
    requires Good(s) && AllowedRun(s, ops)
    ensures Good(Run(s, ops))
    decreases ops
  {
    if ops == [] {
    } else {
      ApplyGood(s, ops[0]);
      RunGood(Apply(s, ops[0]), ops[1..]);
    }
  }

  // ---- Arena ----

  /** PiArenaBlock; `data` is the address that malloc returned. */
  class Block {
    const data: nat
    const size: nat
    var next: Block?
    var used: nat

    constructor (data: nat, size: nat, next: Block?)
      ensures this.data == data && this.size == size && this.next == next && used == 0
    {
      this.data, this.size, this.next, used := data, size, next, 0;
    }
  }

  ghost function At(blocks: seq<Block>, i: nat): Block? { if i < |blocks| then blocks[i] else null }

  ghost predicate Linked(head: Block?, blocks: seq<Block>)
    reads blocks`next
  {
    && head == At(blocks, 0)
    && forall i {:trigger blocks[i].next} :: 0 <= i < |blocks| ==> blocks[i].next == At(blocks, i + 1)
  }

  ghost predicate Matches(blocks: seq<Block>, extents: seq<Extent>)
    reads blocks`used
  {
    && |blocks| == |extents|
    && (forall i :: 0 <= i < |blocks| ==> Extent(blocks[i].data, blocks[i].size, blocks[i].used) == extents[i])
    && (forall i, j :: 0 <= i < j < |blocks| ==> blocks[i] != blocks[j])
  }

  /** PiArena. */
  class Arena {
    var curr: Block?
    var head: Block?
    const blockSize: nat
    var totalAllocated: nat
    ghost var blocks: seq<Block>
    ghost var state: State

    ghost predicate Valid()
      reads this, blocks
    {
      && curr == head && Linked(head, blocks) && Matches(blocks, state.extents)
      && blockSize == state.blockSize && totalAllocated == state.total && Good(state)
    }

    /** piInitArenaWithSize. */
    constructor (blockSize: nat)
      requires 0 < blockSize < WORD64
      ensures Valid() && state == Init(blockSize) && blocks == []
    {
      this.blockSize, curr, head, totalAllocated, blocks, state := blockSize, null, null, 0, [], Init(blockSize);
    }

    /** piArenaAlloc. `base` is the address malloc gives a new block. */
    method Alloc(size: Word, base: nat) returns (ptr: nat)
      requires Valid() && Allowed(state, AllocOp(size, base))
      modifies this, blocks`used
      ensures Valid() && state == Granting(old(state), size, base)
      ensures state.live != [] && ptr == state.live[|state.live| - 1].Addr()
      ensures if old(state).Placed(size).Here? then blocks == old(blocks)
              else curr != null && fresh(curr) && blocks == [curr] + old(blocks)
    {
      hide AlignSize, Linked, Separate, Granted, SizeSum;
      ApplyGood(state, AllocOp(size, base));
      FirstExtent(state.extents);
      HeadIs(head, blocks);
      var alignedSize := AlignSize(size);
      if curr != null && (curr.used + alignedSize) % WORD64 <= curr.size {
        ptr := curr.data + curr.used;
        state := Granting(state, size, base);
        curr.used := (curr.used + alignedSize) % WORD64;
        return;
      }
      var newBlockSize := if alignedSize > blockSize then alignedSize else blockSize;
      var newBlock := new Block(base, newBlockSize, head);
      LinkedMore(newBlock, head, blocks);
      newBlock.used := alignedSize;
      blocks := [newBlock] + blocks;
      state := Granting(state, size, base);
      head := newBlock;
      curr := newBlock;
      totalAllocated := totalAllocated + newBlockSize;
      ptr := newBlock.data;
    }

    /** piArenaReset. */
    method Reset()
      requires Valid()
      modifies this`curr, this`state, blocks`used
      ensures Valid() && state == Resetting(old(state))
    {
      hide Separate, Granted, SizeSum, Good;
      ApplyGood(state, ResetOp);
      var block := head;
      ghost var i := 0;
      while block != null
        invariant i <= |blocks| && block == At(blocks, i) && Linked(head, blocks) && unchanged(this)
        invariant forall j :: 0 <= j < |blocks| ==> blocks[j].used == if j < i then 0 else state.extents[j].used
        decreases |blocks| - i
      {
        block.used := 0;
        block := block.next;
        i := i + 1;
      }
      state := Resetting(state);
      curr := head;
    }
  }

  lemma HeadIs(head: Block?, blocks: seq<Block>)
    requires Linked(head, blocks)
    ensures head == At(blocks, 0)
  {
  }

  lemma LinkedMore(b: Block, head: Block?, blocks: seq<Block>)
    requires Linked(head, blocks) && b.next == head
    ensures Linked(b, [b] + blocks)
  {
  }

  function AfterOne(base: nat): State {
    State(4096, [Extent(base, 4096, 16)], 4096, [Grant(base, 0, 16, 16)])
  }

  /** A new arena of 4096 bytes after alloc(16). */
  lemma FirstState(base: nat)
    requires base % ARENA_ALIGNMENT == 0
    ensures Good(Init(4096)) && Allowed(Init(4096), AllocOp(16, base))
    ensures Granting(Init(4096), 16, base) == AfterOne(base) && Good(AfterOne(base))
  {
    hide AlignSize, Place, Granting;
    var s0, s1 := Init(4096), AfterOne(base);
    AllocPlaces(s0, 16, base, 16);
    assert [Extent(base, 4096, 16)] + s0.extents == s1.extents && s0.live + s1.live == s1.live;
    ApplyGood(s0, AllocOp(16, base));
  }

  /** And after alloc(24) behind it. */
  lemma SecondState(base: nat)
    requires base % ARENA_ALIGNMENT == 0 && Good(AfterOne(base))
    ensures Allowed(AfterOne(base), AllocOp(24, base))
    ensures Granting(AfterOne(base), 24, base) ==
            State(4096, [Extent(base, 4096, 40)], 4096, [Grant(base, 0, 16, 16), Grant(base, 16, 24, 24)])
  {
    hide AlignSize, Place, Granting, Good;
    var s1 := AfterOne(base);
    assert HasRoom(s1, RoundUp8(24));
    AllocPlaces(s1, 24, base, 24);
    assert s1.extents[0 := Extent(base, 4096, 40)] == [Extent(base, 4096, 40)];
    assert s1.live + [Grant(base, 16, 24, 24)] == [Grant(base, 0, 16, 16), Grant(base, 16, 24, 24)];
  }

  /** Two allocations and a reset on a new arena, as a caller writes them. */
  method Example(base: nat) returns (first: nat, second: nat)
    requires base % ARENA_ALIGNMENT == 0
    ensures first == base && second == base + 16
  {
    hide Arena.Valid, Good, Allowed, Granting;
    FirstState(base);
    SecondState(base);
    var arena := new Arena(DEFAULT_BLOCK_SIZE);
    first := arena.Alloc(16, base);
    second := arena.Alloc(24, base);
    arena.Reset();
  }
}
