/** The caller's view of the heap: the contents of every live region. */
module HeapView {
  import opened HeapModel
  import opened HeapSafety

  import opened Bits

  function Slice(mem: seq<byte>, i: int, n: int): seq<byte> {
    if 0 <= i && 0 <= n && i + n <= |mem| then mem[i..i + n] else []
  }

  function Zeros(n: int): seq<byte> { if n <= 0 then [] else seq(n, _ => 0) }

  /** The bytes of every live region, keyed by header address; `mem[k]` is the byte at address lo + k. */
  function View(h: Heap, mem: seq<byte>, lo: int): map<int, seq<byte>> {
    map a | a in Regions(h) :: Slice(mem, a + HEADER_SIZE - lo, Regions(h)[a])
  }

  lemma KeysOfView(h: Heap, mem: seq<byte>, lo: int)
    ensures View(h, mem, lo).Keys == Regions(h).Keys
  {
  }

  lemma ViewAt(h: Heap, mem: seq<byte>, lo: int, a: int)
    requires a in Regions(h)
    ensures a in View(h, mem, lo) && View(h, mem, lo)[a] == Slice(mem, a + HEADER_SIZE - lo, Regions(h)[a])
  {
  }

  /** The bytes at addresses outside [from, to) are the same. */
  ghost predicate SameOutside(mem: seq<byte>, mem': seq<byte>, lo: int, from: int, to: int) {
    |mem| == |mem'| && forall i :: 0 <= i < |mem| && !(from <= lo + i < to) ==> mem'[i] == mem[i]
  }

  lemma SameLength(mem: seq<byte>, mem': seq<byte>, lo: int, from: int, to: int)
    requires SameOutside(mem, mem', lo, from, to)
    ensures |mem| == |mem'|
  {
  }

  lemma SameSlice(mem: seq<byte>, mem': seq<byte>, lo: int, from: int, to: int, i: int, n: int)
    requires SameOutside(mem, mem', lo, from, to) && (lo + i + n <= from || to <= lo + i)
    ensures Slice(mem, i, n) == Slice(mem', i, n)
  {
  }

  /** Writing inside one live region leaves the contents of every other one. */
  lemma OthersUntouched(h: Heap, mem: seq<byte>, mem': seq<byte>, lo: int, hi: int, a: int)
    requires Inv(h, lo, hi) && |mem| == hi - lo && a in Regions(h)
    requires SameOutside(mem, mem', lo, a + HEADER_SIZE, a + HEADER_SIZE + Regions(h)[a])
    ensures View(h, mem, lo) - {a} == View(h, mem', lo) - {a}
    ensures |View(h, mem', lo)[a]| == Regions(h)[a]
  {
    hide Inv, Regions, SameOutside;
    LiveRegionsDisjoint(h, lo, hi, a, a);
    assert |mem| == |mem'| by { SameLength(mem, mem', lo, a + HEADER_SIZE, a + HEADER_SIZE + Regions(h)[a]); }
    forall b | b in Regions(h) && b != a ensures View(h, mem, lo)[b] == View(h, mem', lo)[b] {
      LiveRegionsDisjoint(h, lo, hi, b, a);
      LiveRegionsDisjoint(h, lo, hi, a, b);
      SameSlice(mem, mem', lo, a + HEADER_SIZE, a + HEADER_SIZE + Regions(h)[a], b + HEADER_SIZE - lo, Regions(h)[b]);
    }
  }

  /** Granting the region at `a` (new, or growing in place) and then writing only inside it. */
  lemma GrantView(h: Heap, h': Heap, mem: seq<byte>, mem': seq<byte>, lo: int, hi: int, a: int)
    requires Inv(h', lo, hi) && |mem| == hi - lo
    requires a in Regions(h') && Regions(h') == Regions(h)[a := Regions(h')[a]]
    requires SameOutside(mem, mem', lo, a + HEADER_SIZE, a + HEADER_SIZE + Regions(h')[a])
    ensures View(h', mem', lo) - {a} == View(h, mem, lo) - {a}
    ensures a in View(h', mem', lo) && |View(h', mem', lo)[a]| == Regions(h')[a]
    ensures View(h', mem', lo) == View(h, mem, lo)[a := View(h', mem', lo)[a]]
  {
    hide Inv, Regions, SameOutside, Slice;
    OthersUntouched(h', mem, mem', lo, hi, a);
    var v, w, v' := View(h, mem, lo), View(h', mem, lo), View(h', mem', lo);
    assert w - {a} == v - {a};
    forall b | b in v' && b != a ensures b in v && v'[b] == v[b] {
      assert b in v' - {a} && (v' - {a})[b] == v'[b];
      assert (v - {a})[b] == v[b];
    }
  }

  /** Dropping the region at `a`. */
  lemma DropView(h: Heap, h': Heap, mem: seq<byte>, lo: int, a: int)
    requires Regions(h') == Regions(h) - {a}
    ensures View(h', mem, lo) == View(h, mem, lo) - {a}
  {
  }

  /** Growing the region at `a` in place and scribbling over the header it absorbed. */
  lemma GrownView(h: Heap, h': Heap, mem: seq<byte>, mem': seq<byte>, lo: int, hi: int, a: int)
    requires Inv(h', lo, hi) && |mem| == hi - lo
    requires a in Regions(h) && a in Regions(h') && Regions(h') == Regions(h)[a := Regions(h')[a]]
    requires 0 <= Regions(h)[a] && Regions(h)[a] + HEADER_SIZE <= Regions(h')[a]
    requires SameOutside(mem, mem', lo, a + HEADER_SIZE + Regions(h)[a], a + HEADER_SIZE + Regions(h)[a] + HEADER_SIZE)
    ensures a in View(h, mem, lo) && a in View(h', mem', lo)
    ensures View(h', mem', lo) == View(h, mem, lo)[a := View(h', mem', lo)[a]]
    ensures View(h, mem, lo)[a] <= View(h', mem', lo)[a]
  {
    GrantView(h, h', mem, mem', lo, hi, a);
    LiveRegionsDisjoint(h', lo, hi, a, a);
    var n, n' := Regions(h)[a], Regions(h')[a];
    assert Slice(mem', a + HEADER_SIZE - lo, n')[..n] == Slice(mem, a + HEADER_SIZE - lo, n);
  }

  /** Copying the region at `a` to the front of the fresh, zeroed and larger region at `a'`. */
  lemma CopiedView(h: Heap, h1: Heap, mem: seq<byte>, mem1: seq<byte>, mem2: seq<byte>, lo: int, hi: int, a: int,
                   a': int)
    requires Inv(h1, lo, hi) && |mem1| == hi - lo
    requires a in Regions(h) && a' in Regions(h1) && a' !in Regions(h) && a in Regions(h1)
    requires View(h1, mem1, lo) == View(h, mem, lo)[a' := View(h1, mem1, lo)[a']]
    requires 0 <= Regions(h1)[a] <= Regions(h1)[a']
    requires SameOutside(mem1, mem2, lo, a' + HEADER_SIZE, a' + HEADER_SIZE + Regions(h1)[a])
    requires Slice(mem2, a' + HEADER_SIZE - lo, Regions(h1)[a]) == Slice(mem1, a + HEADER_SIZE - lo, Regions(h1)[a])
    ensures View(h1, mem2, lo) == View(h, mem, lo)[a' := View(h1, mem2, lo)[a']]
    ensures View(h, mem, lo)[a] <= View(h1, mem2, lo)[a']
  {
    OthersUntouched(h1, mem1, mem2, lo, hi, a');
    LiveRegionsDisjoint(h1, lo, hi, a', a');
    ViewAt(h1, mem1, lo, a);
    ViewAt(h1, mem2, lo, a');
    var n := Regions(h1)[a];
    assert Slice(mem2, a' + HEADER_SIZE - lo, Regions(h1)[a'])[..n] == Slice(mem2, a' + HEADER_SIZE - lo, n);
    assert View(h, mem, lo)[a] == View(h1, mem1, lo)[a];
    var v2, v1, v := View(h1, mem2, lo), View(h1, mem1, lo), View(h, mem, lo);
    forall b | b in v2 && b != a' ensures b in v && v2[b] == v[b] {
      assert b in v2 - {a'} && (v2 - {a'})[b] == v2[b] && (v1 - {a'})[b] == v1[b];
    }
    forall b | b in v && b != a' ensures b in v2 {
      assert b in v1 - {a'};
    }
  }
}
