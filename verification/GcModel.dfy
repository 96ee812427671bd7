/** What the collector of lib/runtime/gc.c promises, on values: which objects survive, how reference counts evolve,
    how roots are removed. `Gc` is the linked list and the counters. */
module GcModel {
  import opened Collections

  // ---- Survivors ----

  /** The elements of s that are in `keep`, in order. */
  ghost function Survivors<T>(s: seq<T>, keep: set<T>): (r: seq<T>)
    decreases |s|
  {
    if s == [] then []
    else
      var last := s[|s| - 1];
      Survivors(s[..|s| - 1], keep) + if last in keep then [last] else []
  }

  lemma SurvivorsStep<T>(s: seq<T>, keep: set<T>, k: nat)
    requires k < |s|
    ensures Survivors(s[..k + 1], keep) == Survivors(s[..k], keep) + if s[k] in keep then [s[k]] else []
  {
    assert s[..k + 1][..k] == s[..k];
  }

  /** Nothing held is lost and nothing else stays. */
  lemma {:induction false} SurvivorsExact<T>(s: seq<T>, keep: set<T>)
    ensures forall x :: x in Survivors(s, keep) <==> x in s && x in keep
    ensures |Survivors(s, keep)| <= |s|
    decreases |s|
  {
    if s == [] {
    } else {
      SurvivorsExact(s[..|s| - 1], keep);
      assert s == s[..|s| - 1] + [s[|s| - 1]];
    }
  }

  /** The position in s of the p-th survivor. */
  ghost function Origin<T>(s: seq<T>, keep: set<T>, p: nat): (i: nat)
    requires p < |Survivors(s, keep)|
    ensures i < |s| && s[i] == Survivors(s, keep)[p]
    decreases |s|
  {
    if p < |Survivors(s[..|s| - 1], keep)| then Origin(s[..|s| - 1], keep, p) else |s| - 1
  }

  /** Survivors keep their order. */
  lemma {:induction false} SurvivorsInOrder<T>(s: seq<T>, keep: set<T>, p: nat, q: nat)
    requires p < q < |Survivors(s, keep)|
    ensures Origin(s, keep, p) < Origin(s, keep, q)
    decreases |s|
  {
    var s' := s[..|s| - 1];
    if q == |Survivors(s', keep)| {
    } else {
      SurvivorsInOrder(s', keep, p, q);
    }
  }

  /** A second collection with the same roots frees nothing. */
  lemma {:induction false} SurvivorsTwice<T>(s: seq<T>, keep: set<T>, keep': set<T>)
    requires forall x :: x in s && x in keep ==> x in keep'
    ensures Survivors(Survivors(s, keep), keep') == Survivors(s, keep)
    decreases |s|
  {
    if s == [] {
    } else {
      var s', last := s[..|s| - 1], s[|s| - 1];
      SurvivorsTwice(s', keep, keep');
      var r := Survivors(s', keep);
      assert r + [] == r && (r + [last])[..|r|] == r;
    }
  }

  /** Survivors of survivors. */
  lemma {:induction false} SurvivorsBoth<T>(s: seq<T>, a: set<T>, b: set<T>)
    ensures Survivors(Survivors(s, a), b) == Survivors(s, a * b)
    decreases |s|
  {
    if s == [] {
    } else {
      var s', last := s[..|s| - 1], s[|s| - 1];
      SurvivorsBoth(s', a, b);
      var r := Survivors(s', a);
      assert r + [] == r && (r + [last])[..|r|] == r;
    }
  }

  lemma {:induction false} SurvivorsCons<T>(x: T, s: seq<T>, keep: set<T>)
    ensures Survivors([x] + s, keep) == (if x in keep then [x] else []) + Survivors(s, keep)
    decreases |s|
  {
    if s == [] {
      assert [x] + s == [x] && [x][..0] == [];
    } else {
      SurvivorsCons(x, s[..|s| - 1], keep);
      assert ([x] + s)[..|s|] == [x] + s[..|s| - 1];
    }
  }

  lemma {:induction false} SurvivorsAgree<T>(s: seq<T>, a: set<T>, b: set<T>)
    requires forall x :: x in s ==> (x in a <==> x in b)
    ensures Survivors(s, a) == Survivors(s, b)
    decreases |s|
  {
    if s == [] {
    } else {
      SurvivorsAgree(s[..|s| - 1], a, b);
    }
  }

  // ---- Reference counts ----

  const UINT16_MAX := 65535

  datatype RefCount = RefCount(count: nat, frozen: bool)

  const NEW_OBJECT := RefCount(1, false)

  /** piGcRetain. */
  function Retain(r: RefCount): RefCount {
    if r.count >= UINT16_MAX - 1 then r.(frozen := true) else r.(count := r.count + 1)
  }

  datatype Released = Kept(state: RefCount) | Freed

  /** piGcRelease. */
  function Release(r: RefCount): Released
    requires r.count > 0
  {
    if r.frozen then Kept(r) else if r.count == 1 then Freed else Kept(r.(count := r.count - 1))
  }

  /** What retains (true) and releases (false) have left of a new object. */
  ghost function Life(calls: seq<bool>): (r: Released)
    ensures r.Kept? ==> 0 < r.state.count < UINT16_MAX
    decreases |calls|
  {
    if calls == [] then Kept(NEW_OBJECT)
    else
      match Life(calls[..|calls| - 1])
      case Freed => Freed
      case Kept(r) => if calls[|calls| - 1] then Kept(Retain(r)) else Release(r)
  }

  lemma LifeStep(calls: seq<bool>, retain: bool)
    ensures Life(calls + [retain]) == match Life(calls)
      case Freed => Freed
      case Kept(r) => if retain then Kept(Retain(r)) else Release(r)
  {
    assert (calls + [retain])[..|calls|] == calls;
  }

  /** One, plus the retains, minus the releases. */
  ghost function Balance(calls: seq<bool>): int
    decreases |calls|
  {
    if calls == [] then 1
    else Balance(calls[..|calls| - 1]) + if calls[|calls| - 1] then 1 else -1
  }

  /** The balance after the first k calls. */
  ghost function BalanceAt(calls: seq<bool>, k: nat): int
    requires k <= |calls|
  {
    Balance(calls[..k])
  }

  /** The balance was at `level` at some time within the first n calls. */
  ghost predicate Hits(calls: seq<bool>, n: nat, level: int)
    requires n <= |calls|
  {
    exists k :: 0 <= k <= n && BalanceAt(calls, k) == level
  }

  /** The balance reached `level` before it reached `other`. */
  ghost predicate First(calls: seq<bool>, n: nat, level: int, other: int)
    requires n <= |calls|
  {
    exists k :: 0 <= k <= n && BalanceAt(calls, k) == level && !Hits(calls, k, other)
  }

  /** What the first n calls leave. An object is freed exactly when its balance reaches zero without having reached
      65535; it is frozen exactly when its balance reached 65535 without having reached zero; until either happens the
      count is the balance. */
  lemma {:induction false} LifeOf(calls: seq<bool>, n: nat)
    requires n <= |calls|
    ensures var life := Life(calls[..n]);
      && (life.Freed? <==> First(calls, n, 0, 65535))
      && (life.Kept? && life.state.frozen <==> First(calls, n, 65535, 0))
      && (life.Kept? && !life.state.frozen ==>
            life.state.count == BalanceAt(calls, n) && !Hits(calls, n, 0) && !Hits(calls, n, 65535))
  {
    hide First, Hits, BalanceAt, Life;
    if n == 0 {
      assert calls[..0] == [];
      NewLife();
      FirstNone(calls);
    } else {
      LifeOf(calls, n - 1);
      assert calls[..n] == calls[..n - 1] + [calls[n - 1]];
      LifeStep(calls[..n - 1], calls[n - 1]);
      BalanceStep(calls, n);
      HitsStep(calls, n);
      FirstStep(calls, n, 0, UINT16_MAX);
      FirstStep(calls, n, UINT16_MAX, 0);
      FirstHits(calls, n - 1, 0, UINT16_MAX);
      FirstHits(calls, n - 1, UINT16_MAX, 0);
    }
  }

  lemma NewLife()
    ensures Life([]) == Kept(NEW_OBJECT)
  {
  }

  lemma BalanceStep(calls: seq<bool>, n: nat)
    requires 0 < n <= |calls|
    ensures BalanceAt(calls, n) == BalanceAt(calls, n - 1) + if calls[n - 1] then 1 else -1
  {
    assert calls[..n][..n - 1] == calls[..n - 1];
  }

  lemma FirstNone(calls: seq<bool>)
    ensures BalanceAt(calls, 0) == 1
    ensures forall level :: Hits(calls, 0, level) <==> level == 1
    ensures forall level, other :: First(calls, 0, level, other) <==> level == 1 && other != 1
  {
    assert calls[..0] == [];
  }

  lemma HitsStep(calls: seq<bool>, n: nat)
    requires 0 < n <= |calls|
    ensures forall level {:trigger Hits(calls, n, level)} ::
      Hits(calls, n, level) <==> Hits(calls, n - 1, level) || BalanceAt(calls, n) == level
  {
    hide BalanceAt;
  }

  lemma FirstStep(calls: seq<bool>, n: nat, level: int, other: int)
    requires 0 < n <= |calls|
    ensures First(calls, n, level, other) <==>
      First(calls, n - 1, level, other) || (BalanceAt(calls, n) == level && !Hits(calls, n, other))
  {
    hide BalanceAt, Hits;
  }

  lemma FirstHits(calls: seq<bool>, n: nat, level: int, other: int)
    requires n <= |calls|
    ensures First(calls, n, level, other) ==> Hits(calls, n, level)
  {
    hide BalanceAt;
  }

  // ---- Global roots ----

  /** Swap-removal of the first occurrence of x. */
  ghost function SwapRemoved<T>(s: seq<T>, x: T): seq<T> {
    if x !in s then s
    else var i := FirstAt(s, x); s[i := s[|s| - 1]][..|s| - 1]
  }

  ghost function FirstAt<T>(s: seq<T>, x: T): (i: nat)
    requires x in s
    ensures i < |s| && s[i] == x && x !in s[..i]
    decreases |s|
  {
    if s[0] == x then 0
    else
      assert s == [s[0]] + s[1..];
      var i := FirstAt(s[1..], x) + 1;
      assert s[..i] == [s[0]] + s[1..][..i - 1];
      i
  }

  lemma {:induction false} FirstAtIs<T>(s: seq<T>, x: T, i: nat)
    requires i < |s| && s[i] == x && x !in s[..i]
    ensures FirstAt(s, x) == i
    decreases |s|
  {
    if i == 0 {
    } else {
      assert s[0] in s[..i] && s == [s[0]] + s[1..];
      assert s[..i] == [s[0]] + s[1..][..i - 1];
      FirstAtIs(s[1..], x, i - 1);
    }
  }

  /** The last root takes the place of the first registration; nothing else moves. */
  lemma SwapRemovedAt<T>(s: seq<T>, x: T, i: nat)
    requires i < |s| && s[i] == x && x !in s[..i]
    ensures SwapRemoved(s, x) ==
      if i == |s| - 1 then s[..i] else s[..i] + [s[|s| - 1]] + s[i + 1..|s| - 1]
  {
    FirstAtIs(s, x, i);
    assert x in s;
  }

  /** Removal undoes one registration of x and leaves all others, in some order. */
  lemma SwapRemovedOnce<T>(s: seq<T>, x: T)
    ensures multiset(SwapRemoved(s, x)) == multiset(s) - multiset{x}
  {
    if x in s {
      var i, n := FirstAt(s, x), |s| - 1;
      var last := s[n];
      assert s == s[..n] + [last];
      if i < n {
        assert s[i := last][..n] == s[..n][i := last];
      }
    }
  }

  lemma AddThenRemove<T>(s: seq<T>, x: T)
    ensures multiset(SwapRemoved(s + [x], x)) == multiset(s)
  {
    SwapRemovedOnce(s + [x], x);
  }
}
