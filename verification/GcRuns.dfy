/** Whole runs of the collector: allocations, retains, releases, collections, and the program moving its roots. */
module GcRuns {
  import opened Collections
  import opened GcModel
  import opened Gc
  import opened Svm
  import opened Values

  /** The listed objects newest first, their retains and releases, the words on the VM stack, what the registered roots
      point to, and every object ever allocated, newest first. */
  datatype State = State(
    objects: seq<Object>,
    calls: map<Object, seq<bool>>,
    words: seq<nat>,
    targets: set<Object?>,
    history: seq<Object>,
    paused: bool)

  ghost const EMPTY := State([], map[], [], {}, [], false)

  datatype Op =
    | AllocOp(result: Option<Object>, collects: bool)
    | RetainOp(obj: Object)
    | ReleaseOp(obj: Object)
    | CollectOp
    | PauseOp(paused: bool)
    | RootsOp(words: seq<nat>, targets: set<Object?>)

  /** The listed objects that a root refers to. */
  ghost function Rooted(s: State): (r: set<Object>)
    ensures r <= s.calls.Keys
  {
    RootedIn(s.calls.Keys, s.words, s.targets)
  }

  /** Every root refers to a listed object, or to none. */
  ghost predicate Intact(s: State) {
    RootsIn(s.words, s.targets, Addresses(s.calls.Keys), s.calls.Keys)
  }

  ghost function Collected(s: State): State {
    s.(objects := Survivors(s.objects, Rooted(s)), calls := map o | o in s.calls && o in Rooted(s) :: s.calls[o])
  }

  /** One more release leaves nothing of the object. */
  ghost predicate Dies(s: State, obj: Object) {
    obj in s.calls && Life(s.calls[obj] + [false]).Freed?
  }

  ghost function Step(s: State, op: Op): State {
    match op
    case AllocOp(result, collects) =>
      var s' := if collects then Collected(s) else s;
      if result.None? then s'
      else
        s'.(objects := [result.value] + s'.objects, calls := s'.calls[result.value := []],
            history := [result.value] + s'.history)
    case RetainOp(obj) =>
      if obj in s.calls then s.(calls := s.calls[obj := s.calls[obj] + [true]]) else s
    case ReleaseOp(obj) =>
      if Dies(s, obj) then
        s.(objects := Survivors(s.objects, s.calls.Keys - {obj}), calls := s.calls - {obj})
      else if obj in s.calls then s.(calls := s.calls[obj := s.calls[obj] + [false]])
      else s
    case CollectOp => if s.paused then s else Collected(s)
    case PauseOp(paused) => s.(paused := paused)
    case RootsOp(words, targets) => s.(words := words, targets := targets)
  }

  /** The program stores references to listed objects only; what it has stored before may stay. */
  ghost predicate Stores(s: State, words: seq<nat>, targets: set<Object?>) {
    && (forall w :: w in words && IsObject(w) ==>
          w in s.words || AsObject(w) == 0 || AsObject(w) in Addresses(s.calls.Keys))
    && (forall o: Object? :: o in targets ==> o in s.targets || o == null || o in s.calls)
  }

  /** A new object is at an address of its own. */
  ghost predicate New(s: State, obj: Object) {
    obj !in s.history && obj.addr != 0 && obj.addr !in Addresses(s.calls.Keys)
  }

  /** What the source demands: no call on an object that is gone, and no collection over a dangling root. */
  ghost predicate Allowed(s: State, op: Op) {
    match op
    case AllocOp(result, collects) =>
      && (collects ==> !s.paused && Intact(s))
      && (result.Some? ==> New(if collects then Collected(s) else s, result.value))
    case RetainOp(obj) => obj in s.calls
    case ReleaseOp(obj) => obj in s.calls
    case CollectOp => s.paused || Intact(s)
    case PauseOp(_) => true
    case RootsOp(words, targets) => Stores(s, words, targets)
  }

  ghost function Run(s: State, ops: seq<Op>): State
    decreases |ops|
  {
    if ops == [] then s else Step(Run(s, ops[..|ops| - 1]), ops[|ops| - 1])
  }

  /** The state before operation k. */
  ghost function Before(s: State, ops: seq<Op>, k: nat): State
    requires k <= |ops|
  {
    Run(s, ops[..k])
  }

  ghost predicate AllowedRun(s: State, ops: seq<Op>) {
    forall k :: 0 <= k < |ops| ==> Allowed(Before(s, ops, k), ops[k])
  }

  /** Objects have addresses of their own. */
  ghost predicate Located(nodes: set<Object>) {
    && (forall o :: o in nodes ==> o.addr != 0)
    && (forall o, p :: o in nodes && p in nodes && o.addr == p.addr ==> o == p)
  }

  /** The list is what has been allocated, in order, without what has been freed, and what is left of a listed object is
      never nothing. */
  ghost predicate Inv(s: State) {
    && Distinct(s.history) && s.objects == Survivors(s.history, s.calls.Keys)
    && s.calls.Keys <= (set o | o in s.history) && Located(s.calls.Keys)
    && forall o :: o in s.calls ==> Life(s.calls[o]).Kept?
  }

  /** The operation frees the object: a collection when no root refers to it, or its last release. */
  ghost predicate Frees(s: State, op: Op, obj: Object) {
    match op
    case AllocOp(_, collects) => collects && obj !in Rooted(s)
    case ReleaseOp(o) => o == obj && Dies(s, obj)
    case CollectOp => !s.paused && obj !in Rooted(s)
    case _ => false
  }

  /** The operation frees an object by its last release while a root refers to it. */
  ghost predicate Dangles(s: State, op: Op) {
    op.ReleaseOp? && Dies(s, op.obj) && op.obj in Rooted(s)
  }

  // ---- One operation ----

  lemma CollectedKeeps(s: State)
    requires Inv(s)
    ensures Inv(Collected(s)) && Collected(s).calls.Keys == Rooted(s)
  {
    hide Survivors, Life, RootedIn;
    SurvivorsBoth(s.history, s.calls.Keys, Rooted(s));
    assert s.calls.Keys * Rooted(s) == Rooted(s);
    assert Collected(s).calls.Keys == Rooted(s);
  }

  lemma NewKeeps(s: State, obj: Object)
    requires Inv(s) && New(s, obj)
    ensures Inv(s.(objects := [obj] + s.objects, calls := s.calls[obj := []], history := [obj] + s.history))
  {
    hide Survivors, Life;
    NewLife();
    var keys := s.calls[obj := []].Keys;
    assert keys == s.calls.Keys + {obj};
    SurvivorsCons(obj, s.history, keys);
    SurvivorsAgree(s.history, keys, s.calls.Keys);
  }

  lemma CalledKeeps(s: State, obj: Object, retain: bool)
    requires Inv(s) && obj in s.calls && (!retain ==> !Dies(s, obj))
    ensures Inv(s.(calls := s.calls[obj := s.calls[obj] + [retain]]))
  {
    hide Survivors, Life;
    LifeStep(s.calls[obj], retain);
    assert s.calls[obj := s.calls[obj] + [retain]].Keys == s.calls.Keys;
  }

  lemma DiesKeeps(s: State, obj: Object)
    requires Inv(s) && Dies(s, obj)
    ensures Inv(Step(s, ReleaseOp(obj)))
  {
    hide Survivors, Life;
    SurvivorsBoth(s.history, s.calls.Keys, s.calls.Keys - {obj});
    assert s.calls.Keys * (s.calls.Keys - {obj}) == s.calls.Keys - {obj};
    assert (s.calls - {obj}).Keys == s.calls.Keys - {obj};
  }

  lemma StepKeeps(s: State, op: Op)
    requires Inv(s) && Allowed(s, op)
    ensures Inv(Step(s, op))
  {
    hide Survivors, Life, Inv, Collected, Dies, Intact, New, Stores;
    match op
    case AllocOp(result, collects) =>
      if collects { CollectedKeeps(s); }
      if result.Some? {
        NewKeeps(if collects then Collected(s) else s, result.value);
      }
    case RetainOp(obj) => CalledKeeps(s, obj, true);
    case ReleaseOp(obj) => if Dies(s, obj) { DiesKeeps(s, obj); } else { CalledKeeps(s, obj, false); }
    case CollectOp => CollectedKeeps(s);
    case PauseOp(_) => FlagsKeep(s, op);
    case RootsOp(_, _) => FlagsKeep(s, op);
  }

  lemma FlagsKeep(s: State, op: Op)
    requires Inv(s) && Allowed(s, op) && (op.PauseOp? || op.RootsOp?)
    ensures Inv(Step(s, op))
  {
  }

  /** What one operation does to an object: a listed object is gone afterwards if and only if the operation frees it,
      and one that was freed never comes back. */
  lemma StepFrees(s: State, op: Op, obj: Object)
    requires Inv(s) && Allowed(s, op) && obj in s.history
    ensures obj in Step(s, op).calls <==> obj in s.calls && !Frees(s, op, obj)
    ensures obj in Step(s, op).history
  {
    hide Survivors, Life;
  }

  /** The addresses of the objects, with and without one. */
  lemma AddressesOf(nodes: set<Object>, obj: Object)
    ensures Addresses(nodes + {obj}) == Addresses(nodes) + {obj.addr}
    ensures Located(nodes) && obj in nodes ==> Addresses(nodes - {obj}) == Addresses(nodes) - {obj.addr}
  {
    assert Addresses(nodes + {obj}) <= Addresses(nodes) + {obj.addr};
    forall a | a in Addresses(nodes) + {obj.addr} ensures a in Addresses(nodes + {obj}) {
      if a == obj.addr {
        assert obj in nodes + {obj};
      } else {
        var o :| o in nodes && o.addr == a;
        assert o in nodes + {obj};
      }
    }
    if Located(nodes) && obj in nodes {
      forall a | a in Addresses(nodes) - {obj.addr} ensures a in Addresses(nodes - {obj}) {
        var o :| o in nodes && o.addr == a;
        assert o in nodes - {obj};
      }
      assert forall o :: o in nodes - {obj} ==> o.addr in Addresses(nodes) && o.addr != obj.addr;
    }
  }

  /** After a collection the roots are as good as before. */
  lemma CollectedIntact(s: State)
    requires Inv(s) && Intact(s)
    ensures Intact(Collected(s))
  {
    hide Survivors, Life, IsObject, AsObject, Located;
    CollectedKeeps(s);
    forall w | w in s.words && IsObject(w) && AsObject(w) != 0 ensures AsObject(w) in Addresses(Rooted(s)) {
      var o :| o in s.calls.Keys && o.addr == AsObject(w);
      assert HeldBy(s.words, o);
      assert o in Rooted(s);
    }
  }

  lemma NewIntact(s: State, obj: Object)
    requires Inv(s) && Intact(s) && New(s, obj)
    ensures Intact(s.(objects := [obj] + s.objects, calls := s.calls[obj := []], history := [obj] + s.history))
  {
    hide Survivors, Life, RootsIn, RootedIn, Addresses, Located;
    assert s.calls[obj := []].Keys == s.calls.Keys + {obj};
    AddressesOf(s.calls.Keys, obj);
    RootsWith(s.words, s.targets, Addresses(s.calls.Keys), s.calls.Keys, obj);
  }

  lemma DiesIntact(s: State, obj: Object)
    requires Inv(s) && Dies(s, obj)
    ensures Intact(Step(s, ReleaseOp(obj))) <==> Intact(s) && obj !in Rooted(s)
  {
    hide Survivors, Life, RootsIn, RootedIn, Addresses;
    assert (s.calls - {obj}).Keys == s.calls.Keys - {obj};
    AddressesOf(s.calls.Keys, obj);
    RootsWithout(s.words, s.targets, Addresses(s.calls.Keys), s.calls.Keys, obj);
  }

  lemma SameIntact(s: State, op: Op)
    requires Allowed(s, op) && (op.RetainOp? || op.PauseOp? || (op.ReleaseOp? && !Dies(s, op.obj)))
    ensures Intact(Step(s, op)) <==> Intact(s)
  {
    hide RootsIn, Addresses, Life;
    assert Step(s, op).calls.Keys == s.calls.Keys;
  }

  lemma MovedIntact(s: State, words: seq<nat>, targets: set<Object?>)
    requires Intact(s) && Stores(s, words, targets)
    ensures Intact(s.(words := words, targets := targets))
  {
    hide IsObject, AsObject, Addresses;
  }

  /** One operation spoils good roots if and only if it is the last release of an object that a root refers to. */
  lemma StepDangles(s: State, op: Op)
    requires Inv(s) && Intact(s) && Allowed(s, op)
    ensures Intact(Step(s, op)) <==> !Dangles(s, op)
  {
    hide Survivors, Life, Inv, Collected, Dies, Intact, Rooted, New, Stores;
    match op
    case AllocOp(result, collects) =>
      if collects { CollectedKeeps(s); CollectedIntact(s); }
      if result.Some? { NewIntact(if collects then Collected(s) else s, result.value); }
    case RetainOp(obj) => SameIntact(s, op);
    case ReleaseOp(obj) => if Dies(s, obj) { DiesIntact(s, obj); } else { SameIntact(s, op); }
    case CollectOp => CollectedIntact(s);
    case PauseOp(_) => SameIntact(s, op);
    case RootsOp(words, targets) => MovedIntact(s, words, targets);
  }

  // ---- Runs ----

  lemma RunLast(s: State, ops: seq<Op>)
    ensures if ops == [] then Run(s, ops) == s else Run(s, ops) == Step(Run(s, ops[..|ops| - 1]), ops[|ops| - 1])
  {
  }

  lemma BeforeEnds(s: State, ops: seq<Op>)
    ensures Before(s, ops, 0) == s && Before(s, ops, |ops|) == Run(s, ops)
  {
    assert ops[..0] == [] && ops[..|ops|] == ops;
  }

  /** The last operation of a run, and the run before it. */
  lemma RunStep(s: State, ops: seq<Op>)
    requires ops != []
    ensures var n := |ops| - 1;
      Run(s, ops) == Step(Run(s, ops[..n]), ops[n]) && Run(s, ops[..n]) == Before(s, ops, n)
    ensures forall k :: 0 <= k < |ops| ==> Before(s, ops[..|ops| - 1], k) == Before(s, ops, k)
    ensures AllowedRun(s, ops) ==> AllowedRun(s, ops[..|ops| - 1]) && Allowed(Before(s, ops, |ops| - 1), ops[|ops| - 1])
  {
    hide Run, Step, Allowed;
    var most := ops[..|ops| - 1];
    forall k | 0 <= k < |ops| ensures Before(s, most, k) == Before(s, ops, k) {
      assert most[..k] == ops[..k];
    }
    RunLast(s, ops);
  }

  /** Over every run the list is the allocation history without what was freed, and holds everything rooted. */
  lemma {:induction false} RunKeeps(s: State, ops: seq<Op>)
    requires Inv(s) && AllowedRun(s, ops)
    ensures Inv(Run(s, ops))
    decreases |ops|
  {
    hide Inv, Allowed, AllowedRun, Step;
    if ops == [] {
    } else {
      RunStep(s, ops);
      RunKeeps(s, ops[..|ops| - 1]);
      StepKeeps(Run(s, ops[..|ops| - 1]), ops[|ops| - 1]);
    }
  }

  /** After any run an object is still listed if and only if no operation of the run has freed it: no collection came
      while it was unrooted, and no release was its last. */
  lemma {:induction false} ListedWhy(s: State, ops: seq<Op>, obj: Object)
    requires Inv(s) && AllowedRun(s, ops) && obj in s.calls
    ensures obj in Run(s, ops).history
    ensures obj in Run(s, ops).calls <==> forall k :: 0 <= k < |ops| ==> !Frees(Before(s, ops, k), ops[k], obj)
    decreases |ops|
  {
    hide Allowed, AllowedRun, Step, Frees, Survivors, Life, Before, Run;
    if ops == [] {
      RunLast(s, ops);
    } else {
      var most := ops[..|ops| - 1];
      RunStep(s, ops);
      ListedWhy(s, most, obj);
      RunKeeps(s, most);
      StepFrees(Run(s, most), ops[|ops| - 1], obj);
    }
  }

  /** Every root refers to a listed object, or to none, at any time of a run, if and only if no release of the run frees
      an object that a root refers to. */
  lemma {:induction false} IntactWhy(s: State, ops: seq<Op>)
    requires Inv(s) && Intact(s) && AllowedRun(s, ops)
    ensures (forall k :: 0 <= k <= |ops| ==> Intact(Before(s, ops, k))) <==>
      (forall k :: 0 <= k < |ops| ==> !Dangles(Before(s, ops, k), ops[k]))
    decreases |ops|
  {
    hide Inv, Intact, Allowed, AllowedRun, Step, Dangles, Before, Run;
    if ops == [] {
      BeforeEnds(s, ops);
    } else {
      var n := |ops| - 1;
      RunStep(s, ops);
      RunKeeps(s, ops[..n]);
      IntactWhy(s, ops[..n]);
      BeforeEnds(s, ops);
      if Intact(Before(s, ops, n)) { StepDangles(Before(s, ops, n), ops[n]); }
    }
  }

  /** What a root refers to throughout a run in which no root comes to dangle outlives the run. */
  lemma RootedOutlives(s: State, ops: seq<Op>, obj: Object)
    requires Inv(s) && AllowedRun(s, ops) && obj in Rooted(s)
    requires forall k :: 0 <= k < |ops| ==>
      obj in Rooted(Before(s, ops, k)) && !Dangles(Before(s, ops, k), ops[k])
    ensures obj in Run(s, ops).calls
  {
    hide AllowedRun, Before, Run, Survivors, Life, RootedIn;
    ListedWhy(s, ops, obj);
  }

  /** A new object is rooted and released: its root dangles. */
  lemma NotAlwaysIntact(obj: Object)
    requires obj.addr != 0
    ensures var ops := [AllocOp(Some(obj), false), RootsOp([], {obj}), ReleaseOp(obj)];
      Inv(EMPTY) && Intact(EMPTY) && AllowedRun(EMPTY, ops) && !Intact(Run(EMPTY, ops))
  {
    hide Survivors, Life, Inv;
    var ops := [AllocOp(Some(obj), false), RootsOp([], {obj}), ReleaseOp(obj)];
    FreshInv();
    NewLife();
    LifeStep([], false);
    assert [] + [false] == [false];
    assert ops[..0] == [] && ops[..1] == [ops[0]] && ops[..2] == [ops[0], ops[1]] && ops[..3] == ops;
    assert ops[..1][..0] == [] && ops[..2][..1] == ops[..1] && ops[..2] == ops[..|ops| - 1];
    var s1 := State([obj], map[obj := []], [], {}, [obj], false);
    assert Run(EMPTY, ops[..0]) == EMPTY;
    assert Run(EMPTY, ops[..1]) == s1;
    assert Run(EMPTY, ops[..2]) == s1.(targets := {obj});
    assert obj in Run(EMPTY, ops).targets && obj !in Run(EMPTY, ops).calls;
  }

  lemma FreshInv()
    ensures Inv(EMPTY)
  {
  }

  // ---- The collector takes these steps ----

  ghost function Calls(nodes: set<Object>): map<Object, seq<bool>>
    reads nodes`calls
  {
    map o | o in nodes :: o.calls
  }

  ghost function Model(c: Collector): State
    requires c.globalRootCount <= c.globalRoots.Length
    reads c, c.globalRoots, c.Roots(), c.vmStack, if c.vmStack == null then {} else {c.vmStack.data}, c.nodes`calls
  {
    State(c.objects, Calls(c.nodes), c.Words(), Targets(c.Roots()), c.history, c.isPaused)
  }

  /** What the collector calls rooted and good roots are those of the state. */
  lemma ModelIs(c: Collector)
    requires c.Valid()
    ensures c.globalRootCount <= c.globalRoots.Length && Model(c).calls.Keys == c.nodes
    ensures c.Rooted() == Rooted(Model(c)) && (c.RootsListed() ==> Intact(Model(c)))
    ensures c.memory.Keys == Addresses(c.nodes)
    ensures forall i :: 0 <= i < c.globalRootCount ==> c.globalRoots[i] != null
  {
    hide Collector.Valid, RootedIn, RootsIn, Collector.Words, Targets;
    c.ValidMap();
    Apart(c.memory, c.nodes);
    assert Model(c).calls.Keys == c.nodes;
  }

  /** A listed object has an address that no other listed object has. */
  lemma OwnAddress(c: Collector, obj: Object, others: set<Object>)
    requires c.Valid() && obj in c.nodes && others <= c.nodes - {obj}
    ensures obj.addr != 0 && obj.addr !in Addresses(others)
  {
    hide Collector.Valid;
    c.ValidMap();
  }

  /** The allocation step, field by field. */
  lemma AllocStep(s: State, result: Option<Object>, collects: bool, kept: set<Object>, t: State)
    requires kept == if collects then Rooted(s) else s.calls.Keys
    requires collects ==> !s.paused && Intact(s)
    requires result.Some? ==>
      result.value !in s.history && result.value.addr != 0 && result.value.addr !in Addresses(kept)
    requires t == s.(objects := t.objects, calls := t.calls, history := t.history)
    requires var list := if collects then Survivors(s.objects, Rooted(s)) else s.objects;
      t.objects == if result.Some? then [result.value] + list else list
    requires t.history == if result.Some? then [result.value] + s.history else s.history
    requires t.calls.Keys == kept + (if result.Some? then {result.value} else {})
    requires forall o :: o in t.calls ==> if o in kept then t.calls[o] == s.calls[o] else t.calls[o] == []
    ensures Allowed(s, AllocOp(result, collects)) && t == Step(s, AllocOp(result, collects))
  {
    hide Survivors, RootedIn, RootsIn;
    var s' := if collects then Collected(s) else s;
    assert s'.calls.Keys == kept;
    assert forall o :: o in kept ==> o.addr in Addresses(kept);
  }

  /** The release step, field by field. */
  lemma ReleaseStep(s: State, obj: Object, t: State)
    requires obj in s.calls && t == s.(objects := t.objects, calls := t.calls)
    requires t.objects == if Dies(s, obj) then Survivors(s.objects, s.calls.Keys - {obj}) else s.objects
    requires t.calls.Keys == if Dies(s, obj) then s.calls.Keys - {obj} else s.calls.Keys
    requires forall o :: o in t.calls ==> t.calls[o] == if o == obj then s.calls[o] + [false] else s.calls[o]
    ensures Allowed(s, ReleaseOp(obj)) && t == Step(s, ReleaseOp(obj))
  {
    hide Survivors, Life;
  }

  method Create() returns (c: Collector)
    ensures fresh(c) && fresh(c.globalRoots) && c.nodes == {} && c.Valid() && Model(c) == EMPTY
  {
    c := new Collector();
  }

  method Collect(c: Collector) returns (freed: nat)
    requires c.Valid() && (c.isPaused || c.RootsListed())
    modifies c`objectList, c`objects, c`nodes, c.nodes`gcNext, c.nodes`gcPrev, c.nodes`marked, c.nodes`gray
    modifies c`objectCount, c`bytesAllocated, c`objectsFreed, c`bytesFreed, c`memory
    modifies c`collectionCount, c`nextGcThreshold
    ensures c.Valid() && Allowed(old(Model(c)), CollectOp) && Model(c) == Step(old(Model(c)), CollectOp)
    ensures freed == |old(c.objects)| - |c.objects|
  {
    hide Collector.Valid, Collector.Rooted, Collector.RootsListed, Survivors, Life, Others, Rooted, Intact;
    hide Collector.Words, Targets;
    ModelIs(c);
    freed := c.Collect();
    ModelIs(c);
    assert Calls(c.nodes) == Step(old(Model(c)), CollectOp).calls;
  }

  method Alloc(c: Collector, kind: ObjectKind, size: nat, handler: (nat, set<nat>, nat) -> Option<nat>)
    returns (result: Option<Object>)
    requires c.Valid() && size >= HEADER_SIZE && (c.RootsListed() || c.Quiet(size, handler))
    requires forall attempt, live, n ::
      var a := handler(attempt, live, n); a.Some? ==> a.value != 0 && a.value !in live
    modifies c`objectList, c`objects, c`nodes, c.nodes`gcNext, c.nodes`gcPrev, c.nodes`marked, c.nodes`gray
    modifies c`objectCount, c`bytesAllocated, c`objectsFreed, c`bytesFreed, c`memory
    modifies c`collectionCount, c`nextGcThreshold, c`history, c`requested, c`drift
    ensures c.Valid() && fresh(c.nodes - old(c.nodes))
    ensures var op := AllocOp(result, c.collectionCount != old(c.collectionCount));
      Allowed(old(Model(c)), op) && Model(c) == Step(old(Model(c)), op)
  {
    hide Collector.Valid, Collector.Rooted, Collector.RootsListed, Survivors, Life, Rooted, Intact;
    hide Collector.Words, Targets, Addresses, Step, Allowed;
    ModelIs(c);
    ghost var s := Model(c);
    result := c.Alloc(kind, size, handler);
    ModelIs(c);
    ghost var collects := c.collectionCount != old(c.collectionCount);
    ghost var kept := if collects then Rooted(s) else s.calls.Keys;
    if result.Some? { OwnAddress(c, result.value, kept); }
    AllocStep(s, result, collects, kept, Model(c));
  }

  method Retain(c: Collector, obj: Object)
    requires c.Valid() && obj in c.nodes
    modifies c.nodes`refCount, c.nodes`frozen, c.nodes`calls
    ensures c.Valid() && Allowed(old(Model(c)), RetainOp(obj)) && Model(c) == Step(old(Model(c)), RetainOp(obj))
  {
    hide Collector.Valid, Collector.Rooted, Collector.RootsListed, Survivors, Life, Collector.Words, Targets;
    c.ValidMap();
    var _ := c.Retain(obj);
    c.ValidMap();
    assert Calls(c.nodes) == Step(old(Model(c)), RetainOp(obj)).calls;
  }

  method Release(c: Collector, obj: Object)
    requires c.Valid() && obj in c.nodes
    modifies c`objectList, c`objects, c`nodes, c.nodes`gcNext, c.nodes`gcPrev, c.nodes`refCount, c.nodes`calls
    modifies c`objectCount, c`bytesAllocated, c`objectsFreed, c`bytesFreed, c`memory
    ensures c.Valid() && Allowed(old(Model(c)), ReleaseOp(obj)) && Model(c) == Step(old(Model(c)), ReleaseOp(obj))
  {
    hide Collector.Valid, Collector.Rooted, Collector.RootsListed, Survivors, Life, Collector.Words, Targets;
    hide Step, Allowed;
    c.ValidMap();
    ghost var s := Model(c);
    c.Release(obj);
    c.ValidMap();
    assert Others(old(c.nodes), obj) == s.calls.Keys - {obj};
    ReleaseStep(s, obj, Model(c));
  }

  method SetPaused(c: Collector, paused: bool)
    requires c.Valid()
    modifies c`isPaused
    ensures c.Valid() && Allowed(old(Model(c)), PauseOp(paused)) && Model(c) == Step(old(Model(c)), PauseOp(paused))
  {
    hide Collector.Valid, Survivors, Life, Collector.Words, Targets;
    c.ValidMap();
    c.SetPaused(paused);
    c.ValidMap();
  }

  /** The program stores a listed object, or NULL, where a root points. */
  method Assign(c: Collector, root: Root, obj: Object?)
    requires c.Valid() && (obj != null ==> obj in c.nodes)
    modifies root
    ensures c.Valid() && root.target == obj
    ensures var op := RootsOp(c.Words(), Targets(c.Roots()));
      Allowed(old(Model(c)), op) && Model(c) == Step(old(Model(c)), op)
  {
    hide Collector.Valid, Survivors, Life, Collector.Words, Addresses;
    c.ValidMap();
    root.target := obj;
    c.ValidMap();
  }

  /** A word that is no reference, or refers to a listed object or to none, is pushed on the VM stack. */
  method PushWord(c: Collector, word: nat)
    requires c.Valid() && c.vmStack != null && c.vmStack.Valid()
    requires c.vmStack.count == c.vmStack.cap ==> c.vmStack.cap < 0x8000_0000
    requires IsObject(word) ==> AsObject(word) == 0 || AsObject(word) in Addresses(c.nodes)
    modifies c.vmStack, c.vmStack.data
    ensures c.Valid() && c.vmStack == old(c.vmStack) && c.Words() == old(c.Words()) + [word]
    ensures var op := RootsOp(c.Words(), Targets(c.Roots()));
      Allowed(old(Model(c)), op) && Model(c) == Step(old(Model(c)), op)
  {
    hide Collector.Valid, Survivors, Life, Addresses, IsObject, AsObject;
    c.ValidMap();
    assert Model(c).calls.Keys == c.nodes;
    var _ := c.vmStack.Push(word);
    c.ValidMap();
  }

  method SetVmStack(c: Collector, stack: ValueArray?)
    requires c.Valid()
    requires stack != null && stack.Valid() ==> forall w :: w in stack.Contents() && IsObject(w) ==>
      AsObject(w) == 0 || AsObject(w) in Addresses(c.nodes)
    modifies c`vmStack
    ensures c.Valid() && c.vmStack == stack
    ensures var op := RootsOp(c.Words(), Targets(c.Roots()));
      Allowed(old(Model(c)), op) && Model(c) == Step(old(Model(c)), op)
  {
    hide Collector.Valid, Survivors, Life, Addresses, IsObject, AsObject;
    c.ValidMap();
    assert Model(c).calls.Keys == c.nodes;
    c.SetVmStack(stack);
    c.ValidMap();
  }

  method AddRoot(c: Collector, root: Root)
    requires c.Valid() && (root.target != null ==> root.target in c.nodes)
    modifies c`globalRoots, c`globalRootCount, c`globalRootCap, c.globalRoots
    ensures c.Valid() && c.Roots() == old(c.Roots()) + [root]
    ensures c.globalRoots == old(c.globalRoots) || fresh(c.globalRoots)
    ensures var op := RootsOp(c.Words(), Targets(c.Roots()));
      Allowed(old(Model(c)), op) && Model(c) == Step(old(Model(c)), op)
  {
    hide Collector.Valid, Survivors, Life, Collector.Words, Addresses;
    c.ValidMap();
    c.AddGlobalRoot(root);
    c.ValidMap();
  }

  method RemoveRoot(c: Collector, root: Root)
    requires c.Valid()
    modifies c`globalRootCount, c.globalRoots
    ensures c.Valid() && c.Roots() == SwapRemoved(old(c.Roots()), root)
    ensures var op := RootsOp(c.Words(), Targets(c.Roots()));
      Allowed(old(Model(c)), op) && Model(c) == Step(old(Model(c)), op)
  {
    hide Collector.Valid, Survivors, Life, Collector.Words, Addresses, SwapRemoved;
    c.ValidMap();
    RemovedWithin(c.Roots(), root);
    c.RemoveGlobalRoot(root);
    c.ValidMap();
  }

  lemma RemovedWithin<T>(s: seq<T>, x: T)
    ensures forall y :: y in SwapRemoved(s, x) ==> y in s
  {
  }
}
