/**
 * Threads using one pool. A step is one critical section, one access to a thread's own cache, or one
 * call of the allocator; steps of different threads interleave in any order.
 */
module PoolRuns {
  import opened Arith
  import opened Results
  import opened Sums
  import opened PoolState
  import opened Trim
  import opened ThreadCaches

  /** What a thread is in the middle of, with the handles it carries. */
  datatype Pc =
    | Idle
    | WantsGlobal(nbytes: nat)
    | WantsMemory(nbytes: nat)
    | GivesGlobal(h: Handle)
    | Draining(todo: seq<Handle>)
    | Warming(c: nat, left: nat, ready: seq<Handle>)

  datatype Thread = Thread(pc: Pc, cache: Cache)

  /** A finished request and the length of the handle it got. */
  datatype Grant = Grant(asked: nat, got: nat)

  /** `issued` are the lengths of all handles the allocator has given out, by id. */
  datatype State = State(max: nat, inner: Inner, threads: seq<Thread>, issued: seq<nat>,
                         held: multiset<Handle>, freed: multiset<Handle>, grants: seq<Grant>)

  datatype Action =
    | Alloc(t: nat, len: nat)
    | DropHeld(t: nat, h: Handle)
    | Acquire(t: nat, nbytes: nat)
    | Release(t: nat, h: Handle)
    | FastAcquire(t: nat, nbytes: nat)
    | FastRelease(t: nat, h: Handle)
    | Drain(t: nat)
    | Warm(t: nat, size: nat, count: nat)
    | TrimTo(t: nat, keep: nat)
    | ClearAll(t: nat)
    | Exit(t: nat)
    /** The next step of the operation the thread is in; `fails` makes an allocation fail. */
    | Advance(t: nat, fails: bool)

  function Init(max: nat, threads: nat): State {
    State(max, EmptyInner, seq(threads, _ => Thread(Idle, EmptyCache)), [], multiset{}, multiset{}, [])
  }

  function SetPc(s: State, t: nat, pc: Pc): State
    requires t < |s.threads|
  {
    s.(threads := s.threads[t := s.threads[t].(pc := pc)])
  }

  function SetCache(s: State, t: nat, cache: Cache): State
    requires t < |s.threads|
  {
    s.(threads := s.threads[t := s.threads[t].(cache := cache)])
  }

  /** The allocator gives out a new handle, which the caller holds. */
  function Issue(s: State, len: nat): State {
    s.(issued := s.issued + [len], held := s.held + multiset{Handle(|s.issued|, len)})
  }

  function Granted(s: State, asked: nat, got: nat): State {
    s.(grants := s.grants + [Grant(asked, got)])
  }

  /** The locked part of `acquire`. */
  function AcquireStep(s: State, t: nat, n: nat): State
    requires t < |s.threads|
  {
    var after := s.(inner := s.inner.AfterAcquire(n));
    match s.inner.Acquired(n)
    case Some(h) => Granted(SetPc(after, t, Idle), n, h.len).(held := s.held + multiset{h})
    case None => SetPc(after, t, WantsMemory(n))
  }

  /** `release` of a handle that its caller has already let go of. */
  function ReleaseStep(s: State, h: Handle): State {
    if h.len == 0 then s.(freed := s.freed + multiset{h})
    else if s.inner.Keeps(s.max, h) then s.(inner := s.inner.AfterRelease(s.max, h))
    else s.(inner := s.inner.AfterRelease(s.max, h), freed := s.freed + multiset{h})
  }

  function Ready(pc: Pc, fails: bool): bool {
    !pc.Idle? && (fails ==> pc.WantsMemory? || (pc.Warming? && pc.left > 0))
  }

  function Next(s: State, t: nat): State
    requires t < |s.threads| && !s.threads[t].pc.Idle?
  {
    match s.threads[t].pc
    case WantsGlobal(n) => AcquireStep(s, t, n)
    case WantsMemory(n) => Granted(SetPc(Issue(s, SizeClass(n)), t, Idle), n, SizeClass(n))
    case GivesGlobal(h) => SetPc(ReleaseStep(s, h), t, Idle)
    case Draining(todo) =>
      if todo == [] then SetPc(s, t, Idle) else SetPc(ReleaseStep(s, todo[0]), t, Draining(todo[1..]))
    case Warming(c, left, ready) =>
      if left > 0 then
        SetPc(s, t, Warming(c, left - 1, ready + [Handle(|s.issued|, c)])).(issued := s.issued + [c])
      else
        SetPc(s, t, Idle).(inner := s.inner.AfterWarm(s.max, c, ready),
                           freed := s.freed + multiset(s.inner.WarmDropped(s.max, c, ready)))
  }

  /** A failed allocation drops what the operation carries. */
  function Failed(s: State, t: nat): State
    requires t < |s.threads| && Ready(s.threads[t].pc, true)
  {
    var carried := if s.threads[t].pc.Warming? then multiset(s.threads[t].pc.ready) else multiset{};
    SetPc(s, t, Idle).(freed := s.freed + carried)
  }

  /** The state after an action, when it is possible. */
  ghost function Act(s: State, a: Action): Option<State>
    requires Accounted(s.inner)
  {
    if a.t >= |s.threads| then None
    else if a.Advance? then
      if !Ready(s.threads[a.t].pc, a.fails) then None
      else Some(if a.fails then Failed(s, a.t) else Next(s, a.t))
    else if !s.threads[a.t].pc.Idle? then None
    else
      var cache := s.threads[a.t].cache;
      match a
      case Alloc(t, len) => Some(Issue(s, len))
      case DropHeld(t, h) =>
        if s.held[h] > 0 then Some(s.(held := s.held - multiset{h}, freed := s.freed + multiset{h})) else None
      case Acquire(t, n) => Some(if n == 0 then Granted(Issue(s, 0), 0, 0) else AcquireStep(s, t, n))
      case Release(t, h) =>
        if s.held[h] > 0 then Some(ReleaseStep(s.(held := s.held - multiset{h}), h)) else None
      case FastAcquire(t, n) =>
        if n == 0 then Some(Granted(Issue(s, 0), 0, 0))
        else
          var after := SetCache(s, t, cache.AfterTake(n));
          Some(match cache.Found(n)
               case Some(h) => Granted(after, n, h.len).(held := s.held + multiset{h})
               case None => SetPc(after, t, WantsGlobal(n)))
      case FastRelease(t, h) =>
        if s.held[h] == 0 then None
        else
          var let := s.(held := s.held - multiset{h});
          Some(if h.len == 0 then ReleaseStep(let, h)
               else if cache.Accepts(h) then SetCache(let, t, cache.AfterOffer(h))
               else SetPc(let, t, GivesGlobal(h)))
      case Drain(t) => Some(SetPc(SetCache(s, t, cache.Drained()), t, Draining(SlotHandles(cache.slots))))
      case Warm(t, size, count) => Some(if size == 0 then s else SetPc(s, t, Warming(SizeClass(size), count, [])))
      case TrimTo(t, keep) =>
        TrimConserves(s.inner, keep);
        Some(s.(inner := Trimmed(s.inner, keep),
                freed := s.freed + multiset(Order(s.inner)[..Evictions(s.inner, keep)])))
      case ClearAll(t) => Some(s.(inner := s.inner.Cleared(), freed := s.freed + multiset(Order(s.inner))))
      case Exit(t) =>
        Some(SetCache(s, t, EmptyCache).(freed := s.freed + multiset(SlotHandles(cache.slots))))
  }

  // Where a handle is.

  function Carried(pc: Pc): seq<Handle> {
    match pc
    case GivesGlobal(h) => [h]
    case Draining(todo) => todo
    case Warming(_, _, ready) => ready
    case _ => []
  }

  function InThread(h: Handle): Thread -> int {
    (th: Thread) => Sum(th.cache.slots, InSlots(h)) + multiset(Carried(th.pc))[h]
  }

  /** The number of places a handle is at: held, freed, in a bucket, in a thread's cache, or carried by a thread. */
  ghost function Places(s: State, h: Handle): int {
    s.held[h] + s.freed[h] + MapSum(s.inner.buckets, Copies(h)) + Sum(s.threads, InThread(h))
  }

  /** 1 for a handle that the allocator has given out. */
  function Issues(issued: seq<nat>, h: Handle): int {
    if h.id < |issued| && issued[h.id] == h.len then 1 else 0
  }

  predicate PcOk(pc: Pc) {
    match pc
    case WantsGlobal(n) => n > 0
    case WantsMemory(n) => n > 0
    case GivesGlobal(h) => h.len > 0
    case Warming(c, _, ready) => c > 0 && SizeClass(c) == c && forall h <- ready :: h.len == c
    case _ => true
  }

  ghost predicate Inv(s: State) {
    && Accounted(s.inner) && s.inner.cachedBytes <= s.max
    && (forall th <- s.threads :: CacheOk(th.cache) && PcOk(th.pc))
    && forall h :: Places(s, h) == Issues(s.issued, h)
  }

  // Every action keeps the invariant.

  /** The places of a handle that an action of thread t can change. */
  ghost function Near(s: State, t: nat, h: Handle): int
    requires t < |s.threads|
  {
    s.held[h] + s.freed[h] + MapSum(s.inner.buckets, Copies(h)) + InThread(h)(s.threads[t])
  }

  /** A change of the shared parts and of one thread that neither loses nor doubles a handle keeps the invariant. */
  lemma LocalChange(s: State, s': State, t: nat)
    requires Inv(s) && t < |s.threads| == |s'.threads| && s'.max == s.max
    requires s'.threads == s.threads[t := s'.threads[t]]
    requires Accounted(s'.inner) && s'.inner.cachedBytes <= s.max
    requires CacheOk(s'.threads[t].cache) && PcOk(s'.threads[t].pc)
    requires forall h :: Near(s', t, h) - Issues(s'.issued, h) == Near(s, t, h) - Issues(s.issued, h)
    ensures Inv(s')
  {
    hide Accounted, CacheOk, PcOk, MapSum, Sum, InThread, Issues;
    forall h ensures Places(s', h) == Issues(s'.issued, h) {
      SumUpdate(s.threads, InThread(h), t, s'.threads[t]);
    }
  }

  lemma IssueAdds(issued: seq<nat>, len: nat, h: Handle)
    ensures Issues(issued + [len], h) == Issues(issued, h) + (if h == Handle(|issued|, len) then 1 else 0)
  {
  }

  lemma ReleaseStepKeeps(s: State, h: Handle)
    requires Accounted(s.inner) && s.inner.cachedBytes <= s.max
    ensures var s' := ReleaseStep(s, h);
      && Accounted(s'.inner) && s'.inner.cachedBytes <= s.max
      && s' == s.(inner := s'.inner, freed := s'.freed)
    ensures forall g :: MapSum(ReleaseStep(s, h).inner.buckets, Copies(g)) + ReleaseStep(s, h).freed[g]
                     == MapSum(s.inner.buckets, Copies(g)) + s.freed[g] + (if g == h then 1 else 0)
  {
    hide MapSum, SizeClass, BucketOk;
    if h.len > 0 && s.inner.Keeps(s.max, h) { PutKeeps(s.inner, SizeClass(h.len), h); }
  }

  lemma AcquireStepKeeps(s: State, t: nat, n: nat)
    requires Inv(s) && t < |s.threads| && n > 0 && Carried(s.threads[t].pc) == []
    ensures Inv(AcquireStep(s, t, n))
  {
    var s' := AcquireStep(s, t, n);
    hide MapSum, SizeClass, BucketOk, Sum, CacheOk, Places;
    if s.inner.Acquired(n).Some? { PopKeeps(s.inner, SizeClass(n)); }
    assert s.threads[t] in s.threads;
    LocalChange(s, s', t);
  }

  lemma FastAcquireKeeps(s: State, t: nat, n: nat)
    requires Inv(s) && Act(s, FastAcquire(t, n)).Some?
    ensures Inv(Act(s, FastAcquire(t, n)).value)
  {
    var s' := Act(s, FastAcquire(t, n)).value;
    hide MapSum, SizeClass, BucketOk, Sum, CacheOk, Places;
    assert s.threads[t] in s.threads;
    if n == 0 {
      forall h { IssueAdds(s.issued, 0, h); }
    } else {
      TakeKeeps(s.threads[t].cache, n);
    }
    LocalChange(s, s', t);
  }

  lemma FastReleaseKeeps(s: State, t: nat, h: Handle)
    requires Inv(s) && Act(s, FastRelease(t, h)).Some?
    ensures Inv(Act(s, FastRelease(t, h)).value)
  {
    var s' := Act(s, FastRelease(t, h)).value;
    hide MapSum, SizeClass, Accounted, Sum, CacheOk, Places, Issues;
    assert s.threads[t] in s.threads;
    if h.len == 0 {
      ReleaseKeeps(s, t, h);
    } else {
      OfferKeeps(s.threads[t].cache, h);
      LocalChange(s, s', t);
    }
  }

  lemma NextKeeps(s: State, t: nat)
    requires Inv(s) && t < |s.threads| && !s.threads[t].pc.Idle?
    ensures Inv(Next(s, t))
  {
    var s', pc := Next(s, t), s.threads[t].pc;
    hide MapSum, SizeClass, BucketOk, Sum, CacheOk, Places;
    assert s.threads[t] in s.threads;
    match pc
    case WantsGlobal(n) => AcquireStepKeeps(s, t, n);
    case WantsMemory(n) => NewMemoryKeeps(s, t);
    case GivesGlobal(h) =>
      ReleaseStepKeeps(s, h);
      hide Accounted, Issues;
      LocalChange(s, s', t);
    case Draining(todo) => DrainKeeps(s, t);
    case Warming(c, left, ready) => WarmStepKeeps(s, t);
  }

  lemma NewMemoryKeeps(s: State, t: nat)
    requires Inv(s) && t < |s.threads| && s.threads[t].pc.WantsMemory?
    ensures Inv(Next(s, t))
  {
    hide MapSum, SizeClass, Accounted, Sum, CacheOk, Places, Issues;
    assert s.threads[t] in s.threads;
    forall h { IssueAdds(s.issued, SizeClass(s.threads[t].pc.nbytes), h); }
    LocalChange(s, Next(s, t), t);
  }

  lemma DrainKeeps(s: State, t: nat)
    requires Inv(s) && t < |s.threads| && s.threads[t].pc.Draining?
    ensures Inv(Next(s, t))
  {
    hide MapSum, SizeClass, Accounted, Sum, CacheOk, Places, ReleaseStep, Issues;
    var todo := s.threads[t].pc.todo;
    assert s.threads[t] in s.threads;
    if todo == [] {
      LocalChange(s, SetPc(s, t, Idle), t);
    } else {
      ReleaseStepKeeps(s, todo[0]);
      FirstOf(todo);
      LocalChange(s, SetPc(ReleaseStep(s, todo[0]), t, Draining(todo[1..])), t);
    }
  }

  lemma FirstOf(todo: seq<Handle>)
    requires todo != []
    ensures forall h :: multiset(todo)[h] == multiset(todo[1..])[h] + (if h == todo[0] then 1 else 0)
  {
    assert todo == [todo[0]] + todo[1..];
  }

  lemma WarmStepKeeps(s: State, t: nat)
    requires Inv(s) && t < |s.threads| && s.threads[t].pc.Warming?
    ensures Inv(Next(s, t))
  {
    var s', pc := Next(s, t), s.threads[t].pc;
    hide MapSum, SizeClass, BucketOk, Sum, CacheOk, Places;
    assert s.threads[t] in s.threads;
    if pc.left > 0 {
      forall h { IssueAdds(s.issued, pc.c, h); }
    } else {
      WarmKeeps(s.inner, s.max, pc.c, pc.ready);
    }
    LocalChange(s, s', t);
  }

  /** Every action of every thread keeps accounting, caps and the one place of every handle. */
  lemma StepKeeps(s: State, a: Action)
    requires Inv(s) && Act(s, a).Some?
    ensures Inv(Act(s, a).value)
  {
    hide Inv, Next, Failed;
    match a
    case FastAcquire(t, n) => FastAcquireKeeps(s, t, n);
    case FastRelease(t, h) => FastReleaseKeeps(s, t, h);
    case Drain(t) => EmptiesCache(s, t);
    case Exit(t) => EmptiesCache(s, t);
    case Advance(t, fails) => if fails { FailedKeeps(s, t); } else { NextKeeps(s, t); }
    case TrimTo(_, _) => PoolActionKeeps(s, a);
    case ClearAll(_) => PoolActionKeeps(s, a);
    case Warm(_, _, _) => PoolActionKeeps(s, a);
    case Alloc(t, len) => AllocKeeps(s, t, len, 0);
    case DropHeld(t, h) => ReleaseKeeps(s, t, h);
    case Release(t, h) => ReleaseKeeps(s, t, h);
    case Acquire(t, n) => if n == 0 { AllocKeeps(s, t, 0, 0); } else { AcquireStepKeeps(s, t, n); }
  }

  lemma AllocKeeps(s: State, t: nat, len: nat, asked: nat)
    requires Inv(s) && t < |s.threads|
    ensures Inv(Issue(s, len)) && Inv(Granted(Issue(s, len), asked, len))
  {
    hide MapSum, BucketOk, Sum, CacheOk, Places, PcOk;
    assert s.threads[t] in s.threads;
    forall h { IssueAdds(s.issued, len, h); }
    hide Issues;
    LocalChange(s, Issue(s, len), t);
    LocalChange(s, Granted(Issue(s, len), asked, len), t);
  }

  lemma ReleaseKeeps(s: State, t: nat, h: Handle)
    requires Inv(s) && t < |s.threads| && s.held[h] > 0
    ensures Inv(ReleaseStep(s.(held := s.held - multiset{h}), h))
    ensures Inv(s.(held := s.held - multiset{h}, freed := s.freed + multiset{h}))
  {
    hide MapSum, BucketOk, Sum, CacheOk, Places, PcOk, ReleaseStep;
    assert s.threads[t] in s.threads;
    ReleaseStepKeeps(s.(held := s.held - multiset{h}), h);
    LocalChange(s, ReleaseStep(s.(held := s.held - multiset{h}), h), t);
    LocalChange(s, s.(held := s.held - multiset{h}, freed := s.freed + multiset{h}), t);
  }

  lemma PoolActionKeeps(s: State, a: Action)
    requires Inv(s) && Act(s, a).Some? && (a.TrimTo? || a.ClearAll? || a.Warm?)
    ensures Inv(Act(s, a).value)
  {
    var s', t := Act(s, a).value, a.t;
    hide MapSum, SizeClass, Accounted, Sum, CacheOk, Places, Order, Evictions, Trimmed;
    assert s.threads[t] in s.threads;
    match a {
      case TrimTo(_, keep) =>
        TrimConserves(s.inner, keep);
        TrimmedBelow(s.inner, keep);
      case ClearAll(_) => ClearConserves(s.inner);
      case Warm(_, size, _) => OwnClass(size);
    }
    LocalChange(s, s', t);
  }

  lemma TrimmedBelow(p: Inner, keep: nat)
    requires Accounted(p)
    ensures Trimmed(p, keep).cachedBytes <= p.cachedBytes
  {
    hide Accounted, Order, Evictions, Trimmed;
    TrimEvictsPrefix(p, keep);
  }

  lemma FailedKeeps(s: State, t: nat)
    requires Inv(s) && t < |s.threads| && Ready(s.threads[t].pc, true)
    ensures Inv(Failed(s, t))
  {
    hide MapSum, SizeClass, BucketOk, Sum, CacheOk, Places;
    assert s.threads[t] in s.threads;
    LocalChange(s, Failed(s, t), t);
  }

  lemma ClearConserves(p: Inner)
    requires Accounted(p)
    ensures Accounted(p.Cleared()) && p.Cleared().cachedBytes == 0
    ensures forall h :: MapSum(p.Cleared().buckets, Copies(h)) + multiset(Order(p))[h] == MapSum(p.buckets, Copies(h))
  {
    OrderHolds(p);
  }

  /** Draining and thread exit take every slot's handle. */
  lemma EmptiesCache(s: State, t: nat)
    requires Inv(s) && t < |s.threads| && s.threads[t].pc.Idle?
    ensures Inv(Act(s, Drain(t)).value) && Inv(Act(s, Exit(t)).value)
  {
    var d, e := Act(s, Drain(t)).value, Act(s, Exit(t)).value;
    hide MapSum, SizeClass, BucketOk, Sum, Places;
    var slots := s.threads[t].cache.slots;
    forall h ensures multiset(SlotHandles(slots))[h] == Sum(slots, InSlots(h)) && Sum([], InSlots(h)) == 0 {
      SlotHandlesCount(slots, h);
      SlotHandlesCount([], h);
    }
    assert s.threads[t] in s.threads;
    NoSlots();
    hide CacheOk;
    LocalChange(s, d, t);
    LocalChange(s, e, t);
  }

  lemma NoSlots()
    ensures forall t: Cache :: CacheOk(t.Drained())
    ensures CacheOk(EmptyCache)
  {
  }

  // Runs.

  ghost function Run(s: State, acts: seq<Action>): (r: Option<State>)
    requires Inv(s)
    decreases |acts|
  {
    if acts == [] then Some(s)
    else if Act(s, acts[0]).None? then None
    else
      StepKeeps(s, acts[0]);
      Run(Act(s, acts[0]).value, acts[1..])
  }

  /**
   * Every run of any number of threads, with any lengths released: the pool's byte counter is the sum
   * of its cached lengths and at most the cap, every thread cache is exact and within both limits, and
   * every handle ever issued is at exactly one place.
   */
  lemma {:induction false} RunKeeps(s: State, acts: seq<Action>)
    requires Inv(s) && Run(s, acts).Some?
    ensures Inv(Run(s, acts).value)
    decreases |acts|
  {
    hide Accounted, CacheOk, PcOk, Places, Act;
    if acts != [] {
      StepKeeps(s, acts[0]);
      RunKeeps(Act(s, acts[0]).value, acts[1..]);
    }
  }

  lemma StartKeeps(max: nat, threads: nat)
    ensures Inv(Init(max, threads))
  {
    var s := Init(max, threads);
    NoSlots();
    forall h ensures Places(s, h) == 0 {
      forall th <- s.threads ensures InThread(h)(th) == 0 { }
      SumNonNegative(s.threads, InThread(h));
    }
  }

  /** The counting read off: no handle is anywhere twice, and each issued one is somewhere. */
  lemma OnePlace(s: State, h: Handle)
    requires Inv(s)
    ensures s.held[h] + s.freed[h] + MapSum(s.inner.buckets, Copies(h)) + Sum(s.threads, InThread(h))
         == Issues(s.issued, h) <= 1
    ensures MapSum(s.inner.buckets, Copies(h)) >= 0 && Sum(s.threads, InThread(h)) >= 0
    ensures s.held[h] > 0 ==> s.freed[h] == 0 && forall c <- s.inner.buckets :: h !in s.inner.buckets[c].handles
    ensures s.held[h] > 0 ==>
      forall th <- s.threads :: h !in Carried(th.pc) && forall slot <- th.cache.slots :: slot.handle != h
  {
    hide Accounted, CacheOk, Issues;
    forall c <- s.inner.buckets ensures Copies(h)(s.inner.buckets[c]) >= 0 { }
    MapSumNonNegative(s.inner.buckets, Copies(h));
    forall th <- s.threads ensures InThread(h)(th) >= 0 { SlotsCount(th.cache.slots, h); }
    SumNonNegative(s.threads, InThread(h));
    IssuedOnce(s, h);
    assert Places(s, h) == Issues(s.issued, h);
    if s.held[h] > 0 {
      forall c <- s.inner.buckets ensures h !in s.inner.buckets[c].handles {
        assert Copies(h)(s.inner.buckets[c]) <= MapSum(s.inner.buckets, Copies(h)) == 0;
      }
      forall th <- s.threads ensures h !in Carried(th.pc) && forall slot <- th.cache.slots :: slot.handle != h {
        TermBelowSum(s.threads, InThread(h), th);
        SlotsCount(th.cache.slots, h);
      }
    }
  }

  lemma IssuedOnce(s: State, h: Handle)
    ensures 0 <= Issues(s.issued, h) <= 1
  {
  }

  lemma {:induction false} SlotsCount(slots: seq<Slot>, h: Handle)
    ensures Sum(slots, InSlots(h)) >= 0
    ensures Sum(slots, InSlots(h)) == 0 ==> forall slot <- slots :: slot.handle != h
  {
    if slots != [] { SlotsCount(slots[1..], h); }
  }

  // Runs that release only power-of-two lengths.

  predicate Rounded(h: Handle) {
    SizeClass(h.len) == h.len
  }

  /** Every cached or carried handle fills its class, and every request got at least what it asked for. */
  predicate Tidy(s: State) {
    && Full(s.inner)
    && (forall th <- s.threads ::
          (forall slot <- th.cache.slots :: slot.handle.len == slot.c) && forall h <- Carried(th.pc) :: Rounded(h))
    && forall g <- s.grants :: g.asked <= g.got
  }

  ghost predicate Clean(a: Action) {
    a.Release? || a.FastRelease? ==> a.h.len == 0 || IsPow2(a.h.len)
  }

  lemma TidyStep(s: State, a: Action)
    requires Inv(s) && Tidy(s) && Clean(a) && Act(s, a).Some?
    ensures Tidy(Act(s, a).value)
  {
    hide SizeClass, IsPow2, Accounted, CacheOk, PcOk, Places, Order, Evictions, Trimmed, Sum, Next, Failed, Tidy;
    var t := a.t;
    match a
    case Advance(_, fails) => if fails { TidyFailed(s, t); } else { TidyNext(s, t); }
    case Acquire(_, n) => if n == 0 { TidyGrant(s, 0); } else { TidyAcquire(s, t, n); }
    case FastAcquire(_, n) => if n == 0 { TidyGrant(s, 0); } else { TidyFastAcquire(s, t, n); }
    case Release(_, h) =>
      OwnClass(h.len);
      TidyRelease(s, s.(held := s.held - multiset{h}), h);
    case FastRelease(_, h) => TidyFastRelease(s, t, h);
    case TrimTo(_, keep) => TidyTrim(s, a);
    case Drain(_) => TidyEmptied(s, a);
    case Exit(_) => TidyEmptied(s, a);
    case _ => TidyOther(s, a);
  }

  lemma TidyGrant(s: State, n: nat)
    requires Tidy(s)
    ensures Tidy(Granted(Issue(s, n), n, n))
  {
  }

  lemma TidyOther(s: State, a: Action)
    requires Accounted(s.inner) && Tidy(s) && Act(s, a).Some?
    requires a.Alloc? || a.DropHeld? || a.Warm? || a.ClearAll?
    ensures Tidy(Act(s, a).value)
  {
    hide SizeClass, Order, Sum, Rounded, Accounted, Evictions, Trimmed, ReleaseStep, AcquireStep, Next, Failed;
    var s' := Act(s, a).value;
    assert s.threads[a.t] in s.threads;
    assert forall th <- s'.threads :: th in s.threads || th == s'.threads[a.t];
  }

  lemma TidyEmptied(s: State, a: Action)
    requires Accounted(s.inner) && Tidy(s) && Act(s, a).Some? && (a.Drain? || a.Exit?)
    requires CacheOk(s.threads[a.t].cache)
    ensures Tidy(Act(s, a).value)
  {
    var s', slots := Act(s, a).value, s.threads[a.t].cache.slots;
    assert s.threads[a.t] in s.threads;
    SlotsRounded(slots);
    hide Rounded, Accounted, CacheOk, Full;
    assert forall th <- s'.threads :: th in s.threads || th == s'.threads[a.t];
  }

  lemma SlotsRounded(slots: seq<Slot>)
    requires forall slot <- slots :: slot.c == SizeClass(slot.handle.len) == slot.handle.len
    ensures forall h <- SlotHandles(slots) :: Rounded(h)
  {
    hide SizeClass;
    forall h <- SlotHandles(slots) ensures Rounded(h) {
      var i :| 0 <= i < |slots| && SlotHandles(slots)[i] == h;
      assert slots[i] in slots;
    }
  }

  lemma TidyFailed(s: State, t: nat)
    requires Tidy(s) && t < |s.threads| && Ready(s.threads[t].pc, true)
    ensures Tidy(Failed(s, t))
  {
    assert s.threads[t] in s.threads;
    assert forall th <- Failed(s, t).threads :: th in s.threads || th == Failed(s, t).threads[t];
  }

  lemma TidyAcquire(s: State, t: nat, n: nat)
    requires Accounted(s.inner) && Tidy(s) && t < |s.threads| && n > 0
    ensures Tidy(AcquireStep(s, t, n))
  {
    hide SizeClass;
    var s' := AcquireStep(s, t, n);
    assert s.threads[t] in s.threads;
    assert forall th <- s'.threads :: th in s.threads || th == s'.threads[t];
    if s.inner.Acquired(n).Some? {
      PoppedFull(s.inner, SizeClass(n));
      assert s.inner.Top(SizeClass(n)) in s.inner.buckets[SizeClass(n)].handles;
      ClassAbove(n);
    }
  }

  lemma ClassAbove(n: nat)
    ensures SizeClass(n) >= n
  {
  }

  lemma PutFull(p: Inner, h: Handle)
    requires Full(p) && Rounded(h)
    ensures Full(p.Put(SizeClass(h.len), h))
  {
  }

  lemma TidyRelease(s: State, let: State, h: Handle)
    requires Tidy(s) && let.inner == s.inner && let.threads == s.threads && let.grants == s.grants
    requires h.len == 0 || Rounded(h)
    ensures Tidy(ReleaseStep(let, h))
  {
    hide SizeClass;
    if h.len > 0 { PutFull(s.inner, h); }
  }

  lemma TidyFastAcquire(s: State, t: nat, n: nat)
    requires Accounted(s.inner) && Tidy(s) && n > 0 && Act(s, FastAcquire(t, n)).Some?
    ensures Tidy(Act(s, FastAcquire(t, n)).value)
  {
    hide SizeClass;
    var s', cache := Act(s, FastAcquire(t, n)).value, s.threads[t].cache;
    assert s.threads[t] in s.threads;
    assert forall th <- s'.threads :: th in s.threads || th == s'.threads[t];
    if cache.Found(n).Some? {
      var i := Position(cache.slots, SizeClass(n));
      assert cache.slots[i] in cache.slots;
      forall slot <- SwapRemove(cache.slots, i) ensures slot in cache.slots { }
      ClassAbove(n);
    }
  }

  lemma TidyFastRelease(s: State, t: nat, h: Handle)
    requires Accounted(s.inner) && Tidy(s) && Clean(FastRelease(t, h)) && Act(s, FastRelease(t, h)).Some?
    ensures Tidy(Act(s, FastRelease(t, h)).value)
  {
    OwnClass(h.len);
    hide SizeClass, IsPow2, Sum;
    var s' := Act(s, FastRelease(t, h)).value;
    assert s.threads[t] in s.threads;
    assert forall th <- s'.threads :: th in s.threads || th == s'.threads[t];
  }

  lemma TidyNext(s: State, t: nat)
    requires Inv(s) && Tidy(s) && t < |s.threads| && !s.threads[t].pc.Idle?
    ensures Tidy(Next(s, t))
  {
    hide SizeClass, Sum, Accounted, CacheOk, Places;
    var s', pc := Next(s, t), s.threads[t].pc;
    assert s.threads[t] in s.threads;
    match pc
    case WantsGlobal(n) => TidyAcquire(s, t, n);
    case WantsMemory(n) =>
      ClassAbove(n);
      assert forall th <- s'.threads :: th in s.threads || th == s'.threads[t];
    case GivesGlobal(h) =>
      TidyRelease(s, s, h);
      hide ReleaseStep;
      TidyPc(ReleaseStep(s, h), t, Idle);
    case Draining(todo) =>
      if todo == [] {
        TidyPc(s, t, Idle);
      } else {
        TidyRelease(s, s, todo[0]);
        hide ReleaseStep;
        TidyPc(ReleaseStep(s, todo[0]), t, Draining(todo[1..]));
      }
    case Warming(c, left, ready) => TidyWarm(s, t);
  }

  lemma TidyPc(s: State, t: nat, pc: Pc)
    requires Tidy(s) && t < |s.threads| && forall h <- Carried(pc) :: Rounded(h)
    ensures Tidy(SetPc(s, t, pc))
  {
    assert s.threads[t] in s.threads;
    assert forall th <- SetPc(s, t, pc).threads :: th in s.threads || th == SetPc(s, t, pc).threads[t];
  }

  lemma TidyWarm(s: State, t: nat)
    requires Tidy(s) && t < |s.threads| && s.threads[t].pc.Warming? && PcOk(s.threads[t].pc)
    ensures Tidy(Next(s, t))
  {
    hide SizeClass;
    var s', pc := Next(s, t), s.threads[t].pc;
    assert s.threads[t] in s.threads;
    assert forall th <- s'.threads :: th in s.threads || th == s'.threads[t];
    if pc.left == 0 { WarmFull(s.inner, s.max, pc.c, pc.ready); }
  }

  lemma {:induction false} WarmFull(p: Inner, max: nat, c: nat, hs: seq<Handle>)
    requires Full(p) && SizeClass(c) == c && forall h <- hs :: h.len == c
    ensures Full(p.AfterWarm(max, c, hs))
    decreases |hs|
  {
    hide SizeClass, Full;
    if hs != [] && p.Keeps(max, hs[0]) {
      PutFull(p, hs[0]);
      SameFull(p.Put(c, hs[0]), p.Put(c, hs[0]).(returned := p.returned + 1));
      WarmFull(p.Put(c, hs[0]).(returned := p.returned + 1), max, c, hs[1..]);
    }
  }

  lemma SameFull(p: Inner, q: Inner)
    requires Full(p) && p.buckets == q.buckets
    ensures Full(q)
  {
  }

  lemma TidyTrim(s: State, a: Action)
    requires Accounted(s.inner) && Tidy(s) && a.TrimTo? && Act(s, a).Some?
    ensures Tidy(Act(s, a).value)
  {
    hide Order, Evictions;
    TrimmedFull(s.inner, a.keep);
  }

  lemma {:induction false} TrimmedFull(p: Inner, keep: nat)
    requires Accounted(p) && Full(p)
    ensures Full(Trimmed(p, keep))
    decreases Count(p)
  {
    hide MapSum, BucketOk, Full;
    if p.cachedBytes > keep && LargestClass(p).Some? {
      var c := LargestClass(p).value;
      TrimStep(p, c, keep);
      PoppedFull(p, c);
      TrimmedFull(p.Popped(c), keep);
    }
  }

  /** In every run that releases only power-of-two lengths, every request gets at least the bytes it asked for. */
  lemma {:induction false} RunServes(s: State, acts: seq<Action>)
    requires Inv(s) && Tidy(s) && Run(s, acts).Some? && forall a <- acts :: Clean(a)
    ensures Tidy(Run(s, acts).value)
    ensures forall g <- Run(s, acts).value.grants :: g.asked <= g.got
    decreases |acts|
  {
    hide Accounted, CacheOk, PcOk, Places, Act, Clean;
    if acts != [] {
      StepKeeps(s, acts[0]);
      TidyStep(s, acts[0]);
      RunServes(Act(s, acts[0]).value, acts[1..]);
    }
  }

  /** From the start: any number of threads, any cap. */
  lemma ServesFromStart(max: nat, threads: nat, acts: seq<Action>)
    ensures Inv(Init(max, threads)) && Tidy(Init(max, threads))
    ensures Run(Init(max, threads), acts).Some? ==> Inv(Run(Init(max, threads), acts).value)
    ensures Run(Init(max, threads), acts).Some? && (forall a <- acts :: Clean(a)) ==>
      && AlwaysFewest(Run(Init(max, threads), acts).value.inner)
      && forall g <- Run(Init(max, threads), acts).value.grants :: g.asked <= g.got
  {
    hide Act, Clean, Run, AlwaysFewest;
    StartKeeps(max, threads);
    if Run(Init(max, threads), acts).Some? {
      RunKeeps(Init(max, threads), acts);
      if forall a <- acts :: Clean(a) {
        RunServes(Init(max, threads), acts);
        TidyTrims(Run(Init(max, threads), acts).value);
      }
    }
  }

  lemma TidyTrims(s: State)
    requires Inv(s) && Tidy(s)
    ensures AlwaysFewest(s.inner)
  {
    FullRises(s.inner);
    FewestExactly(s.inner);
  }
}
