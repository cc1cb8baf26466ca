/** What every action of the pool's threads does: which handle goes where, who is served, what each thread does next. */
module PoolSteps {
  import Arith
  import opened Results
  import opened Sums
  import opened PoolState
  import opened Trim
  import opened ThreadCaches
  import opened PoolRuns

  /** A step of an operation needs one under way, any other action none; giving a handle back needs to hold it. */
  lemma PossibleExactly(s: State, a: Action)
    requires Accounted(s.inner)
    ensures a.t >= |s.threads| ==> Act(s, a).None?
    ensures a.t < |s.threads| && a.Advance? ==>
      var pc := s.threads[a.t].pc;
      (Act(s, a).Some? <==> pc != Idle && (a.fails ==> pc.WantsMemory? || (pc.Warming? && pc.left > 0)))
    ensures a.t < |s.threads| && !a.Advance? ==>
      (Act(s, a).Some? <==>
         s.threads[a.t].pc == Idle && (a.DropHeld? || a.Release? || a.FastRelease? ==> s.held[a.h] > 0))
  {
    hide Order, Evictions, Trimmed, ReleaseStep, AcquireStep, Next, Failed;
  }

  /** Only thread t's point in its operation changes. */
  predicate AtPc(s: State, after: State, t: nat, pc: Pc)
    requires t < |s.threads|
  {
    after.threads == s.threads[t := Thread(pc, s.threads[t].cache)]
  }

  /** The pool's buckets, but for one class, and its counters, but for the bytes, are as before. */
  ghost predicate SameBut(p: Inner, q: Inner, c: nat, hits: nat, misses: nat, returned: nat) {
    && (forall d :: d != c ==> Handles(p, d) == Handles(q, d))
    && q.hits == p.hits + hits && q.misses == p.misses + misses && q.returned == p.returned + returned
  }

  function Handles(p: Inner, c: nat): seq<Handle> {
    if c in p.buckets then p.buckets[c].handles else []
  }

  /** A block straight from the allocator, and one dropped. */
  lemma AllocDrop(s: State, t: nat, len: nat, h: Handle)
    requires Accounted(s.inner) && t < |s.threads| && s.threads[t].pc == Idle
    ensures Act(s, Alloc(t, len)) ==
      Some(s.(issued := s.issued + [len], held := s.held + multiset{Handle(|s.issued|, len)}))
    ensures s.held[h] > 0 ==>
      Act(s, DropHeld(t, h)) == Some(s.(held := s.held - multiset{h}, freed := s.freed + multiset{h}))
  {
  }

  /** The locked search of `acquire`, called directly or after a miss of the thread's cache. */
  lemma GlobalEffect(s: State, t: nat, n: nat)
    requires t < |s.threads| && n > 0
    ensures var after, was, c := AcquireStep(s, t, n), Handles(s.inner, SizeClass(n)), SizeClass(n);
      && after.freed == s.freed && after.issued == s.issued && after.max == s.max
      && if was == [] then
           && AtPc(s, after, t, WantsMemory(n)) && after.held == s.held && after.grants == s.grants
           && Handles(after.inner, c) == [] && SameBut(s.inner, after.inner, c, 0, 1, 0)
           && after.inner.cachedBytes == s.inner.cachedBytes
         else
           var h := was[|was| - 1];
           && AtPc(s, after, t, Idle) && after.held == s.held + multiset{h} && after.grants == s.grants + [Grant(n, h.len)]
           && Handles(after.inner, c) == was[..|was| - 1] && SameBut(s.inner, after.inner, c, 1, 0, 0)
           && after.inner.cachedBytes == s.inner.cachedBytes - h.len
  {
    hide SizeClass;
  }

  lemma AcquireEffect(s: State, t: nat, n: nat)
    requires Accounted(s.inner) && t < |s.threads| && s.threads[t].pc == Idle
    ensures Act(s, Acquire(t, n)) ==
      if n > 0 then Some(AcquireStep(s, t, n))
      else Some(s.(issued := s.issued + [0], held := s.held + multiset{Handle(|s.issued|, 0)},
                   grants := s.grants + [Grant(0, 0)]))
  {
  }

  /** The locked part of `release`: cached up to the cap, dropped beyond it or when empty. */
  lemma LetGoEffect(s: State, h: Handle)
    ensures var after, c := ReleaseStep(s, h), SizeClass(h.len);
      && after.threads == s.threads && after.held == s.held && after.issued == s.issued && after.grants == s.grants
      && after.max == s.max
      && if h.len == 0 then after.inner == s.inner && after.freed == s.freed + multiset{h}
         else if s.inner.cachedBytes + h.len <= s.max then
           && after.freed == s.freed && Handles(after.inner, c) == Handles(s.inner, c) + [h]
           && SameBut(s.inner, after.inner, c, 0, 0, 1) && after.inner.cachedBytes == s.inner.cachedBytes + h.len
         else
           && after.freed == s.freed + multiset{h} && Handles(after.inner, c) == Handles(s.inner, c)
           && SameBut(s.inner, after.inner, c, 0, 0, 1) && after.inner.cachedBytes == s.inner.cachedBytes
  {
    hide SizeClass;
  }

  lemma LetGoThreads(s: State, h: Handle)
    ensures ReleaseStep(s, h).threads == s.threads && ReleaseStep(s, h).issued == s.issued
  {
  }

  lemma ReleaseEffect(s: State, t: nat, h: Handle)
    requires Accounted(s.inner) && t < |s.threads| && s.threads[t].pc == Idle && s.held[h] > 0
    ensures Act(s, Release(t, h)) == Some(ReleaseStep(s.(held := s.held - multiset{h}), h))
  {
  }

  /** The thread's cache serves the first slot of the class, up to 4 MiB; otherwise the pool is asked. */
  lemma FastAcquireEffect(s: State, t: nat, n: nat)
    requires Accounted(s.inner) && t < |s.threads| && s.threads[t].pc == Idle && n > 0
    ensures var slots, c := s.threads[t].cache.slots, SizeClass(n);
      var after := Act(s, FastAcquire(t, n)).value;
      && Act(s, FastAcquire(t, n)).Some?
      && after.inner == s.inner && after.freed == s.freed && after.issued == s.issued
      && if c <= 0x40_0000 && exists slot <- slots :: slot.c == c then
           var i := Position(slots, c);
           && after.threads[t].pc == Idle && after.threads[t].cache.slots == slots[i := slots[|slots| - 1]][..|slots| - 1]
           && after.held == s.held + multiset{slots[i].handle} && after.grants == s.grants + [Grant(n, slots[i].handle.len)]
         else
           && after.threads[t].pc == WantsGlobal(n) && after.threads[t].cache.slots == slots
           && after.held == s.held && after.grants == s.grants
  {
    hide SizeClass;
    var i := Position(s.threads[t].cache.slots, SizeClass(n));
    if i < |s.threads[t].cache.slots| { assert s.threads[t].cache.slots[i] in s.threads[t].cache.slots; }
  }

  /** The thread's cache takes a handle of at most 4 MiB into fewer than 32 slots of at most 4 MiB together. */
  lemma FastReleaseEffect(s: State, t: nat, h: Handle)
    requires Accounted(s.inner) && t < |s.threads| && s.threads[t].pc == Idle && s.held[h] > 0 && h.len > 0
    ensures var slots, c := s.threads[t].cache.slots, SizeClass(h.len);
      var after := Act(s, FastRelease(t, h)).value;
      && Act(s, FastRelease(t, h)).Some?
      && after.held == s.held - multiset{h}
      && after.inner == s.inner && after.freed == s.freed && after.issued == s.issued && after.grants == s.grants
      && if c <= 0x40_0000 && |slots| < 32 && Sum(slots, SlotLen()) + h.len <= 0x40_0000
         then after.threads[t].pc == Idle && after.threads[t].cache.slots == slots + [Slot(c, h)]
         else after.threads[t].pc == GivesGlobal(h) && after.threads[t].cache.slots == slots
  {
    hide SizeClass, Sum;
  }

  /** Empty handles never reach a cache. */
  lemma FastEmpty(s: State, t: nat, h: Handle)
    requires Accounted(s.inner) && t < |s.threads| && s.threads[t].pc == Idle
    ensures Act(s, FastAcquire(t, 0)) == Act(s, Acquire(t, 0))
    ensures s.held[h] > 0 && h.len == 0 ==> Act(s, FastRelease(t, h)) == Act(s, DropHeld(t, h))
  {
  }

  /** Draining takes every slot's handle along; a thread's exit frees them; both leave an empty cache. */
  lemma DrainExit(s: State, t: nat)
    requires Accounted(s.inner) && t < |s.threads| && s.threads[t].pc == Idle
    ensures var cache := s.threads[t].cache;
      && Act(s, Drain(t)) == Some(s.(threads := s.threads[t :=
           Thread(Draining(SlotHandles(cache.slots)), cache.(slots := [], cachedBytes := 0))]))
      && Act(s, Exit(t)) == Some(s.(threads := s.threads[t := Thread(Idle, Cache([], 0, 0, 0, 0))],
                                    freed := s.freed + multiset(SlotHandles(cache.slots))))
  {
    var cache := s.threads[t].cache;
    var emptied, draining := Thread(Idle, cache.Drained()), Thread(Draining(SlotHandles(cache.slots)), cache.Drained());
    assert s.threads[t := emptied][t := draining] == s.threads[t := draining];
  }

  /** Warming starts with nothing ready, trimming and clearing free what leaves the pool. */
  lemma WarmTrimClear(s: State, t: nat, size: nat, count: nat, keep: nat)
    requires Accounted(s.inner) && t < |s.threads| && s.threads[t].pc == Idle
    ensures Act(s, Warm(t, size, count)) == Some(if size == 0 then s else
      s.(threads := s.threads[t := Thread(Warming(SizeClass(size), count, []), s.threads[t].cache)]))
    ensures Evictions(s.inner, keep) <= |Order(s.inner)|
    ensures Act(s, TrimTo(t, keep)) == Some(s.(inner := Trimmed(s.inner, keep),
      freed := s.freed + multiset(Order(s.inner)[..Evictions(s.inner, keep)])))
    ensures Act(s, ClearAll(t)) == Some(s.(freed := s.freed + multiset(Order(s.inner)),
      inner := Inner(map[], 0, s.inner.hits, s.inner.misses, s.inner.returned)))
  {
    hide Order, Evictions, Trimmed, SizeClass;
    TrimConserves(s.inner, keep);
  }

  /** The next step of each operation. */
  lemma AdvanceEffect(s: State, t: nat)
    requires Accounted(s.inner) && t < |s.threads| && s.threads[t].pc != Idle
    ensures var cache := s.threads[t].cache;
      Act(s, Advance(t, false)) == Some(
      match s.threads[t].pc
      case WantsGlobal(n) => AcquireStep(s, t, n)
      case WantsMemory(n) =>
        s.(threads := s.threads[t := Thread(Idle, cache)], issued := s.issued + [SizeClass(n)],
           held := s.held + multiset{Handle(|s.issued|, SizeClass(n))}, grants := s.grants + [Grant(n, SizeClass(n))])
      case GivesGlobal(h) =>
        var after := ReleaseStep(s, h); after.(threads := s.threads[t := Thread(Idle, cache)])
      case Draining(todo) =>
        if todo == [] then s.(threads := s.threads[t := Thread(Idle, cache)])
        else var after := ReleaseStep(s, todo[0]); after.(threads := s.threads[t := Thread(Draining(todo[1..]), cache)])
      case Warming(c, left, ready) =>
        if left > 0 then
          s.(threads := s.threads[t := Thread(Warming(c, left - 1, ready + [Handle(|s.issued|, c)]), cache)],
             issued := s.issued + [c])
        else
          s.(threads := s.threads[t := Thread(Idle, cache)], inner := s.inner.AfterWarm(s.max, c, ready),
             freed := s.freed + multiset(s.inner.WarmDropped(s.max, c, ready)))
      case Idle => s)
  {
    hide Order, Evictions, Trimmed, SizeClass, AcquireStep, Inner.AfterWarm, Inner.WarmDropped, Inner.AfterRelease;
    assert Act(s, Advance(t, false)) == Some(Next(s, t));
    match s.threads[t].pc
    case GivesGlobal(h) => LetGoThreads(s, h);
    case Draining(todo) => if todo != [] { LetGoThreads(s, todo[0]); }
    case _ =>
  }

  /** A failed allocation ends the operation and frees what it had ready. */
  lemma FailEffect(s: State, t: nat)
    requires Accounted(s.inner) && t < |s.threads| && Act(s, Advance(t, true)).Some?
    ensures var pc := s.threads[t].pc;
      Act(s, Advance(t, true)) == Some(s.(threads := s.threads[t := Thread(Idle, s.threads[t].cache)],
        freed := if pc.Warming? then s.freed + multiset(pc.ready) else s.freed))
  {
    hide Order, Evictions, Trimmed, Next;
    assert s.freed + multiset{} == s.freed;
  }

  /** Clean actions release only handles that are empty or have a power-of-two length; all others are clean. */
  lemma CleanExactly(a: Action, t: nat, h: Handle)
    ensures a == Release(t, h) || a == FastRelease(t, h) ==> (Clean(a) <==> h.len == 0 || Arith.IsPow2(h.len))
    ensures !a.Release? && !a.FastRelease? ==> Clean(a)
  {
  }

  /** A run is one action after the other, in order, as long as each is possible. */
  lemma {:induction false} RunSnoc(s: State, acts: seq<Action>, a: Action)
    requires Inv(s)
    ensures Run(s, []) == Some(s)
    ensures Run(s, acts).None? ==> Run(s, acts + [a]).None?
    ensures Run(s, acts).Some? ==>
      Inv(Run(s, acts).value) && Run(s, acts + [a]) == Act(Run(s, acts).value, a)
    decreases |acts|
  {
    hide Act, Accounted, CacheOk, PcOk, Places;
    if acts == [] {
      assert (acts + [a])[1..] == [];
      if Act(s, a).Some? { StepKeeps(s, a); }
    } else {
      assert (acts + [a])[1..] == acts[1..] + [a];
      if Act(s, acts[0]).Some? {
        StepKeeps(s, acts[0]);
        RunSnoc(Act(s, acts[0]).value, acts[1..], a);
      }
    }
  }

  /** No action changes the cap or the number of threads. */
  lemma ActFixed(s: State, a: Action)
    requires Accounted(s.inner) && Act(s, a).Some?
    ensures Act(s, a).value.max == s.max && |Act(s, a).value.threads| == |s.threads|
  {
    hide Order, Evictions, Trimmed, Next, Failed, AcquireStep, ReleaseStep, Cache.AfterTake, Cache.AfterOffer, Cache.Found,
         Cache.Accepts, Accounted, Sum, SizeClass;
    match a
    case Advance(t, fails) => if fails { FailEffect(s, t); } else { NextFixed(s, t); }
    case Acquire(t, n) => AcquireFixed(s, t, n);
    case Release(_, h) => LetGoFixed(s.(held := s.held - multiset{h}), h);
    case FastRelease(_, h) => LetGoFixed(s.(held := s.held - multiset{h}), h);
    case _ =>
  }

  lemma AcquireFixed(s: State, t: nat, n: nat)
    requires t < |s.threads|
    ensures AcquireStep(s, t, n).max == s.max && |AcquireStep(s, t, n).threads| == |s.threads|
  {
    hide SizeClass;
  }

  lemma LetGoFixed(s: State, h: Handle)
    ensures ReleaseStep(s, h).max == s.max && |ReleaseStep(s, h).threads| == |s.threads|
  {
  }

  lemma NextFixed(s: State, t: nat)
    requires t < |s.threads| && !s.threads[t].pc.Idle?
    ensures Next(s, t).max == s.max && |Next(s, t).threads| == |s.threads|
  {
    hide SizeClass, AcquireStep, ReleaseStep, Inner.AfterWarm, Inner.WarmDropped;
    match s.threads[t].pc
    case WantsGlobal(n) => AcquireFixed(s, t, n);
    case GivesGlobal(h) => LetGoFixed(s, h);
    case Draining(todo) => if todo != [] { LetGoFixed(s, todo[0]); }
    case _ =>
  }

  lemma {:induction false} RunFixed(s: State, acts: seq<Action>)
    requires Inv(s) && Run(s, acts).Some?
    ensures Run(s, acts).value.max == s.max && |Run(s, acts).value.threads| == |s.threads|
    decreases |acts|
  {
    hide Act, Accounted, CacheOk, PcOk, Places;
    if acts != [] {
      StepKeeps(s, acts[0]);
      ActFixed(s, acts[0]);
      RunFixed(Act(s, acts[0]).value, acts[1..]);
    }
  }

  /**
   * The limits in numbers, after every run of any number of threads: the pool's bytes are the sum of the
   * cached lengths and within the cap; each thread caches at most 32 handles and 4194304 bytes, exactly counted.
   */
  lemma RunLimits(max: nat, threads: nat, acts: seq<Action>)
    ensures Inv(Init(max, threads))
    ensures Run(Init(max, threads), acts).Some? ==>
      var s := Run(Init(max, threads), acts).value;
      && s.inner.cachedBytes == MapSum(s.inner.buckets, BucketBytes())
      && s.max == max && |s.threads| == threads && s.inner.cachedBytes <= max
      && (forall c <- s.inner.buckets :: s.inner.buckets[c].cachedBytes == Sum(s.inner.buckets[c].handles, Len()))
      && forall th <- s.threads ::
           |th.cache.slots| <= 32 && th.cache.cachedBytes == Sum(th.cache.slots, SlotLen()) <= 4194304
  {
    hide Act, Run, MapSum, Sum;
    StartKeeps(max, threads);
    if Run(Init(max, threads), acts).Some? {
      RunKeeps(Init(max, threads), acts);
      RunFixed(Init(max, threads), acts);
    }
  }
}
