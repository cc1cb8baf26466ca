/**
 * A call that no other thread interrupts does in the interleaved pool what its method does in `Pool`: the same
 * pool, the same thread cache and the same handle, after a known number of steps.
 */
module PoolCalls {
  import opened Results
  import opened PoolState
  import opened ThreadCaches
  import opened PoolRuns
  import opened PoolSteps
  import Pool

  /** n steps of one thread, none of them failing. */
  function Moves(t: nat, n: nat): (acts: seq<Action>)
    ensures |acts| == n && forall a <- acts :: a == Advance(t, false)
    decreases n
  {
    if n == 0 then [] else [Advance(t, false)] + Moves(t, n - 1)
  }

  /** Thread t at a point of its call with a cache, all else as in s. */
  function At(s: State, t: nat, pc: Pc, cache: Cache): State
    requires t < |s.threads|
  {
    s.(threads := s.threads[t := Thread(pc, cache)])
  }

  lemma AtTwice(s: State, t: nat, pc: Pc, cache: Cache, pc': Pc, cache': Cache)
    requires t < |s.threads|
    ensures At(At(s, t, pc, cache), t, pc', cache') == At(s, t, pc', cache')
  {
    assert s.threads[t := Thread(pc, cache)][t := Thread(pc', cache')] == s.threads[t := Thread(pc', cache')];
  }

  lemma RunFirst(s: State, a: Action, rest: seq<Action>, next: State)
    requires Inv(s) && Act(s, a) == Some(next)
    ensures Inv(next) && Run(s, [a] + rest) == Run(next, rest)
  {
    hide Act, Accounted, CacheOk, PcOk, Places;
    StepKeeps(s, a);
    assert ([a] + rest)[1..] == rest;
  }

  lemma RunMove(s: State, t: nat, n: nat, next: State)
    requires Inv(s) && n > 0 && Act(s, Advance(t, false)) == Some(next)
    ensures Inv(next) && Run(s, Moves(t, n)) == Run(next, Moves(t, n - 1))
  {
    hide Act, Inv;
    RunFirst(s, Advance(t, false), Moves(t, n - 1), next);
  }

  lemma RunDone(s: State, t: nat)
    requires Inv(s)
    ensures Run(s, Moves(t, 0)) == Some(s)
  {
  }

  // Acquiring.

  /** The handle that a request gets from the pool or the allocator. */
  function Pooled(s: State, n: nat): Handle {
    match s.inner.Acquired(n)
    case Some(h) => h
    case None => Handle(|s.issued|, SizeClass(n))
  }

  /** The request served by the pool or the allocator: the caller holds the handle, and the thread is idle. */
  function Served(s: State, t: nat, n: nat, cache: Cache): State
    requires t < |s.threads|
  {
    var h := Pooled(s, n);
    State(s.max, s.inner.AfterAcquire(n), s.threads[t := Thread(Idle, cache)],
          if s.inner.Acquired(n).Some? then s.issued else s.issued + [SizeClass(n)],
          s.held + multiset{h}, s.freed, s.grants + [Grant(n, h.len)])
  }

  /** The locked search and, after a miss, the allocator. */
  lemma SearchMoves(s: State, t: nat, n: nat, cache: Cache, a: Action, from: State)
    requires t < |s.threads| && Inv(from) && from.inner == s.inner && Accounted(s.inner)
    requires Act(from, a) == Some(AcquireStep(At(s, t, WantsGlobal(n), cache), t, n))
    ensures Run(from, [a] + Moves(t, if s.inner.Acquired(n).Some? then 0 else 1)) == Some(Served(s, t, n, cache))
  {
    hide Inv, Act, SizeClass, Inner.Popped;
    var begun := At(s, t, WantsGlobal(n), cache);
    var next := AcquireStep(begun, t, n);
    RunFirst(from, a, Moves(t, if s.inner.Acquired(n).Some? then 0 else 1), next);
    AtTwice(s, t, WantsGlobal(n), cache, Idle, cache);
    AtTwice(s, t, WantsGlobal(n), cache, WantsMemory(n), cache);
    if s.inner.Acquired(n).Some? {
      RunDone(next, t);
    } else {
      var missed := s.(inner := s.inner.AfterAcquire(n));
      assert next == At(missed, t, WantsMemory(n), cache);
      AtTwice(missed, t, WantsMemory(n), cache, Idle, cache);
      AllocatorMove(next, t, n);
      RunMove(next, t, 1, Served(s, t, n, cache));
      RunDone(Served(s, t, n, cache), t);
    }
  }

  lemma AllocatorMove(s: State, t: nat, n: nat)
    requires Inv(s) && t < |s.threads| && s.threads[t].pc == WantsMemory(n)
    ensures Act(s, Advance(t, false)) == Some(At(s, t, Idle, s.threads[t].cache).(
      issued := s.issued + [SizeClass(n)], held := s.held + multiset{Handle(|s.issued|, SizeClass(n))},
      grants := s.grants + [Grant(n, SizeClass(n))]))
  {
    AdvanceEffect(s, t);
    hide Act, Inv, SizeClass;
  }

  /** `acquire`. */
  lemma AcquireCall(s: State, t: nat, n: nat)
    requires Inv(s) && t < |s.threads| && s.threads[t].pc == Idle && n > 0
    ensures Run(s, [Acquire(t, n)] + Moves(t, if s.inner.Acquired(n).Some? then 0 else 1))
         == Some(Served(s, t, n, s.threads[t].cache))
  {
    AcquireEffect(s, t, n);
    var cache := s.threads[t].cache;
    AcquireAnywhere(s, t, n, cache);
    SearchMoves(s, t, n, cache, Acquire(t, n), s);
  }

  /** Where the thread stood plays no part in the search. */
  lemma AcquireAnywhere(s: State, t: nat, n: nat, cache: Cache)
    requires t < |s.threads| && s.threads[t].cache == cache
    ensures AcquireStep(At(s, t, WantsGlobal(n), cache), t, n) == AcquireStep(s, t, n)
  {
    hide SizeClass;
    AtTwice(s, t, WantsGlobal(n), cache, Idle, cache);
    AtTwice(s, t, WantsGlobal(n), cache, WantsMemory(n), cache);
  }

  /** `fast_acquire`: the thread's cache, then the pool, then the allocator. */
  lemma FastAcquireCall(s: State, t: nat, n: nat)
    requires Inv(s) && t < |s.threads| && s.threads[t].pc == Idle && n > 0
    ensures var cache := s.threads[t].cache;
      match cache.Found(n)
      case Some(h) =>
        Run(s, [FastAcquire(t, n)]) == Some(s.(threads := s.threads[t := Thread(Idle, cache.AfterTake(n))],
          held := s.held + multiset{h}, grants := s.grants + [Grant(n, h.len)]))
      case None =>
        Run(s, [FastAcquire(t, n)] + Moves(t, if s.inner.Acquired(n).Some? then 1 else 2))
          == Some(Served(s, t, n, cache.AfterTake(n)))
  {
    hide SizeClass, Cache.Found, Cache.AfterTake, Inner.Acquired, Inner.AfterAcquire, Accounted, CacheOk, PcOk, Places;
    var cache := s.threads[t].cache;
    var begun := At(s, t, WantsGlobal(n), cache.AfterTake(n));
    if cache.Found(n).Some? {
      var next := Act(s, FastAcquire(t, n)).value;
      RunFirst(s, FastAcquire(t, n), [], next);
      assert [FastAcquire(t, n)] + [] == [FastAcquire(t, n)];
      RunDone(next, t);
    } else {
      AtTwice(s, t, Idle, cache.AfterTake(n), WantsGlobal(n), cache.AfterTake(n));
      assert Act(s, FastAcquire(t, n)) == Some(begun);
      var m := if s.inner.Acquired(n).Some? then 1 else 2;
      RunFirst(s, FastAcquire(t, n), Moves(t, m), begun);
      AdvanceEffect(begun, t);
      SearchMoves(s, t, n, cache.AfterTake(n), Advance(t, false), begun);
      assert Moves(t, m) == [Advance(t, false)] + Moves(t, m - 1);
    }
  }

  // Releasing.

  /** `fast_release`: the thread's cache when it accepts; otherwise the pool, up to its cap. */
  lemma FastReleaseCall(s: State, t: nat, h: Handle)
    requires Inv(s) && t < |s.threads| && s.threads[t].pc == Idle && s.held[h] > 0 && h.len > 0
    ensures var cache := s.threads[t].cache;
      Run(s, [FastRelease(t, h)] + Moves(t, if cache.Accepts(h) then 0 else 1)) == Some(State(
        s.max, if cache.Accepts(h) then s.inner else s.inner.AfterRelease(s.max, h),
        s.threads[t := Thread(Idle, cache.AfterOffer(h))], s.issued, s.held - multiset{h},
        if cache.Accepts(h) || s.inner.Keeps(s.max, h) then s.freed else s.freed + multiset{h}, s.grants))
  {
    hide SizeClass, Cache.Accepts, Inner.AfterRelease, Inner.Keeps;
    var cache, let := s.threads[t].cache, s.(held := s.held - multiset{h});
    var next := Act(s, FastRelease(t, h)).value;
    RunFirst(s, FastRelease(t, h), Moves(t, if cache.Accepts(h) then 0 else 1), next);
    if cache.Accepts(h) {
      RunDone(next, t);
    } else {
      assert next == At(let, t, GivesGlobal(h), cache);
      AdvanceEffect(next, t);
      AtTwice(let, t, GivesGlobal(h), cache, Idle, cache);
      var last := Act(next, Advance(t, false)).value;
      RunMove(next, t, 1, last);
      RunDone(last, t);
    }
  }

  /** `drain_thread_local`: the handles are released in slot order, and the cache is empty. */
  lemma DrainCall(s: State, t: nat)
    requires Inv(s) && t < |s.threads| && s.threads[t].pc == Idle
    ensures var cache := s.threads[t].cache;
      var run := Run(s, [Drain(t)] + Moves(t, |cache.slots| + 1));
      && run.Some? && run.value.inner == Pool.ReleaseAll(s.inner, s.max, SlotHandles(cache.slots))
      && run.value.threads == s.threads[t := Thread(Idle, cache.Drained())]
      && run.value.held == s.held && run.value.issued == s.issued && run.value.grants == s.grants
  {
    var cache := s.threads[t].cache;
    DrainExit(s, t);
    var begun := At(s, t, Draining(SlotHandles(cache.slots)), cache.Drained());
    hide Act, Inv, Cache.Drained, SlotHandles;
    RunFirst(s, Drain(t), Moves(t, |cache.slots| + 1), begun);
    DrainMoves(begun, t, SlotHandles(cache.slots), cache.Drained());
    AtTwice(s, t, Draining(SlotHandles(cache.slots)), cache.Drained(), Idle, cache.Drained());
  }

  lemma {:induction false} DrainMoves(s: State, t: nat, todo: seq<Handle>, cache: Cache)
    requires Inv(s) && t < |s.threads| && s.threads[t] == Thread(Draining(todo), cache)
    ensures var run := Run(s, Moves(t, |todo| + 1));
      && run.Some? && run.value.inner == Pool.ReleaseAll(s.inner, s.max, todo)
      && run.value.threads == At(s, t, Idle, cache).threads
      && run.value.held == s.held && run.value.issued == s.issued && run.value.grants == s.grants
    decreases |todo|
  {
    var next := DrainMove(s, t, todo, cache);
    hide Act, Inv, Moves, Run, Inner.AfterRelease;
    RunMove(s, t, |todo| + 1, next);
    if todo == [] {
      RunDone(next, t);
    } else {
      DrainMoves(next, t, todo[1..], cache);
      assert At(next, t, Idle, cache).threads == At(s, t, Idle, cache).threads;
    }
  }

  /** One handle released, or the end. */
  lemma DrainMove(s: State, t: nat, todo: seq<Handle>, cache: Cache) returns (next: State)
    requires Inv(s) && t < |s.threads| && s.threads[t] == Thread(Draining(todo), cache)
    ensures Act(s, Advance(t, false)) == Some(next)
    ensures next.threads == At(s, t, if todo == [] then Idle else Draining(todo[1..]), cache).threads
    ensures next.inner == if todo == [] || todo[0].len == 0 then s.inner else s.inner.AfterRelease(s.max, todo[0])
    ensures next.max == s.max && next.held == s.held && next.issued == s.issued && next.grants == s.grants
  {
    AdvanceEffect(s, t);
    next := Act(s, Advance(t, false)).value;
    hide Act, Inv, Inner.AfterRelease, Inner.Keeps;
  }

  // Warming.

  lemma WarmStart(s: State, t: nat, size: nat, count: nat)
    requires Inv(s) && t < |s.threads| && s.threads[t].pc == Idle && size > 0
    ensures Act(s, Warm(t, size, count)) == Some(At(s, t, Warming(SizeClass(size), count, []), s.threads[t].cache))
  {
    WarmTrimClear(s, t, size, count, 0);
    hide Act, Inv, SizeClass;
  }

  /** The next `count` handles of the allocator. */
  function NewHandles(first: nat, c: nat, count: nat): (hs: seq<Handle>)
    ensures |hs| == count
  {
    seq(count, i requires 0 <= i < count => Handle(first + i, c))
  }

  /** `warm` for one size: new handles of its class are cached up to the cap, and the rest are dropped. */
  lemma WarmCall(s: State, t: nat, size: nat, count: nat)
    requires Inv(s) && t < |s.threads| && s.threads[t].pc == Idle && size > 0
    ensures var c, hs := SizeClass(size), NewHandles(|s.issued|, SizeClass(size), count);
      Run(s, [Warm(t, size, count)] + Moves(t, count + 1)) == Some(s.(
        issued := s.issued + seq(count, _ => c), inner := s.inner.AfterWarm(s.max, c, hs),
        freed := s.freed + multiset(s.inner.WarmDropped(s.max, c, hs))))
  {
    var c, cache := SizeClass(size), s.threads[t].cache;
    WarmStart(s, t, size, count);
    hide NewHandles, Moves, Run;
    var begun := At(s, t, Warming(c, count, []), cache);
    hide Act, Inv, SizeClass, Inner.AfterWarm, Inner.WarmDropped;
    RunFirst(s, Warm(t, size, count), Moves(t, count + 1), begun);
    WarmMoves(begun, t, c, count, [], cache);
    assert [] + NewHandles(|s.issued|, c, count) == NewHandles(|s.issued|, c, count);
    AtTwice(s, t, Warming(c, count, []), cache, Idle, cache);
    assert s.threads[t := Thread(Idle, cache)] == s.threads;
  }

  /** One more handle allocated, or all of them handed to the pool. */
  lemma WarmMove(s: State, t: nat, c: nat, left: nat, ready: seq<Handle>, cache: Cache)
    requires Inv(s) && t < |s.threads| && s.threads[t] == Thread(Warming(c, left, ready), cache)
    ensures Act(s, Advance(t, false)) == Some(
      if left > 0 then
        At(s, t, Warming(c, left - 1, ready + [Handle(|s.issued|, c)]), cache).(issued := s.issued + [c])
      else
        At(s, t, Idle, cache).(inner := s.inner.AfterWarm(s.max, c, ready),
                               freed := s.freed + multiset(s.inner.WarmDropped(s.max, c, ready))))
  {
    AdvanceEffect(s, t);
    hide Act, Inv, Inner.AfterWarm, Inner.WarmDropped;
  }

  lemma MoreHandles(issued: seq<nat>, c: nat, left: nat, ready: seq<Handle>)
    ensures ready + NewHandles(|issued|, c, 0) == ready && issued + seq(0, _ => c) == issued
    ensures left > 0 ==>
      ready + [Handle(|issued|, c)] + NewHandles(|issued + [c]|, c, left - 1) == ready + NewHandles(|issued|, c, left)
    ensures left > 0 ==> issued + [c] + seq(left - 1, _ => c) == issued + seq(left, _ => c)
  {
  }

  lemma {:induction false} WarmMoves(s: State, t: nat, c: nat, left: nat, ready: seq<Handle>, cache: Cache)
    requires Inv(s) && t < |s.threads| && s.threads[t] == Thread(Warming(c, left, ready), cache)
    ensures var hs := ready + NewHandles(|s.issued|, c, left);
      Run(s, Moves(t, left + 1)) == Some(At(s, t, Idle, cache).(
        issued := s.issued + seq(left, _ => c), inner := s.inner.AfterWarm(s.max, c, hs),
        freed := s.freed + multiset(s.inner.WarmDropped(s.max, c, hs))))
    decreases left
  {
    assert Accounted(s.inner);
    hide Act, Inv, Inner.AfterWarm, Inner.WarmDropped, NewHandles, Moves, Run;
    WarmMove(s, t, c, left, ready, cache);
    MoreHandles(s.issued, c, left, ready);
    var next := Act(s, Advance(t, false)).value;
    RunMove(s, t, left + 1, next);
    if left == 0 {
      RunDone(next, t);
    } else {
      WarmMoves(next, t, c, left - 1, ready + [Handle(|s.issued|, c)], cache);
      AtTwice(s, t, Warming(c, left - 1, ready + [Handle(|s.issued|, c)]), cache, Idle, cache);
    }
  }
}
