/** The pool and the thread cache as objects updated in place. Every method of the pool holds its lock throughout. */
module Pool {
  import opened Results
  import opened Sums
  import opened PoolState
  import opened ThreadCaches
  import opened Trim

  class ThreadCache {
    var slots: seq<Slot>
    var cachedBytes: nat
    var hits: nat
    var misses: nat
    var returned: nat

    ghost function State(): Cache
      reads this
    {
      Cache(slots, cachedBytes, hits, misses, returned)
    }

    constructor ()
      ensures State() == EmptyCache && CacheOk(State())
    {
      slots, cachedBytes, hits, misses, returned := [], 0, 0, 0, 0;
    }

    method Take(nbytes: nat) returns (h: Option<Handle>)
      modifies this
      ensures State() == old(State()).AfterTake(nbytes)
      ensures h == old(State()).Found(nbytes)
      ensures h.Some? <==> SizeClass(nbytes) <= 0x40_0000 && exists slot <- old(slots) :: slot.c == SizeClass(nbytes)
      ensures h.Some? ==> exists i :: Takes(old(slots), slots, SizeClass(nbytes), i, h.value)
      ensures h.Some? ==> cachedBytes == SaturatingSub(old(cachedBytes), h.value.len)
      ensures h.None? ==> slots == old(slots) && cachedBytes == old(cachedBytes)
      ensures hits == old(hits) + (if h.Some? then 1 else 0) && returned == old(returned)
      ensures misses == old(misses) + (if h.None? && SizeClass(nbytes) <= 0x40_0000 then 1 else 0)
    {
      var c := SizeClass(nbytes);
      if c > TL_MAX_BYTES { return None; }
      var i := 0;
      while i < |slots| && slots[i].c != c
        invariant 0 <= i <= |slots|
        invariant forall j :: 0 <= j < i ==> slots[j].c != c
      {
        i := i + 1;
      }
      assert i == Position(slots, c);
      assert i < |slots| ==> Takes(slots, SwapRemove(slots, i), c, i, slots[i].handle);
      if i == |slots| {
        misses := misses + 1;
        return None;
      }
      h := Some(slots[i].handle);
      slots := SwapRemove(slots, i);
      hits := hits + 1;
      cachedBytes := SaturatingSub(cachedBytes, h.value.len);
    }

    method Offer(h: Handle) returns (accepted: bool)
      modifies this
      ensures State() == old(State()).AfterOffer(h)
      ensures accepted == old(State()).Accepts(h)
      ensures accepted <==>
        SizeClass(h.len) <= 0x40_0000 && |old(slots)| < 32 && Sum(old(slots), SlotLen()) + h.len <= 0x40_0000
      ensures slots == if accepted then old(slots) + [Slot(SizeClass(h.len), h)] else old(slots)
      ensures cachedBytes == old(cachedBytes) + (if accepted then h.len else 0)
      ensures returned == old(returned) + (if accepted then 1 else 0) && hits == old(hits) && misses == old(misses)
    {
      var c := SizeClass(h.len);
      if c > TL_MAX_BYTES { return false; }
      var bytes, i := 0, 0;
      assert slots[..0] == [];
      while i < |slots|
        invariant State() == old(State())
        invariant 0 <= i <= |slots| && bytes == Sum(slots[..i], SlotLen())
      {
        SumAppend(slots[..i], SlotLen(), slots[i]);
        assert slots[..i + 1] == slots[..i] + [slots[i]];
        bytes := bytes + slots[i].handle.len;
        i := i + 1;
      }
      assert slots[..i] == slots && bytes == Sum(slots, SlotLen());
      if |slots| >= TL_SLOTS || bytes + h.len > TL_MAX_BYTES { return false; }
      slots := slots + [Slot(c, h)];
      returned := returned + 1;
      cachedBytes := cachedBytes + h.len;
      return true;
    }
  }

  /** Slot i, the first of class c, is taken out, and the last slot moves into its place. */
  predicate Takes(before: seq<Slot>, after: seq<Slot>, c: nat, i: int, h: Handle) {
    && 0 <= i < |before| && before[i].c == c && before[i].handle == h && (forall j :: 0 <= j < i ==> before[j].c != c)
    && after == before[i := before[|before| - 1]][..|before| - 1]
  }

  /** The cached handles of a class, the last one on top. */
  function Cached(buckets: map<nat, Bucket>, c: nat): seq<Handle> {
    if c in buckets then buckets[c].handles else []
  }

  class BufferPool {
    const maxCachedBytes: nat
    var buckets: map<nat, Bucket>
    var cachedBytes: int
    var hits: nat
    var misses: nat
    var returned: nat

    ghost function State(): Inner
      reads this
    {
      Inner(buckets, cachedBytes, hits, misses, returned)
    }

    ghost predicate Valid()
      reads this
    {
      Accounted(State()) && cachedBytes <= maxCachedBytes
    }

    constructor (maxCachedBytes: nat)
      ensures Valid() && State() == EmptyInner && this.maxCachedBytes == maxCachedBytes
    {
      this.maxCachedBytes := maxCachedBytes;
      buckets, cachedBytes, hits, misses, returned := map[], 0, 0, 0, 0;
    }

    /** `newId` names the block that the allocator would return. */
    method Acquire(nbytes: nat, newId: nat) returns (h: Handle)
      requires Valid()
      modifies this
      ensures Valid()
      ensures nbytes == 0 ==> State() == old(State()) && h == Handle(newId, 0)
      ensures nbytes > 0 ==> State() == old(State()).AfterAcquire(nbytes)
      ensures nbytes > 0 ==> match old(State()).Acquired(nbytes)
        case Some(cached) => h == cached && SizeClass(h.len) == SizeClass(nbytes)
        case None => h == Handle(newId, SizeClass(nbytes))
      ensures nbytes > 0 ==>
        var c, was := SizeClass(nbytes), Cached(old(buckets), SizeClass(nbytes));
        && buckets.Keys == old(buckets).Keys && returned == old(returned)
        && (forall d <- buckets :: d != c ==> buckets[d] == old(buckets)[d])
        && if was == [] then
             && Cached(buckets, c) == [] && cachedBytes == old(cachedBytes)
             && hits == old(hits) && misses == old(misses) + 1
           else
             && h == was[|was| - 1] && Cached(buckets, c) == was[..|was| - 1] && cachedBytes == old(cachedBytes) - h.len
             && hits == old(hits) + 1 && misses == old(misses)
    {
      hide MapSum, BucketOk, SizeClass, Inner.Popped;
      if nbytes == 0 { return Handle(newId, 0); }
      var c := SizeClass(nbytes);
      if c in buckets {
        var b := buckets[c];
        if b.handles != [] {
          PopKeeps(State(), c);
          h := Pop(c);
          hits := hits + 1;
          return;
        }
      }
      misses := misses + 1;
      return Handle(newId, c);
    }

    method Release(h: Handle)
      requires Valid()
      modifies this
      ensures Valid()
      ensures State() == if h.len == 0 then old(State()) else old(State()).AfterRelease(maxCachedBytes, h)
      ensures hits == old(hits) && misses == old(misses) && returned == old(returned) + (if h.len > 0 then 1 else 0)
      ensures h.len == 0 || old(cachedBytes) + h.len > maxCachedBytes ==>
        buckets == old(buckets) && cachedBytes == old(cachedBytes)
      ensures h.len > 0 && old(cachedBytes) + h.len <= maxCachedBytes ==>
        && Cached(buckets, SizeClass(h.len)) == Cached(old(buckets), SizeClass(h.len)) + [h]
        && (forall c :: c != SizeClass(h.len) ==> Cached(buckets, c) == Cached(old(buckets), c))
        && cachedBytes == old(cachedBytes) + h.len
    {
      hide MapSum, BucketOk, SizeClass, Inner.Put;
      if h.len == 0 { return; }
      var c := SizeClass(h.len);
      if cachedBytes + h.len > maxCachedBytes {
        returned := returned + 1;
        return;
      }
      PutKeeps(State(), c, h);
      Push(c, h);
      returned := returned + 1;
    }

    method Push(c: nat, h: Handle)
      modifies this`buckets, this`cachedBytes
      ensures State() == old(State()).Put(c, h)
      ensures Cached(buckets, c) == Cached(old(buckets), c) + [h]
      ensures forall d :: d != c ==> Cached(buckets, d) == Cached(old(buckets), d)
    {
      var b := if c in buckets then buckets[c] else Bucket([], 0);
      buckets := buckets[c := Bucket(b.handles + [h], b.cachedBytes + h.len)];
      cachedBytes := cachedBytes + h.len;
    }

    method Pop(c: nat) returns (h: Handle)
      requires State().Has(c)
      modifies this`buckets, this`cachedBytes
      ensures h == old(State()).Top(c)
      ensures State() == old(State()).Popped(c)
      ensures Cached(old(buckets), c) == Cached(buckets, c) + [h] && cachedBytes == old(cachedBytes) - h.len
      ensures buckets.Keys == old(buckets).Keys && forall d <- buckets :: d != c ==> buckets[d] == old(buckets)[d]
    {
      var b := buckets[c];
      var n := |b.handles| - 1;
      h := b.handles[n];
      buckets := buckets[c := Bucket(b.handles[..n], b.cachedBytes - h.len)];
      cachedBytes := cachedBytes - h.len;
    }

    /** The locked part of `warm` for one size: `handles` were allocated before. */
    method WarmBucket(c: nat, handles: seq<Handle>)
      requires Valid() && forall h <- handles :: h.len > 0 && SizeClass(h.len) == c
      modifies this
      ensures Valid()
      ensures State() == old(State()).AfterWarm(maxCachedBytes, c, handles)
      ensures hits == old(hits) && misses == old(misses) && old(returned) <= returned <= old(returned) + |handles|
      ensures var k := returned - old(returned);
        && Cached(buckets, c) == Cached(old(buckets), c) + handles[..k]
        && (forall d :: d != c ==> Cached(buckets, d) == Cached(old(buckets), d))
        && (k == |handles| || cachedBytes + handles[k].len > maxCachedBytes)
    {
      hide Accounted, SizeClass, Inner.Put, Inner.AfterWarm, Cached;
      var i := 0;
      assert handles[0..] == handles;
      while i < |handles|
        invariant 0 <= i <= |handles| && Valid()
        invariant hits == old(hits) && misses == old(misses) && returned == old(returned) + i
        invariant Cached(buckets, c) == Cached(old(buckets), c) + handles[..i]
        invariant forall d :: d != c ==> Cached(buckets, d) == Cached(old(buckets), d)
        invariant State().AfterWarm(maxCachedBytes, c, handles[i..]) == old(State()).AfterWarm(maxCachedBytes, c, handles)
      {
        var h := handles[i];
        WarmStep(State(), maxCachedBytes, c, handles, i);
        if cachedBytes + h.len > maxCachedBytes { break; }
        PutKeeps(State(), c, h);
        PutCounts(State(), c, h);
        Push(c, h);
        returned := returned + 1;
        assert handles[..i + 1] == handles[..i] + [h];
        i := i + 1;
      }
      NothingToWarm(State(), maxCachedBytes, c, handles[i..]);
    }

    /** The reversed search for a bucket that holds a handle. */
    method LargestNonEmpty() returns (c: Option<nat>)
      ensures c.Some? ==> IsLargest(State(), c.value)
      ensures c.None? ==> !exists d :: State().Has(d)
    {
      c := None;
      var todo := buckets.Keys;
      while todo != {}
        invariant todo <= buckets.Keys
        invariant c.Some? ==> State().Has(c.value)
        invariant forall d <- buckets.Keys - todo :: State().Has(d) ==> c.Some? && d <= c.value
        decreases |todo|
      {
        var d :| d in todo;
        if buckets[d].handles != [] && (c.None? || d > c.value) { c := Some(d); }
        todo := todo - {d};
      }
    }

    /** The eviction loop: meets the target, and leaves what follows the shortest sufficient prefix of the order. */
    method Trim(keep: nat)
      requires Valid()
      modifies this
      ensures Valid() && cachedBytes <= keep
      ensures State() == Trimmed(old(State()), keep)
      ensures hits == old(hits) && misses == old(misses) && returned == old(returned)
      ensures Evictions(old(State()), keep) <= |Order(old(State()))|
      ensures Order(State()) == Order(old(State()))[Evictions(old(State()), keep)..]
    {
      hide Accounted, Order, Evictions, Trimmed, Inner.Popped;
      ghost var start := State();
      TrimEvictsPrefix(start, keep);
      while cachedBytes > keep
        invariant Accounted(State()) && cachedBytes <= maxCachedBytes
        invariant hits == old(hits) && misses == old(misses) && returned == old(returned)
        invariant Trimmed(State(), keep) == Trimmed(start, keep)
        decreases Count(State())
      {
        TrimEvictsPrefix(State(), keep);
        CachedNonNegative(State());
        var largest := LargestNonEmpty();
        if largest.None? { break; }
        TrimStep(State(), largest.value, keep);
        PopKeeps(State(), largest.value);
        var evicted := Pop(largest.value);
      }
      TrimmedStays(State(), keep);
    }

    method Clear()
      requires Valid()
      modifies this`buckets, this`cachedBytes
      ensures Valid() && State() == old(State()).Cleared()
      ensures buckets == map[] && cachedBytes == 0 && hits == old(hits) && misses == old(misses) && returned == old(returned)
    {
      buckets, cachedBytes := map[], 0;
    }

    // The two tiers together.

    method FastAcquire(cache: ThreadCache, nbytes: nat, newId: nat) returns (h: Handle)
      requires Valid() && CacheOk(cache.State())
      modifies this, cache
      ensures Valid() && CacheOk(cache.State())
      ensures nbytes == 0 ==> h == Handle(newId, 0) && State() == old(State()) && cache.State() == old(cache.State())
      ensures nbytes > 0 ==> cache.State() == old(cache.State()).AfterTake(nbytes)
      ensures nbytes > 0 ==> match old(cache.State()).Found(nbytes)
        case Some(cached) => h == cached && State() == old(State())
        case None =>
          && State() == old(State()).AfterAcquire(nbytes)
          && h == (match old(State()).Acquired(nbytes)
                   case Some(pooled) => pooled
                   case None => Handle(newId, SizeClass(nbytes)))
      ensures nbytes > 0 ==> SizeClass(h.len) == SizeClass(nbytes)
    {
      hide Accounted, CacheOk;
      if nbytes == 0 { return Handle(newId, 0); }
      TakeKeeps(cache.State(), nbytes);
      OwnClass(nbytes);
      var cached := cache.Take(nbytes);
      if cached.Some? { return cached.value; }
      h := Acquire(nbytes, newId);
    }

    method FastRelease(cache: ThreadCache, h: Handle)
      requires Valid() && CacheOk(cache.State())
      modifies this, cache
      ensures Valid() && CacheOk(cache.State())
      ensures h.len == 0 ==> State() == old(State()) && cache.State() == old(cache.State())
      ensures h.len > 0 ==> cache.State() == old(cache.State()).AfterOffer(h)
      ensures h.len > 0 ==>
        State() == if old(cache.State()).Accepts(h) then old(State()) else old(State()).AfterRelease(maxCachedBytes, h)
    {
      hide Accounted, CacheOk;
      if h.len == 0 { return; }
      OfferKeeps(cache.State(), h);
      var accepted := cache.Offer(h);
      if !accepted { Release(h); }
    }

    /** `drain_thread_local`: every slot goes through `release`, in slot order. */
    method DrainThreadLocal(cache: ThreadCache)
      requires Valid() && CacheOk(cache.State())
      modifies this, cache
      ensures Valid() && CacheOk(cache.State())
      ensures cache.State() == old(cache.State()).Drained()
      ensures cache.slots == [] && cache.cachedBytes == 0
      ensures hits == old(hits) && misses == old(misses) && returned == old(returned) + |old(cache.slots)|
      ensures State() == ReleaseAll(old(State()), maxCachedBytes, SlotHandles(old(cache.slots)))
    {
      hide Accounted;
      var handles := SlotHandles(cache.slots);
      cache.slots := [];
      cache.cachedBytes := 0;
      assert handles[0..] == handles;
      for i := 0 to |handles|
        invariant Valid() && cache.State() == old(cache.State()).Drained()
        invariant hits == old(hits) && misses == old(misses) && returned == old(returned) + i
        invariant ReleaseAll(State(), maxCachedBytes, handles[i..]) == ReleaseAll(old(State()), maxCachedBytes, handles)
      {
        assert handles[i..][0] == handles[i] && handles[i..][1..] == handles[i + 1..];
        assert old(cache.slots)[i] in old(cache.slots);
        Release(handles[i]);
      }
    }
  }

  /** One turn of warming: a handle that fits is put and counted, and nothing comes after one that does not. */
  lemma WarmStep(p: Inner, max: nat, c: nat, hs: seq<Handle>, i: nat)
    requires i < |hs|
    ensures p.cachedBytes + hs[i].len > max ==> p.AfterWarm(max, c, hs[i..]) == p
    ensures p.cachedBytes + hs[i].len <= max ==>
      p.AfterWarm(max, c, hs[i..]) == p.Put(c, hs[i]).(returned := p.returned + 1).AfterWarm(max, c, hs[i + 1..])
  {
    assert hs[i..][0] == hs[i] && hs[i..][1..] == hs[i + 1..];
  }

  lemma NothingToWarm(p: Inner, max: nat, c: nat, hs: seq<Handle>)
    ensures hs == [] ==> p.AfterWarm(max, c, hs) == p
  {
  }

  /** The request counters play no part in the accounting. */
  lemma PutCounts(p: Inner, c: nat, h: Handle)
    ensures Accounted(p.Put(c, h)) <==> Accounted(p.Put(c, h).(returned := p.returned + 1))
  {
  }

  function ReleaseAll(p: Inner, max: nat, hs: seq<Handle>): Inner
    decreases |hs|
  {
    if hs == [] then p
    else ReleaseAll(if hs[0].len == 0 then p else p.AfterRelease(max, hs[0]), max, hs[1..])
  }

  lemma TrimmedStays(p: Inner, keep: nat)
    requires Accounted(p) && p.cachedBytes <= keep
    ensures Trimmed(p, keep) == p
  {
  }
}
