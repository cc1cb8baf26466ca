/** The lock-free tier of the pool: one small cache of handles per thread. */
module ThreadCaches {
  import opened Arith
  import opened Results
  import opened Sums
  import opened PoolState

  const TL_SLOTS: nat := 32
  const TL_MAX_BYTES: nat := 0x40_0000

  datatype Slot = Slot(c: nat, handle: Handle)

  /** The cached handles of one thread and its statistics. */
  datatype Cache = Cache(slots: seq<Slot>, cachedBytes: nat, hits: nat, misses: nat, returned: nat) {

    /** The handle that `fast_acquire` takes from here. */
    function Found(nbytes: nat): Option<Handle> {
      var i := Position(slots, SizeClass(nbytes));
      if SizeClass(nbytes) <= TL_MAX_BYTES && i < |slots| then Some(slots[i].handle) else None
    }

    function AfterTake(nbytes: nat): Cache {
      var i := Position(slots, SizeClass(nbytes));
      if SizeClass(nbytes) > TL_MAX_BYTES then this
      else if i < |slots| then
        this.(slots := SwapRemove(slots, i), hits := hits + 1,
              cachedBytes := SaturatingSub(cachedBytes, slots[i].handle.len))
      else this.(misses := misses + 1)
    }

    predicate Accepts(h: Handle) {
      SizeClass(h.len) <= TL_MAX_BYTES && |slots| < TL_SLOTS && Sum(slots, SlotLen()) + h.len <= TL_MAX_BYTES
    }

    function AfterOffer(h: Handle): Cache {
      if Accepts(h)
      then this.(slots := slots + [Slot(SizeClass(h.len), h)], returned := returned + 1, cachedBytes := cachedBytes + h.len)
      else this
    }

    function Drained(): Cache {
      this.(slots := [], cachedBytes := 0)
    }
  }

  const EmptyCache: Cache := Cache([], 0, 0, 0, 0)

  function SlotLen(): Slot -> int {
    (s: Slot) => s.handle.len
  }

  function SaturatingSub(a: nat, b: nat): nat {
    if a < b then 0 else a - b
  }

  /** The first slot of a class, or the number of slots. */
  function Position(slots: seq<Slot>, c: nat): (i: nat)
    ensures i <= |slots|
    ensures i < |slots| ==> slots[i].c == c
    ensures forall j :: 0 <= j < i ==> slots[j].c != c
  {
    if slots == [] || slots[0].c == c then 0
    else
      var i := 1 + Position(slots[1..], c);
      assert forall j :: 0 < j < |slots| ==> slots[j] == slots[1..][j - 1];
      i
  }

  /** The last element takes the place of the removed one. */
  function SwapRemove<T>(s: seq<T>, i: nat): seq<T>
    requires i < |s|
  {
    s[i := s[|s| - 1]][..|s| - 1]
  }

  /** Both limits hold, the byte counter is exact, and every slot is filed under its class. */
  predicate CacheOk(t: Cache) {
    && |t.slots| <= TL_SLOTS
    && t.cachedBytes == Sum(t.slots, SlotLen()) <= TL_MAX_BYTES
    && forall s <- t.slots :: s.handle.len > 0 && s.c == SizeClass(s.handle.len)
  }

  function InSlots(h: Handle): Slot -> int {
    (s: Slot) => if s.handle == h then 1 else 0
  }

  lemma {:induction false} SumSwapRemove<T>(s: seq<T>, f: T -> int, i: nat)
    requires i < |s|
    ensures Sum(SwapRemove(s, i), f) == Sum(s, f) - f(s[i])
  {
    var n := |s| - 1;
    var t := s[i := s[n]];
    SumUpdate(s, f, i, s[n]);
    assert t == t[..n] + [s[n]];
    SumAppend(t[..n], f, s[n]);
  }

  lemma TakeKeeps(t: Cache, nbytes: nat)
    requires CacheOk(t)
    ensures CacheOk(t.AfterTake(nbytes))
    ensures t.Found(nbytes).Some? ==> SizeClass(t.Found(nbytes).value.len) == SizeClass(nbytes)
    ensures forall h :: Sum(t.AfterTake(nbytes).slots, InSlots(h)) ==
                        Sum(t.slots, InSlots(h)) - (if t.Found(nbytes) == Some(h) then 1 else 0)
  {
    hide SizeClass, Sum;
    var i := Position(t.slots, SizeClass(nbytes));
    if t.Found(nbytes).Some? {
      assert t.slots[i] in t.slots;
      SumSwapRemove(t.slots, SlotLen(), i);
      forall h { SumSwapRemove(t.slots, InSlots(h), i); }
      var left := SwapRemove(t.slots, i);
      forall s <- left ensures s in t.slots { }
      SlotsNonNegative(left);
    }
  }

  lemma {:induction false} SlotsNonNegative(slots: seq<Slot>)
    ensures Sum(slots, SlotLen()) >= 0
  {
    if slots != [] { SlotsNonNegative(slots[1..]); }
  }

  lemma OfferKeeps(t: Cache, h: Handle)
    requires CacheOk(t) && h.len > 0
    ensures CacheOk(t.AfterOffer(h))
    ensures forall g :: Sum(t.AfterOffer(h).slots, InSlots(g)) ==
                        Sum(t.slots, InSlots(g)) + (if t.Accepts(h) && g == h then 1 else 0)
  {
    hide SizeClass, Sum;
    if t.Accepts(h) {
      var slot := Slot(SizeClass(h.len), h);
      SumAppend(t.slots, SlotLen(), slot);
      forall g { SumAppend(t.slots, InSlots(g), slot); }
    }
  }

  /** The handles of the slots in order: what draining takes. */
  function SlotHandles(slots: seq<Slot>): (hs: seq<Handle>)
    ensures |hs| == |slots|
  {
    seq(|slots|, i requires 0 <= i < |slots| => slots[i].handle)
  }

  lemma {:induction false} SlotHandlesCount(slots: seq<Slot>, h: Handle)
    ensures multiset(SlotHandles(slots))[h] == Sum(slots, InSlots(h))
  {
    if slots != [] {
      SlotHandlesCount(slots[1..], h);
      assert SlotHandles(slots) == [slots[0].handle] + SlotHandles(slots[1..]);
    } else {
      assert SlotHandles(slots) == [];
    }
  }

  // Which requests the cache can serve.

  /** The slot that a request of its class gets. */
  predicate IsFirst(slots: seq<Slot>, i: nat) {
    i < |slots| && Position(slots, slots[i].c) == i
  }

  /** A slot's class is small enough for the cache: its bytes are. */
  lemma SlotClass(t: Cache, i: nat)
    requires CacheOk(t) && i < |t.slots|
    ensures t.slots[i].c == SizeClass(t.slots[i].handle.len) <= TL_MAX_BYTES && t.slots[i].handle.len > 0
  {
    hide SizeClass, Sum;
    assert t.slots[i] in t.slots;
    TermBelowSum(t.slots, SlotLen(), t.slots[i]);
    assert Pow2(11) == 0x800;
    Pow2Add(11, 11);
    ClassIsLeast(t.slots[i].handle.len, 22);
  }

  /**
   * Every request served from the thread's cache gets enough bytes exactly when the first slot of each
   * class holds a power-of-two length.
   */
  lemma FoundLongEnoughExactly(t: Cache)
    requires CacheOk(t)
    ensures (forall n: nat :: n > 0 && t.Found(n).Some? ==> t.Found(n).value.len >= n)
       <==> (forall i: nat :: IsFirst(t.slots, i) ==> IsPow2(t.slots[i].handle.len))
  {
    hide CacheOk, IsPow2;
    if forall n: nat :: n > 0 && t.Found(n).Some? ==> t.Found(n).value.len >= n {
      forall i: nat | IsFirst(t.slots, i) ensures IsPow2(t.slots[i].handle.len) {
        SlotClass(t, i);
        OwnClass(t.slots[i].handle.len);
        assert t.Found(t.slots[i].c) == Some(t.slots[i].handle);
      }
    }
    if forall i: nat :: IsFirst(t.slots, i) ==> IsPow2(t.slots[i].handle.len) {
      forall n: nat | n > 0 && t.Found(n).Some? ensures t.Found(n).value.len >= n {
        var i := Position(t.slots, SizeClass(n));
        assert IsFirst(t.slots, i);
        SlotClass(t, i);
        OwnClass(t.slots[i].handle.len);
      }
    }
  }
}
