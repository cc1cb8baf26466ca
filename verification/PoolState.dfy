/** The allocation cache behind the pool's lock: size classes, buckets and the critical sections. */
module PoolState {
  import opened Arith
  import opened Results
  import opened Sums

  /** An owned allocation, told apart from others of its length by its id. */
  datatype Handle = Handle(id: nat, len: nat)

  function SizeClass(n: nat): (c: nat)
    ensures c >= n && c >= 1
  {
    if n == 0 then 1 else NextPow2(n)
  }

  datatype Bucket = Bucket(handles: seq<Handle>, cachedBytes: int)

  /** `PoolInner`. */
  datatype Inner = Inner(buckets: map<nat, Bucket>, cachedBytes: int, hits: nat, misses: nat, returned: nat) {

    predicate Has(c: nat) {
      c in buckets && buckets[c].handles != []
    }

    function Top(c: nat): Handle
      requires Has(c)
    {
      var hs := buckets[c].handles;
      hs[|hs| - 1]
    }

    /** The last handle of a bucket is taken. */
    function Popped(c: nat): Inner
      requires Has(c)
    {
      var b := buckets[c];
      var n := |b.handles| - 1;
      this.(buckets := buckets[c := Bucket(b.handles[..n], b.cachedBytes - b.handles[n].len)],
            cachedBytes := cachedBytes - b.handles[n].len)
    }

    /** A handle is pushed on a bucket, which is made when missing. */
    function Put(c: nat, h: Handle): (p: Inner)
      ensures p.returned == returned && p.cachedBytes == cachedBytes + h.len
    {
      var b := if c in buckets then buckets[c] else Bucket([], 0);
      this.(buckets := buckets[c := Bucket(b.handles + [h], b.cachedBytes + h.len)],
            cachedBytes := cachedBytes + h.len)
    }

    // Critical sections.

    /** `acquire` up to the end of its lock: None is a miss. */
    function Acquired(nbytes: nat): Option<Handle> {
      if Has(SizeClass(nbytes)) then Some(Top(SizeClass(nbytes))) else None
    }

    function AfterAcquire(nbytes: nat): Inner {
      if Has(SizeClass(nbytes)) then Popped(SizeClass(nbytes)).(hits := hits + 1) else this.(misses := misses + 1)
    }

    predicate Keeps(max: nat, h: Handle) {
      cachedBytes + h.len <= max
    }

    function AfterRelease(max: nat, h: Handle): Inner {
      (if Keeps(max, h) then Put(SizeClass(h.len), h) else this).(returned := returned + 1)
    }

    /** The locked part of `warm`: push until the cap, drop the rest. */
    function AfterWarm(max: nat, c: nat, hs: seq<Handle>): Inner
      decreases |hs|
    {
      if hs == [] || !Keeps(max, hs[0]) then this
      else Put(c, hs[0]).(returned := returned + 1).AfterWarm(max, c, hs[1..])
    }

    function WarmDropped(max: nat, c: nat, hs: seq<Handle>): seq<Handle>
      decreases |hs|
    {
      if hs == [] || !Keeps(max, hs[0]) then hs
      else Put(c, hs[0]).(returned := returned + 1).WarmDropped(max, c, hs[1..])
    }

    function Cleared(): Inner {
      this.(buckets := map[], cachedBytes := 0)
    }
  }

  const EmptyInner: Inner := Inner(map[], 0, 0, 0, 0)

  // Accounting.

  function Len(): Handle -> int {
    (h: Handle) => h.len
  }

  function BucketBytes(): Bucket -> int {
    (b: Bucket) => b.cachedBytes
  }

  /** How often a handle occurs in a bucket. */
  function Copies(h: Handle): Bucket -> int {
    (b: Bucket) => multiset(b.handles)[h]
  }

  function HandleCount(): Bucket -> int {
    (b: Bucket) => |b.handles|
  }

  predicate BucketOk(c: nat, b: Bucket) {
    && b.cachedBytes == Sum(b.handles, Len())
    && forall h <- b.handles :: h.len > 0 && SizeClass(h.len) == c
  }

  /** The byte counters of the buckets and of the pool are the sums of the cached lengths. */
  ghost predicate Accounted(p: Inner) {
    && (forall c <- p.buckets :: BucketOk(c, p.buckets[c]))
    && p.cachedBytes == MapSum(p.buckets, BucketBytes())
  }

  lemma {:induction false} LengthsNonNegative(hs: seq<Handle>)
    ensures Sum(hs, Len()) >= 0
    ensures hs != [] && (forall h <- hs :: h.len > 0) ==> Sum(hs, Len()) > 0
  {
    if hs != [] {
      assert hs[0] in hs;
      LengthsNonNegative(hs[1..]);
    }
  }

  lemma PopKeeps(p: Inner, c: nat)
    requires Accounted(p) && p.Has(c)
    ensures Accounted(p.Popped(c)) && 0 <= p.Popped(c).cachedBytes < p.cachedBytes
    ensures SizeClass(p.Top(c).len) == c && p.Top(c).len > 0
    ensures MapSum(p.Popped(c).buckets, HandleCount()) == MapSum(p.buckets, HandleCount()) - 1
    ensures forall h :: MapSum(p.Popped(c).buckets, Copies(h))
                     == MapSum(p.buckets, Copies(h)) - (if h == p.Top(c) then 1 else 0)
  {
    hide SizeClass, MapSum, BucketOk;
    var b := p.buckets[c];
    var n := |b.handles| - 1;
    var popped := Bucket(b.handles[..n], b.cachedBytes - b.handles[n].len);
    BucketPops(c, b);
    MapSumUpdate(p.buckets, BucketBytes(), c, popped);
    MapSumUpdate(p.buckets, HandleCount(), c, popped);
    CachedNonNegative(p.Popped(c));
    forall h { MapSumUpdate(p.buckets, Copies(h), c, popped); }
  }

  lemma BucketPops(c: nat, b: Bucket)
    requires BucketOk(c, b) && b.handles != []
    ensures var n := |b.handles| - 1;
      var popped := Bucket(b.handles[..n], b.cachedBytes - b.handles[n].len);
      && BucketOk(c, popped) && SizeClass(b.handles[n].len) == c && b.handles[n].len > 0
      && forall h :: Copies(h)(popped) == Copies(h)(b) - (if h == b.handles[n] then 1 else 0)
  {
    hide SizeClass;
    var n := |b.handles| - 1;
    assert b.handles == b.handles[..n] + [b.handles[n]];
    assert b.handles[n] in b.handles;
    SumAppend(b.handles[..n], Len(), b.handles[n]);
  }

  lemma CachedNonNegative(p: Inner)
    requires Accounted(p)
    ensures p.cachedBytes >= 0
    ensures p.cachedBytes > 0 ==> exists c :: p.Has(c)
  {
    forall c <- p.buckets ensures BucketBytes()(p.buckets[c]) >= 0 {
      LengthsNonNegative(p.buckets[c].handles);
    }
    MapSumNonNegative(p.buckets, BucketBytes());
    if !exists c :: p.Has(c) {
      NoHandles(p);
    }
  }

  lemma NoHandles(p: Inner)
    requires Accounted(p) && !exists c :: p.Has(c)
    ensures p.cachedBytes == 0
    ensures forall h :: MapSum(p.buckets, Copies(h)) == 0
  {
    forall c <- p.buckets ensures p.buckets[c] == Bucket([], 0) { assert !p.Has(c); }
    MapSumZero(p.buckets, BucketBytes());
    forall h ensures MapSum(p.buckets, Copies(h)) == 0 { MapSumZero(p.buckets, Copies(h)); }
  }

  lemma {:induction false} MapSumZero(m: map<nat, Bucket>, f: Bucket -> int)
    requires forall k <- m :: f(m[k]) == 0
    ensures MapSum(m, f) == 0
    decreases |m|
  {
    if m != map[] {
      var c :| c in m && MapSum(m, f) == f(m[c]) + MapSum(m - {c}, f);
      MapSumZero(m - {c}, f);
    }
  }

  lemma PutKeeps(p: Inner, c: nat, h: Handle)
    requires Accounted(p) && h.len > 0 && SizeClass(h.len) == c
    ensures Accounted(p.Put(c, h)) && p.Put(c, h).cachedBytes == p.cachedBytes + h.len
    ensures forall g :: MapSum(p.Put(c, h).buckets, Copies(g))
                     == MapSum(p.buckets, Copies(g)) + (if g == h then 1 else 0)
  {
    hide SizeClass, MapSum, BucketOk;
    var b := if c in p.buckets then p.buckets[c] else Bucket([], 0);
    var pushed := Bucket(b.handles + [h], b.cachedBytes + h.len);
    EmptyOk(c);
    PushKeeps(c, b, h);
    MapSumUpdate(p.buckets, BucketBytes(), c, pushed);
    forall g { MapSumUpdate(p.buckets, Copies(g), c, pushed); }
  }

  lemma EmptyOk(c: nat)
    ensures BucketOk(c, Bucket([], 0))
  {
  }

  lemma PushKeeps(c: nat, b: Bucket, h: Handle)
    requires BucketOk(c, b) && h.len > 0 && SizeClass(h.len) == c
    ensures BucketOk(c, Bucket(b.handles + [h], b.cachedBytes + h.len))
    ensures forall g :: Copies(g)(Bucket(b.handles + [h], b.cachedBytes + h.len)) == Copies(g)(b) + (if g == h then 1 else 0)
  {
    hide SizeClass;
    SumAppend(b.handles, Len(), h);
  }

  /** `warm` keeps the accounting and the cap, and each of its handles is either cached or dropped. */
  lemma {:induction false} WarmKeeps(p: Inner, max: nat, c: nat, hs: seq<Handle>)
    requires Accounted(p) && p.cachedBytes <= max
    requires forall h <- hs :: h.len > 0 && SizeClass(h.len) == c
    ensures Accounted(p.AfterWarm(max, c, hs)) && p.AfterWarm(max, c, hs).cachedBytes <= max
    ensures forall g :: MapSum(p.AfterWarm(max, c, hs).buckets, Copies(g)) + multiset(p.WarmDropped(max, c, hs))[g]
                     == MapSum(p.buckets, Copies(g)) + multiset(hs)[g]
    ensures forall h <- p.WarmDropped(max, c, hs) :: h in hs
    decreases |hs|
  {
    hide SizeClass, MapSum, BucketOk;
    if hs != [] && p.Keeps(max, hs[0]) {
      assert hs == [hs[0]] + hs[1..];
      PutKeeps(p, c, hs[0]);
      WarmKeeps(p.Put(c, hs[0]).(returned := p.returned + 1), max, c, hs[1..]);
    }
  }

  /** The class of a request is the least power of two that holds it. */
  lemma ClassIsLeast(n: nat, k: nat)
    ensures IsPow2(SizeClass(n)) && n <= SizeClass(n)
    ensures n <= Pow2(k) ==> SizeClass(n) <= Pow2(k)
  {
    NextPow2Least(n, k);
    if n == 0 { assert Pow2(0) == 1; }
  }

  lemma ClassMonotone(a: nat, b: nat)
    requires a <= b
    ensures SizeClass(a) <= SizeClass(b)
  {
    hide SizeClass;
    ClassIsLeast(b, 0);
    var k: nat :| Pow2(k) == SizeClass(b);
    ClassIsLeast(a, k);
  }

  // Which requests a cached handle can serve.

  /** Lengths that are their own class are the powers of two. */
  lemma OwnClass(len: nat)
    ensures SizeClass(len) == len <==> IsPow2(len)
    ensures SizeClass(SizeClass(len)) == SizeClass(len)
  {
    NextPow2Fixed(len);
    NextPow2Least(len, 0);
    NextPow2Fixed(NextPow2(len));
    if len == 0 { NextPow2Fixed(0); NextPow2Fixed(1); }
  }

  /** A cached handle is long enough for every request of its class exactly when its length is a power of two. */
  lemma LongEnoughExactly(h: Handle)
    requires h.len > 0
    ensures (forall n: nat :: n > 0 && SizeClass(n) == SizeClass(h.len) ==> n <= h.len) <==> IsPow2(h.len)
  {
    OwnClass(h.len);
    var c := SizeClass(h.len);
    assert c > 0 && SizeClass(c) == c;
  }

  /** Every request served from the cache gets enough bytes exactly when each top handle fills its class. */
  lemma HitsLongEnoughExactly(p: Inner)
    requires Accounted(p)
    ensures (forall n: nat :: n > 0 && p.Acquired(n).Some? ==> p.Acquired(n).value.len >= n)
       <==> (forall c :: p.Has(c) ==> IsPow2(p.Top(c).len))
  {
    forall c | p.Has(c) ensures SizeClass(p.Top(c).len) == c && p.Top(c).len > 0 {
      assert p.Top(c) in p.buckets[c].handles;
    }
    if forall n: nat :: n > 0 && p.Acquired(n).Some? ==> p.Acquired(n).value.len >= n {
      forall c | p.Has(c) ensures IsPow2(p.Top(c).len) {
        OwnClass(p.Top(c).len);
        assert p.Acquired(c) == Some(p.Top(c));
      }
    }
    if forall c :: p.Has(c) ==> IsPow2(p.Top(c).len) {
      forall n: nat | n > 0 && p.Acquired(n).Some? ensures p.Acquired(n).value.len >= n {
        OwnClass(p.Top(SizeClass(n)).len);
      }
    }
  }

  /** Three bytes released, four bytes asked for: the three come back. */
  lemma ShortHit(id: nat)
    ensures var p := EmptyInner.AfterRelease(10, Handle(id, 3)); p.Acquired(4) == Some(Handle(id, 3))
  {
    assert NextPow2(3) == 2 * NextPow2(2) && NextPow2(4) == 2 * NextPow2(2);
  }
}
