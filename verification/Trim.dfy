/** Trimming the pool: what is evicted, and when no smaller choice would do. */
module Trim {
  import opened Arith
  import opened Results
  import opened Sums
  import opened PoolState

  predicate IsLargest(p: Inner, c: nat) {
    p.Has(c) && forall d <- p.buckets :: p.Has(d) ==> d <= c
  }

  lemma LargestUnique(p: Inner, c: nat, d: nat)
    requires IsLargest(p, c) && IsLargest(p, d)
    ensures c == d
  {
  }

  /** Some bucket holds a handle: one of them has the largest class. */
  lemma LargestExists(p: Inner, c: nat)
    requires p.Has(c)
    ensures exists m :: IsLargest(p, m)
  {
    var held := set d | d in p.buckets && p.Has(d);
    assert c in held;
    var m := MaxOf(held);
    assert m in held && forall d <- p.buckets :: p.Has(d) ==> d in held;
    assert IsLargest(p, m);
  }

  lemma MaxOf(s: set<nat>) returns (m: nat)
    requires s != {}
    ensures m in s && forall x <- s :: x <= m
    decreases |s|
  {
    m :| m in s;
    var rest := s - {m};
    assert forall y <- s :: y == m || y in rest;
    if rest != {} {
      var n := MaxOf(rest);
      if n > m { m := n; }
    }
  }

  ghost function LargestClass(p: Inner): (c: Option<nat>)
    ensures c.Some? ==> IsLargest(p, c.value)
    ensures c.None? ==> !exists c :: p.Has(c)
  {
    if exists c :: p.Has(c) then
      assert exists m :: IsLargest(p, m) by { var c :| p.Has(c); LargestExists(p, c); }
      var c :| IsLargest(p, c);
      Some(c)
    else None
  }

  ghost function Handles(p: Inner): (n: int)
  {
    MapSum(p.buckets, HandleCount())
  }

  lemma HandlesNonNegative(p: Inner)
    ensures Handles(p) >= 0
    ensures (exists c :: p.Has(c)) ==> Handles(p) > 0
  {
    MapSumNonNegative(p.buckets, HandleCount());
    if c :| p.Has(c) { assert HandleCount()(p.buckets[c]) > 0; }
  }

  ghost function Count(p: Inner): nat {
    HandlesNonNegative(p);
    Handles(p)
  }

  /** All cached handles in the order in which trimming would evict them: last of the largest class first. */
  ghost function Order(p: Inner): seq<Handle>
    requires Accounted(p)
    decreases Count(p)
  {
    match LargestClass(p)
    case None => []
    case Some(c) =>
      PopKeeps(p, c);
      [p.Top(c)] + Order(p.Popped(c))
  }

  lemma OrderStep(p: Inner, c: nat)
    requires Accounted(p) && IsLargest(p, c)
    ensures Accounted(p.Popped(c)) && Count(p.Popped(c)) < Count(p)
    ensures p.Popped(c).cachedBytes == p.cachedBytes - p.Top(c).len
    ensures Order(p) == [p.Top(c)] + Order(p.Popped(c))
  {
    hide MapSum, BucketOk;
    PopKeeps(p, c);
    LargestUnique(p, c, LargestClass(p).value);
  }

  /** The order is made of the cached handles, each as often as it is cached. */
  lemma {:induction false} OrderHolds(p: Inner)
    requires Accounted(p)
    ensures p.cachedBytes == Sum(Order(p), Len())
    ensures forall h :: multiset(Order(p))[h] == MapSum(p.buckets, Copies(h))
    ensures forall h <- Order(p) :: h.len > 0
    decreases Count(p)
  {
    hide MapSum, BucketOk, Inner.Popped, Inner.Top;
    match LargestClass(p)
    case None => NoHandles(p);
    case Some(c) =>
      OrderStep(p, c);
      PopKeeps(p, c);
      OrderHolds(p.Popped(c));
      assert Order(p)[1..] == Order(p.Popped(c));
  }

  /** How many handles `trim(keep)` evicts, following the loop. */
  ghost function Evictions(p: Inner, keep: nat): nat
    requires Accounted(p)
    decreases Count(p)
  {
    if p.cachedBytes <= keep then 0
    else
      match LargestClass(p)
      case None => 0
      case Some(c) =>
        PopKeeps(p, c);
        1 + Evictions(p.Popped(c), keep)
  }

  ghost function Trimmed(p: Inner, keep: nat): (t: Inner)
    requires Accounted(p)
    ensures Accounted(t)
    decreases Count(p)
  {
    if p.cachedBytes <= keep then p
    else
      match LargestClass(p)
      case None => p
      case Some(c) =>
        PopKeeps(p, c);
        Trimmed(p.Popped(c), keep)
  }

  /** One turn of the loop. */
  lemma TrimStep(p: Inner, c: nat, keep: nat)
    requires Accounted(p) && IsLargest(p, c) && p.cachedBytes > keep
    ensures Accounted(p.Popped(c)) && Count(p.Popped(c)) < Count(p)
    ensures Trimmed(p, keep) == Trimmed(p.Popped(c), keep)
    ensures Evictions(p, keep) == 1 + Evictions(p.Popped(c), keep)
  {
    hide MapSum, BucketOk;
    PopKeeps(p, c);
    LargestUnique(p, c, LargestClass(p).value);
  }

  /** Bytes of a sequence of lengths. */
  function Bytes(lens: seq<nat>): nat {
    if lens == [] then 0 else lens[0] + Bytes(lens[1..])
  }

  function Lens(hs: seq<Handle>): (lens: seq<nat>)
    ensures |lens| == |hs|
    ensures forall i :: 0 <= i < |hs| ==> lens[i] == hs[i].len
  {
    seq(|hs|, i requires 0 <= i < |hs| => hs[i].len)
  }

  lemma {:induction false} BytesOfLens(hs: seq<Handle>)
    ensures Bytes(Lens(hs)) == Sum(hs, Len())
  {
    if hs != [] {
      BytesOfLens(hs[1..]);
      assert Lens(hs)[1..] == Lens(hs[1..]);
    }
  }

  /**
   * `trim` evicts a prefix of the order, stops as soon as the target is met, and always meets it:
   * the evicted and the remaining handles together are the ones there were.
   */
  lemma {:induction false} TrimEvictsPrefix(p: Inner, keep: nat)
    requires Accounted(p)
    ensures Trimmed(p, keep).cachedBytes <= keep
    ensures Evictions(p, keep) <= |Order(p)|
    ensures Trimmed(p, keep).cachedBytes == p.cachedBytes - Bytes(Lens(Order(p))[..Evictions(p, keep)])
    ensures Order(Trimmed(p, keep)) == Order(p)[Evictions(p, keep)..]
    ensures forall j :: 0 <= j < Evictions(p, keep) ==> p.cachedBytes - Bytes(Lens(Order(p))[..j]) > keep
    decreases Count(p)
  {
    hide MapSum, Accounted, Inner.Popped, Inner.Top;
    CachedNonNegative(p);
    if p.cachedBytes > keep {
      var m := LargestClass(p).value;
      TrimStep(p, m, keep);
      OrderStep(p, m);
      TrimEvictsPrefix(p.Popped(m), keep);
      var rest := Order(p.Popped(m));
      forall j: nat | 1 <= j <= |Order(p)|
        ensures Bytes(Lens(Order(p))[..j]) == p.Top(m).len + Bytes(Lens(rest)[..j - 1])
      {
        assert Lens(Order(p))[..j][1..] == Lens(rest)[..j - 1];
      }
    }
  }

  // Optimality.

  /** The lengths that a choice marks, and how many it marks. */
  function Chosen(lens: seq<nat>, choice: seq<bool>): (c: (nat, nat))
    requires |choice| == |lens|
    ensures c.1 <= |lens|
  {
    if lens == [] then (0, 0)
    else
      var rest := Chosen(lens[1..], choice[1..]);
      if choice[0] then (lens[0] + rest.0, 1 + rest.1) else rest
  }

  predicate Descending(lens: seq<nat>) {
    forall i, j :: 0 <= i < j < |lens| ==> lens[i] >= lens[j]
  }

  lemma {:induction false} BytesLast(lens: seq<nat>, k: nat)
    requires k < |lens|
    ensures Bytes(lens[..k + 1]) == Bytes(lens[..k]) + lens[k]
  {
    if k == 0 {
      assert lens[..1][1..] == [] && lens[..0] == [];
    } else {
      assert lens[..k + 1][1..] == lens[1..][..k] && lens[..k][1..] == lens[1..][..k - 1];
      BytesLast(lens[1..], k - 1);
    }
  }

  lemma {:induction false} BytesMonotone(lens: seq<nat>, j: nat, k: nat)
    requires j <= k <= |lens|
    ensures Bytes(lens[..j]) <= Bytes(lens[..k])
    decreases k
  {
    if j < k {
      BytesMonotone(lens, j, k - 1);
      BytesLast(lens, k - 1);
    }
  }

  /** Of all choices of k lengths from a descending sequence the first k weigh most. */
  lemma {:induction false} PrefixWeighsMost(lens: seq<nat>, choice: seq<bool>)
    requires |choice| == |lens| && Descending(lens)
    ensures Chosen(lens, choice).0 <= Bytes(lens[..Chosen(lens, choice).1])
  {
    if lens != [] {
      var tail := lens[1..];
      PrefixWeighsMost(tail, choice[1..]);
      var k := Chosen(tail, choice[1..]).1;
      assert lens[..k + 1][1..] == tail[..k];
      if !choice[0] && k > 0 {
        BytesLast(tail, k - 1);
        assert lens[..k][1..] == tail[..k - 1];
        assert tail[k - 1] <= lens[0];
      }
    }
  }

  /** No choice of fewer handles reaches the target, whatever the target. */
  ghost predicate AlwaysFewest(p: Inner)
    requires Accounted(p)
  {
    forall keep: nat, choice: seq<bool> |
      |choice| == |Order(p)| && p.cachedBytes - Chosen(Lens(Order(p)), choice).0 <= keep ::
      Evictions(p, keep) <= Chosen(Lens(Order(p)), choice).1
  }

  /** Trimming evicts the fewest handles for every target exactly when it meets the lengths in descending order. */
  lemma FewestByOrder(p: Inner)
    requires Accounted(p)
    ensures AlwaysFewest(p) <==> Descending(Lens(Order(p)))
  {
    hide Accounted, Order, Evictions, Trimmed, Chosen, Bytes;
    if Descending(Lens(Order(p))) {
      forall keep: nat, choice: seq<bool> |
        |choice| == |Order(p)| && p.cachedBytes - Chosen(Lens(Order(p)), choice).0 <= keep
        ensures Evictions(p, keep) <= Chosen(Lens(Order(p)), choice).1
      {
        PrefixSuffices(p, keep, choice);
      }
    } else {
      RiseExists(Lens(Order(p)));
      var i :| 0 <= i < |Order(p)| - 1 && Lens(Order(p))[i] < Lens(Order(p))[i + 1];
      SwapIsBetter(p, i);
    }
  }

  lemma PrefixSuffices(p: Inner, keep: nat, choice: seq<bool>)
    requires Accounted(p) && Descending(Lens(Order(p))) && |choice| == |Order(p)|
    requires p.cachedBytes - Chosen(Lens(Order(p)), choice).0 <= keep
    ensures Evictions(p, keep) <= Chosen(Lens(Order(p)), choice).1
  {
    hide Accounted, Order, Evictions, Trimmed;
    var lens, k := Lens(Order(p)), Chosen(Lens(Order(p)), choice).1;
    PrefixWeighsMost(lens, choice);
    TrimEvictsPrefix(p, keep);
  }

  lemma {:induction false} RiseExists(lens: seq<nat>)
    requires !Descending(lens)
    ensures exists i :: 0 <= i < |lens| - 1 && lens[i] < lens[i + 1]
  {
    if forall i :: 0 <= i < |lens| - 1 ==> lens[i] >= lens[i + 1] {
      forall i, j | 0 <= i < j < |lens| ensures lens[i] >= lens[j] { Falls(lens, i, j); }
    }
  }

  lemma {:induction false} Falls(lens: seq<nat>, i: nat, j: nat)
    requires i < j < |lens| && forall i :: 0 <= i < |lens| - 1 ==> lens[i] >= lens[i + 1]
    ensures lens[i] >= lens[j]
    decreases j
  {
    if i + 1 < j { Falls(lens, i, j - 1); }
    assert lens[j - 1] >= lens[j - 1 + 1];
  }

  /** Where the order rises, the later handle instead of the earlier one reaches a target that trimming misses. */
  lemma SwapIsBetter(p: Inner, i: nat)
    requires Accounted(p) && i + 1 < |Order(p)| && Lens(Order(p))[i] < Lens(Order(p))[i + 1]
    ensures !AlwaysFewest(p)
  {
    hide Accounted, Order, Evictions, Trimmed;
    var lens := Lens(Order(p));
    var choice := seq(|lens|, k => k < i || k == i + 1);
    ChosenSwap(lens, choice, i);
    BytesBound(lens, choice);
    BytesOfLens(Order(p));
    OrderHolds(p);
    var keep: nat := p.cachedBytes - Chosen(lens, choice).0;
    TrimEvictsPrefix(p, keep);
    var k := Evictions(p, keep);
    if k <= i + 1 {
      BytesMonotone(lens, k, i + 1);
      BytesLast(lens, i);
    }
  }

  lemma {:induction false} BytesBound(lens: seq<nat>, choice: seq<bool>)
    requires |choice| == |lens|
    ensures Chosen(lens, choice).0 <= Bytes(lens)
  {
    if lens != [] { BytesBound(lens[1..], choice[1..]); }
  }

  lemma {:induction false} ChosenSwap(lens: seq<nat>, choice: seq<bool>, i: nat)
    requires |choice| == |lens| && i + 1 < |lens|
    requires forall k :: 0 <= k < |lens| ==> choice[k] == (k < i || k == i + 1)
    ensures Chosen(lens, choice) == (Bytes(lens[..i]) + lens[i + 1], i + 1)
  {
    if i == 0 {
      ChosenNone(lens[2..], choice[2..]);
      assert lens[1..][1..] == lens[2..] && choice[1..][1..] == choice[2..];
    } else {
      assert lens[..i][1..] == lens[1..][..i - 1];
      ChosenSwap(lens[1..], choice[1..], i - 1);
    }
  }

  lemma {:induction false} ChosenNone(lens: seq<nat>, choice: seq<bool>)
    requires |choice| == |lens| && forall k :: 0 <= k < |lens| ==> !choice[k]
    ensures Chosen(lens, choice) == (0, 0)
  {
    if lens != [] { ChosenNone(lens[1..], choice[1..]); }
  }

  // The order read off the buckets.

  /** Every bucket holds its handles in non-decreasing length, from the bottom to the top. */
  predicate BucketsRise(p: Inner) {
    forall c <- p.buckets :: Rises(p.buckets[c].handles)
  }

  predicate Rises(hs: seq<Handle>) {
    forall i, j :: 0 <= i < j < |hs| ==> hs[i].len <= hs[j].len
  }

  /**
   * Trimming evicts the fewest handles for every target exactly when every bucket is sorted by length.
   * Between buckets the classes keep the lengths apart.
   */
  lemma FewestExactly(p: Inner)
    requires Accounted(p)
    ensures AlwaysFewest(p) <==> BucketsRise(p)
  {
    FewestByOrder(p);
    OrderDescendsExactly(p);
  }

  lemma {:induction false} OrderDescendsExactly(p: Inner)
    requires Accounted(p)
    ensures Descending(Lens(Order(p))) <==> BucketsRise(p)
    decreases Count(p)
  {
    hide MapSum, BucketOk, Rises, Descending;
    match LargestClass(p)
    case None =>
      forall c <- p.buckets ensures Rises(p.buckets[c].handles) {
        assert !p.Has(c);
        EmptyRises();
      }
      NothingDescends();
    case Some(c) =>
      OrderStep(p, c);
      OrderDescendsExactly(p.Popped(c));
      PopRisesExactly(p, c);
      TopHeaviestExactly(p, c);
      hide BucketsRise, Order, Accounted, LargestClass, Inner.Popped, Inner.Top;
      ConsDescendsExactly(p.Top(c), Order(p.Popped(c)));
  }

  lemma EmptyRises()
    ensures Rises([])
  {
  }

  lemma NothingDescends()
    ensures Descending(Lens([]))
  {
  }

  /** The handles left in the bucket under its top. */
  function Under(p: Inner, c: nat): seq<Handle>
    requires p.Has(c)
  {
    p.buckets[c].handles[..|p.buckets[c].handles| - 1]
  }

  lemma PopRisesExactly(p: Inner, c: nat)
    requires p.Has(c)
    ensures BucketsRise(p) <==> BucketsRise(p.Popped(c)) && forall g <- Under(p, c) :: g.len <= p.Top(c).len
  {
    var hs, q := p.buckets[c].handles, p.Popped(c);
    assert q.buckets[c].handles == Under(p, c);
    SnocRisesExactly(Under(p, c), p.Top(c));
    assert hs == Under(p, c) + [p.Top(c)];
    hide Rises;
    forall d <- p.buckets | d != c ensures q.buckets[d] == p.buckets[d] { }
  }

  lemma SnocRisesExactly(hs: seq<Handle>, h: Handle)
    ensures Rises(hs + [h]) <==> Rises(hs) && forall g <- hs :: g.len <= h.len
  {
    var all := hs + [h];
    if Rises(all) {
      forall g <- hs ensures g.len <= h.len {
        var i :| 0 <= i < |hs| && hs[i] == g;
        assert all[i].len <= all[|hs|].len;
      }
      forall i, j | 0 <= i < j < |hs| ensures hs[i].len <= hs[j].len {
        assert all[i].len <= all[j].len;
      }
    }
  }

  /** The top of the largest class outweighs everything left exactly when it outweighs its own bucket. */
  lemma TopHeaviestExactly(p: Inner, c: nat)
    requires Accounted(p) && IsLargest(p, c) && Accounted(p.Popped(c))
    ensures (forall g <- Order(p.Popped(c)) :: g.len <= p.Top(c).len) <==> (forall g <- Under(p, c) :: g.len <= p.Top(c).len)
  {
    hide MapSum, SizeClass;
    var q := p.Popped(c);
    OrderMembers(q);
    assert q.buckets[c].handles == Under(p, c);
    assert p.Top(c) in p.buckets[c].handles;
    forall g <- Under(p, c) ensures g in Order(q) { assert g in q.buckets[c].handles; }
    forall g <- Order(q) ensures g in Under(p, c) || g.len <= p.Top(c).len {
      var d :| d in q.buckets && g in q.buckets[d].handles;
      if d != c {
        assert p.Has(d) && d < c;
        assert SizeClass(g.len) == d && SizeClass(p.Top(c).len) == c;
        if p.Top(c).len < g.len { ClassMonotone(p.Top(c).len, g.len); }
      }
    }
  }

  /** The order lists exactly the cached handles. */
  lemma {:induction false} OrderMembers(p: Inner)
    requires Accounted(p)
    ensures forall h :: h in Order(p) <==> exists d :: d in p.buckets && h in p.buckets[d].handles
    decreases Count(p)
  {
    hide MapSum, BucketOk;
    match LargestClass(p)
    case None =>
      forall d <- p.buckets ensures p.buckets[d].handles == [] { assert !p.Has(d); }
    case Some(c) =>
      OrderStep(p, c);
      var q := p.Popped(c);
      OrderMembers(q);
      assert p.buckets[c].handles == q.buckets[c].handles + [p.Top(c)];
      forall h ensures h in Order(p) <==> exists d :: d in p.buckets && h in p.buckets[d].handles {
        if h in Order(q) {
          var d :| d in q.buckets && h in q.buckets[d].handles;
          assert h in p.buckets[d].handles;
        }
        if d :| d in p.buckets && h in p.buckets[d].handles {
          assert h == p.Top(c) || h in q.buckets[d].handles;
        }
      }
  }

  lemma ConsDescendsExactly(h: Handle, rest: seq<Handle>)
    ensures Descending(Lens([h] + rest)) <==> Descending(Lens(rest)) && forall g <- rest :: g.len <= h.len
  {
    assert Lens([h] + rest) == [h.len] + Lens(rest);
    hide Descending;
    HeadDescends(h.len, Lens(rest));
    if forall y <- Lens(rest) :: y <= h.len {
      forall g <- rest ensures g.len <= h.len {
        var i :| 0 <= i < |rest| && rest[i] == g;
        assert Lens(rest)[i] in Lens(rest);
      }
    }
  }

  lemma HeadDescends(x: nat, lens: seq<nat>)
    ensures Descending([x] + lens) <==> Descending(lens) && forall y <- lens :: y <= x
  {
    var all := [x] + lens;
    if Descending(all) {
      forall i | 0 <= i < |lens| ensures lens[i] <= x { assert all[0] >= all[i + 1]; }
      forall i, j | 0 <= i < j < |lens| ensures lens[i] >= lens[j] { assert all[i + 1] >= all[j + 1]; }
    }
    if Descending(lens) && forall y <- lens :: y <= x {
      forall i, j | 0 <= i < j < |all| ensures all[i] >= all[j] {
        assert all[j] == lens[j - 1] && lens[j - 1] in lens;
        if i > 0 { assert lens[i - 1] >= lens[j - 1]; }
      }
    }
  }

  // Power-of-two lengths.

  /** Every cached handle fills its class. */
  predicate Full(p: Inner) {
    forall c <- p.buckets :: forall h <- p.buckets[c].handles :: h.len == c
  }

  lemma FullRises(p: Inner)
    requires Full(p)
    ensures BucketsRise(p)
  {
    forall c <- p.buckets ensures Rises(p.buckets[c].handles) {
      forall i | 0 <= i < |p.buckets[c].handles| ensures p.buckets[c].handles[i].len == c {
        assert p.buckets[c].handles[i] in p.buckets[c].handles;
      }
    }
  }

  lemma PoppedFull(p: Inner, c: nat)
    requires Full(p) && p.Has(c)
    ensures Full(p.Popped(c))
  {
    var q := p.Popped(c);
    forall d <- q.buckets, h <- q.buckets[d].handles ensures h.len == d {
      assert h in p.buckets[d].handles;
    }
  }

  /** Power-of-two lengths, in a bookkeeping that files each handle under its class, fill their classes. */
  lemma FullExactly(p: Inner)
    requires Accounted(p)
    ensures Full(p) <==> forall c <- p.buckets :: forall h <- p.buckets[c].handles :: IsPow2(h.len)
  {
    forall c <- p.buckets, h <- p.buckets[c].handles ensures h.len == c <==> IsPow2(h.len) {
      OwnClass(h.len);
    }
  }

  /** A pool of power-of-two handles is always trimmed with the fewest evictions. */
  lemma PowersTrimBest(p: Inner)
    requires Accounted(p) && forall c <- p.buckets :: forall h <- p.buckets[c].handles :: IsPow2(h.len)
    ensures AlwaysFewest(p)
  {
    FullExactly(p);
    FullRises(p);
    FewestExactly(p);
  }

  /**
   * Eight bytes and five bytes share a class. Trimming to five bytes evicts both, although evicting the
   * eight alone would do.
   */
  lemma MixedTrimsBadly()
    ensures var p := EmptyInner.AfterRelease(100, Handle(0, 8)).AfterRelease(100, Handle(1, 5));
      && Accounted(p) && Evictions(p, 5) == 2
      && Order(p) == [Handle(1, 5), Handle(0, 8)]
      && Chosen(Lens(Order(p)), [false, true]) == (8, 1) && p.cachedBytes - 8 <= 5
  {
    EightClass();
    hide SizeClass;
    var p := EmptyInner.AfterRelease(100, Handle(0, 8)).AfterRelease(100, Handle(1, 5));
    PutKeeps(EmptyInner, 8, Handle(0, 8));
    PutKeeps(EmptyInner.AfterRelease(100, Handle(0, 8)), 8, Handle(1, 5));
    assert p.buckets[8].handles == [] + [Handle(0, 8)] + [Handle(1, 5)];
    MixedOrder(p);
  }

  lemma EightClass()
    ensures SizeClass(8) == SizeClass(5) == 8
  {
    assert NextPow2(8) == 2 * NextPow2(4) && NextPow2(5) == 2 * NextPow2(3) && NextPow2(3) == 2 * NextPow2(2);
  }

  lemma MixedOrder(p: Inner)
    requires Accounted(p) && p.cachedBytes == 13
    requires p.buckets.Keys == {8} && p.buckets[8].handles == [Handle(0, 8), Handle(1, 5)]
    ensures Order(p) == [Handle(1, 5), Handle(0, 8)] && Evictions(p, 5) == 2
    ensures Chosen(Lens(Order(p)), [false, true]) == (8, 1)
  {
    hide BucketOk, MapSum;
    assert IsLargest(p, 8) && p.Top(8) == Handle(1, 5);
    OrderStep(p, 8);
    TrimStep(p, 8, 5);
    var q := p.Popped(8);
    assert q.buckets[8].handles == [Handle(0, 8)];
    assert IsLargest(q, 8);
    OrderStep(q, 8);
    TrimStep(q, 8, 5);
    var r := q.Popped(8);
    assert !exists c :: r.Has(c);
    assert r.cachedBytes == 0;
    hide Order;
    ChosenSecond(Lens(Order(p)));
  }

  lemma ChosenSecond(lens: seq<nat>)
    requires |lens| == 2
    ensures Chosen(lens, [false, true]) == (lens[1], 1)
  {
    assert [false, true][1..] == [true] && [true][1..] == [] && lens[1..][1..] == [];
    assert Chosen([], []) == (0, 0);
    assert Chosen(lens[1..], [true]) == (lens[1], 1);
  }

  /** What trimming evicted and what it left are what was cached. */
  lemma TrimConserves(p: Inner, keep: nat)
    requires Accounted(p)
    ensures Evictions(p, keep) <= |Order(p)|
    ensures forall h :: MapSum(Trimmed(p, keep).buckets, Copies(h)) + multiset(Order(p)[..Evictions(p, keep)])[h]
                     == MapSum(p.buckets, Copies(h))
  {
    hide MapSum, Accounted, Order, Evictions, Trimmed;
    TrimEvictsPrefix(p, keep);
    OrderHolds(p);
    OrderHolds(Trimmed(p, keep));
    var k := Evictions(p, keep);
    assert Order(p) == Order(p)[..k] + Order(p)[k..];
  }
}
