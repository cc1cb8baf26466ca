/** The three-phase chunked prefix scan, against the serial scan. */
module Scan {
  import opened Arith
  import opened Permutations

  ghost predicate Associative<T(!new)>(f: (T, T) -> T) {
    forall a, b, c :: f(f(a, b), c) == f(a, f(b, c))
  }

  ghost predicate LeftIdentity<T(!new)>(f: (T, T) -> T, e: T) {
    forall a :: f(e, a) == a
  }

  /** The left fold from `e`. */
  function Fold<T>(f: (T, T) -> T, e: T, s: seq<T>): T {
    if s == [] then e else f(Fold(f, e, s[..|s| - 1]), s[|s| - 1])
  }

  /** After a fold of n values, combining with e changes nothing. */
  ghost predicate AbsorbedAt<T(!new)>(f: (T, T) -> T, e: T, n: nat) {
    forall a: seq<T>, b: T :: |a| == n ==> f(f(Fold(f, e, a), e), b) == f(Fold(f, e, a), b)
  }

  lemma IdentityAbsorbed<T(!new)>(f: (T, T) -> T, e: T, n: nat)
    requires Associative(f) && LeftIdentity(f, e)
    ensures AbsorbedAt(f, e, n)
  {
    forall a: seq<T>, b: T | |a| == n ensures f(f(Fold(f, e, a), e), b) == f(Fold(f, e, a), b) {
      assert f(f(Fold(f, e, a), e), b) == f(Fold(f, e, a), f(e, b));
    }
  }

  /** Combining the first two values beforehand does not change a fold. */
  lemma {:induction false} FoldMerged<T(!new)>(f: (T, T) -> T, e: T, a: seq<T>)
    requires Associative(f) && |a| >= 2
    ensures Fold(f, e, [f(a[0], a[1])] + a[2..]) == Fold(f, e, a)
  {
    var m := |a| - 1;
    var merged := [f(a[0], a[1])] + a[2..];
    if m == 1 {
      assert a[..1] == [a[0]] && [a[0]][..0] == [] && merged == [f(a[0], a[1])] && merged[..0] == [];
    } else {
      FoldMerged(f, e, a[..m]);
      assert merged[..m - 1] == [f(a[0], a[1])] + a[..m][2..];
    }
  }

  /** What holds after n values holds after more: the first ones may be combined beforehand. */
  lemma {:induction false} AbsorbedLater<T(!new)>(f: (T, T) -> T, e: T, n: nat, a: seq<T>, b: T)
    requires Associative(f) && AbsorbedAt(f, e, n) && 0 < n <= |a|
    ensures f(f(Fold(f, e, a), e), b) == f(Fold(f, e, a), b)
    decreases |a|
  {
    if n < |a| {
      FoldMerged(f, e, a);
      AbsorbedLater(f, e, n, [f(a[0], a[1])] + a[2..], b);
    }
  }

  /** Folding two parts and combining is folding the whole, when the first is long enough and the second not empty. */
  lemma {:induction false} FoldConcat<T(!new)>(f: (T, T) -> T, e: T, n: nat, a: seq<T>, b: seq<T>)
    requires Associative(f) && AbsorbedAt(f, e, n) && 0 < n <= |a| && b != []
    ensures f(Fold(f, e, a), Fold(f, e, b)) == Fold(f, e, a + b)
    decreases |b|
  {
    var m := |b| - 1;
    assert (a + b)[..|a + b| - 1] == a + b[..m];
    if m == 0 {
      assert b[..0] == [] && a + [] == a;
      AbsorbedLater(f, e, n, a, b[0]);
      assert f(Fold(f, e, a), f(e, b[0])) == f(f(Fold(f, e, a), e), b[0]);
    } else {
      FoldConcat(f, e, n, a, b[..m]);
    }
  }

  // What the chunked scan computes, whatever f is.

  function ChunkStart(c: nat, size: nat): nat {
    c * size
  }

  function ChunkEnd(c: nat, size: nat, len: nat): nat {
    if (c + 1) * size < len then (c + 1) * size else len
  }

  /** Number of chunks: len divided by size, rounded up. */
  function Chunks(len: nat, size: nat): nat
    requires size > 0
  {
    (len + size - 1) / size
  }

  predicate InChunk(i: nat, c: nat, size: nat, len: nat) {
    ChunkStart(c, size) <= i < ChunkEnd(c, size, len)
  }

  lemma ChunkRange(c: nat, size: nat, len: nat)
    requires size > 0
    ensures c < Chunks(len, size) <==> ChunkStart(c, size) < len
    ensures c < Chunks(len, size) ==> ChunkStart(c, size) < ChunkEnd(c, size, len) <= len
  {
    var n := Chunks(len, size);
    assert len + size - 1 == n * size + (len + size - 1) % size;
    if c < n { MulLess(c, n, size); } else { MulMonotone(n, c, size); }
    assert (c + 1) * size == c * size + size;
  }

  /** The chunk that position i belongs to. */
  function ChunkIndex(i: nat, size: nat): nat
    requires size > 0
  {
    i / size
  }

  /** Every position is in exactly one chunk. */
  lemma ChunkOf(i: nat, size: nat, len: nat, c: nat)
    requires size > 0 && i < len
    ensures InChunk(i, c, size, len) <==> c == ChunkIndex(i, size)
    ensures ChunkIndex(i, size) < Chunks(len, size)
  {
    var q := i / size;
    assert i == q * size + i % size;
    assert (c + 1) * size == c * size + size && (q + 1) * size == q * size + size;
    if c < q { MulLess(c, q, size); }
    if q < c { MulLess(q, c, size); }
    ChunkRange(q, size, len);
  }

  /** The fold of chunk c alone. */
  function ChunkTotal<T>(f: (T, T) -> T, e: T, s: seq<T>, size: nat, c: nat): T
    requires size > 0 && c < Chunks(|s|, size)
  {
    ChunkRange(c, size, |s|);
    Fold(f, e, s[ChunkStart(c, size)..ChunkEnd(c, size, |s|)])
  }

  /** The totals of chunks 0..c combined from the left. */
  function Carry<T>(f: (T, T) -> T, e: T, s: seq<T>, size: nat, c: nat): T
    requires size > 0 && c < Chunks(|s|, size)
  {
    if c == 0 then ChunkTotal(f, e, s, size, 0)
    else f(Carry(f, e, s, size, c - 1), ChunkTotal(f, e, s, size, c))
  }

  /** After phase 1: the fold from the start of the chunk. */
  function Local<T>(f: (T, T) -> T, e: T, s: seq<T>, size: nat, i: nat): T
    requires size > 0 && i < |s|
  {
    ChunkOf(i, size, |s|, ChunkIndex(i, size));
    Fold(f, e, s[ChunkStart(ChunkIndex(i, size), size)..i + 1])
  }

  /** After phase 3. */
  function Chunked<T>(f: (T, T) -> T, e: T, s: seq<T>, size: nat, i: nat): T
    requires size > 0 && i < |s|
  {
    ChunkOf(i, size, |s|, ChunkIndex(i, size));
    if ChunkIndex(i, size) == 0 then Local(f, e, s, size, i)
    else f(Carry(f, e, s, size, ChunkIndex(i, size) - 1), Local(f, e, s, size, i))
  }

  lemma {:induction false} CarryIsPrefix<T(!new)>(f: (T, T) -> T, e: T, s: seq<T>, size: nat, c: nat)
    requires Associative(f) && size > 0 && AbsorbedAt(f, e, size) && c < Chunks(|s|, size)
    ensures ChunkEnd(c, size, |s|) <= |s|
    ensures Carry(f, e, s, size, c) == Fold(f, e, s[..ChunkEnd(c, size, |s|)])
  {
    hide ChunkStart, ChunkEnd, Chunks, Fold, Carry, ChunkTotal;
    ChunkRange(c, size, |s|);
    if c == 0 {
      CarryFirst(f, e, s, size);
    } else {
      ChunkMeets(c, size, |s|);
      CarryStep(f, e, s, size, c);
      CarryIsPrefix(f, e, s, size, c - 1);
      FoldJoins(f, e, size, s, ChunkStart(c, size), ChunkEnd(c, size, |s|) - 1);
    }
  }

  lemma CarryFirst<T>(f: (T, T) -> T, e: T, s: seq<T>, size: nat)
    requires size > 0 && 0 < Chunks(|s|, size)
    ensures ChunkEnd(0, size, |s|) <= |s|
    ensures Carry(f, e, s, size, 0) == Fold(f, e, s[..ChunkEnd(0, size, |s|)])
  {
    ChunkRange(0, size, |s|);
    assert s[ChunkStart(0, size)..ChunkEnd(0, size, |s|)] == s[..ChunkEnd(0, size, |s|)];
  }

  lemma CarryStep<T>(f: (T, T) -> T, e: T, s: seq<T>, size: nat, c: nat)
    requires size > 0 && 0 < c < Chunks(|s|, size)
    ensures ChunkStart(c, size) < ChunkEnd(c, size, |s|) <= |s|
    ensures Carry(f, e, s, size, c)
         == f(Carry(f, e, s, size, c - 1), Fold(f, e, s[ChunkStart(c, size)..ChunkEnd(c, size, |s|)]))
  {
    ChunkRange(c, size, |s|);
  }

  /** A chunk begins where the one before it ends. */
  lemma ChunkMeets(c: nat, size: nat, len: nat)
    requires size > 0 && 0 < c < Chunks(len, size)
    ensures c - 1 < Chunks(len, size) && size <= ChunkStart(c, size) == ChunkEnd(c - 1, size, len) < len
  {
    ChunkRange(c, size, len);
    MulAtLeast(c, size);
  }

  /**
   * For an associative f that absorbs e after a whole chunk the chunked scan is the serial scan, for
   * every length, chunk size and position.
   */
  lemma ChunkedIsSerial<T(!new)>(f: (T, T) -> T, e: T, s: seq<T>, size: nat, i: nat)
    requires Associative(f) && size > 0 && AbsorbedAt(f, e, size) && i < |s|
    ensures Chunked(f, e, s, size, i) == Fold(f, e, s[..i + 1])
  {
    hide ChunkStart, ChunkEnd, Chunks, ChunkIndex, Fold, Chunked;
    var c := ChunkedParts(f, e, s, size, i);
    if c == 0 {
      assert s[0..i + 1] == s[..i + 1];
    } else {
      ChunkMeets(c, size, |s|);
      CarryIsPrefix(f, e, s, size, c - 1);
      FoldJoins(f, e, size, s, ChunkStart(c, size), i);
    }
  }

  lemma ChunkedParts<T(!new)>(f: (T, T) -> T, e: T, s: seq<T>, size: nat, i: nat) returns (c: nat)
    requires size > 0 && i < |s|
    ensures c == ChunkIndex(i, size) < Chunks(|s|, size) && ChunkStart(c, size) <= i
    ensures c == 0 ==> Chunked(f, e, s, size, i) == Fold(f, e, s[0..i + 1])
    ensures c > 0 ==>
      Chunked(f, e, s, size, i) == f(Carry(f, e, s, size, c - 1), Fold(f, e, s[ChunkStart(c, size)..i + 1]))
  {
    c := ChunkIndex(i, size);
    ChunkOf(i, size, |s|, c);
    if c == 0 { assert ChunkStart(0, size) == 0; }
    hide Chunks, Fold, Carry, ChunkIndex;
  }

  lemma FoldJoins<T(!new)>(f: (T, T) -> T, e: T, n: nat, s: seq<T>, lo: nat, i: nat)
    requires Associative(f) && AbsorbedAt(f, e, n) && 0 < n <= lo <= i < |s|
    ensures f(Fold(f, e, s[..lo]), Fold(f, e, s[lo..i + 1])) == Fold(f, e, s[..i + 1])
  {
    FoldConcat(f, e, n, s[..lo], s[lo..i + 1]);
    assert s[..lo] + s[lo..i + 1] == s[..i + 1];
  }

  /** One value more than a chunk: the scan in chunks puts e in front of it. */
  lemma OneBeyond<T(!new)>(f: (T, T) -> T, e: T, a: seq<T>, b: T)
    requires Associative(f) && a != []
    ensures Chunked(f, e, a + [b], |a|, |a|) == f(f(Fold(f, e, a), e), b)
    ensures Fold(f, e, (a + [b])[..|a| + 1]) == f(Fold(f, e, a), b)
  {
    hide Chunked, Carry, ChunkIndex, ChunkStart, ChunkEnd, Chunks, InChunk, Associative, Fold;
    var s, n := a + [b], |a|;
    LastChunk(n);
    CarryFirst(f, e, s, n);
    assert s[..n] == a && s[..n + 1] == s && s[n..n + 1] == [] + [b];
    FoldAppend(f, e, a, b);
    FoldAppend(f, e, [], b);
    Regroup(f, Fold(f, e, a), e, b);
    var c := ChunkedParts(f, e, s, n, n);
  }

  lemma FoldAppend<T>(f: (T, T) -> T, e: T, a: seq<T>, b: T)
    ensures Fold(f, e, []) == e && Fold(f, e, a + [b]) == f(Fold(f, e, a), b)
  {
    assert (a + [b])[..|a|] == a;
  }

  lemma Regroup<T(!new)>(f: (T, T) -> T, a: T, b: T, c: T)
    requires Associative(f)
    ensures f(a, f(b, c)) == f(f(a, b), c)
  {
  }

  lemma LastChunk(n: nat)
    requires n > 0
    ensures ChunkIndex(n, n) == 1 && ChunkStart(1, n) == n
    ensures ChunkEnd(0, n, n + 1) == n && 0 < Chunks(n + 1, n)
  {
    ChunkRange(0, n, n + 1);
  }

  /** Chunks of this size give the serial scan on every input. */
  ghost predicate SerialAt<T(!new)>(f: (T, T) -> T, e: T, size: nat)
    requires size > 0
  {
    forall s: seq<T>, i: nat :: i < |s| ==> Chunked(f, e, s, size, i) == Fold(f, e, s[..i + 1])
  }

  /** A chunk size gives the serial scan for every input exactly when f absorbs e after that many values. */
  lemma SerialAtExactly<T(!new)>(f: (T, T) -> T, e: T, size: nat)
    requires Associative(f) && size > 0
    ensures SerialAt(f, e, size) <==> AbsorbedAt(f, e, size)
  {
    hide Chunked, Fold;
    if AbsorbedAt(f, e, size) {
      forall s: seq<T>, i: nat | i < |s| ensures Chunked(f, e, s, size, i) == Fold(f, e, s[..i + 1]) {
        ChunkedIsSerial(f, e, s, size, i);
      }
    }
    if SerialAt(f, e, size) {
      forall a: seq<T>, b: T | |a| == size ensures f(f(Fold(f, e, a), e), b) == f(Fold(f, e, a), b) {
        OneBeyond(f, e, a, b);
      }
    }
  }

  // The three phases on arrays. Chunks of phases 1 and 3 run in the given orders.

  /** The chunk size chosen for a number of threads. */
  function ChunkSize(len: nat, threads: nat): (size: nat)
    ensures size > 0
  {
    var n := if threads > 1 then threads else 1;
    var base := len / n;
    NextPow2(if base > 256 then base else 256)
  }

  const LEAST_CHUNK: nat := 256

  /** The chunk size is the least power of two that is at least 256 and at least a thread's share. */
  lemma ChunkSizeIs(len: nat, threads: nat, k: nat)
    ensures var share := len / (if threads > 1 then threads else 1);
      var size := ChunkSize(len, threads);
      && IsPow2(size) && size >= 256 && size >= share
      && (Pow2(k) >= 256 && Pow2(k) >= share ==> size <= Pow2(k))
  {
    var share := len / (if threads > 1 then threads else 1);
    NextPow2Least(if share > 256 then share else 256, k);
    hide NextPow2, Pow2, IsPow2;
  }

  lemma ChunkSizes(len: nat, threads: nat)
    ensures ChunkSize(len, threads) >= LEAST_CHUNK
    ensures ChunkSize(LEAST_CHUNK + 1, 2) == LEAST_CHUNK
  {
    assert Pow2(8) == 256;
    assert IsPow2(256);
    NextPow2Fixed(256);
  }

  /** Every call of the scan gives the serial scan, whatever its input and the number of threads. */
  ghost predicate AlwaysSerial<T(!new)>(f: (T, T) -> T, e: T) {
    forall s: seq<T>, threads: nat, i: nat ::
      i < |s| ==> Chunked(f, e, s, ChunkSize(|s|, threads), i) == Fold(f, e, s[..i + 1])
  }

  /**
   * For an associative f every call gives the serial scan exactly when f absorbs e after the smallest
   * chunk. A left identity is absorbed after any number of values.
   */
  lemma SerialExactly<T(!new)>(f: (T, T) -> T, e: T)
    requires Associative(f)
    ensures AlwaysSerial(f, e) <==> AbsorbedAt(f, e, LEAST_CHUNK)
    ensures LeftIdentity(f, e) ==> AlwaysSerial(f, e)
  {
    hide LeftIdentity, Associative, AlwaysSerial, AbsorbedAt;
    if LeftIdentity(f, e) { IdentityAbsorbed(f, e, LEAST_CHUNK); }
    if AbsorbedAt(f, e, LEAST_CHUNK) { AbsorbedIsSerial(f, e); }
    if AlwaysSerial(f, e) { SerialIsAbsorbed(f, e); }
  }

  lemma AbsorbedIsSerial<T(!new)>(f: (T, T) -> T, e: T)
    requires Associative(f) && AbsorbedAt(f, e, LEAST_CHUNK)
    ensures AlwaysSerial(f, e)
  {
    hide Chunked, Fold, ChunkSize, Associative, AbsorbedAt;
    forall s: seq<T>, threads: nat, i: nat | i < |s|
      ensures Chunked(f, e, s, ChunkSize(|s|, threads), i) == Fold(f, e, s[..i + 1])
    {
      ScanIsSerial(f, e, s, threads, i);
    }
  }

  lemma SerialIsAbsorbed<T(!new)>(f: (T, T) -> T, e: T)
    requires Associative(f) && AlwaysSerial(f, e)
    ensures AbsorbedAt(f, e, LEAST_CHUNK)
  {
    hide Chunked, Fold, ChunkSize, Associative;
    ChunkSizes(0, 0);
    forall a: seq<T>, b: T | |a| == LEAST_CHUNK ensures f(f(Fold(f, e, a), e), b) == f(Fold(f, e, a), b) {
      OneBeyond(f, e, a, b);
      assert |a + [b]| == LEAST_CHUNK + 1;
      assert Chunked(f, e, a + [b], ChunkSize(|a + [b]|, 2), |a|) == Fold(f, e, (a + [b])[..|a| + 1]);
    }
  }

  /** Started from 1, the scan of a sum is not the serial scan. */
  lemma WrongIdentity()
    ensures !AlwaysSerial((a: int, b: int) => a + b, 1)
  {
    var f := (a: int, b: int) => a + b;
    var zeros := seq(LEAST_CHUNK, _ => 0);
    SerialExactly(f, 1);
    assert f(f(Fold(f, 1, zeros), 1), 0) != f(Fold(f, 1, zeros), 0);
  }

  lemma ScanIsSerial<T(!new)>(f: (T, T) -> T, e: T, s: seq<T>, threads: nat, i: nat)
    requires Associative(f) && AbsorbedAt(f, e, LEAST_CHUNK) && i < |s|
    ensures Chunked(f, e, s, ChunkSize(|s|, threads), i) == Fold(f, e, s[..i + 1])
  {
    hide Chunked, Fold, ChunkSize;
    var size := ChunkSize(|s|, threads);
    ChunkSizes(|s|, threads);
    forall a: seq<T>, b: T | |a| == size ensures f(f(Fold(f, e, a), e), b) == f(Fold(f, e, a), b) {
      AbsorbedLater(f, e, LEAST_CHUNK, a, b);
    }
    ChunkedIsSerial(f, e, s, size, i);
  }

  method ParallelScan<T(0,!new)>(src: array<T>, dst: array<T>, e: T, f: (T, T) -> T, threads: nat,
                         order1: seq<nat>, order3: seq<nat>)
    requires src != dst && src.Length == dst.Length
    requires IsPermutation(order1, Chunks(src.Length, ChunkSize(src.Length, threads)))
    requires IsPermutation(order3, |order1| - if |order1| > 0 then 1 else 0)
    modifies dst
    ensures forall i :: 0 <= i < dst.Length ==> dst[i] == Chunked(f, e, src[..], ChunkSize(src.Length, threads), i)
    ensures Associative(f) && AbsorbedAt(f, e, LEAST_CHUNK) ==>
      forall i :: 0 <= i < dst.Length ==> dst[i] == Fold(f, e, src[..][..i + 1])
  {
    ghost var s := src[..];
    var size := ChunkSize(src.Length, threads);
    var n := Chunks(src.Length, size);
    var totals := new T[n](_ => e);
    LocalScans(src, dst, totals, e, f, size, order1);
    CarryTotals(totals, f, e, s, size);
    AddCarries(dst, totals, f, e, s, size, order3);
    if Associative(f) && AbsorbedAt(f, e, LEAST_CHUNK) {
      forall i | 0 <= i < dst.Length ensures dst[i] == Fold(f, e, s[..i + 1]) {
        ScanIsSerial(f, e, s, threads, i);
      }
    }
  }

  /** Phase 1: a scan of each chunk by itself, and its total. */
  method LocalScans<T>(src: array<T>, dst: array<T>, totals: array<T>, e: T, f: (T, T) -> T, size: nat, order: seq<nat>)
    requires src != dst && src != totals && dst != totals && src.Length == dst.Length && size > 0
    requires totals.Length == Chunks(src.Length, size) && IsPermutation(order, totals.Length)
    modifies dst, totals
    ensures src[..] == old(src[..])
    ensures forall i :: 0 <= i < dst.Length ==> dst[i] == Local(f, e, src[..], size, i)
    ensures forall c :: 0 <= c < totals.Length ==> totals[c] == ChunkTotal(f, e, src[..], size, c)
  {
    hide Local, ChunkTotal, Chunks, ChunkIndex, InChunk;
    ghost var s := src[..];
    for p := 0 to |order|
      invariant src[..] == s
      invariant forall i :: 0 <= i < dst.Length && ChunkIndex(i, size) in order[..p] ==> dst[i] == Local(f, e, s, size, i)
      invariant forall c :: 0 <= c < totals.Length && c in order[..p] ==> totals[c] == ChunkTotal(f, e, s, size, c)
    {
      var c := order[p];
      var total := ScanChunk(src, dst, e, f, size, c);
      totals[c] := total;
      assert order[..p + 1] == order[..p] + [c];
      forall i | 0 <= i < dst.Length && ChunkIndex(i, size) in order[..p + 1] ensures dst[i] == Local(f, e, s, size, i) {
        ChunkOf(i, size, src.Length, c);
      }
    }
    assert order[..|order|] == order;
    forall c | 0 <= c < totals.Length ensures c in order { Onto(order, c); }
    forall i | 0 <= i < dst.Length ensures dst[i] == Local(f, e, s, size, i) {
      ChunkOf(i, size, src.Length, ChunkIndex(i, size));
    }
  }

  method ScanChunk<T>(src: array<T>, dst: array<T>, e: T, f: (T, T) -> T, size: nat, c: nat) returns (acc: T)
    requires src != dst && src.Length == dst.Length && size > 0 && c < Chunks(src.Length, size)
    modifies dst
    ensures acc == ChunkTotal(f, e, src[..], size, c)
    ensures forall i :: 0 <= i < dst.Length ==>
      dst[i] == if InChunk(i, c, size, src.Length) then Local(f, e, src[..], size, i) else old(dst[i])
  {
    ChunkRange(c, size, src.Length);
    var lo, hi := ChunkStart(c, size), ChunkEnd(c, size, src.Length);
    acc := e;
    for i := lo to hi
      invariant acc == Fold(f, e, src[lo..i])
      invariant forall j :: 0 <= j < dst.Length ==>
        dst[j] == if lo <= j < i then Local(f, e, src[..], size, j) else old(dst[j])
    {
      assert src[lo..i + 1][..i - lo] == src[lo..i];
      acc := f(acc, src[i]);
      dst[i] := acc;
      ChunkOf(i, size, src.Length, c);
      assert src[..][lo..i + 1] == src[lo..i + 1];
    }
    assert src[..][lo..hi] == src[lo..hi];
  }

  /** Phase 2: the totals combined from the left, in sequence. */
  method CarryTotals<T>(totals: array<T>, f: (T, T) -> T, ghost e: T, ghost s: seq<T>, size: nat)
    requires size > 0 && totals.Length == Chunks(|s|, size)
    requires forall c :: 0 <= c < totals.Length ==> totals[c] == ChunkTotal(f, e, s, size, c)
    modifies totals
    ensures forall c :: 0 <= c < totals.Length ==> totals[c] == Carry(f, e, s, size, c)
  {
    hide ChunkTotal, Chunks;
    var i := 1;
    while i < totals.Length
      invariant 1 <= i && (totals.Length > 0 ==> i <= totals.Length)
      invariant forall c :: 0 <= c < i && c < totals.Length ==> totals[c] == Carry(f, e, s, size, c)
      invariant forall c :: i <= c < totals.Length ==> totals[c] == ChunkTotal(f, e, s, size, c)
    {
      totals[i] := f(totals[i - 1], totals[i]);
      i := i + 1;
    }
  }

  /** Phase 3: the carry of the chunks before, combined into every later chunk. */
  method AddCarries<T>(dst: array<T>, totals: array<T>, f: (T, T) -> T, ghost e: T, ghost s: seq<T>, size: nat,
                       order: seq<nat>)
    requires size > 0 && dst != totals && dst.Length == |s| && totals.Length == Chunks(|s|, size)
    requires IsPermutation(order, totals.Length - if totals.Length > 0 then 1 else 0)
    requires forall i :: 0 <= i < dst.Length ==> dst[i] == Local(f, e, s, size, i)
    requires forall c :: 0 <= c < totals.Length ==> totals[c] == Carry(f, e, s, size, c)
    modifies dst
    ensures forall i :: 0 <= i < dst.Length ==> dst[i] == Chunked(f, e, s, size, i)
  {
    hide Local, Carry, Chunks, ChunkIndex, InChunk, ChunkStart, ChunkEnd;
    for p := 0 to |order|
      invariant forall c :: 0 <= c < totals.Length ==> totals[c] == Carry(f, e, s, size, c)
      invariant forall i :: 0 <= i < dst.Length ==>
        dst[i] == if ChunkIndex(i, size) - 1 in order[..p] then Chunked(f, e, s, size, i) else Local(f, e, s, size, i)
    {
      var c := order[p] + 1;
      AddCarry(dst, f, totals[c - 1], size, c);
      assert order[..p + 1] == order[..p] + [order[p]];
      assert order[p] !in order[..p];
      forall i | 0 <= i < dst.Length
        ensures dst[i] == if ChunkIndex(i, size) - 1 in order[..p + 1]
          then Chunked(f, e, s, size, i) else Local(f, e, s, size, i)
      {
        ChunkOf(i, size, |s|, c);
      }
    }
    assert order[..|order|] == order;
    forall i | 0 <= i < dst.Length ensures dst[i] == Chunked(f, e, s, size, i) {
      ChunkOf(i, size, |s|, ChunkIndex(i, size));
      if ChunkIndex(i, size) > 0 { Onto(order, ChunkIndex(i, size) - 1); }
    }
  }

  /** One chunk of phase 3. */
  method AddCarry<T>(dst: array<T>, f: (T, T) -> T, carry: T, size: nat, c: nat)
    requires size > 0 && c < Chunks(dst.Length, size)
    modifies dst
    ensures forall i :: 0 <= i < dst.Length ==>
      dst[i] == if InChunk(i, c, size, dst.Length) then f(carry, old(dst[i])) else old(dst[i])
  {
    ChunkRange(c, size, dst.Length);
    var lo, hi := ChunkStart(c, size), ChunkEnd(c, size, dst.Length);
    for i := lo to hi
      invariant forall j :: 0 <= j < dst.Length ==> dst[j] == if lo <= j < i then f(carry, old(dst[j])) else old(dst[j])
    {
      dst[i] := f(carry, dst[i]);
    }
  }
}
