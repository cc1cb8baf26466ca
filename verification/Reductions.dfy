/** Summing an axis away, over exact arithmetic. */
module Reductions {
  import opened Arith
  import opened Shapes
  import opened Permutations

  /** A logical array: a value at every index. */
  type Tensor = Index -> int

  function SumTo(n: nat, g: nat -> int): int {
    if n == 0 then 0 else SumTo(n - 1, g) + g(n - 1)
  }

  /** Sum over all indices, axis by axis. */
  function Total(shape: Shape, t: Tensor): int
    decreases |shape|, 1
  {
    if shape == [] then t([]) else SumTo(shape[0], SlabTotals(shape, t))
  }

  function SlabTotals(shape: Shape, t: Tensor): nat -> int
    requires shape != []
    decreases |shape|, 0
  {
    (i: nat) => Total(shape[1..], Slab(t, i))
  }

  /** The tensor at a fixed first index. */
  function Slab(t: Tensor, i: nat): Tensor {
    (idx: Index) => t([i] + idx)
  }

  /** Sum over row-major positions, as a loop over the elements does. */
  function FlatTotal(shape: Shape, t: Tensor): int {
    SumTo(Prod(shape), AtPosition(shape, t))
  }

  function AtPosition(shape: Shape, t: Tensor): nat -> int {
    (k: nat) => if k < Prod(shape) then t(Unravel(k, shape)) else 0
  }

  function WithAxis(idx: Index, axis: nat, k: nat): Index {
    if axis <= |idx| then Insert(idx, axis, k) else idx
  }

  /** The elements that agree with idx off the axis. */
  function Fibre(t: Tensor, axis: nat, idx: Index): nat -> int {
    (k: nat) => t(WithAxis(idx, axis, k))
  }

  /** The tensor with axis `axis`, of length d, summed away. */
  function SumAlong(t: Tensor, axis: nat, d: nat): Tensor {
    (idx: Index) => SumTo(d, Fibre(t, axis, idx))
  }

  function KeptFibre(t: Tensor, axis: nat, idx: Index): nat -> int {
    (k: nat) => if axis < |idx| then t(idx[axis := k]) else 0
  }

  /** The tensor with the axis summed into length one. */
  function SumKept(t: Tensor, axis: nat, d: nat): Tensor {
    (idx: Index) => SumTo(d, KeptFibre(t, axis, idx))
  }

  // Sums.

  lemma {:induction false} SumSame(n: nat, f: nat -> int, g: nat -> int)
    requires forall k: nat :: k < n ==> f(k) == g(k)
    ensures SumTo(n, f) == SumTo(n, g)
  {
    if n > 0 { SumSame(n - 1, f, g); }
  }

  lemma {:induction false} SumPlus(n: nat, f: nat -> int, g: nat -> int, h: nat -> int)
    requires forall k: nat :: k < n ==> h(k) == f(k) + g(k)
    ensures SumTo(n, h) == SumTo(n, f) + SumTo(n, g)
  {
    if n > 0 { SumPlus(n - 1, f, g, h); }
  }

  lemma {:induction false} SumConstant(n: nat, g: nat -> int, c: int)
    requires forall k: nat :: k < n ==> g(k) == c
    ensures SumTo(n, g) == n * c
  {
    if n > 0 { SumConstant(n - 1, g, c); }
  }

  function From(g: nat -> int, a: nat): nat -> int {
    (j: nat) => g(a + j)
  }

  lemma {:induction false} SumSplit(a: nat, b: nat, g: nat -> int)
    ensures SumTo(a + b, g) == SumTo(a, g) + SumTo(b, From(g, a))
  {
    if b > 0 { SumSplit(a, b - 1, g); }
  }

  /** A sum over d rows of p is a sum of row sums. */
  lemma {:induction false} SumRows(d: nat, p: nat, g: nat -> int, rows: nat -> int)
    requires forall i: nat :: i < d ==> rows(i) == SumTo(p, From(g, i * p))
    ensures SumTo(d * p, g) == SumTo(d, rows)
  {
    if d > 0 {
      SumRows(d - 1, p, g, rows);
      RowStart(d, p);
      SumSplit((d - 1) * p, p, g);
    }
  }

  lemma RowStart(d: nat, p: nat)
    requires d > 0
    ensures d * p == (d - 1) * p + p && (d - 1) * p >= 0
  {
    MulMonotone(0, d - 1, p);
  }

  /** Two sums may be exchanged. */
  lemma {:induction false} SumSwap(m: nat, n: nat, g: nat -> nat -> int, h: nat -> nat -> int,
                                   rows: nat -> int, cols: nat -> int)
    requires forall i: nat, j: nat :: i < m && j < n ==> g(i)(j) == h(j)(i)
    requires forall i: nat :: i < m ==> rows(i) == SumTo(n, g(i))
    requires forall j: nat :: j < n ==> cols(j) == SumTo(m, h(j))
    ensures SumTo(m, rows) == SumTo(n, cols)
    decreases m
  {
    if m == 0 {
      SumConstant(n, cols, 0);
    } else {
      var before: nat -> int := (j: nat) => SumTo(m - 1, h(j));
      SumSwap(m - 1, n, g, h, rows, before);
      SumPlus(n, before, g(m - 1), cols);
    }
  }

  // Totals.

  lemma {:induction false} TotalSame(shape: Shape, t: Tensor, u: Tensor)
    requires forall idx: Index :: InBounds(idx, shape) ==> t(idx) == u(idx)
    ensures Total(shape, t) == Total(shape, u)
    decreases |shape|
  {
    if shape != [] {
      forall i: nat | i < shape[0] ensures SlabTotals(shape, t)(i) == SlabTotals(shape, u)(i) {
        forall idx: Index | InBounds(idx, shape[1..]) ensures Slab(t, i)(idx) == Slab(u, i)(idx) {
          ConsInBounds([i] + idx, shape);
        }
        TotalSame(shape[1..], Slab(t, i), Slab(u, i));
      }
      SumSame(shape[0], SlabTotals(shape, t), SlabTotals(shape, u));
    }
  }

  lemma {:induction false} TotalPlus(shape: Shape, t: Tensor, u: Tensor, v: Tensor)
    requires forall idx: Index :: InBounds(idx, shape) ==> v(idx) == t(idx) + u(idx)
    ensures Total(shape, v) == Total(shape, t) + Total(shape, u)
    decreases |shape|
  {
    if shape != [] {
      forall i: nat | i < shape[0]
        ensures SlabTotals(shape, v)(i) == SlabTotals(shape, t)(i) + SlabTotals(shape, u)(i)
      {
        forall idx: Index | InBounds(idx, shape[1..])
          ensures Slab(v, i)(idx) == Slab(t, i)(idx) + Slab(u, i)(idx)
        {
          ConsInBounds([i] + idx, shape);
        }
        TotalPlus(shape[1..], Slab(t, i), Slab(u, i), Slab(v, i));
      }
      SumPlus(shape[0], SlabTotals(shape, t), SlabTotals(shape, u), SlabTotals(shape, v));
    }
  }

  lemma {:induction false} TotalConstant(shape: Shape, t: Tensor, c: int)
    requires forall idx: Index :: InBounds(idx, shape) ==> t(idx) == c
    ensures Total(shape, t) == Prod(shape) * c
    decreases |shape|
  {
    if shape != [] {
      var p := Prod(shape[1..]);
      forall i: nat | i < shape[0] ensures SlabTotals(shape, t)(i) == p * c {
        forall idx: Index | InBounds(idx, shape[1..]) ensures Slab(t, i)(idx) == c {
          ConsInBounds([i] + idx, shape);
        }
        TotalConstant(shape[1..], Slab(t, i), c);
      }
      SumConstant(shape[0], SlabTotals(shape, t), p * c);
      MulThree(shape[0], p, c);
    }
  }

  lemma MulThree(a: int, b: int, c: int)
    ensures a * (b * c) == (a * b) * c
  {
  }

  /** The row-major loop visits every index once: its sum is the total. */
  lemma {:induction false} FlatIsTotal(shape: Shape, t: Tensor)
    ensures FlatTotal(shape, t) == Total(shape, t)
    decreases |shape|
  {
    if shape == [] {
      var g := AtPosition(shape, t);
      assert Prod(shape) == 1 && Unravel(0, shape) == shape;
      assert SumTo(1, g) == SumTo(0, g) + g(0);
    } else {
      hide Unravel;
      var d, tail := shape[0], shape[1..];
      forall i: nat | i < d
        ensures i * Prod(tail) >= 0
        ensures SlabTotals(shape, t)(i) == SumTo(Prod(tail), From(AtPosition(shape, t), i * Prod(tail)))
      {
        SlabPositions(shape, t, i);
        FlatIsTotal(tail, Slab(t, i));
      }
      SumRows(d, Prod(tail), AtPosition(shape, t), SlabTotals(shape, t));
    }
  }

  lemma SlabPositions(shape: Shape, t: Tensor, i: nat)
    requires shape != [] && i < shape[0]
    ensures i * Prod(shape[1..]) >= 0
    ensures SumTo(Prod(shape[1..]), From(AtPosition(shape, t), i * Prod(shape[1..]))) == FlatTotal(shape[1..], Slab(t, i))
  {
    hide Prod, Unravel, SumTo;
    var tail := shape[1..];
    var p := Prod(tail);
    MulMonotone(0, i, p);
    forall j: nat | j < p ensures From(AtPosition(shape, t), i * p)(j) == AtPosition(tail, Slab(t, i))(j) {
      UnravelCons(i, j, shape);
    }
    SumSame(p, From(AtPosition(shape, t), i * p), AtPosition(tail, Slab(t, i)));
  }

  function AtIndex(f: nat -> Tensor, idx: Index): nat -> int {
    (k: nat) => f(k)(idx)
  }

  /** A total of sums is a sum of totals. */
  lemma {:induction false} TotalOfSums(shape: Shape, d: nat, f: nat -> Tensor, s: Tensor, totals: nat -> int)
    requires forall idx: Index :: InBounds(idx, shape) ==> s(idx) == SumTo(d, AtIndex(f, idx))
    requires forall k: nat :: k < d ==> totals(k) == Total(shape, f(k))
    ensures Total(shape, s) == SumTo(d, totals)
    decreases d
  {
    if d == 0 {
      TotalConstant(shape, s, 0);
    } else {
      var before: Tensor := (idx: Index) => SumTo(d - 1, AtIndex(f, idx));
      TotalOfSums(shape, d - 1, f, before, totals);
      TotalPlus(shape, before, f(d - 1), s);
    }
  }

  /** Conservation: summing an axis away keeps the total, whatever the shape and the axis. */
  lemma {:induction false} SumAlongConserves(shape: Shape, axis: nat, t: Tensor)
    requires axis < |shape|
    ensures Total(Remove(shape, axis), SumAlong(t, axis, shape[axis])) == Total(shape, t)
    decreases axis
  {
    hide Prod, InBounds, Slab, SumAlong;
    var d, tail := shape[axis], shape[1..];
    var out := Remove(shape, axis);
    if axis == 0 {
      assert out == tail;
      FirstAxisConserves(shape, t);
    } else {
      assert out[0] == shape[0] && out[1..] == Remove(tail, axis - 1);
      var s := SumAlong(t, axis, d);
      forall i: nat ensures SlabTotals(out, s)(i) == SlabTotals(shape, t)(i) {
        SlabOfSum(t, axis, d, i, out[1..]);
        SumAlongConserves(tail, axis - 1, Slab(t, i));
      }
      SumSame(shape[0], SlabTotals(out, s), SlabTotals(shape, t));
    }
  }

  lemma FirstAxisConserves(shape: Shape, t: Tensor)
    requires shape != []
    ensures Total(shape[1..], SumAlong(t, 0, shape[0])) == Total(shape, t)
  {
    var d := shape[0];
    var slabs: nat -> Tensor := (k: nat) => Slab(t, k);
    forall idx: Index ensures SumAlong(t, 0, d)(idx) == SumTo(d, AtIndex(slabs, idx)) {
      forall k: nat ensures WithAxis(idx, 0, k) == [k] + idx { assert idx[..0] == []; }
      SumSame(d, Fibre(t, 0, idx), AtIndex(slabs, idx));
    }
    TotalOfSums(shape[1..], d, slabs, SumAlong(t, 0, d), SlabTotals(shape, t));
  }

  /** A slab of a sum along a later axis is the sum of the slab. */
  lemma SlabOfSum(t: Tensor, axis: nat, d: nat, i: nat, shape: Shape)
    requires axis > 0
    ensures Total(shape, Slab(SumAlong(t, axis, d), i)) == Total(shape, SumAlong(Slab(t, i), axis - 1, d))
  {
    hide Total, Prod;
    var s, u := Slab(SumAlong(t, axis, d), i), SumAlong(Slab(t, i), axis - 1, d);
    forall idx: Index ensures s(idx) == u(idx) {
      forall k: nat ensures Fibre(t, axis, [i] + idx)(k) == Fibre(Slab(t, i), axis - 1, idx)(k) {
        ConsWithAxis(i, idx, axis, k);
      }
      SumSame(d, Fibre(t, axis, [i] + idx), Fibre(Slab(t, i), axis - 1, idx));
    }
    TotalSame(shape, s, u);
  }

  lemma ConsWithAxis(i: nat, idx: Index, axis: nat, k: nat)
    requires axis > 0
    ensures WithAxis([i] + idx, axis, k) == [i] + WithAxis(idx, axis - 1, k)
  {
  }

  /** The same with the axis kept at length one. */
  lemma SumKeptConserves(shape: Shape, axis: nat, t: Tensor)
    requires axis < |shape|
    ensures Total(shape[axis := 1], SumKept(t, axis, shape[axis])) == Total(shape, t)
  {
    hide Total, Prod, SlabTotals;
    var d := shape[axis];
    var kept := shape[axis := 1];
    var out := Remove(shape, axis);
    var s := SumKept(t, axis, d);
    assert Remove(kept, axis) == out;
    SumAlongConserves(shape, axis, t);
    SumAlongConserves(kept, axis, s);
    forall idx: Index | InBounds(idx, out) ensures SumAlong(s, axis, 1)(idx) == SumAlong(t, axis, d)(idx) {
      KeptElement(t, axis, d, idx);
    }
    TotalSame(out, SumAlong(s, axis, 1), SumAlong(t, axis, d));
  }

  /** The single element along a kept axis is the sum along it. */
  lemma KeptElement(t: Tensor, axis: nat, d: nat, idx: Index)
    requires axis <= |idx|
    ensures SumAlong(SumKept(t, axis, d), axis, 1)(idx) == SumAlong(t, axis, d)(idx)
  {
    var s := SumKept(t, axis, d);
    var one := WithAxis(idx, axis, 0);
    var fibre := Fibre(s, axis, idx);
    assert SumTo(1, fibre) == SumTo(0, fibre) + fibre(0) == s(one);
    forall k: nat ensures KeptFibre(t, axis, one)(k) == Fibre(t, axis, idx)(k) {
      assert one[axis := k] == WithAxis(idx, axis, k);
    }
    SumSame(d, KeptFibre(t, axis, one), Fibre(t, axis, idx));
  }

  /** Summing two axes away in either order agrees, element by element. */
  lemma SumsCommute(t: Tensor, a: nat, da: nat, b: nat, db: nat, idx: Index)
    requires a < b <= |idx| + 1
    ensures SumAlong(SumAlong(t, b, db), a, da)(idx) == SumAlong(SumAlong(t, a, da), b - 1, db)(idx)
  {
    var g: nat -> nat -> int := (k: nat) => Fibre(t, b, WithAxis(idx, a, k));
    var h: nat -> nat -> int := (l: nat) => Fibre(t, a, WithAxis(idx, b - 1, l));
    forall k: nat, l: nat ensures g(k)(l) == h(l)(k) {
      InsertsCommute(idx, a, k, b, l);
    }
    SumSwap(da, db, g, h, Fibre(SumAlong(t, b, db), a, idx), Fibre(SumAlong(t, a, da), b - 1, idx));
  }

  lemma InsertsCommute(idx: Index, a: nat, k: nat, b: nat, l: nat)
    requires a < b <= |idx| + 1
    ensures WithAxis(WithAxis(idx, a, k), b, l) == WithAxis(WithAxis(idx, b - 1, l), a, k)
  {
  }

  /** The same with both axes kept at length one. */
  lemma KeptSumsCommute(t: Tensor, a: nat, da: nat, b: nat, db: nat, idx: Index)
    requires a < b < |idx|
    ensures SumKept(SumKept(t, b, db), a, da)(idx) == SumKept(SumKept(t, a, da), b, db)(idx)
  {
    var g: nat -> nat -> int := (k: nat) => KeptFibre(t, b, idx[a := k]);
    var h: nat -> nat -> int := (l: nat) => KeptFibre(t, a, idx[b := l]);
    forall k: nat, l: nat ensures g(k)(l) == h(l)(k) {
      assert idx[a := k][b := l] == idx[b := l][a := k];
    }
    SumSwap(da, db, g, h, KeptFibre(SumKept(t, b, db), a, idx), KeptFibre(SumKept(t, a, da), b, idx));
  }

  lemma EmptyTotal(shape: Shape, t: Tensor)
    requires Prod(shape) == 0
    ensures Total(shape, t) == 0
  {
    forall idx: Index ensures !InBounds(idx, shape) {
      if InBounds(idx, shape) { RavelBound(idx, shape); }
    }
    TotalConstant(shape, t, 0);
  }

  /** Both forms of summing an axis away. */
  function SumTensor(t: Tensor, axis: nat, d: nat, keepdims: bool): Tensor {
    if keepdims then SumKept(t, axis, d) else SumAlong(t, axis, d)
  }

  function OutFibre(t: Tensor, axis: nat, keepdims: bool, idx: Index): nat -> int {
    if keepdims then KeptFibre(t, axis, idx) else Fibre(t, axis, idx)
  }

  lemma SumTensorAt(t: Tensor, axis: nat, d: nat, keepdims: bool, idx: Index)
    ensures SumTensor(t, axis, d, keepdims)(idx) == SumTo(d, OutFibre(t, axis, keepdims, idx))
  {
  }

  function OutShape(shape: Shape, axis: nat, keepdims: bool): Shape
    requires axis < |shape|
  {
    if keepdims then shape[axis := 1] else Remove(shape, axis)
  }

  /** The source index behind an output index, at position k of the axis. */
  function SourceAt(idx: Index, axis: nat, keepdims: bool, k: nat): Index
    requires if keepdims then axis < |idx| else axis <= |idx|
  {
    if keepdims then idx[axis := k] else Insert(idx, axis, k)
  }

  lemma FibreAt(t: Tensor, axis: nat, keepdims: bool, idx: Index, k: nat)
    requires if keepdims then axis < |idx| else axis <= |idx|
    ensures OutFibre(t, axis, keepdims, idx)(k) == t(SourceAt(idx, axis, keepdims, k))
  {
    if keepdims {
      assert KeptFibre(t, axis, idx)(k) == t(idx[axis := k]);
    } else {
      assert WithAxis(idx, axis, k) == Insert(idx, axis, k);
    }
  }

  lemma SourceInBounds(shape: Shape, axis: nat, keepdims: bool, idx: Index, k: nat)
    requires axis < |shape| && k < shape[axis] && InBounds(idx, OutShape(shape, axis, keepdims))
    ensures InBounds(SourceAt(idx, axis, keepdims, k), shape)
  {
    var src, out := SourceAt(idx, axis, keepdims, k), OutShape(shape, axis, keepdims);
    forall a | 0 <= a < |shape| ensures src[a] < shape[a] {
      var b := if keepdims || a < axis then a else a - 1;
      if a != axis { assert idx[b] < out[b]; }
    }
  }

  /** Every source index lies behind an output index. */
  lemma OutputOf(shape: Shape, axis: nat, keepdims: bool, src: Index) returns (idx: Index)
    requires axis < |shape| && InBounds(src, shape)
    ensures InBounds(idx, OutShape(shape, axis, keepdims)) && SourceAt(idx, axis, keepdims, src[axis]) == src
  {
    var out := OutShape(shape, axis, keepdims);
    if keepdims {
      idx := src[axis := 0];
      assert idx[axis := src[axis]] == src;
    } else {
      idx := Remove(src, axis);
      assert Insert(idx, axis, src[axis]) == src;
    }
    forall b | 0 <= b < |out| ensures idx[b] < out[b] {
      var a := if keepdims || b < axis then b else b + 1;
      assert src[a] < shape[a];
    }
  }

  /** The sum of an axis depends only on the elements inside the shape. */
  lemma SumTensorSame(shape: Shape, t: Tensor, u: Tensor, axis: nat, keepdims: bool, idx: Index)
    requires axis < |shape| && InBounds(idx, OutShape(shape, axis, keepdims))
    requires forall i: Index :: InBounds(i, shape) ==> t(i) == u(i)
    ensures SumTensor(t, axis, shape[axis], keepdims)(idx) == SumTensor(u, axis, shape[axis], keepdims)(idx)
  {
    var d := shape[axis];
    forall k: nat | k < d ensures OutFibre(t, axis, keepdims, idx)(k) == OutFibre(u, axis, keepdims, idx)(k) {
      SourceInBounds(shape, axis, keepdims, idx, k);
      FibreAt(t, axis, keepdims, idx, k);
      FibreAt(u, axis, keepdims, idx, k);
    }
    SumSame(d, OutFibre(t, axis, keepdims, idx), OutFibre(u, axis, keepdims, idx));
    SumTensorAt(t, axis, d, keepdims, idx);
    SumTensorAt(u, axis, d, keepdims, idx);
  }

  /** Where axis b stands once the earlier axis a has been summed. */
  function Later(b: nat, keepdims: bool): nat
    requires b > 0
  {
    if keepdims then b else b - 1
  }

  lemma OutShapesCommute(shape: Shape, a: nat, b: nat, keepdims: bool)
    requires a < b < |shape|
    ensures a < |OutShape(shape, b, keepdims)| && Later(b, keepdims) < |OutShape(shape, a, keepdims)|
    ensures OutShape(OutShape(shape, b, keepdims), a, keepdims)
         == OutShape(OutShape(shape, a, keepdims), Later(b, keepdims), keepdims)
    ensures OutShape(shape, b, keepdims)[a] == shape[a] && OutShape(shape, a, keepdims)[Later(b, keepdims)] == shape[b]
  {
    if keepdims {
      assert shape[b := 1][a := 1] == shape[a := 1][b := 1];
    } else {
      assert Remove(Remove(shape, b), a) == Remove(Remove(shape, a), b - 1);
    }
  }

  /** Summing two axes in either order gives the same shape and the same tensor. */
  lemma SumTensorsCommute(shape: Shape, t: Tensor, a: nat, b: nat, keepdims: bool, idx: Index)
    requires a < b < |shape|
    ensures a < |OutShape(shape, b, keepdims)| && Later(b, keepdims) < |OutShape(shape, a, keepdims)|
    ensures OutShape(OutShape(shape, b, keepdims), a, keepdims)
         == OutShape(OutShape(shape, a, keepdims), Later(b, keepdims), keepdims)
    ensures OutShape(shape, b, keepdims)[a] == shape[a] && OutShape(shape, a, keepdims)[Later(b, keepdims)] == shape[b]
    ensures |idx| == |OutShape(OutShape(shape, b, keepdims), a, keepdims)| ==>
      SumTensor(SumTensor(t, b, shape[b], keepdims), a, shape[a], keepdims)(idx)
      == SumTensor(SumTensor(t, a, shape[a], keepdims), Later(b, keepdims), shape[b], keepdims)(idx)
  {
    OutShapesCommute(shape, a, b, keepdims);
    if |idx| == |OutShape(OutShape(shape, b, keepdims), a, keepdims)| {
      if keepdims {
        KeptSumsCommute(t, a, shape[a], b, shape[b], idx);
      } else {
        SumsCommute(t, a, shape[a], b, shape[b], idx);
      }
    }
  }

  // Totals of sequences.

  function SumOf(v: seq<int>): int {
    if v == [] then 0 else SumOf(v[..|v| - 1]) + v[|v| - 1]
  }

  lemma {:induction false} SumOfValues(v: seq<int>, g: nat -> int)
    requires forall k: nat :: k < |v| ==> v[k] == g(k)
    ensures SumOf(v) == SumTo(|v|, g)
  {
    if v != [] { SumOfValues(v[..|v| - 1], g); }
  }
}
