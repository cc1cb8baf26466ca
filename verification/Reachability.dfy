/** What every chain of view operations keeps, from a fresh contiguous array on. */
module Reachability {
  import opened Arith
  import opened Results
  import opened Shapes
  import opened Permutations
  import opened Slices
  import opened Layouts
  import opened Views

  // Distinct view indices come from distinct source indices, axis by axis.

  /** Agreement at the source gives agreement in the view; outside broadcasting, equal sources are equal indices. */
  predicate Separates(l: Layout, v: Layout, j1: Index, j2: Index, i1: Index, i2: Index) {
    && (Agree(l.strides, i1, i2) ==> Agree(v.strides, j1, j2))
    && (i1 == i2 ==> j1 == j2)
  }

  lemma PickSeparates(l: Layout, axes: seq<nat>, i1: Index, i2: Index)
    requires l.WellFormed() && IsPermutation(axes, |l.shape|) && |i1| == |i2| == |axes|
    ensures Separates(l, l.Permuted(axes), Pick(i1, axes), Pick(i2, axes), i1, i2)
  {
  }

  lemma RemoveSeparates(l: Layout, axis: nat, i1: Index, i2: Index)
    requires l.WellFormed() && l.SqueezeAxis(axis).Ok? && |i1| == |i2| == |l.shape|
    ensures Separates(l, l.SqueezeAxis(axis).value, Remove(i1, axis), Remove(i2, axis), i1, i2)
  {
    if Agree(l.strides, i1, i2) {
      forall k | 0 <= k < |l.shape| - 1 && Remove(l.strides, axis)[k] != 0
        ensures Remove(i1, axis)[k] == Remove(i2, axis)[k]
      {
        var p := if k < axis then k else k + 1;
        assert l.strides[p] != 0;
      }
    }
  }

  lemma ExpandSeparates(l: Layout, axis: nat, j1: Index, j2: Index)
    requires l.WellFormed() && axis <= |l.shape| && |j1| == |j2| == |l.shape| + 1
    requires j1[axis] == j2[axis] == 0
    ensures Separates(l, l.Expanded(axis), j1, j2, Remove(j1, axis), Remove(j2, axis))
  {
    var v := l.Expanded(axis);
    forall k | 0 <= k < |j1| && k != axis
      ensures Agree(l.strides, Remove(j1, axis), Remove(j2, axis)) && v.strides[k] != 0 ==> j1[k] == j2[k]
      ensures Remove(j1, axis) == Remove(j2, axis) ==> j1[k] == j2[k]
    {
      var p := if k < axis then k else k - 1;
      assert Remove(j1, axis)[p] == j1[k] && Remove(j2, axis)[p] == j2[k];
      assert v.strides[k] == l.strides[p];
    }
  }

  lemma {:induction false} SqueezeSeparates(shape: Shape, strides: Strides, i1: Index, i2: Index)
    requires |shape| == |strides| && Agree(strides, i1, i2)
    ensures Agree(KeepLong(shape, strides), KeepLong(shape, i1), KeepLong(shape, i2))
  {
    KeepLongLength(shape, strides, i1);
    KeepLongLength(shape, strides, i2);
    if shape != [] {
      assert Agree(strides[1..], i1[1..], i2[1..]) by {
        forall k | 0 <= k < |shape| - 1 && strides[1..][k] != 0 ensures i1[1..][k] == i2[1..][k] {
          assert strides[k + 1] != 0;
        }
      }
      SqueezeSeparates(shape[1..], strides[1..], i1[1..], i2[1..]);
    }
  }

  lemma SliceSeparates(l: Layout, axis: nat, r: Resolved, j1: Index, j2: Index)
    requires l.WellFormed() && axis < |l.shape| && r.step != 0
    requires InBounds(j1, l.Sliced(axis, r).shape) && InBounds(j2, l.Sliced(axis, r).shape)
    requires r.Inside(l.shape[axis])
    ensures r.Position(j1[axis]) >= 0 && r.Position(j2[axis]) >= 0
    ensures Separates(l, l.Sliced(axis, r), j1, j2, j1[axis := r.Position(j1[axis])], j2[axis := r.Position(j2[axis])])
  {
    var v := l.Sliced(axis, r);
    var c1, c2 := j1[axis], j2[axis];
    assert c1 < v.shape[axis] && c2 < v.shape[axis];
    var p1: nat, p2: nat := r.Position(c1), r.Position(c2);
    StepSeparates(c1, c2, r.step);
    var i1, i2 := j1[axis := p1], j2[axis := p2];
    if Agree(l.strides, i1, i2) {
      forall k | 0 <= k < |j1| && v.strides[k] != 0 ensures j1[k] == j2[k] {
        assert l.strides[k] != 0 by { if l.strides[k] == 0 { ZeroProduct(r.step); } }
        assert i1[k] == i2[k];
      }
    }
    if i1 == i2 {
      forall k | 0 <= k < |j1| ensures j1[k] == j2[k] {
        assert i1[k] == i2[k];
      }
    }
  }

  lemma ZeroProduct(x: int)
    ensures 0 * x == 0
  {
  }

  lemma StepSeparates(c1: nat, c2: nat, step: int)
    requires step != 0
    ensures c1 * step == c2 * step ==> c1 == c2
  {
    var t := if step > 0 then step else -step;
    if c1 < c2 { MulLess(c1, c2, t); }
    if c2 < c1 { MulLess(c2, c1, t); }
    assert c1 * -step == -(c1 * step) && c2 * -step == -(c2 * step);
  }

  lemma BroadcastSeparates(l: Layout, tgt: Shape, j1: Index, j2: Index)
    requires l.WellFormed() && Broadcastable(l.shape, tgt) && InBounds(j1, tgt) && InBounds(j2, tgt)
    requires Agree(l.strides, Project(j1, l.shape), Project(j2, l.shape))
    ensures Agree(l.BroadcastTo(tgt).value.strides, j1, j2)
  {
    var b := BroadcastStrides(l.shape, l.strides, tgt);
    var lead := |tgt| - |l.shape|;
    forall a | 0 <= a < |tgt| && b[a] != 0 ensures j1[a] == j2[a] {
      var k := a - lead;
      assert l.shape[k] == tgt[a] && l.strides[k] != 0;
      assert Project(j1, l.shape)[k] == Project(j2, l.shape)[k];
      assert j1[a] < tgt[a] && j2[a] < tgt[a];
    }
  }

  lemma FlipSeparates(l: Layout, axis: nat, j1: Index, j2: Index)
    requires l.WellFormed() && l.Flip(axis).Ok? && InBounds(j1, l.shape) && InBounds(j2, l.shape)
    ensures Separates(l, l.Flip(axis).value, j1, j2, SourceIndex(l, Flip(axis), j1), SourceIndex(l, Flip(axis), j2))
  {
    var v := l.Flip(axis).value;
    var i1, i2 := SourceIndex(l, Flip(axis), j1), SourceIndex(l, Flip(axis), j2);
    assert j1[axis] < l.shape[axis] && j2[axis] < l.shape[axis];
    if Agree(l.strides, i1, i2) {
      forall k | 0 <= k < |j1| && v.strides[k] != 0 ensures j1[k] == j2[k] {
        assert l.strides[k] != 0;
        assert i1[k] == i2[k];
      }
    }
    if i1 == i2 {
      forall k | 0 <= k < |j1| ensures j1[k] == j2[k] {
        assert i1[k] == i2[k];
      }
    }
  }

  lemma DiagonalSeparates(l: Layout, k: int, j1: Index, j2: Index)
    requires l.WellFormed() && l.Diagonal(k).Ok?
    requires InBounds(j1, l.Diagonal(k).value.shape) && InBounds(j2, l.Diagonal(k).value.shape)
    ensures Separates(l, l.Diagonal(k).value, j1, j2, SourceIndex(l, Diagonal(k), j1), SourceIndex(l, Diagonal(k), j2))
  {
    var nd := |l.shape|;
    var v := l.Diagonal(k).value;
    var i1, i2 := SourceIndex(l, Diagonal(k), j1), SourceIndex(l, Diagonal(k), j2);
    if Agree(l.strides, i1, i2) {
      forall a | 0 <= a < nd - 1 && v.strides[a] != 0 ensures j1[a] == j2[a] {
        if a < nd - 2 {
          assert l.strides[a] != 0;
          assert i1[a] == i2[a];
        } else {
          var last := if l.strides[nd - 2] != 0 then nd - 2 else nd - 1;
          assert l.strides[last] != 0;
          assert i1[last] == i2[last];
        }
      }
    }
    if i1 == i2 {
      forall a | 0 <= a < nd - 1 ensures j1[a] == j2[a] {
        assert i1[a] == i2[a];
      }
    }
  }

  lemma {:induction false} CStridesPositive(shape: Shape, itemsize: nat)
    requires NonEmpty(shape) && itemsize > 0
    ensures StrideAcc(shape, itemsize) > 0
    ensures forall k :: 0 <= k < |shape| ==> CStrides(shape, itemsize)[k] > 0
  {
    if shape != [] {
      NonEmptyTail(shape);
      CStridesPositive(shape[1..], itemsize);
      assert shape[0] > 0;
      MulAtLeast(StrideAcc(shape[1..], itemsize), shape[0]);
    }
  }

  lemma ReshapeSeparates(l: Layout, newShape: Shape, n: nat, j1: Index, j2: Index)
    requires l.WellFormed() && Fits(l, n) && n <= ISIZE_MAX && l.Reshape(newShape).Ok?
    requires InBounds(j1, newShape) && InBounds(j2, newShape)
    ensures Ravel(j1, newShape) < Prod(l.shape) && Ravel(j2, newShape) < Prod(l.shape)
    ensures Separates(l, l.Reshape(newShape).value, j1, j2,
                      Unravel(Ravel(j1, newShape), l.shape), Unravel(Ravel(j2, newShape), l.shape))
  {
    hide Unravel, Ravel, Prod, Fits, CStrides;
    UnravelRavel(j1, newShape);
    UnravelRavel(j2, newShape);
    var i1, i2 := Unravel(Ravel(j1, newShape), l.shape), Unravel(Ravel(j2, newShape), l.shape);
    NonEmptyProd(l.shape);
    ContiguousFits(l, n);
    CStridesPositive(l.shape, l.itemsize);
    RavelUnravel(Ravel(j1, newShape), l.shape);
    RavelUnravel(Ravel(j2, newShape), l.shape);
    if Agree(l.strides, i1, i2) {
      assert i1 == i2;
    }
  }

  lemma ViewSeparates(l: Layout, op: ViewOp, n: nat, j1: Index, j2: Index)
    requires l.WellFormed() && Fits(l, n) && n <= ISIZE_MAX && Allowed(l, op)
    requires View(l, op).Some?
    requires InBounds(j1, View(l, op).value.shape) && InBounds(j2, View(l, op).value.shape)
    ensures Agree(l.strides, SourceIndex(l, op, j1), SourceIndex(l, op, j2)) ==> Agree(View(l, op).value.strides, j1, j2)
    ensures SourceIndex(l, op, j1) == SourceIndex(l, op, j2) && !op.BroadcastTo? ==> j1 == j2
  {
    hide Fits, Dot, Unravel, Agree, Inverse;
    var i1, i2 := SourceIndex(l, op, j1), SourceIndex(l, op, j2);
    match op
    case Reshape(newShape) => ReshapeSeparates(l, newShape, n, j1, j2);
    case SliceAxis(axis, arg) => SliceSeparates(l, axis, arg.Resolve(l.shape[axis]).value, j1, j2);
    case BroadcastTo(newShape) =>
      if Agree(l.strides, i1, i2) { BroadcastSeparates(l, newShape, j1, j2); }
    case Flip(axis) => FlipSeparates(l, axis, j1, j2);
    case Diagonal(k) => DiagonalSeparates(l, k, j1, j2);
    case _ => AxesSeparate(l, op, n, j1, j2);
  }

  /** The views that only reorder, add or remove axes. */
  lemma AxesSeparate(l: Layout, op: ViewOp, n: nat, j1: Index, j2: Index)
    requires l.WellFormed() && Fits(l, n) && n <= ISIZE_MAX && Allowed(l, op)
    requires View(l, op).Some?
    requires InBounds(j1, View(l, op).value.shape) && InBounds(j2, View(l, op).value.shape)
    requires op.Permute? || op.Transpose? || op.ExpandDims? || op.Squeeze? || op.SqueezeAxis?
    ensures Agree(l.strides, SourceIndex(l, op, j1), SourceIndex(l, op, j2)) ==> Agree(View(l, op).value.strides, j1, j2)
    ensures SourceIndex(l, op, j1) == SourceIndex(l, op, j2) && !op.BroadcastTo? ==> j1 == j2
  {
    hide Fits, Dot, Unravel, Agree, Inverse;
    var i1, i2 := SourceIndex(l, op, j1), SourceIndex(l, op, j2);
    match op
    case Permute(axes) =>
      PermuteReads(l, axes, j1);
      PermuteReads(l, axes, j2);
      assert View(l, op).value == l.Permuted(axes) && i1 == Pick(j1, Inverse(axes)) && i2 == Pick(j2, Inverse(axes));
      PickSeparates(l, axes, i1, i2);
    case Transpose =>
      TransposeReads(l, j1);
      TransposeReads(l, j2);
      if |l.shape| > 1 { PickSeparates(l, ReversedAxes(|l.shape|), i1, i2); }
    case ExpandDims(axis) =>
      ExpandReads(l, axis, j1);
      ExpandReads(l, axis, j2);
      ExpandSeparates(l, axis, j1, j2);
    case Squeeze =>
      SqueezeKeeps(l.shape, j1);
      SqueezeKeeps(l.shape, j2);
      if Agree(l.strides, i1, i2) { SqueezeSeparates(l.shape, l.strides, i1, i2); }
    case SqueezeAxis(axis) =>
      SqueezeAxisReads(l, axis, j1);
      SqueezeAxisReads(l, axis, j2);
      RemoveSeparates(l, axis, i1, i2);
  }

  // One view, then any chain of views.

  /**
   * A view stays in the allocation and aligned, shares elements only by broadcasting, and keeps
   * injectivity unless it broadcasts.
   */
  lemma ViewKeeps(l: Layout, op: ViewOp, n: nat)
    requires l.WellFormed() && Fits(l, n) && n <= ISIZE_MAX && Allowed(l, op) && View(l, op).Some?
    ensures Fits(View(l, op).value, n)
    ensures SharesOnlyByBroadcast(l) ==> SharesOnlyByBroadcast(View(l, op).value)
    ensures Injective(l) && !op.BroadcastTo? ==> Injective(View(l, op).value)
  {
    hide View, SourceIndex, Agree, Layout.Off, Allowed;
    var v := View(l, op).value;
    forall j | InBounds(j, v.shape)
      ensures 0 <= v.Off(j) <= n - v.itemsize && v.Off(j) % v.itemsize == 0
    {
      ViewReads(l, op, n, j);
    }
    forall j1, j2 | InBounds(j1, v.shape) && InBounds(j2, v.shape) && v.Off(j1) == v.Off(j2)
      ensures SharesOnlyByBroadcast(l) ==> Agree(v.strides, j1, j2)
      ensures Injective(l) && !op.BroadcastTo? ==> j1 == j2
    {
      ViewReads(l, op, n, j1);
      ViewReads(l, op, n, j2);
      ViewSeparates(l, op, n, j1, j2);
    }
  }

  /** The layout after a chain of operations, when each of them succeeds. */
  function Chain(l: Layout, ops: seq<ViewOp>): (r: Option<Layout>)
    requires l.WellFormed()
    ensures r.Some? ==> r.value.WellFormed() && r.value.itemsize == l.itemsize
    decreases |ops|
  {
    if ops == [] then Some(l)
    else
      var v := View(l, ops[0]);
      if v.None? then None else Chain(v.value, ops[1..])
  }

  /** Every slice of the chain keeps its positions on the axis. */
  predicate ChainAllowed(l: Layout, ops: seq<ViewOp>)
    requires l.WellFormed()
    decreases |ops|
  {
    ops != [] ==> Allowed(l, ops[0]) && (View(l, ops[0]).Some? ==> ChainAllowed(View(l, ops[0]).value, ops[1..]))
  }

  predicate NoBroadcast(ops: seq<ViewOp>) {
    forall k :: 0 <= k < |ops| ==> !ops[k].BroadcastTo?
  }

  /** A chain is one view after the other, in order, as long as each succeeds. */
  lemma {:induction false} ChainSnoc(l: Layout, ops: seq<ViewOp>, op: ViewOp)
    requires l.WellFormed()
    ensures Chain(l, []) == Some(l) && ChainAllowed(l, [])
    ensures Chain(l, ops).None? ==>
      Chain(l, ops + [op]).None? && (ChainAllowed(l, ops + [op]) <==> ChainAllowed(l, ops))
    ensures Chain(l, ops).Some? ==>
      var v := Chain(l, ops).value;
      && Chain(l, ops + [op]) == View(v, op)
      && (ChainAllowed(l, ops + [op]) <==> ChainAllowed(l, ops) && Allowed(v, op))
    decreases |ops|
  {
    hide View, Allowed;
    if ops == [] {
      assert (ops + [op])[1..] == [];
    } else {
      assert (ops + [op])[1..] == ops[1..] + [op];
      if View(l, ops[0]).Some? { ChainSnoc(View(l, ops[0]).value, ops[1..], op); }
    }
  }

  lemma {:induction false} ChainKeeps(l: Layout, ops: seq<ViewOp>, n: nat)
    requires l.WellFormed() && Fits(l, n) && n <= ISIZE_MAX && SharesOnlyByBroadcast(l)
    requires ChainAllowed(l, ops) && Chain(l, ops).Some?
    ensures Fits(Chain(l, ops).value, n) && SharesOnlyByBroadcast(Chain(l, ops).value)
    ensures Injective(l) && NoBroadcast(ops) ==> Injective(Chain(l, ops).value)
    decreases |ops|
  {
    hide Fits, SharesOnlyByBroadcast, Injective, View, Allowed;
    if ops != [] {
      ViewKeeps(l, ops[0], n);
      ChainKeeps(View(l, ops[0]).value, ops[1..], n);
    }
  }

  lemma NewCFits(shape: Shape, itemsize: nat)
    requires itemsize > 0 && itemsize * Prod(shape) <= ISIZE_MAX
    ensures var l := Layout(shape, CStrides(shape, itemsize), 0, itemsize);
      Fits(l, itemsize * Prod(shape)) && Injective(l) && SharesOnlyByBroadcast(l)
  {
    var l := Layout(shape, CStrides(shape, itemsize), 0, itemsize);
    NonEmptyProd(shape);
    forall i | InBounds(i, shape)
      ensures NonEmpty(shape) && l.Off(i) == Ravel(i, shape) * itemsize
      ensures 0 <= l.Off(i) <= itemsize * Prod(shape) - itemsize && l.Off(i) % itemsize == 0
    {
      RavelBound(i, shape);
      CStridesRavel(shape, itemsize, i);
      SpanSign(itemsize, Ravel(i, shape));
      SpanSign(itemsize, Prod(shape));
      MulLess(Ravel(i, shape), Prod(shape), itemsize);
      ModOfMultiple(Ravel(i, shape), itemsize);
    }
    forall i, j | InBounds(i, shape) && InBounds(j, shape) && l.Off(i) == l.Off(j)
      ensures i == j
    {
      StepSeparates(Ravel(i, shape), Ravel(j, shape), itemsize);
      UnravelRavel(i, shape);
      UnravelRavel(j, shape);
    }
  }

  lemma NewFFits(shape: Shape, itemsize: nat)
    requires itemsize > 0 && itemsize * Prod(shape) <= ISIZE_MAX
    ensures var l := Layout(shape, FStrides(shape, itemsize), 0, itemsize);
      Fits(l, itemsize * Prod(shape)) && Injective(l) && SharesOnlyByBroadcast(l)
  {
    hide Fits, Injective, SharesOnlyByBroadcast, CStrides, FStrides, Prod;
    var c := Layout(Reverse(shape), CStrides(Reverse(shape), itemsize), 0, itemsize);
    FIsTransposedC(shape, itemsize);
    ProdPick(shape, ReversedAxes(|shape|));
    assert Pick(shape, ReversedAxes(|shape|)) == Reverse(shape);
    NewCFits(Reverse(shape), itemsize);
    ViewKeeps(c, Transpose, itemsize * Prod(shape));
  }

  /** A fresh contiguous array in either order. */
  predicate Fresh(l: Layout, shape: Shape, itemsize: nat) {
    NewC(shape, itemsize) == Ok(l) || NewF(shape, itemsize) == Ok(l)
  }

  /**
   * Every layout reached from a fresh array by any chain of views: each element lies inside the
   * original allocation on an itemsize boundary; two indices address the same element only if they
   * differ on zero-stride axes alone; and without broadcasting distinct indices are distinct elements.
   */
  lemma Reachable(l0: Layout, shape: Shape, itemsize: nat, ops: seq<ViewOp>)
    requires Fresh(l0, shape, itemsize) && itemsize * Prod(shape) <= ISIZE_MAX
    requires ChainAllowed(l0, ops) && Chain(l0, ops).Some?
    ensures Fits(Chain(l0, ops).value, itemsize * Prod(shape))
    ensures SharesOnlyByBroadcast(Chain(l0, ops).value)
    ensures NoBroadcast(ops) ==> Injective(Chain(l0, ops).value)
  {
    hide Fits, Injective, SharesOnlyByBroadcast, Chain, ChainAllowed, CStrides, FStrides, Prod;
    NewCFits(shape, itemsize);
    NewFFits(shape, itemsize);
    ChainKeeps(l0, ops, itemsize * Prod(shape));
  }

  /** Elements at different offsets of an aligned layout occupy disjoint blocks. */
  lemma DisjointBlocks(l: Layout, n: nat, i: Index, j: Index)
    requires l.WellFormed() && Fits(l, n) && InBounds(i, l.shape) && InBounds(j, l.shape)
    ensures l.Off(i) == l.Off(j) || l.Off(i) + l.itemsize <= l.Off(j) || l.Off(j) + l.itemsize <= l.Off(i)
  {
    var a, b := l.Off(i), l.Off(j);
    Exact(a, l.itemsize);
    Exact(b, l.itemsize);
    var p, q := a / l.itemsize, b / l.itemsize;
    if p < q { MulLess(p, q, l.itemsize); }
    if q < p { MulLess(q, p, l.itemsize); }
  }

  /** On a non-empty reachable layout: injective exactly when no axis longer than one has stride zero. */
  lemma InjectiveExactly(l: Layout)
    requires l.WellFormed() && SharesOnlyByBroadcast(l) && NonEmpty(l.shape)
    ensures Injective(l) <==> forall k :: 0 <= k < |l.shape| && l.shape[k] > 1 ==> l.strides[k] != 0
  {
    if k :| 0 <= k < |l.shape| && l.shape[k] > 1 && l.strides[k] == 0 {
      var zero: Index := seq(|l.shape|, _ => 0);
      assert InBounds(zero, l.shape) && InBounds(zero[k := 1], l.shape);
      DotUpdateIndex(zero, l.strides, k, 1);
      assert zero[k] != zero[k := 1][k];
    } else {
      forall i, j | InBounds(i, l.shape) && InBounds(j, l.shape) && l.Off(i) == l.Off(j)
        ensures i == j
      {
        assert Agree(l.strides, i, j);
        forall k | 0 <= k < |l.shape| ensures i[k] == j[k] {
          assert i[k] < l.shape[k] && j[k] < l.shape[k];
        }
      }
    }
  }

  /** On a non-empty aligned layout, flipping an existing axis always succeeds, and twice is no change. */
  lemma FlipRestores(l: Layout, n: nat, axis: nat)
    requires l.WellFormed() && Fits(l, n) && NonEmpty(l.shape) && axis < |l.shape|
    ensures l.Flip(axis).Ok? && l.Flip(axis).value.Flip(axis) == Ok(l)
  {
    var zero: Index := seq(|l.shape|, _ => 0);
    assert InBounds(zero, l.shape);
    DotZero(zero, l.strides);
    forall k | 0 <= k < |l.shape| && l.shape[k] > 1 ensures l.strides[k] % l.itemsize == 0 {
      assert InBounds(zero[k := 1], l.shape);
      DotUpdateIndex(zero, l.strides, k, 1);
      SameRemainder(l.Off(zero[k := 1]), l.Off(zero), l.itemsize);
    }
    assert l.shape[axis] > 0;
    assert InBounds(zero[axis := l.shape[axis] - 1], l.shape);
    DotUpdateIndex(zero, l.strides, axis, l.shape[axis] - 1);
    if l.shape[axis] > 1 {
      NegatedMultiple(l.strides[axis], l.itemsize);
    }
    assert ValidStrides(l.shape, l.strides[axis := -l.strides[axis]], l.itemsize);
    FlipTwice(l, axis);
  }

  lemma NegatedMultiple(s: int, d: nat)
    requires d > 0 && s % d == 0
    ensures -s % d == 0
  {
    Exact(s, d);
    ModOfMultiple(-(s / d), d);
    assert -(s / d) * d == -((s / d) * d);
  }

  /** A slice that leaves its axis leaves the allocation of a fresh one-dimensional array; one that stays inside fits. */
  lemma SliceFitsExactly(d: nat, itemsize: nat, arg: SliceArg)
    requires itemsize > 0 && itemsize * d <= ISIZE_MAX && arg.Step() != 0
    ensures var l := Layout([d], CStrides([d], itemsize), 0, itemsize);
      Fits(l.SliceAxis(0, arg).value, itemsize * d) <==> StaysInside(arg, d)
  {
    hide SliceArg.Resolve;
    var l := Layout([d], CStrides([d], itemsize), 0, itemsize);
    assert Prod([d]) == d by { assert [d][1..] == []; }
    ResolveOk(arg, d);
    var r := arg.Resolve(d).value;
    assert l.SliceAxis(0, arg).value == l.Sliced(0, r);
    if StaysInside(arg, d) {
      NewCFits([d], itemsize);
      ViewKeeps(l, SliceAxis(0, arg), itemsize * d);
    } else {
      var k :| 0 <= k < r.count && !(0 <= r.Position(k) < d);
      EscapedPosition(d, itemsize, r, k);
    }
  }

  lemma ResolveOk(arg: SliceArg, dim: nat)
    ensures arg.Resolve(dim).Ok? <==> arg.Step() != 0
  {
  }

  lemma EscapedPosition(d: nat, itemsize: nat, r: Resolved, k: nat)
    requires itemsize > 0 && k < r.count && !(0 <= r.Position(k) < d)
    ensures var l := Layout([d], CStrides([d], itemsize), 0, itemsize); !Fits(l.Sliced(0, r), itemsize * d)
  {
    var l := Layout([d], CStrides([d], itemsize), 0, itemsize);
    var v := l.Sliced(0, r);
    assert InBounds([k], v.shape);
    assert l.strides == [itemsize] by { assert StrideAcc([d][1..], itemsize) == itemsize; }
    assert v.strides == [itemsize * r.step];
    assert Dot([k], v.strides) == k * (itemsize * r.step) by {
      assert [k][1..] == [] && Dot([], v.strides[1..]) == 0;
    }
    ScaledPosition(r.start, k, r.step, itemsize);
    var p := r.Position(k);
    if p >= d {
      MulMonotone(d, p, itemsize);
      MulSwap(itemsize, d, 1);
    } else {
      MulAtLeast(-p, itemsize);
      assert -p * itemsize == -(p * itemsize);
    }
  }

  lemma ScaledPosition(start: int, k: int, step: int, itemsize: int)
    ensures start * itemsize + k * (itemsize * step) == (start + k * step) * itemsize
  {
    assert k * (itemsize * step) == (k * step) * itemsize;
    assert (start + k * step) * itemsize == start * itemsize + (k * step) * itemsize;
  }
}
