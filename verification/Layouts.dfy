/** Array layouts and the view operations that rewrite them without touching data. */
module Layouts {
  import opened Results
  import opened Shapes
  import opened Permutations
  import opened Slices

  /** Shape, byte strides, byte offset of element [0, .., 0], and bytes per element. */
  datatype Layout = Layout(shape: Shape, strides: Strides, offset: int, itemsize: nat) {

    predicate WellFormed() {
      |shape| == |strides| && itemsize > 0
    }

    function Size(): nat {
      Prod(shape)
    }

    /** Byte offset of the element at `idx`, without bounds checking. */
    function Off(idx: Index): int {
      offset + Dot(idx, strides)
    }

    /** `byte_offset`. */
    function CheckedOff(idx: Index): (r: Result<int>)
      ensures r.Ok? <==> InBounds(idx, shape)
      ensures r.Ok? ==> r.value == offset + Dot(idx, strides)
      ensures r == Err(TooManyIndices) <==> |idx| != |shape|
      ensures !r.Ok? && |idx| == |shape| ==>
        r.Err? && r.error.IndexOutOfBounds? && FirstBad(idx, shape, r.error.axis)
    {
      if |idx| != |shape| then Err(TooManyIndices)
      else if InBounds(idx, shape) then Ok(Off(idx))
      else Err(IndexOutOfBounds(FirstBadAxis(idx, shape)))
    }

    predicate CContiguous() {
      !NonEmpty(shape) || shape == [] || strides == CStrides(shape, itemsize)
    }

    // Views.

    method Permute(axes: seq<nat>) returns (r: Result<Layout>)
      requires WellFormed()
      ensures r.Ok? <==> IsPermutation(axes, |shape|)
      ensures r.Ok? ==> r.value == Permuted(axes)
      ensures r == Err(DimensionMismatch) <==> |axes| != |shape|
      ensures r == Err(AxisOutOfRange) ==> exists k :: 0 <= k < |axes| && axes[k] >= |shape|
      ensures r == Err(Bug) ==> !Distinct(axes)
    {
      var ndim := |shape|;
      if |axes| != ndim { return Err(DimensionMismatch); }
      var seen := new bool[ndim](_ => false);
      for k := 0 to ndim
        invariant forall a :: 0 <= a < ndim ==> (seen[a] <==> a in axes[..k])
        invariant forall j :: 0 <= j < k ==> axes[j] < ndim
        invariant forall i, j :: 0 <= i < j < k ==> axes[i] != axes[j]
      {
        if axes[k] >= ndim { return Err(AxisOutOfRange); }
        if seen[axes[k]] {
          var i :| 0 <= i < k && axes[..k][i] == axes[k];
          assert axes[i] == axes[k];
          return Err(Bug);
        }
        seen[axes[k]] := true;
        assert axes[..k + 1] == axes[..k] + [axes[k]];
        assert forall i :: 0 <= i < k ==> axes[..k][i] == axes[i];
      }
      return Ok(Permuted(axes));
    }

    function Permuted(axes: seq<nat>): Layout
      requires WellFormed() && IsPermutation(axes, |shape|)
    {
      Layout(Pick(shape, axes), Pick(strides, axes), offset, itemsize)
    }

    function Transpose(): Layout
      requires WellFormed()
    {
      if |shape| <= 1 then this else Permuted(ReversedAxes(|shape|))
    }

    /** `expand_dims`: the push loop over old and new axes. */
    method ExpandDims(axis: nat) returns (r: Result<Layout>)
      requires WellFormed()
      ensures r == if axis <= |shape| then Ok(Expanded(axis)) else Err(AxisOutOfRange)
      ensures r.Ok? ==>
        && r.value.shape == shape[..axis] + [1] + shape[axis..]
        && r.value.strides == strides[..axis] + [itemsize] + strides[axis..]
        && r.value.offset == offset && r.value.itemsize == itemsize
    {
      var ndim := |shape|;
      if axis > ndim { return Err(AxisOutOfRange); }
      hide Grown, Insert;
      var newShape: Shape, newStrides: Strides := [], [];
      GrownEnds(shape, axis, 1);
      GrownEnds(strides, axis, itemsize);
      for i := 0 to ndim + 1
        invariant newShape == Grown(shape, axis, 1, i) && newStrides == Grown(strides, axis, itemsize, i)
      {
        GrownStep(shape, axis, 1, i);
        GrownStep(strides, axis, itemsize, i);
        if i == axis {
          newShape, newStrides := newShape + [1], newStrides + [itemsize];
        }
        if i < ndim {
          newShape, newStrides := newShape + [shape[i]], newStrides + [strides[i]];
        }
      }
      return Ok(Layout(newShape, newStrides, offset, itemsize));
    }

    function Expanded(axis: nat): Layout
      requires WellFormed() && axis <= |shape|
    {
      Layout(Insert(shape, axis, 1), Insert(strides, axis, itemsize), offset, itemsize)
    }

    function Squeeze(): Layout
      requires WellFormed()
    {
      Layout(KeepLong(shape, shape), KeepLong(shape, strides), offset, itemsize)
    }

    function SqueezeAxis(axis: nat): Result<Layout>
      requires WellFormed()
    {
      if axis >= |shape| then Err(AxisOutOfRange)
      else if shape[axis] != 1 then Err(Bug)
      else Ok(Layout(Remove(shape, axis), Remove(strides, axis), offset, itemsize))
    }

    function Reshape(newShape: Shape): Result<Layout>
      requires WellFormed()
    {
      if !CContiguous() then Err(NonContiguous)
      else if Size() != Prod(newShape) then Err(ReshapeIncompatible)
      else Ok(Layout(newShape, CStrides(newShape, itemsize), offset, itemsize))
    }

    function SliceAxis(axis: nat, arg: SliceArg): Result<Layout>
      requires WellFormed()
    {
      if axis >= |shape| then Err(AxisOutOfRange)
      else
        var r := arg.Resolve(shape[axis]);
        if !r.Ok? then Err(ZeroSliceStep) else Ok(Sliced(axis, r.value))
    }

    function Sliced(axis: nat, r: Resolved): Layout
      requires WellFormed() && axis < |shape|
    {
      Layout(shape[axis := r.count], strides[axis := strides[axis] * r.step],
             offset + r.start * strides[axis], itemsize)
    }

    function BroadcastTo(newShape: Shape): Result<Layout>
      requires WellFormed()
    {
      if Broadcastable(shape, newShape)
      then Ok(Layout(newShape, BroadcastStrides(shape, strides, newShape), offset, itemsize))
      else Err(BroadcastError)
    }

    /** The layout of `Buffer::flip`: a negated stride from the last position. */
    function Flip(axis: nat): Result<Layout>
      requires WellFormed()
    {
      if axis >= |shape| then Err(Bug)
      else
        var delta := if shape[axis] > 0 then (shape[axis] - 1) * strides[axis] else 0;
        if offset + delta < 0 then Err(Bug)
        else NewCustom(shape, strides[axis := -strides[axis]], offset + delta, itemsize)
    }

    /** The layout of `Buffer::diagonal`: the last two axes become one. */
    function Diagonal(k: int): Result<Layout>
      requires WellFormed()
    {
      var nd := |shape|;
      if nd < 2 then Err(Bug)
      else
        var row := DiagonalRow(k);
        var col := DiagonalCol(k);
        var len := Min(Monus(shape[nd - 2], row), Monus(shape[nd - 1], col));
        var start := CheckedOff(seq(nd - 2, _ => 0) + [row, col]);
        if !start.Ok? then Err(start.error)
        else NewCustom(shape[..nd - 2] + [len], strides[..nd - 2] + [strides[nd - 2] + strides[nd - 1]],
                       start.value, itemsize)
    }

    // Byte ranges.

    /** `byte_range`: the loop widens low and high by each axis' span. */
    method ByteRange() returns (lo: int, hi: int)
      requires WellFormed()
      ensures NonEmpty(shape) ==> lo == Off(LowIndex(shape, strides)) && hi == Off(HighIndex(shape, strides))
      ensures !NonEmpty(shape) ==> lo == hi == offset
    {
      NonEmptyProd(shape);
      if Size() == 0 { return offset, offset; }
      lo, hi := offset, offset;
      for i := 0 to |shape|
        invariant lo + Dot(LowIndex(shape[i..], strides[i..]), strides[i..]) == Off(LowIndex(shape, strides))
        invariant hi + Dot(HighIndex(shape[i..], strides[i..]), strides[i..]) == Off(HighIndex(shape, strides))
      {
        assert shape[i..][1..] == shape[i + 1..] && strides[i..][1..] == strides[i + 1..];
        if strides[i] == 0 || shape[i] == 0 { continue; }
        var span := strides[i] * (shape[i] - 1);
        SpanSign(strides[i], shape[i] - 1);
        if span > 0 { hi := hi + span; } else { lo := lo + span; }
      }
    }
  }

  // The pieces the operations are made of.

  function Min(a: nat, b: nat): nat {
    if a < b then a else b
  }

  /** `saturating_sub`. */
  function Monus(a: nat, b: nat): nat {
    if a < b then 0 else a - b
  }

  function DiagonalRow(k: int): nat {
    if k >= 0 then 0 else -k
  }

  function DiagonalCol(k: int): nat {
    if k >= 0 then k else 0
  }

  function ReversedAxes(n: nat): (axes: seq<nat>)
    ensures IsPermutation(axes, n)
    ensures forall k :: 0 <= k < n ==> axes[k] == n - 1 - k
  {
    seq(n, k requires 0 <= k < n => n - 1 - k)
  }

  /** What i turns of a loop have copied that puts x in front of position `axis`. */
  function Grown<T>(s: seq<T>, axis: nat, x: T, i: nat): seq<T>
    requires axis <= |s| && i <= |s| + 1
  {
    if i <= axis then s[..i] else s[..axis] + [x] + s[axis..if i <= |s| then i else |s|]
  }

  lemma GrownStep<T>(s: seq<T>, axis: nat, x: T, i: nat)
    requires axis <= |s| && i <= |s|
    ensures Grown(s, axis, x, i + 1)
         == Grown(s, axis, x, i) + (if i == axis then [x] else []) + (if i < |s| then [s[i]] else [])
  {
  }

  lemma GrownEnds<T>(s: seq<T>, axis: nat, x: T)
    requires axis <= |s|
    ensures Grown(s, axis, x, 0) == [] && Grown(s, axis, x, |s| + 1) == Insert(s, axis, x)
  {
  }

  /** The entries of s at the axes longer than one. */
  function KeepLong<T>(shape: Shape, s: seq<T>): seq<T>
    requires |s| == |shape|
  {
    if s == [] then []
    else (if shape[0] != 1 then [s[0]] else []) + KeepLong(shape[1..], s[1..])
  }

  lemma {:induction false} KeepLongLength<S, T>(shape: Shape, s: seq<S>, t: seq<T>)
    requires |s| == |t| == |shape|
    ensures |KeepLong(shape, s)| == |KeepLong(shape, t)| <= |shape|
  {
    if s != [] { KeepLongLength(shape[1..], s[1..], t[1..]); }
  }

  function FirstBadAxis(idx: Index, shape: Shape): (axis: nat)
    requires |idx| == |shape| && !InBounds(idx, shape)
    ensures FirstBad(idx, shape, axis)
  {
    if idx[0] >= shape[0] then 0
    else
      assert idx == [idx[0]] + idx[1..] && shape == [shape[0]] + shape[1..];
      1 + FirstBadAxis(idx[1..], shape[1..])
  }

  /** `Layout::new_custom` for read-only strides. */
  function NewCustom(shape: Shape, strides: Strides, offset: int, itemsize: nat): (r: Result<Layout>)
    ensures r.Ok? <==>
      && |shape| == |strides| && itemsize > 0
      && forall k :: 0 <= k < |shape| ==> shape[k] <= 1 || strides[k] % itemsize == 0
    ensures r.Ok? ==> r.value == Layout(shape, strides, offset, itemsize) && r.value.WellFormed()
    ensures r.Err? && r.error.InvalidStride? ==>
      itemsize > 0 && r.error.axis < |shape| == |strides| && shape[r.error.axis] > 1 && strides[r.error.axis] % itemsize != 0
  {
    if |shape| != |strides| || itemsize == 0 then Err(Bug)
    else if ValidStrides(shape, strides, itemsize) then Ok(Layout(shape, strides, offset, itemsize))
    else Err(InvalidStride(FirstInvalid(shape, strides, itemsize)))
  }

  function FirstInvalid(shape: Shape, strides: Strides, itemsize: nat): (axis: nat)
    requires |shape| == |strides| && itemsize > 0 && !ValidStrides(shape, strides, itemsize)
    ensures axis < |shape| && shape[axis] > 1 && strides[axis] % itemsize != 0
    ensures ValidStrides(shape[..axis], strides[..axis], itemsize)
  {
    if shape[0] > 1 && strides[0] % itemsize != 0 then 0
    else
      assert !ValidStrides(shape[1..], strides[1..], itemsize) by {
        var k :| 0 <= k < |shape| && !(shape[k] <= 1 || strides[k] % itemsize == 0);
        assert shape[1..][k - 1] == shape[k] && strides[1..][k - 1] == strides[k];
      }
      var axis := 1 + FirstInvalid(shape[1..], strides[1..], itemsize);
      assert forall k :: 0 < k < axis ==>
        shape[..axis][k] == shape[1..][..axis - 1][k - 1] && strides[..axis][k] == strides[1..][..axis - 1][k - 1];
      axis
  }

  function NewC(shape: Shape, itemsize: nat): Result<Layout> {
    NewCustom(shape, CStrides(shape, itemsize), 0, itemsize)
  }

  function NewF(shape: Shape, itemsize: nat): Result<Layout> {
    NewCustom(shape, FStrides(shape, itemsize), 0, itemsize)
  }

  /** Index of the smallest byte offset. */
  function LowIndex(shape: Shape, strides: Strides): (idx: Index)
    requires |shape| == |strides|
    ensures |idx| == |shape|
  {
    if shape == [] then []
    else [if strides[0] < 0 && shape[0] > 0 then shape[0] - 1 else 0] + LowIndex(shape[1..], strides[1..])
  }

  /** Index of the largest byte offset. */
  function HighIndex(shape: Shape, strides: Strides): (idx: Index)
    requires |shape| == |strides|
    ensures |idx| == |shape|
  {
    if shape == [] then []
    else [if strides[0] > 0 && shape[0] > 0 then shape[0] - 1 else 0] + HighIndex(shape[1..], strides[1..])
  }

  lemma SpanSign(s: int, n: nat)
    ensures s >= 0 ==> s * n >= 0
    ensures s <= 0 ==> s * n <= 0
    ensures s * n == n * s
  {
  }

  lemma {:induction false} RangeBounds(shape: Shape, strides: Strides, idx: Index)
    requires |shape| == |strides| && InBounds(idx, shape)
    ensures InBounds(LowIndex(shape, strides), shape) && InBounds(HighIndex(shape, strides), shape)
    ensures Dot(LowIndex(shape, strides), strides) <= Dot(idx, strides) <= Dot(HighIndex(shape, strides), strides)
  {
    if shape != [] {
      RangeBounds(shape[1..], strides[1..], idx[1..]);
      var l, h := LowIndex(shape, strides), HighIndex(shape, strides);
      AxisBounds(strides[0], idx[0], shape[0]);
      assert l[1..] == LowIndex(shape[1..], strides[1..]) && h[1..] == HighIndex(shape[1..], strides[1..]);
      forall k | 0 <= k < |shape| ensures l[k] < shape[k] && h[k] < shape[k] {
        if k > 0 {
          assert l[k] == l[1..][k - 1] && h[k] == h[1..][k - 1] && shape[k] == shape[1..][k - 1];
        }
      }
    }
  }

  lemma AxisBounds(s: int, i: nat, d: nat)
    requires i < d
    ensures s < 0 ==> (d - 1) * s <= i * s <= 0
    ensures s >= 0 ==> 0 <= i * s <= (d - 1) * s
  {
    SpanSign(s, i);
    SpanSign(s, d - 1 - i);
    assert (d - 1 - i) * s == (d - 1) * s - i * s;
  }

  /** `overlaps_with`. */
  method OverlapsWith(a: Layout, b: Layout) returns (overlap: bool)
    requires a.WellFormed() && b.WellFormed()
    ensures !overlap ==> SharesNoByte(a, b)
    ensures overlap <==> SomeBefore(a, b) && SomeBefore(b, a)
  {
    NonEmptyProd(a.shape);
    NonEmptyProd(b.shape);
    if a.Size() == 0 || b.Size() == 0 {
      assert forall i, j :: InBounds(i, a.shape) && InBounds(j, b.shape) ==> false;
      return false;
    }
    var lo1, hi1 := a.ByteRange();
    var lo2, hi2 := b.ByteRange();
    hi1, hi2 := hi1 + a.itemsize, hi2 + b.itemsize;
    forall i, j | InBounds(i, a.shape) && InBounds(j, b.shape)
      ensures lo1 <= a.Off(i) && a.Off(i) + a.itemsize <= hi1
      ensures lo2 <= b.Off(j) && b.Off(j) + b.itemsize <= hi2
    {
      RangeBounds(a.shape, a.strides, i);
      RangeBounds(b.shape, b.strides, j);
    }
    BeforeExactly(a, b);
    BeforeExactly(b, a);
    return lo1 < hi2 && lo2 < hi1;
  }

  lemma BeforeExactly(a: Layout, b: Layout)
    requires a.WellFormed() && b.WellFormed() && NonEmpty(a.shape) && NonEmpty(b.shape)
    ensures SomeBefore(a, b)
       <==> a.Off(LowIndex(a.shape, a.strides)) < b.Off(HighIndex(b.shape, b.strides)) + b.itemsize
  {
    hide Dot, LowIndex, HighIndex;
    var i0: Index, j0: Index := seq(|a.shape|, _ => 0), seq(|b.shape|, _ => 0);
    assert InBounds(i0, a.shape) && InBounds(j0, b.shape);
    RangeBounds(a.shape, a.strides, i0);
    RangeBounds(b.shape, b.strides, j0);
    if SomeBefore(a, b) {
      var i, j :| InBounds(i, a.shape) && InBounds(j, b.shape) &&
        a.offset + Dot(i, a.strides) < b.offset + Dot(j, b.strides) + b.itemsize;
      RangeBounds(a.shape, a.strides, i);
      RangeBounds(b.shape, b.strides, j);
    }
  }

  /** Some element of one layout begins before the end of some element of the other. */
  ghost predicate SomeBefore(a: Layout, b: Layout) {
    exists i, j :: InBounds(i, a.shape) && InBounds(j, b.shape) &&
      a.offset + Dot(i, a.strides) < b.offset + Dot(j, b.strides) + b.itemsize
  }

  /** No element of one layout has a byte in common with an element of the other. */
  ghost predicate SharesNoByte(a: Layout, b: Layout) {
    forall i, j :: InBounds(i, a.shape) && InBounds(j, b.shape) ==>
      a.Off(i) + a.itemsize <= b.Off(j) || b.Off(j) + b.itemsize <= a.Off(i)
  }

  /** The byte range is sound and tight: it contains every element offset and both ends are element offsets. */
  lemma ByteRangeTight(l: Layout, idx: Index)
    requires l.WellFormed() && InBounds(idx, l.shape)
    ensures l.Off(LowIndex(l.shape, l.strides)) <= l.Off(idx) <= l.Off(HighIndex(l.shape, l.strides))
    ensures InBounds(LowIndex(l.shape, l.strides), l.shape) && InBounds(HighIndex(l.shape, l.strides), l.shape)
  {
    RangeBounds(l.shape, l.strides, idx);
  }

  // Operations that undo or repeat each other.

  lemma PermuteInverse(l: Layout, axes: seq<nat>)
    requires l.WellFormed() && IsPermutation(axes, |l.shape|)
    ensures IsPermutation(Inverse(axes), |l.shape|)
    ensures l.Permuted(axes).Permuted(Inverse(axes)) == l
  {
    InverseIsPermutation(axes);
  }

  lemma TransposeInvolution(l: Layout)
    requires l.WellFormed()
    ensures l.Transpose().Transpose() == l
  {
  }

  lemma FlipTwice(l: Layout, axis: nat)
    requires l.WellFormed() && l.offset >= 0 && l.Flip(axis).Ok?
    requires ValidStrides(l.shape, l.strides, l.itemsize)
    ensures l.Flip(axis).value.Flip(axis) == Ok(l)
  {
    var m := l.Flip(axis).value;
    assert m.strides[axis := -m.strides[axis]] == l.strides;
    if l.shape[axis] > 0 {
      assert (l.shape[axis] - 1) * -l.strides[axis] == -((l.shape[axis] - 1) * l.strides[axis]);
    }
  }

  lemma BroadcastTwoSteps(l: Layout, s2: Shape, s3: Shape)
    requires l.WellFormed() && l.BroadcastTo(s2).Ok? && l.BroadcastTo(s2).value.BroadcastTo(s3).Ok?
    ensures l.BroadcastTo(s2).value.BroadcastTo(s3) == l.BroadcastTo(s3)
  {
    BroadcastTwice(l.shape, l.strides, s2, s3);
  }

  /** The column-major layout is the transpose of the row-major layout of the reversed shape. */
  lemma FIsTransposedC(shape: Shape, itemsize: nat)
    requires itemsize > 0
    ensures Layout(shape, FStrides(shape, itemsize), 0, itemsize)
         == Layout(Reverse(shape), CStrides(Reverse(shape), itemsize), 0, itemsize).Transpose()
  {
    FStridesReverse(shape, itemsize);
    hide CStrides, FStrides;
    var f := FStrides(shape, itemsize);
    assert Reverse(Reverse(shape)) == shape && Reverse(Reverse(f)) == f;
    if |shape| > 1 {
      var axes := ReversedAxes(|shape|);
      assert Pick(Reverse(shape), axes) == shape && Pick(Reverse(f), axes) == f;
    } else {
      assert Reverse(shape) == shape && Reverse(f) == f;
    }
  }

  /**
   * Two positive-step slices of one axis are one positive-step slice: the layouts are the same, but for
   * the offset when they are empty, and so address every element alike.
   */
  lemma SliceTwice(l: Layout, axis: nat, first: SliceArg, second: SliceArg)
    requires l.WellFormed() && axis < |l.shape|
    requires first.Step() > 0 && second.Step() > 0
    ensures var r1 := first.Resolve(l.shape[axis]).value;
      var arg := Composed(r1, second.Resolve(r1.count).value);
      && arg.Step() > 0 && l.SliceAxis(axis, arg).Ok?
      && l.SliceAxis(axis, first).Ok? && l.SliceAxis(axis, first).value.SliceAxis(axis, second).Ok?
      && var once, twice := l.SliceAxis(axis, arg).value, l.SliceAxis(axis, first).value.SliceAxis(axis, second).value;
         && once.(offset := twice.offset) == twice
         && (once.shape[axis] > 0 ==> once == twice)
         && forall idx :: InBounds(idx, once.shape) ==> once.Off(idx) == twice.Off(idx)
  {
    hide SliceArg.Resolve, Composed, SliceArg.Step;
    var d, s := l.shape[axis], l.strides[axis];
    ResolvedSteps(first, d);
    var r1 := first.Resolve(d).value;
    ResolvedSteps(second, r1.count);
    var r2 := second.Resolve(r1.count).value;
    ComposedResolves(first, second, d);
    var r := Composed(r1, r2).Resolve(d).value;
    SliceScales(r1.start, r2.start, r1.step, r2.step, s);
    var once, twice := l.Sliced(axis, r), l.Sliced(axis, r1).Sliced(axis, r2);
    assert once.shape == twice.shape && once.strides == twice.strides;
    forall idx | InBounds(idx, once.shape) ensures once.shape[axis] > 0 { assert idx[axis] < once.shape[axis]; }
  }

  lemma SliceScales(start1: int, start2: int, step1: int, step2: int, s: int)
    ensures (start1 + start2 * step1) * s == start1 * s + start2 * (s * step1)
    ensures (s * step1) * step2 == s * (step2 * step1)
  {
    assert (start1 + start2 * step1) * s == start1 * s + (start2 * step1) * s;
    assert (start2 * step1) * s == start2 * (step1 * s);
    assert s * (step1 * step2) == (s * step1) * step2;
  }

  lemma ResolvedSteps(arg: SliceArg, dim: nat)
    requires arg.Step() > 0
    ensures arg.Resolve(dim).Ok? && arg.Resolve(dim).value.step == arg.Step()
  {
  }
}
