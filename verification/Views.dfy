/** Every view reads its source at a computed index; what chains of views keep. */
module Views {
  import opened Arith
  import opened Results
  import opened Shapes
  import opened Permutations
  import opened Slices
  import opened NdIter
  import opened Layouts

  datatype ViewOp =
    | Permute(axes: seq<nat>)
    | Transpose
    | ExpandDims(axis: nat)
    | Squeeze
    | SqueezeAxis(axis: nat)
    | Reshape(newShape: Shape)
    | SliceAxis(axis: nat, arg: SliceArg)
    | BroadcastTo(newShape: Shape)
    | Flip(axis: nat)
    | Diagonal(k: int)

  /** The layout the operation returns, when it succeeds. */
  function View(l: Layout, op: ViewOp): (r: Option<Layout>)
    requires l.WellFormed()
    ensures r.Some? ==> r.value.WellFormed() && r.value.itemsize == l.itemsize
  {
    match op
    case Permute(axes) => if IsPermutation(axes, |l.shape|) then Some(l.Permuted(axes)) else None
    case Transpose => Some(l.Transpose())
    case ExpandDims(axis) => if axis <= |l.shape| then Some(l.Expanded(axis)) else None
    case Squeeze => KeepLongLength(l.shape, l.shape, l.strides); Some(l.Squeeze())
    case SqueezeAxis(axis) => Success(l.SqueezeAxis(axis))
    case Reshape(newShape) => Success(l.Reshape(newShape))
    case SliceAxis(axis, arg) => Success(l.SliceAxis(axis, arg))
    case BroadcastTo(newShape) => Success(l.BroadcastTo(newShape))
    case Flip(axis) => Success(l.Flip(axis))
    case Diagonal(k) => Success(l.Diagonal(k))
  }

  function Success<T>(r: Result<T>): Option<T> {
    if r.Ok? then Some(r.value) else None
  }

  /** Slices must keep their positions on the axis; every other operation is unrestricted. */
  predicate Allowed(l: Layout, op: ViewOp) {
    op.SliceAxis? && op.axis < |l.shape| ==> StaysInside(op.arg, l.shape[op.axis])
  }

  /** The index of the source element that the view shows at j. */
  function SourceIndex(l: Layout, op: ViewOp, j: Index): Index
    requires l.WellFormed() && View(l, op).Some? && InBounds(j, View(l, op).value.shape)
  {
    match op
    case Permute(axes) => Pick(j, Inverse(axes))
    case Transpose => if |l.shape| <= 1 then j else Pick(j, ReversedAxes(|l.shape|))
    case ExpandDims(axis) => Remove(j, axis)
    case Squeeze => Unsqueeze(j, l.shape)
    case SqueezeAxis(axis) => Insert(j, axis, 0)
    case Reshape(newShape) => RavelBound(j, newShape); Unravel(Ravel(j, newShape), l.shape)
    case SliceAxis(axis, arg) =>
      var p := arg.Resolve(l.shape[axis]).value.Position(j[axis]);
      j[axis := if p < 0 then 0 else p]
    case BroadcastTo(newShape) => Project(j, l.shape)
    case Flip(axis) => j[axis := Monus(l.shape[axis], 1 + j[axis])]
    case Diagonal(k) => DiagonalSource(k, j)
  }

  /** Row and column at the last coordinate's distance from the start of the k-th diagonal. */
  function DiagonalSource(k: int, j: Index): (i: Index)
    requires j != []
    ensures |i| == |j| + 1
  {
    var m := |j| - 1;
    j[..m] + [DiagonalRow(k) + j[m], DiagonalCol(k) + j[m]]
  }

  /** Puts a zero back at every axis of length one. */
  function Unsqueeze(j: Index, shape: Shape): (i: Index)
    requires |j| == |KeepLong(shape, shape)|
    ensures |i| == |shape|
  {
    if shape == [] then []
    else if shape[0] == 1 then [0] + Unsqueeze(j, shape[1..])
    else [j[0]] + Unsqueeze(j[1..], shape[1..])
  }

  /** Drops leading axes and reads axes of length one at zero. */
  function Project(j: Index, src: Shape): (i: Index)
    requires |src| <= |j|
    ensures |i| == |src|
  {
    seq(|src|, k requires 0 <= k < |src| => if src[k] == 1 then 0 else j[|j| - |src| + k])
  }

  // Stride sums.

  lemma {:induction false} DotUpdateIndex(idx: Index, st: Strides, k: nat, v: nat)
    requires |idx| == |st| && k < |idx|
    ensures Dot(idx[k := v], st) == Dot(idx, st) + (v - idx[k]) * st[k]
  {
    DotRemove(idx, st, k);
    DotRemove(idx[k := v], st, k);
    assert Remove(idx[k := v], k) == Remove(idx, k);
    assert (v - idx[k]) * st[k] == v * st[k] - idx[k] * st[k];
  }

  lemma DotUpdateStride(idx: Index, st: Strides, k: nat, s: int)
    requires |idx| == |st| && k < |idx|
    ensures Dot(idx, st[k := s]) == Dot(idx, st) + idx[k] * (s - st[k])
  {
    DotRemove(idx, st, k);
    DotRemove(idx, st[k := s], k);
    assert Remove(st[k := s], k) == Remove(st, k);
    assert idx[k] * (s - st[k]) == idx[k] * s - idx[k] * st[k];
  }

  lemma DotAppend(a: Index, s: Strides, x: nat, y: int)
    requires |a| == |s|
    ensures Dot(a + [x], s + [y]) == Dot(a, s) + x * y
  {
    DotRemove(a + [x], s + [y], |a|);
    assert Remove(a + [x], |a|) == a && Remove(s + [y], |a|) == s;
  }

  // One lemma per operation: the view's offset at j is the source's offset at the source index.

  /** The view shows at j the source element at `src`. */
  predicate Reads(l: Layout, v: Layout, j: Index, src: Index)
  {
    InBounds(src, l.shape) && v.Off(j) == l.Off(src)
  }

  lemma PermuteReads(l: Layout, axes: seq<nat>, j: Index)
    requires l.WellFormed() && IsPermutation(axes, |l.shape|) && InBounds(j, l.Permuted(axes).shape)
    ensures Reads(l, l.Permuted(axes), j, Pick(j, Inverse(axes)))
    ensures Pick(Pick(j, Inverse(axes)), axes) == j
  {
    InverseIsPermutation(axes);
    var i := Pick(j, Inverse(axes));
    assert Pick(i, axes) == j;
    DotPick(i, l.strides, axes);
    forall a | 0 <= a < |l.shape| ensures i[a] < l.shape[a] {
      assert j[Inverse(axes)[a]] < l.Permuted(axes).shape[Inverse(axes)[a]];
    }
  }

  lemma TransposeReads(l: Layout, j: Index)
    requires l.WellFormed() && InBounds(j, l.Transpose().shape)
    ensures Reads(l, l.Transpose(), j, SourceIndex(l, Transpose, j))
    ensures |l.shape| > 1 ==> Pick(SourceIndex(l, Transpose, j), ReversedAxes(|l.shape|)) == j
  {
    if |l.shape| > 1 {
      var axes := ReversedAxes(|l.shape|);
      InverseIsPermutation(axes);
      forall a | 0 <= a < |axes| ensures Inverse(axes)[a] == axes[a] {
        assert axes[axes[a]] == a;
      }
      assert Inverse(axes) == axes;
      assert l.Transpose() == l.Permuted(axes);
      assert SourceIndex(l, Transpose, j) == Pick(j, Inverse(axes));
      PermuteReads(l, axes, j);
    } else {
      assert l.Transpose() == l && SourceIndex(l, Transpose, j) == j;
    }
  }

  lemma ExpandReads(l: Layout, axis: nat, j: Index)
    requires l.WellFormed() && axis <= |l.shape| && InBounds(j, l.Expanded(axis).shape)
    ensures Reads(l, l.Expanded(axis), j, Remove(j, axis)) && j[axis] == 0
  {
    var v := l.Expanded(axis);
    assert j[axis] < v.shape[axis] == 1;
    DotRemove(j, v.strides, axis);
    assert Remove(v.strides, axis) == l.strides;
    forall k | 0 <= k < |l.shape| ensures Remove(j, axis)[k] < l.shape[k] {
      var p := if k < axis then k else k + 1;
      assert j[p] < v.shape[p];
    }
  }

  lemma {:induction false} SqueezeReads(shape: Shape, strides: Strides, j: Index)
    requires |shape| == |strides| && InBounds(j, KeepLong(shape, shape))
    ensures |KeepLong(shape, strides)| == |j|
    ensures InBounds(Unsqueeze(j, shape), shape)
    ensures Dot(j, KeepLong(shape, strides)) == Dot(Unsqueeze(j, shape), strides)
  {
    if shape != [] {
      var rest := if shape[0] == 1 then j else j[1..];
      SqueezeTail(shape, j);
      SqueezeReads(shape[1..], strides[1..], rest);
      var i := Unsqueeze(j, shape);
      assert i[1..] == Unsqueeze(rest, shape[1..]);
      ConsInBounds(i, shape);
      var kept := KeepLong(shape[1..], strides[1..]);
      if shape[0] == 1 {
        assert KeepLong(shape, strides) == kept;
      } else {
        assert KeepLong(shape, strides) == [strides[0]] + kept;
      }
    }
  }

  lemma {:induction false} SqueezeKeeps(shape: Shape, j: Index)
    requires InBounds(j, KeepLong(shape, shape))
    ensures KeepLong(shape, Unsqueeze(j, shape)) == j
  {
    if shape != [] {
      var rest := if shape[0] == 1 then j else j[1..];
      SqueezeTail(shape, j);
      SqueezeKeeps(shape[1..], rest);
      assert Unsqueeze(j, shape)[1..] == Unsqueeze(rest, shape[1..]);
    }
  }

  lemma SqueezeTail(shape: Shape, j: Index)
    requires shape != [] && InBounds(j, KeepLong(shape, shape))
    ensures InBounds(if shape[0] == 1 then j else j[1..], KeepLong(shape[1..], shape[1..]))
    ensures shape[0] != 1 ==> j[0] < shape[0]
  {
    var kept := KeepLong(shape, shape);
    var tail := KeepLong(shape[1..], shape[1..]);
    if shape[0] != 1 {
      assert kept == [shape[0]] + tail;
      assert j[0] < kept[0];
      forall k | 0 <= k < |tail| ensures j[1..][k] < tail[k] {
        assert j[k + 1] < kept[k + 1];
      }
    }
  }

  lemma SqueezeAxisReads(l: Layout, axis: nat, j: Index)
    requires l.WellFormed() && l.SqueezeAxis(axis).Ok? && InBounds(j, l.SqueezeAxis(axis).value.shape)
    ensures Reads(l, l.SqueezeAxis(axis).value, j, Insert(j, axis, 0))
    ensures Remove(Insert(j, axis, 0), axis) == j
  {
    var i := Insert(j, axis, 0);
    assert Remove(i, axis) == j;
    DotRemove(i, l.strides, axis);
    forall k | 0 <= k < |l.shape| ensures i[k] < l.shape[k] {
      if k != axis {
        var p := if k < axis then k else k - 1;
        assert j[p] < Remove(l.shape, axis)[p];
      }
    }
  }

  lemma SliceReads(l: Layout, axis: nat, r: Resolved, j: Index)
    requires l.WellFormed() && axis < |l.shape| && InBounds(j, l.Sliced(axis, r).shape)
    requires r.Inside(l.shape[axis])
    ensures 0 <= r.Position(j[axis])
    ensures Reads(l, l.Sliced(axis, r), j, j[axis := r.Position(j[axis])])
  {
    var v := l.Sliced(axis, r);
    assert j[axis] < v.shape[axis];
    var p: nat := r.Position(j[axis]);
    DotUpdateIndex(j, l.strides, axis, p);
    DotUpdateStride(j, l.strides, axis, l.strides[axis] * r.step);
    SliceArithmetic(r.start, r.step, j[axis], l.strides[axis]);
    forall k | 0 <= k < |l.shape| ensures j[axis := p][k] < l.shape[k] {
      if k != axis { assert j[k] < v.shape[k]; }
    }
  }

  lemma SliceArithmetic(start: int, step: int, c: int, s: int)
    ensures (start + c * step - c) * s == start * s + c * (s * step - s)
  {
    assert (start + c * step - c) * s == start * s + (c * step) * s - c * s;
    assert (c * step) * s == c * (s * step);
    assert c * (s * step - s) == c * (s * step) - c * s;
  }

  lemma BroadcastReads(l: Layout, tgt: Shape, j: Index)
    requires l.WellFormed() && Broadcastable(l.shape, tgt) && InBounds(j, tgt)
    ensures Reads(l, l.BroadcastTo(tgt).value, j, Project(j, l.shape))
  {
    var i := Project(j, l.shape);
    forall k | 0 <= k < |l.shape| ensures i[k] < l.shape[k] {
      var t := |tgt| - |l.shape| + k;
      assert l.shape[k] == tgt[t] || l.shape[k] == 1;
      assert j[t] < tgt[t];
    }
    BroadcastDot(l.shape, l.strides, tgt, j);
  }

  lemma {:induction false} BroadcastDot(src: Shape, strides: Strides, tgt: Shape, j: Index)
    requires |src| == |strides| && Broadcastable(src, tgt) && InBounds(j, tgt)
    ensures Dot(j, BroadcastStrides(src, strides, tgt)) == Dot(Project(j, src), strides)
    decreases |tgt|
  {
    if |tgt| > |src| {
      BroadcastLead(src, strides, tgt, j);
      hide BroadcastStrides, Broadcastable, Project;
      TailInBounds(j, tgt);
      BroadcastDot(src, strides, tgt[1..], j[1..]);
    } else if src != [] {
      BroadcastTail(src, strides, tgt, j);
      hide BroadcastStrides, Broadcastable, Project;
      TailInBounds(j, tgt);
      BroadcastDot(src[1..], strides[1..], tgt[1..], j[1..]);
    }
  }

  /** A new leading axis has stride zero and is dropped. */
  lemma BroadcastLead(src: Shape, strides: Strides, tgt: Shape, j: Index)
    requires |src| == |strides| && Broadcastable(src, tgt) && |tgt| == |j| && |tgt| > |src|
    ensures Broadcastable(src, tgt[1..])
    ensures var b := BroadcastStrides(src, strides, tgt);
      b[0] == 0 && b[1..] == BroadcastStrides(src, strides, tgt[1..])
    ensures Project(j[1..], src) == Project(j, src)
  {
  }

  /** A matched first axis contributes the same on both sides. */
  lemma BroadcastTail(src: Shape, strides: Strides, tgt: Shape, j: Index)
    requires |src| == |strides| && Broadcastable(src, tgt) && InBounds(j, tgt) && |tgt| == |src| > 0
    ensures Broadcastable(src[1..], tgt[1..])
    ensures var b := BroadcastStrides(src, strides, tgt);
      b[1..] == BroadcastStrides(src[1..], strides[1..], tgt[1..]) && j[0] * b[0] == Project(j, src)[0] * strides[0]
    ensures Project(j, src)[1..] == Project(j[1..], src[1..])
  {
    forall k | 0 <= k < |src[1..]| ensures src[1..][k] == tgt[1..][k] || src[1..][k] == 1 {
      assert src[k + 1] == tgt[k + 1] || src[k + 1] == 1;
    }
    assert j[0] < tgt[0] && (src[0] == tgt[0] || src[0] == 1);
  }

  lemma FlipReads(l: Layout, axis: nat, j: Index)
    requires l.WellFormed() && l.Flip(axis).Ok? && InBounds(j, l.shape)
    ensures Reads(l, l.Flip(axis).value, j, j[axis := Monus(l.shape[axis], 1 + j[axis])])
  {
    var d, c := l.shape[axis], j[axis];
    assert c < d;
    DotUpdateIndex(j, l.strides, axis, d - 1 - c);
    DotUpdateStride(j, l.strides, axis, -l.strides[axis]);
    FlipArithmetic(d, c, l.strides[axis]);
  }

  lemma FlipArithmetic(d: int, c: int, s: int)
    ensures (d - 1) * s + c * (-s - s) == (d - 1 - c - c) * s
  {
    assert (d - 1 - c - c) * s == (d - 1) * s - c * s - c * s;
    assert c * (-s - s) == -(c * s) - c * s;
  }

  lemma DiagonalReads(l: Layout, k: int, j: Index)
    requires l.WellFormed() && l.Diagonal(k).Ok? && InBounds(j, l.Diagonal(k).value.shape)
    ensures Reads(l, l.Diagonal(k).value, j, SourceIndex(l, Diagonal(k), j))
  {
    DiagonalInBounds(l, k, j);
    var nd, s := |l.shape|, l.strides;
    assert |j| == nd - 1;
    var zero: Index := seq(nd - 2, _ => 0);
    LastTwo(s);
    LastOne(j);
    DiagonalDots(s, s[..nd - 2], s[nd - 2], s[nd - 1], zero, j, j[..nd - 2], DiagonalRow(k), DiagonalCol(k), j[nd - 2]);
    hide Dot, InBounds, NewCustom, Layout.CheckedOff, DiagonalRow, DiagonalCol, Min, Monus;
  }

  lemma LastTwo(s: Strides)
    requires |s| >= 2
    ensures s == s[..|s| - 2] + [s[|s| - 2], s[|s| - 1]]
  {
  }

  lemma LastOne(j: Index)
    requires j != []
    ensures j == j[..|j| - 1] + [j[|j| - 1]]
  {
  }

  /** Walking t steps along the diagonal is walking t steps along both axes. */
  lemma DiagonalDots(s: Strides, lead: Strides, rs: int, cs: int, zero: Index, j: Index, js: Index,
                     row: nat, col: nat, t: nat)
    requires |lead| == |zero| == |js| && AllZero(zero) && s == lead + [rs, cs] && j == js + [t]
    ensures Dot(js + [row + t, col + t], s) == Dot(zero + [row, col], s) + Dot(j, lead + [rs + cs])
  {
    hide Dot, AllZero, PairSum;
    DotZero(zero, lead);
    DotPair(zero, lead, row, col, rs, cs);
    DotPair(js, lead, row + t, col + t, rs, cs);
    DotAppend(js, lead, t, rs + cs);
    DiagonalArithmetic(row, col, t, rs, cs);
  }

  function PairSum(x: int, y: int, rs: int, cs: int): int {
    x * rs + y * cs
  }

  lemma DiagonalInBounds(l: Layout, k: int, j: Index)
    requires l.WellFormed() && l.Diagonal(k).Ok? && InBounds(j, l.Diagonal(k).value.shape)
    ensures InBounds(SourceIndex(l, Diagonal(k), j), l.shape)
  {
    var nd := |l.shape|;
    var v := l.Diagonal(k).value;
    assert j[nd - 2] < v.shape[nd - 2];
    forall a | 0 <= a < nd ensures SourceIndex(l, Diagonal(k), j)[a] < l.shape[a] {
      if a < nd - 2 { assert j[a] < v.shape[a]; }
    }
  }

  lemma DiagonalArithmetic(row: int, col: int, t: int, rs: int, cs: int)
    ensures PairSum(row + t, col + t, rs, cs) == PairSum(row, col, rs, cs) + t * (rs + cs)
  {
    assert t * (rs + cs) == t * rs + t * cs;
    assert (row + t) * rs == row * rs + t * rs;
    assert (col + t) * cs == col * cs + t * cs;
  }

  lemma DotPair(a: Index, s: Strides, x: nat, y: nat, p: int, q: int)
    requires |a| == |s|
    ensures Dot(a + [x, y], s + [p, q]) == Dot(a, s) + PairSum(x, y, p, q)
  {
    assert a + [x, y] == a + [x] + [y] && s + [p, q] == s + [p] + [q];
    DotAppend(a + [x], s + [p], y, q);
    DotAppend(a, s, x, p);
  }

  lemma {:induction false} DotZero(idx: Index, strides: Strides)
    requires |idx| == |strides| && AllZero(idx)
    ensures Dot(idx, strides) == 0
  {
    if idx != [] { DotZero(idx[1..], strides[1..]); }
  }

  // What a layout over n bytes keeps.

  /** Every element lies inside the n-byte allocation, on an itemsize boundary. */
  ghost predicate Fits(l: Layout, n: nat)
    requires l.WellFormed()
  {
    forall i :: InBounds(i, l.shape) ==> 0 <= l.Off(i) <= n - l.itemsize && l.Off(i) % l.itemsize == 0
  }

  /** The indices agree on every axis with a non-zero stride. */
  predicate Agree(strides: Strides, i: Index, j: Index) {
    |i| == |j| == |strides| && forall k :: 0 <= k < |strides| && strides[k] != 0 ==> i[k] == j[k]
  }

  /** Two indices address the same element only when they differ on zero-stride axes alone. */
  ghost predicate SharesOnlyByBroadcast(l: Layout)
    requires l.WellFormed()
  {
    forall i, j :: InBounds(i, l.shape) && InBounds(j, l.shape) && l.Off(i) == l.Off(j) ==> Agree(l.strides, i, j)
  }

  ghost predicate Injective(l: Layout)
    requires l.WellFormed()
  {
    forall i, j :: InBounds(i, l.shape) && InBounds(j, l.shape) && l.Off(i) == l.Off(j) ==> i == j
  }

  /** A C-contiguous layout that fits has exact strides: the saturating multiplication never fired. */
  lemma ContiguousFits(l: Layout, n: nat)
    requires l.WellFormed() && Fits(l, n) && n <= ISIZE_MAX
    requires l.CContiguous() && NonEmpty(l.shape)
    ensures l.itemsize * Prod(l.shape) <= n
    ensures l.strides == CStrides(l.shape, l.itemsize)
  {
    var h := HighIndex(l.shape, l.strides);
    var low := LowIndex(l.shape, l.strides);
    var zero: Index := seq(|l.shape|, _ => 0);
    assert InBounds(zero, l.shape);
    RangeBounds(l.shape, l.strides, zero);
    DotZero(zero, l.strides);
    assert l.Off(h) <= n - l.itemsize && l.Off(zero) >= 0;
    ExtentExact(l.shape, l.itemsize, n);
  }

  /** If the last element of a row-major layout ends within n <= isize::MAX bytes, the whole array does. */
  lemma {:induction false} ExtentExact(shape: Shape, itemsize: nat, n: nat)
    requires NonEmpty(shape) && n <= ISIZE_MAX && itemsize > 0
    requires Extent(shape, itemsize) <= n
    ensures Extent(shape, itemsize) == itemsize * Prod(shape)
  {
    if shape != [] {
      var st := CStrides(shape, itemsize);
      var h := HighIndex(shape, st);
      assert st[1..] == CStrides(shape[1..], itemsize) && h[1..] == HighIndex(shape[1..], st[1..]);
      NonEmptyTail(shape);
      assert shape[0] > 0;
      SpanSign(st[0], h[0]);
      assert Extent(shape, itemsize) == h[0] * st[0] + Extent(shape[1..], itemsize);
      ExtentExact(shape[1..], itemsize, n);
      AccExact(shape[1..], itemsize);
      NonEmptyProd(shape[1..]);
      ExtentStep(shape[0], itemsize, Prod(shape[1..]));
    }
  }

  /** Bytes up to the end of the last element of a row-major layout. */
  function Extent(shape: Shape, itemsize: nat): int {
    var st := CStrides(shape, itemsize);
    Dot(HighIndex(shape, st), st) + itemsize
  }

  lemma NonEmptyTail(shape: Shape)
    requires shape != [] && NonEmpty(shape)
    ensures NonEmpty(shape[1..])
  {
    forall k | 0 <= k < |shape[1..]| ensures shape[1..][k] > 0 { assert shape[1..][k] == shape[k + 1]; }
  }

  lemma ExtentStep(d: nat, itemsize: nat, p: nat)
    requires d > 0 && p > 0 && itemsize > 0
    ensures itemsize * p > 0
    ensures (d - 1) * (itemsize * p) + itemsize * p == itemsize * (d * p)
  {
    MulAtLeast(p, itemsize);
    MulSwap(d, itemsize, p);
    assert (d - 1) * (itemsize * p) == d * (itemsize * p) - itemsize * p;
  }

  lemma ReshapeReads(l: Layout, newShape: Shape, n: nat, j: Index)
    requires l.WellFormed() && Fits(l, n) && n <= ISIZE_MAX
    requires l.Reshape(newShape).Ok? && InBounds(j, newShape)
    ensures Ravel(j, newShape) < Prod(l.shape)
    ensures Reads(l, l.Reshape(newShape).value, j, Unravel(Ravel(j, newShape), l.shape))
  {
    RavelBound(j, newShape);
    NonEmptyProd(l.shape);
    NonEmptyProd(newShape);
    ContiguousFits(l, n);
    var i := Unravel(Ravel(j, newShape), l.shape);
    UnravelInBounds(Ravel(j, newShape), l.shape);
    RavelUnravel(Ravel(j, newShape), l.shape);
    CStridesRavel(l.shape, l.itemsize, i);
    CStridesRavel(newShape, l.itemsize, j);
  }

  /** Every view reads exactly the source element at the source index. */
  lemma ViewReads(l: Layout, op: ViewOp, n: nat, j: Index)
    requires l.WellFormed() && Fits(l, n) && n <= ISIZE_MAX && Allowed(l, op)
    requires View(l, op).Some? && InBounds(j, View(l, op).value.shape)
    ensures InBounds(SourceIndex(l, op, j), l.shape)
    ensures View(l, op).value.Off(j) == l.Off(SourceIndex(l, op, j))
  {
    hide Fits, Inverse, Monus, Dot, Unravel;
    match op
    case Permute(axes) =>
      PermuteReads(l, axes, j);
      assert View(l, op).value == l.Permuted(axes) && SourceIndex(l, op, j) == Pick(j, Inverse(axes));
    case Transpose => TransposeReads(l, j);
    case ExpandDims(axis) => ExpandReads(l, axis, j);
    case Squeeze =>
      SqueezeReads(l.shape, l.strides, j);
      assert View(l, op).value == l.Squeeze() && SourceIndex(l, op, j) == Unsqueeze(j, l.shape);
    case SqueezeAxis(axis) => SqueezeAxisReads(l, axis, j);
    case Reshape(newShape) => ReshapeReads(l, newShape, n, j);
    case SliceAxis(axis, arg) => SliceReads(l, axis, arg.Resolve(l.shape[axis]).value, j);
    case BroadcastTo(newShape) => BroadcastReads(l, newShape, j);
    case Flip(axis) => FlipReads(l, axis, j);
    case Diagonal(k) => DiagonalReads(l, k, j);
  }
}
