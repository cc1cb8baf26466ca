/** When each view succeeds, what layout it returns and with which error it fails, field by field. */
module ViewResults {
  import opened Arith
  import opened Results
  import opened Shapes
  import opened Permutations
  import opened Slices
  import opened Layouts
  import opened Views

  /** The operations of a chain are the layout's own. */
  lemma ViewIs(l: Layout)
    requires l.WellFormed()
    ensures forall axis :: View(l, SqueezeAxis(axis)) == AsOption(l.SqueezeAxis(axis))
    ensures forall newShape :: View(l, Reshape(newShape)) == AsOption(l.Reshape(newShape))
    ensures forall axis, arg :: View(l, SliceAxis(axis, arg)) == AsOption(l.SliceAxis(axis, arg))
    ensures forall tgt :: View(l, BroadcastTo(tgt)) == AsOption(l.BroadcastTo(tgt))
    ensures forall axis :: View(l, Flip(axis)) == AsOption(l.Flip(axis))
    ensures forall k :: View(l, Diagonal(k)) == AsOption(l.Diagonal(k))
  {
  }

  function AsOption(r: Result<Layout>): (o: Option<Layout>)
    ensures o.Some? <==> r.Ok?
    ensures r.Ok? ==> o == Some(r.value)
  {
    match r
    case Ok(v) => Some(v)
    case _ => None
  }

  /** Only one kind of slice is not allowed: backwards, from a start at or past the end, to a stop before it. */
  lemma AllowedExactly(l: Layout, op: ViewOp)
    requires forall k :: 0 <= k < |l.shape| ==> l.shape[k] <= ISIZE_MAX
    ensures Allowed(l, op) <==>
      match op
      case SliceAxis(axis, arg) =>
        axis < |l.shape| && arg.step.Some? && arg.step.value < 0 && arg.start.Some? && arg.stop.Some? ==>
          arg.start.value < l.shape[axis] || arg.stop.value + l.shape[axis] < 0 || arg.stop.value >= l.shape[axis]
      case _ => true
  {
    if op.SliceAxis? && op.axis < |l.shape| {
      StaysInsideExactly(op.arg, l.shape[op.axis]);
      hide StaysInside;
    }
  }

  // Permuting.

  function Named(s: seq<nat>): set<nat> {
    set x | x in s
  }

  lemma {:induction false} DistinctCount(s: seq<nat>)
    ensures |Named(s)| <= |s|
  {
    if s != [] {
      DistinctCount(s[1..]);
      assert s == [s[0]] + s[1..];
      assert Named(s) == Named(s[1..]) + {s[0]};
      if s[0] in Named(s[1..]) { assert Named(s) == Named(s[1..]); }
    } else {
      assert Named(s) == {};
    }
  }

  /** Fewer entries than numbers below n cannot name them all, nor n entries one more. */
  lemma TooFew(s: seq<nat>, n: nat, extra: set<nat>)
    requires forall a: nat :: a < n ==> a in s
    requires extra <= Named(s) && forall x <- extra :: x >= n
    ensures n + |extra| <= |s|
  {
    DistinctCount(s);
    assert Below(n) !! extra;
    SubsetSize(Below(n) + extra, Named(s));
  }

  /** Naming every axis with as many entries as there are axes is naming each once. */
  lemma EveryAxisNamed(axes: seq<nat>)
    ensures IsPermutation(axes, |axes|) <==> forall a: nat :: a < |axes| ==> a in axes
  {
    var n := |axes|;
    if IsPermutation(axes, n) {
      forall a: nat | a < n ensures a in axes { Onto(axes, a); }
    }
    if forall a: nat :: a < n ==> a in axes {
      forall k | 0 <= k < n ensures axes[k] < n { NoneBeyond(axes, k); }
      forall i, j | 0 <= i < j < n ensures axes[i] != axes[j] { NoneTwice(axes, i, j); }
    }
  }

  lemma NoneBeyond(axes: seq<nat>, k: nat)
    requires k < |axes| && forall a: nat :: a < |axes| ==> a in axes
    ensures axes[k] < |axes|
  {
    if axes[k] >= |axes| { TooFew(axes, |axes|, {axes[k]}); }
  }

  lemma NoneTwice(axes: seq<nat>, i: nat, j: nat)
    requires i < j < |axes| && forall a: nat :: a < |axes| ==> a in axes
    ensures axes[i] != axes[j]
  {
    if axes[i] == axes[j] {
      var rest := Remove(axes, j);
      forall a: nat | a < |axes| ensures a in rest {
        assert a in axes;
        var k :| 0 <= k < |axes| && axes[k] == a;
        StillNamed(axes, i, j, k);
      }
      hide Remove;
      TooFew(rest, |axes|, {});
    }
  }

  lemma StillNamed(axes: seq<nat>, i: nat, j: nat, k: nat)
    requires i < j < |axes| && axes[i] == axes[j] && k < |axes|
    ensures axes[k] in Remove(axes, j)
  {
    var at := if k == j then i else if k < j then k else k - 1;
    assert Remove(axes, j)[at] == axes[k];
  }

  lemma PermuteIs(l: Layout, axes: seq<nat>)
    requires l.WellFormed()
    ensures View(l, Permute(axes)).Some? <==> |axes| == |l.shape| && forall a: nat :: a < |l.shape| ==> a in axes
    ensures View(l, Permute(axes)).Some? ==>
      var v := View(l, Permute(axes)).value;
      && v.offset == l.offset && |v.shape| == |l.shape|
      && forall k :: 0 <= k < |axes| ==>
           axes[k] < |l.shape| && v.shape[k] == l.shape[axes[k]] && v.strides[k] == l.strides[axes[k]]
  {
    EveryAxisNamed(axes);
  }

  lemma TransposeIs(l: Layout)
    requires l.WellFormed()
    ensures View(l, Transpose).Some?
    ensures var v, n := View(l, Transpose).value, |l.shape|;
      && v.offset == l.offset && |v.shape| == n
      && forall k :: 0 <= k < n ==> v.shape[k] == l.shape[n - 1 - k] && v.strides[k] == l.strides[n - 1 - k]
  {
  }

  // Axes of length one.

  lemma ExpandDimsIs(l: Layout, axis: nat)
    requires l.WellFormed()
    ensures View(l, ExpandDims(axis)).Some? <==> axis <= |l.shape|
    ensures axis <= |l.shape| ==>
      View(l, ExpandDims(axis)) == Some(Layout(l.shape[..axis] + [1] + l.shape[axis..],
        l.strides[..axis] + [l.itemsize] + l.strides[axis..], l.offset, l.itemsize))
  {
  }

  /** Squeezing keeps the lengths other than one, with their strides, in order. */
  lemma SqueezeIs(l: Layout)
    requires l.WellFormed()
    ensures View(l, Squeeze).Some?
    ensures var v := View(l, Squeeze).value;
      && v.offset == l.offset && 1 !in v.shape
      && (1 !in l.shape ==> v == l)
      && forall k :: 0 <= k < |l.shape| && l.shape[k] == 1 ==>
           v == Layout(l.shape[..k] + l.shape[k + 1..], l.strides[..k] + l.strides[k + 1..], l.offset, l.itemsize).Squeeze()
  {
    KeepsLong(l.shape, l.shape);
    if 1 !in l.shape {
      KeepsAll(l.shape, l.shape);
      KeepsAll(l.shape, l.strides);
    }
    forall k | 0 <= k < |l.shape| && l.shape[k] == 1
      ensures KeepLong(l.shape, l.shape) == KeepLong(l.shape[..k] + l.shape[k + 1..], l.shape[..k] + l.shape[k + 1..])
      ensures KeepLong(l.shape, l.strides) == KeepLong(l.shape[..k] + l.shape[k + 1..], l.strides[..k] + l.strides[k + 1..])
    {
      SkipsOne(l.shape, l.shape, k);
      SkipsOne(l.shape, l.strides, k);
    }
  }

  lemma {:induction false} KeepsLong(shape: Shape, s: Shape)
    requires s == shape
    ensures 1 !in KeepLong(shape, s)
  {
    if s != [] { KeepsLong(shape[1..], s[1..]); }
  }

  lemma {:induction false} KeepsAll<T>(shape: Shape, s: seq<T>)
    requires |s| == |shape| && 1 !in shape
    ensures KeepLong(shape, s) == s
  {
    if s != [] {
      assert forall x <- shape[1..] :: x in shape;
      KeepsAll(shape[1..], s[1..]);
    }
  }

  lemma {:induction false} SkipsOne<T>(shape: Shape, s: seq<T>, k: nat)
    requires |s| == |shape| && k < |shape| && shape[k] == 1
    ensures KeepLong(shape, s) == KeepLong(shape[..k] + shape[k + 1..], s[..k] + s[k + 1..])
  {
    var shape', s' := shape[..k] + shape[k + 1..], s[..k] + s[k + 1..];
    if k == 0 {
      assert shape' == shape[1..] && s' == s[1..];
    } else {
      SkipsOne(shape[1..], s[1..], k - 1);
      assert shape'[1..] == shape[1..][..k - 1] + shape[1..][k..] && s'[1..] == s[1..][..k - 1] + s[1..][k..];
    }
  }

  lemma SqueezeAxisIs(l: Layout, axis: nat)
    requires l.WellFormed()
    ensures l.SqueezeAxis(axis) ==
      if axis >= |l.shape| then Err(AxisOutOfRange)
      else if l.shape[axis] != 1 then Err(Bug)
      else Ok(Layout(l.shape[..axis] + l.shape[axis + 1..], l.strides[..axis] + l.strides[axis + 1..], l.offset, l.itemsize))
  {
  }

  // Reshaping.

  /** C-contiguous means empty, or every stride the cut-off bytes of everything to its right. */
  lemma ContiguousExactly(l: Layout)
    requires l.WellFormed() && l.itemsize <= 0x7FFF_FFFF_FFFF_FFFF
    ensures l.CContiguous() <==>
      || 0 in l.shape
      || forall k :: 0 <= k < |l.shape| ==> l.strides[k] == CutOff(l.itemsize * Prod(l.shape[k + 1..]))
  {
    if 0 in l.shape {
      var k :| 0 <= k < |l.shape| && l.shape[k] == 0;
    } else {
      forall k | 0 <= k < |l.shape|
        ensures CStrides(l.shape, l.itemsize)[k] == CutOff(l.itemsize * Prod(l.shape[k + 1..]))
      {
        CStrideAt(l.shape, l.itemsize, k);
      }
      hide CStrides, Prod, CutOff;
      if forall k :: 0 <= k < |l.shape| ==> l.strides[k] == CutOff(l.itemsize * Prod(l.shape[k + 1..])) {
        assert l.strides == CStrides(l.shape, l.itemsize);
      }
    }
  }

  lemma ReshapeIs(l: Layout, newShape: Shape)
    requires l.WellFormed() && l.itemsize <= 0x7FFF_FFFF_FFFF_FFFF
    ensures var contiguous := 0 in l.shape ||
        forall k :: 0 <= k < |l.shape| ==> l.strides[k] == CutOff(l.itemsize * Prod(l.shape[k + 1..]));
      && (l.Reshape(newShape).Ok? <==> contiguous && Prod(newShape) == Prod(l.shape))
      && (!contiguous ==> l.Reshape(newShape) == Err(NonContiguous))
      && (contiguous && Prod(newShape) != Prod(l.shape) ==> l.Reshape(newShape) == Err(ReshapeIncompatible))
    ensures l.Reshape(newShape).Ok? ==>
      var v := l.Reshape(newShape).value;
      && v.shape == newShape && v.offset == l.offset && v.itemsize == l.itemsize
      && forall k :: 0 <= k < |newShape| ==>
           v.strides[k] == (if NonEmpty(newShape[k + 1..]) then CutOff(l.itemsize * Prod(newShape[k + 1..])) else 0)
  {
    hide CStrides, Prod, CutOff;
    ContiguousExactly(l);
    forall k | 0 <= k < |newShape| { CStrideAt(newShape, l.itemsize, k); }
  }

  // Slicing.

  /** A slice fails only beyond the axes and for a step of zero, and changes one axis and the offset. */
  lemma SliceIs(l: Layout, axis: nat, arg: SliceArg)
    requires l.WellFormed()
    ensures axis >= |l.shape| ==> l.SliceAxis(axis, arg) == Err(AxisOutOfRange)
    ensures axis < |l.shape| && arg.step == Some(0) ==> l.SliceAxis(axis, arg) == Err(ZeroSliceStep)
    ensures l.SliceAxis(axis, arg).Ok? <==> axis < |l.shape| && arg.step != Some(0)
    ensures l.SliceAxis(axis, arg).Ok? ==>
      var r := arg.Resolve(l.shape[axis]).value;
      && (arg.step.Some? ==> r.step == arg.step.value) && (arg.step.None? ==> r.step == 1)
      && l.SliceAxis(axis, arg).value == Layout(l.shape[axis := r.count], l.strides[axis := l.strides[axis] * r.step],
                                                l.offset + r.start * l.strides[axis], l.itemsize)
  {
  }

  /** Without start, stop and step a slice is the whole axis. */
  lemma WholeAxis(dim: nat)
    ensures SliceArg(None, None, None).Resolve(dim) == Ok(Resolved(0, dim, 1))
  {
  }

  // Broadcasting.

  /** Trailing source axes must match or be one; new axes and stretched ones get stride zero. */
  lemma BroadcastIs(l: Layout, tgt: Shape)
    requires l.WellFormed()
    ensures l.BroadcastTo(tgt).Ok? <==>
      && |l.shape| <= |tgt|
      && forall k :: 0 <= k < |l.shape| ==> l.shape[k] == tgt[|tgt| - |l.shape| + k] || l.shape[k] == 1
    ensures !l.BroadcastTo(tgt).Ok? ==> l.BroadcastTo(tgt) == Err(BroadcastError)
    ensures l.BroadcastTo(tgt).Ok? ==>
      var v, lead := l.BroadcastTo(tgt).value, |tgt| - |l.shape|;
      && v.shape == tgt && v.offset == l.offset && v.itemsize == l.itemsize
      && forall k :: 0 <= k < |tgt| ==>
           v.strides[k] == (if k >= lead && l.shape[k - lead] == tgt[k] then l.strides[k - lead] else 0)
  {
  }

  // Flipping.

  lemma FlipIs(l: Layout, axis: nat)
    requires l.WellFormed()
    ensures var delta := if axis < |l.shape| && l.shape[axis] > 0 then (l.shape[axis] - 1) * l.strides[axis] else 0;
      var offset := l.offset + delta;
      && (l.Flip(axis).Ok? <==>
           && axis < |l.shape| && offset >= 0
           && forall k :: 0 <= k < |l.shape| ==> l.shape[k] <= 1 || l.strides[k] % l.itemsize == 0)
      && (axis >= |l.shape| || offset < 0 ==> l.Flip(axis) == Err(Bug))
      && (l.Flip(axis).Ok? ==>
           l.Flip(axis).value == Layout(l.shape, l.strides[axis := -l.strides[axis]], offset, l.itemsize))
  {
    if axis < |l.shape| { NegatedRemainder(l.strides[axis], l.itemsize); }
  }

  lemma NegatedRemainder(s: int, d: nat)
    requires d > 0
    ensures (-s) % d == 0 <==> s % d == 0
  {
    if s % d == 0 {
      Exact(s, d);
      assert -s == (-(s / d)) * d;
      ModOfMultiple(-(s / d), d);
    }
    if (-s) % d == 0 {
      Exact(-s, d);
      assert s == (-((-s) / d)) * d;
      ModOfMultiple(-((-s) / d), d);
    }
  }

  // The diagonal.

  /** The diagonal from a row and column of the last two axes, with the batch axes kept. */
  function Along(l: Layout, row: nat, col: nat, len: nat): Layout
    requires l.WellFormed() && |l.shape| >= 2
  {
    var nd := |l.shape|;
    Layout(l.shape[..nd - 2] + [len], l.strides[..nd - 2] + [l.strides[nd - 2] + l.strides[nd - 1]],
           l.offset + row * l.strides[nd - 2] + col * l.strides[nd - 1], l.itemsize)
  }

  /** The element at this row and column exists, with the batch coordinates at zero. */
  predicate Starts(l: Layout, row: nat, col: nat)
    requires |l.shape| >= 2
  {
    var nd := |l.shape|;
    row < l.shape[nd - 2] && col < l.shape[nd - 1] && forall a :: 0 <= a < nd - 2 ==> l.shape[a] > 0
  }

  /** What is left of the row or of the column, whichever is less. */
  function Left(l: Layout, row: nat, col: nat): nat
    requires |l.shape| >= 2 && Starts(l, row, col)
  {
    var rows, cols := l.shape[|l.shape| - 2], l.shape[|l.shape| - 1];
    if rows - row < cols - col then rows - row else cols - col
  }

  function Custom(v: Layout): Result<Layout> {
    NewCustom(v.shape, v.strides, v.offset, v.itemsize)
  }

  /** The k-th diagonal starts in row 0 or column 0 and is built when its first element exists. */
  lemma DiagonalStart(l: Layout, k: int) returns (row: nat, col: nat)
    requires l.WellFormed() && |l.shape| >= 2
    ensures row == (if k >= 0 then 0 else -k) && col == (if k >= 0 then k else 0)
    ensures !Starts(l, row, col) ==> l.Diagonal(k).Err? && l.Diagonal(k).error.IndexOutOfBounds?
    ensures Starts(l, row, col) ==> l.Diagonal(k) == Custom(Along(l, row, col, Left(l, row, col)))
  {
    hide Dot, InBounds, NewCustom, Layout.CheckedOff;
    row, col := DiagonalRow(k), DiagonalCol(k);
    var start: Index := seq(|l.shape| - 2, _ => 0) + [row, col];
    StartInBounds(l.shape, start, row, col);
    StartOffset(l, start, row, col);
  }

  /**
   * The k-th diagonal exists when its first element does and the strides of its axes longer than one are
   * multiples of the item size.
   */
  lemma DiagonalIs(l: Layout, k: int) returns (row: nat, col: nat)
    requires l.WellFormed() && |l.shape| >= 2
    ensures row == (if k >= 0 then 0 else -k) && col == (if k >= 0 then k else 0)
    ensures !Starts(l, row, col) ==> l.Diagonal(k).Err? && l.Diagonal(k).error.IndexOutOfBounds?
    ensures Starts(l, row, col) ==>
      var v := Along(l, row, col, Left(l, row, col));
      && v.itemsize > 0 && |v.shape| == |v.strides|
      && (l.Diagonal(k).Ok? <==> forall a :: 0 <= a < |v.shape| ==> v.shape[a] <= 1 || v.strides[a] % v.itemsize == 0)
      && (l.Diagonal(k).Ok? ==> l.Diagonal(k).value == v)
  {
    row, col := DiagonalStart(l, k);
    if Starts(l, row, col) { assert Along(l, row, col, Left(l, row, col)).WellFormed(); }
    hide Layout.Diagonal, Along, Left, Starts, NewCustom;
  }

  lemma DiagonalNeedsTwo(l: Layout, k: int)
    requires l.WellFormed() && |l.shape| < 2
    ensures l.Diagonal(k) == Err(Bug)
  {
  }

  lemma StartInBounds(shape: Shape, start: Index, row: nat, col: nat)
    requires |shape| >= 2 && start == seq(|shape| - 2, _ => 0) + [row, col]
    ensures InBounds(start, shape) <==>
      && row < shape[|shape| - 2] && col < shape[|shape| - 1]
      && forall a :: 0 <= a < |shape| - 2 ==> shape[a] > 0
  {
    var nd := |shape|;
    assert start[nd - 2] == row && start[nd - 1] == col && forall a :: 0 <= a < nd - 2 ==> start[a] == 0;
  }

  lemma StartOffset(l: Layout, start: Index, row: nat, col: nat)
    requires l.WellFormed() && |l.shape| >= 2 && start == seq(|l.shape| - 2, _ => 0) + [row, col]
    ensures Dot(start, l.strides) == row * l.strides[|l.shape| - 2] + col * l.strides[|l.shape| - 1]
  {
    var nd := |l.shape|;
    var zero: Index := seq(nd - 2, _ => 0);
    var s := l.strides;
    DotZero(zero, s[..nd - 2]);
    DotAppend(zero, s[..nd - 2], row, s[nd - 2]);
    DotAppend(zero + [row], s[..nd - 2] + [s[nd - 2]], col, s[nd - 1]);
    assert start == zero + [row] + [col] && s == s[..nd - 2] + [s[nd - 2]] + [s[nd - 1]];
  }
}
