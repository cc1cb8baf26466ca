/** Which source elements a view shows: none missing, none too many. */
module Coverage {
  import opened Results
  import opened Shapes
  import opened Permutations
  import opened Slices
  import opened Layouts
  import opened Views

  /** Some index of the view reads the source at i. */
  ghost predicate Covers(l: Layout, op: ViewOp, i: Index)
    requires l.WellFormed() && View(l, op).Some?
  {
    exists j :: InBounds(j, View(l, op).value.shape) && SourceIndex(l, op, j) == i
  }

  /** The elements the operation is for: a slice's positions, the k-th diagonal, everything else unchanged. */
  predicate Meant(l: Layout, op: ViewOp, i: Index)
    requires l.WellFormed() && View(l, op).Some? && InBounds(i, l.shape)
  {
    match op
    case SliceAxis(axis, arg) => i[axis] in arg.Resolve(l.shape[axis]).value.Positions()
    case BroadcastTo(newShape) => NonEmpty(newShape)
    case Diagonal(k) => i[|i| - 1] == k + i[|i| - 2]
    case _ => true
  }

  /** A view shows a source element exactly when the operation means it. */
  lemma ViewCoversExactly(l: Layout, op: ViewOp, i: Index)
    requires l.WellFormed() && Allowed(l, op) && View(l, op).Some? && InBounds(i, l.shape)
    ensures Covers(l, op, i) <==> Meant(l, op, i)
  {
    if Covers(l, op, i) {
      var j :| InBounds(j, View(l, op).value.shape) && SourceIndex(l, op, j) == i;
      CoveredIsMeant(l, op, j);
    }
    if Meant(l, op, i) { MeantIsCovered(l, op, i); }
  }

  lemma CoveredIsMeant(l: Layout, op: ViewOp, j: Index)
    requires l.WellFormed() && Allowed(l, op) && View(l, op).Some? && InBounds(j, View(l, op).value.shape)
    requires InBounds(SourceIndex(l, op, j), l.shape)
    ensures Meant(l, op, SourceIndex(l, op, j))
  {
    match op
    case SliceAxis(axis, arg) =>
      var r := arg.Resolve(l.shape[axis]).value;
      assert r.Inside(l.shape[axis]);
      assert r.Positions()[j[axis]] == r.Position(j[axis]);
    case BroadcastTo(newShape) =>
      forall k | 0 <= k < |newShape| ensures newShape[k] > 0 { assert j[k] < newShape[k]; }
    case _ =>
  }

  lemma MeantIsCovered(l: Layout, op: ViewOp, i: Index)
    requires l.WellFormed() && Allowed(l, op) && View(l, op).Some? && InBounds(i, l.shape) && Meant(l, op, i)
    ensures Covers(l, op, i)
  {
    hide Covers;
    match op
    case Permute(axes) => PermuteCovers(l, axes, i);
    case Transpose => TransposeCovers(l, i);
    case ExpandDims(axis) => ExpandCovers(l, axis, i);
    case Squeeze => SqueezeCovers(l, i);
    case SqueezeAxis(axis) => SqueezeAxisCovers(l, axis, i);
    case Reshape(newShape) => ReshapeCovers(l, newShape, i);
    case SliceAxis(axis, arg) => SliceCovers(l, axis, arg, i);
    case BroadcastTo(newShape) => BroadcastCovers(l, newShape, i);
    case Flip(axis) => FlipCovers(l, axis, i);
    case Diagonal(k) => DiagonalCovers(l, k, i);
  }

  lemma PermuteCovers(l: Layout, axes: seq<nat>, i: Index)
    requires l.WellFormed() && View(l, Permute(axes)).Some? && InBounds(i, l.shape)
    ensures Covers(l, Permute(axes), i)
  {
    var j := Pick(i, axes);
    forall k | 0 <= k < |axes| ensures j[k] < Pick(l.shape, axes)[k] { assert i[axes[k]] < l.shape[axes[k]]; }
    assert SourceIndex(l, Permute(axes), j) == i;
  }

  lemma TransposeCovers(l: Layout, i: Index)
    requires l.WellFormed() && InBounds(i, l.shape)
    ensures Covers(l, Transpose, i)
  {
    var n := |l.shape|;
    var j := if n <= 1 then i else Pick(i, ReversedAxes(n));
    forall k | 0 <= k < n ensures j[k] < l.Transpose().shape[k] { assert i[n - 1 - k] < l.shape[n - 1 - k]; }
    assert SourceIndex(l, Transpose, j) == i;
  }

  lemma ExpandCovers(l: Layout, axis: nat, i: Index)
    requires l.WellFormed() && axis <= |l.shape| && InBounds(i, l.shape)
    ensures Covers(l, ExpandDims(axis), i)
  {
    var j: Index := Insert(i, axis, 0);
    InsertInBounds(j, i, l.shape, axis);
    hide Insert, Remove;
    assert SourceIndex(l, ExpandDims(axis), j) == i;
  }

  lemma InsertInBounds(j: Index, i: Index, shape: Shape, axis: nat)
    requires axis <= |shape| && InBounds(i, shape) && j == Insert(i, axis, 0)
    ensures InBounds(j, Insert(shape, axis, 1)) && Remove(j, axis) == i
  {
    forall k | 0 <= k < |j| ensures j[k] < Insert(shape, axis, 1)[k] {
      if k != axis { assert i[if k < axis then k else k - 1] < shape[if k < axis then k else k - 1]; }
    }
  }

  lemma SqueezeCovers(l: Layout, i: Index)
    requires l.WellFormed() && View(l, Squeeze).Some? && InBounds(i, l.shape)
    ensures Covers(l, Squeeze, i)
  {
    var j := SqueezePreimage(l.shape, i);
    assert SourceIndex(l, Squeeze, j) == i;
  }

  lemma SqueezeAxisCovers(l: Layout, axis: nat, i: Index)
    requires l.WellFormed() && l.SqueezeAxis(axis).Ok? && InBounds(i, l.shape)
    ensures Covers(l, SqueezeAxis(axis), i)
  {
    var j := Remove(i, axis);
    assert i[axis] < l.shape[axis];
    assert SourceIndex(l, SqueezeAxis(axis), j) == i;
  }

  lemma ReshapeCovers(l: Layout, newShape: Shape, i: Index)
    requires l.WellFormed() && l.Reshape(newShape).Ok? && InBounds(i, l.shape)
    ensures Covers(l, Reshape(newShape), i)
  {
    hide Unravel, Ravel, Prod, CStrides;
    UnravelRavel(i, l.shape);
    var j := Unravel(Ravel(i, l.shape), newShape);
    UnravelInBounds(Ravel(i, l.shape), newShape);
    RavelUnravel(Ravel(i, l.shape), newShape);
    assert SourceIndex(l, Reshape(newShape), j) == i;
  }

  lemma SliceCovers(l: Layout, axis: nat, arg: SliceArg, i: Index)
    requires l.WellFormed() && l.SliceAxis(axis, arg).Ok? && InBounds(i, l.shape)
    requires i[axis] in arg.Resolve(l.shape[axis]).value.Positions()
    ensures Covers(l, SliceAxis(axis, arg), i)
  {
    hide SliceArg.Resolve;
    var r := arg.Resolve(l.shape[axis]).value;
    var k: nat :| k < r.count && r.Positions()[k] == i[axis];
    var j := i[axis := k];
    assert SourceIndex(l, SliceAxis(axis, arg), j) == i;
  }

  lemma BroadcastCovers(l: Layout, tgt: Shape, i: Index)
    requires l.WellFormed() && l.BroadcastTo(tgt).Ok? && NonEmpty(tgt) && InBounds(i, l.shape)
    ensures Covers(l, BroadcastTo(tgt), i)
  {
    hide BroadcastStrides;
    var j: Index := seq(|tgt| - |l.shape|, _ => 0) + i;
    PaddedIndex(l.shape, tgt, i, j);
    hide InBounds, Project;
    assert SourceIndex(l, BroadcastTo(tgt), j) == i;
  }

  lemma PaddedIndex(src: Shape, tgt: Shape, i: Index, j: Index)
    requires Broadcastable(src, tgt) && NonEmpty(tgt) && InBounds(i, src)
    requires j == seq(|tgt| - |src|, _ => 0) + i
    ensures InBounds(j, tgt) && Project(j, src) == i
  {
    var extra := |tgt| - |src|;
    forall k | 0 <= k < |tgt| ensures j[k] < tgt[k] {
      if k >= extra { assert i[k - extra] < src[k - extra]; }
    }
    forall k | 0 <= k < |src| ensures Project(j, src)[k] == i[k] { assert i[k] < src[k]; }
  }

  lemma FlipCovers(l: Layout, axis: nat, i: Index)
    requires l.WellFormed() && l.Flip(axis).Ok? && InBounds(i, l.shape)
    ensures Covers(l, Flip(axis), i)
  {
    assert i[axis] < l.shape[axis];
    var j := i[axis := l.shape[axis] - 1 - i[axis]];
    assert SourceIndex(l, Flip(axis), j) == i;
  }

  lemma DiagonalCovers(l: Layout, k: int, i: Index)
    requires l.WellFormed() && l.Diagonal(k).Ok? && InBounds(i, l.shape) && i[|i| - 1] == k + i[|i| - 2]
    ensures Covers(l, Diagonal(k), i)
  {
    var nd := |l.shape|;
    var shape := l.Diagonal(k).value.shape;
    var j := i[..nd - 2] + [i[nd - 2] - DiagonalRow(k)];
    forall a | 0 <= a < nd - 1 ensures j[a] < shape[a] {
      assert i[a] < l.shape[a] && i[nd - 1] < l.shape[nd - 1];
    }
    assert SourceIndex(l, Diagonal(k), j) == i;
  }

  lemma {:induction false} SqueezePreimage(shape: Shape, i: Index) returns (j: Index)
    requires InBounds(i, shape)
    ensures InBounds(j, KeepLong(shape, shape)) && Unsqueeze(j, shape) == i
  {
    if shape == [] {
      j := [];
    } else {
      TailInBounds(i, shape);
      var rest := SqueezePreimage(shape[1..], i[1..]);
      assert i[0] < shape[0] && i == [i[0]] + i[1..];
      j := if shape[0] == 1 then rest else [i[0]] + rest;
      if shape[0] != 1 {
        assert j[1..] == rest && KeepLong(shape, shape)[1..] == KeepLong(shape[1..], shape[1..]);
        ConsInBounds(j, KeepLong(shape, shape));
      }
    }
  }
}
