/** `sum_axis` on a layout and a memory, over exact arithmetic. */
module SumAxes {
  import opened Results
  import opened Shapes
  import opened NdIter
  import opened Layouts
  import opened Views
  import opened Reachability
  import opened Materialise
  import opened CowHeap
  import opened Reductions

  /** The decoded value of the element at each address. */
  type Memory = int -> int

  /** What the layout shows. */
  function Shown(l: Layout, mem: Memory): Tensor {
    (idx: Index) => mem(l.Off(idx))
  }

  /**
   * What `sum_axis` reads. Its base address is already at the layout's offset, and the byte
   * offset it adds includes that offset again.
   */
  function Read(l: Layout, mem: Memory): Tensor {
    (idx: Index) => mem(StridedAddress(l, idx))
  }

  lemma ReadAt(l: Layout, mem: Memory, idx: Index)
    ensures Read(l, mem)(idx) == mem(l.offset + l.Off(idx)) && Shown(l, mem)(idx) == mem(l.Off(idx))
  {
    assert Read(l, mem)(idx) == mem(StridedAddress(l, idx));
  }

  function OutTensor(l: Layout, mem: Memory, axis: nat, keepdims: bool): Tensor
    requires axis < |l.shape|
  {
    SumTensor(Read(l, mem), axis, l.shape[axis], keepdims)
  }

  /** The output elements in row-major order. */
  function OutValues(l: Layout, mem: Memory, axis: nat, keepdims: bool): (v: seq<int>)
    requires axis < |l.shape|
    ensures |v| == Prod(OutShape(l.shape, axis, keepdims))
  {
    var out := OutShape(l.shape, axis, keepdims);
    seq(Prod(out), k requires 0 <= k < Prod(out) => OutTensor(l, mem, axis, keepdims)(Unravel(k, out)))
  }

  /** Every read of the sum stays inside an allocation of n bytes. */
  predicate SumInside(l: Layout, n: nat)
    requires l.WellFormed()
  {
    NonEmpty(l.shape) ==> StridedInside(l, n)
  }

  predicate SumDefined(l: Layout, n: nat, axis: nat, keepdims: bool)
    requires l.WellFormed()
  {
    axis < |l.shape| && CanAllocate(OutShape(l.shape, axis, keepdims), 8) && SumInside(l, n)
  }

  lemma SumInsideExactly(l: Layout, n: nat)
    requires l.WellFormed() && Fits(l, n)
    ensures StridedInRange(l, n) <==> SumInside(l, n)
  {
    hide StridedInside, Layout.Off;
    if NonEmpty(l.shape) {
      StridedInsideExactly(l, n);
    } else {
      forall idx ensures !InBounds(idx, l.shape) { }
    }
  }

  /** The bytes of the element that element k along the axis is read from are inside the allocation. */
  predicate AddressInside(l: Layout, n: nat, idx: Index) {
    0 <= StridedAddress(l, idx) <= n - l.itemsize
  }

  ghost predicate FibreInside(l: Layout, n: nat, axis: nat, keepdims: bool, idx: Index)
    requires axis < |l.shape| && |idx| == |OutShape(l.shape, axis, keepdims)|
  {
    forall k: nat :: k < l.shape[axis] ==> AddressInside(l, n, SourceAt(idx, axis, keepdims, k))
  }

  /**
   * `sum_axis` of an array in n bytes: the odometer over the output, and for each output index the loop
   * along the axis.
   */
  method SumAxis(l: Layout, mem: Memory, n: nat, axis: nat, keepdims: bool) returns (r: Result<seq<int>>)
    requires l.WellFormed() && Fits(l, n)
    ensures r.Ok? <==> SumDefined(l, n, axis, keepdims)
    ensures axis >= |l.shape| ==> r == Err(Bug)
    ensures axis < |l.shape| ==> (r.Err? <==> !CanAllocate(OutShape(l.shape, axis, keepdims), 8))
    ensures axis < |l.shape| && r.Err? ==> AllocationError(r.error, OutShape(l.shape, axis, keepdims), 8)
    ensures !r.Panic?
    ensures r.Ok? ==> r.value == OutValues(l, mem, axis, keepdims)
    ensures r.Ok? ==> SumOf(r.value) == Total(l.shape, Read(l, mem))
  {
    hide Prod, SumTo, Layout.WellFormed, Dot, Fits, StridedInRange, SumInside, FibreInside, OutTensor;
    if axis >= |l.shape| { return Err(Bug); }
    var out := OutShape(l.shape, axis, keepdims);
    var nbytes := ContiguousNbytes(out, 8);
    if !nbytes.Ok? { return Err(ShapeOverflow); }
    if nbytes.value > ISIZE_MAX { return Err(AllocFailed); }
    var dense := NewC(out, 8);
    if !dense.Ok? { return Err(dense.error); }
    SumInsideExactly(l, n);
    r := SumLoop(l, mem, n, axis, keepdims);
    if r.Ok? { SumAxisTotal(l, mem, axis, keepdims); }
  }

  method SumLoop(l: Layout, mem: Memory, n: nat, axis: nat, keepdims: bool) returns (r: Result<seq<int>>)
    requires l.WellFormed() && axis < |l.shape|
    ensures r.Ok? <==> StridedInRange(l, n)
    ensures r.Ok? || r.Undefined?
    ensures r.Ok? ==> r.value == OutValues(l, mem, axis, keepdims)
  {
    hide Prod, SumTo, Layout.WellFormed, Dot, StridedInRange, FibreInside, OutTensor;
    var out := OutShape(l.shape, axis, keepdims);
    var sums: seq<int> := [];
    var iter := new NdIndexIter(out);
    while true
      invariant iter.Valid() && fresh(iter) && iter.shape == out
      invariant |sums| == iter.count <= Prod(out)
      invariant forall k: nat :: k < |sums| ==> sums[k] == OutValues(l, mem, axis, keepdims)[k]
      invariant forall k: nat :: k < |sums| ==> FibreInside(l, n, axis, keepdims, Unravel(k, out))
      decreases Prod(out) - iter.count
    {
      var idx := iter.Next();
      if idx.None? { break; }
      UnravelInBounds(|sums|, out);
      var acc := SumFibre(l, mem, n, axis, keepdims, idx.value);
      if acc.None? {
        FibreLeaves(l, n, axis, keepdims, idx.value);
        return Undefined;
      }
      sums := sums + [acc.value];
    }
    FibresCover(l, n, axis, keepdims);
    return Ok(sums);
  }

  /** The inner loop: the elements behind one output index; None when one lies outside the allocation. */
  method SumFibre(l: Layout, mem: Memory, n: nat, axis: nat, keepdims: bool, outIdx: Index) returns (r: Option<int>)
    requires l.WellFormed() && axis < |l.shape| && InBounds(outIdx, OutShape(l.shape, axis, keepdims))
    ensures r.Some? <==> FibreInside(l, n, axis, keepdims, outIdx)
    ensures r.Some? ==> r.value == OutTensor(l, mem, axis, keepdims)(outIdx)
  {
    hide Layout.WellFormed, Dot, SumTo, OutFibre, SumTensor;
    ghost var fibre := OutFibre(Read(l, mem), axis, keepdims, outIdx);
    var acc := 0;
    SumUnfold(fibre, 0);
    for k := 0 to l.shape[axis]
      invariant acc == SumTo(k, fibre)
      invariant forall j: nat :: j < k ==> AddressInside(l, n, SourceAt(outIdx, axis, keepdims, j))
    {
      var src := SourceAt(outIdx, axis, keepdims, k);
      SourceInBounds(l.shape, axis, keepdims, outIdx, k);
      var off := l.CheckedOff(src);
      var at := l.offset + off.value;
      ReadAt(l, mem, src);
      if at < 0 || at + l.itemsize > n {
        assert !AddressInside(l, n, src);
        return None;
      }
      FibreAt(Read(l, mem), axis, keepdims, outIdx, k);
      acc := acc + mem(at);
      SumUnfold(fibre, k);
    }
    SumTensorAt(Read(l, mem), axis, l.shape[axis], keepdims, outIdx);
    return Some(acc);
  }

  lemma SumUnfold(g: nat -> int, k: nat)
    ensures SumTo(0, g) == 0 && SumTo(k + 1, g) == SumTo(k, g) + g(k)
  {
  }

  lemma FibreLeaves(l: Layout, n: nat, axis: nat, keepdims: bool, idx: Index)
    requires axis < |l.shape| && InBounds(idx, OutShape(l.shape, axis, keepdims))
    requires !FibreInside(l, n, axis, keepdims, idx)
    ensures !StridedInRange(l, n)
  {
    hide StridedAddress;
    var k: nat :| k < l.shape[axis] && !AddressInside(l, n, SourceAt(idx, axis, keepdims, k));
    SourceInBounds(l.shape, axis, keepdims, idx, k);
  }

  lemma FibresCover(l: Layout, n: nat, axis: nat, keepdims: bool)
    requires axis < |l.shape|
    requires forall k: nat :: k < Prod(OutShape(l.shape, axis, keepdims)) ==>
      FibreInside(l, n, axis, keepdims, Unravel(k, OutShape(l.shape, axis, keepdims)))
    ensures StridedInRange(l, n)
  {
    hide StridedAddress, Prod, Unravel, Ravel;
    var out := OutShape(l.shape, axis, keepdims);
    forall src: Index | InBounds(src, l.shape) ensures AddressInside(l, n, src) {
      var idx := OutputOf(l.shape, axis, keepdims, src);
      UnravelRavel(idx, out);
      assert FibreInside(l, n, axis, keepdims, Unravel(Ravel(idx, out), out));
    }
  }

  /** The index with k at the axis: in its place when the axis is kept, put in when it was removed. */
  function AtAxis(idx: Index, axis: nat, keepdims: bool, k: nat): (src: Index)
    requires if keepdims then axis < |idx| else axis <= |idx|
    ensures keepdims ==> src == idx[..axis] + [k] + idx[axis + 1..]
    ensures !keepdims ==> src == idx[..axis] + [k] + idx[axis..]
  {
    if keepdims then idx[axis := k] else idx[..axis] + [k] + idx[axis..]
  }

  /**
   * One output element: the sum, over the axis, of what lies at the addresses moved by a second offset. The
   * output has length one at a kept axis and lacks a removed one.
   */
  lemma OutValueAt(l: Layout, mem: Memory, axis: nat, keepdims: bool, idx: Index, values: nat -> int)
    requires axis < |l.shape| == |l.strides|
    requires InBounds(idx, if keepdims then l.shape[axis := 1] else l.shape[..axis] + l.shape[axis + 1..])
    requires forall k: nat :: values(k) == mem(l.offset + l.offset + Dot(AtAxis(idx, axis, keepdims, k), l.strides))
    ensures var out := if keepdims then l.shape[axis := 1] else l.shape[..axis] + l.shape[axis + 1..];
      && Ravel(idx, out) < |OutValues(l, mem, axis, keepdims)| == Prod(out)
      && OutValues(l, mem, axis, keepdims)[Ravel(idx, out)] == SumTo(l.shape[axis], values)
  {
    hide Prod, Ravel, Unravel, SumTo, Dot, SumTensor, OutFibre, Read, AtAxis;
    var out := OutShape(l.shape, axis, keepdims);
    UnravelRavel(idx, out);
    var t := Read(l, mem);
    SumTensorAt(t, axis, l.shape[axis], keepdims, idx);
    forall k: nat ensures values(k) == OutFibre(t, axis, keepdims, idx)(k) {
      FibreAt(t, axis, keepdims, idx, k);
      ReadAt(l, mem, SourceAt(idx, axis, keepdims, k));
      SameSource(idx, axis, keepdims, k);
    }
    SumSame(l.shape[axis], values, OutFibre(t, axis, keepdims, idx));
    var r: nat := Ravel(idx, out);
    assert OutValues(l, mem, axis, keepdims)[r] == OutTensor(l, mem, axis, keepdims)(Unravel(r, out));
  }

  lemma SameSource(idx: Index, axis: nat, keepdims: bool, k: nat)
    requires if keepdims then axis < |idx| else axis <= |idx|
    ensures SourceAt(idx, axis, keepdims, k) == AtAxis(idx, axis, keepdims, k)
  {
  }

  // Conservation.

  /** The output's total is the total of what was read, for every shape, axis and keepdims. */
  lemma SumAxisTotal(l: Layout, mem: Memory, axis: nat, keepdims: bool)
    requires axis < |l.shape|
    ensures SumOf(OutValues(l, mem, axis, keepdims)) == Total(l.shape, Read(l, mem))
  {
    hide Total, Prod, SumTo, Unravel, SumKept, SumAlong;
    var out, t := OutShape(l.shape, axis, keepdims), OutTensor(l, mem, axis, keepdims);
    SumOfValues(OutValues(l, mem, axis, keepdims), AtPosition(out, t));
    FlatIsTotal(out, t);
    if keepdims {
      SumKeptConserves(l.shape, axis, Read(l, mem));
    } else {
      SumAlongConserves(l.shape, axis, Read(l, mem));
    }
  }

  /** The output's total is the array's total, whatever the memory holds. */
  ghost predicate Conserves(l: Layout, axis: nat, keepdims: bool)
    requires axis < |l.shape|
  {
    forall mem: Memory :: SumOf(OutValues(l, mem, axis, keepdims)) == Total(l.shape, Shown(l, mem))
  }

  /** `sum_axis` conserves the total exactly for layouts without an offset and for empty ones. */
  lemma SumAxisConservesExactly(l: Layout, axis: nat, keepdims: bool)
    requires axis < |l.shape|
    ensures Conserves(l, axis, keepdims) <==> l.offset == 0 || Prod(l.shape) == 0
  {
    hide Total, Prod, Dot, OutValues, SumOf;
    if l.offset == 0 || Prod(l.shape) == 0 {
      forall mem: Memory ensures SumOf(OutValues(l, mem, axis, keepdims)) == Total(l.shape, Shown(l, mem)) {
        SumAxisTotal(l, mem, axis, keepdims);
        if l.offset == 0 {
          forall idx: Index ensures Read(l, mem)(idx) == Shown(l, mem)(idx) { ReadAt(l, mem, idx); }
          TotalSame(l.shape, Read(l, mem), Shown(l, mem));
        } else { EmptyTotal(l.shape, Read(l, mem)); EmptyTotal(l.shape, Shown(l, mem)); }
      }
    } else {
      var mem: Memory := (at: int) => at;
      SumAxisTotal(l, mem, axis, keepdims);
      var extra: Tensor := (_: Index) => l.offset;
      forall idx: Index ensures Read(l, mem)(idx) == Shown(l, mem)(idx) + extra(idx) { ReadAt(l, mem, idx); }
      TotalPlus(l.shape, Shown(l, mem), extra, Read(l, mem));
      TotalConstant(l.shape, extra, l.offset);
      NonZeroProduct(Prod(l.shape), l.offset);
    }
  }

  lemma NonZeroProduct(a: int, b: int)
    requires a != 0 && b != 0
    ensures a * b != 0
  {
  }

  // Two sums in a row.

  /** The memory of a dense output: its values at multiples of eight bytes. */
  function ValuesIn(v: seq<int>): Memory {
    (at: int) => if at % 8 == 0 && 0 <= at / 8 < |v| then v[at / 8] else 0
  }

  /** A dense output is read back as the tensor it holds. */
  lemma DenseReads(shape: Shape, v: seq<int>, t: Tensor, idx: Index)
    requires 8 * Prod(shape) <= ISIZE_MAX && |v| == Prod(shape) && InBounds(idx, shape)
    requires forall k: nat :: k < |v| ==> v[k] == t(Unravel(k, shape))
    ensures Read(Dense(shape, 8), ValuesIn(v))(idx) == t(idx)
  {
    hide Prod, Unravel, Ravel, CStrides;
    forall k | 0 <= k < |shape| ensures shape[k] > 0 { assert idx[k] < shape[k]; }
    CStridesRavel(shape, 8, idx);
    UnravelRavel(idx, shape);
    EighthOf(Ravel(idx, shape));
    ReadAt(Dense(shape, 8), ValuesIn(v), idx);
  }

  lemma EighthOf(k: nat)
    ensures (8 * k) % 8 == 0 && (8 * k) / 8 == k
  {
  }

  /** The second sum of two: over the dense output of the first. */
  function SecondValues(l: Layout, mem: Memory, first: nat, second: nat, keepdims: bool): seq<int>
    requires first < |l.shape| && second < |OutShape(l.shape, first, keepdims)|
  {
    OutValues(Dense(OutShape(l.shape, first, keepdims), 8), ValuesIn(OutValues(l, mem, first, keepdims)), second, keepdims)
  }

  /** Two calls in a row, the second on the dense output of the first. */
  method SumTwice(l: Layout, mem: Memory, n: nat, first: nat, second: nat, keepdims: bool) returns (r: Result<seq<int>>)
    requires l.WellFormed() && Fits(l, n)
    requires first < |l.shape| && second < |OutShape(l.shape, first, keepdims)|
    ensures r.Ok? <==>
      SumDefined(l, n, first, keepdims) && CanAllocate(OutShape(OutShape(l.shape, first, keepdims), second, keepdims), 8)
    ensures r.Ok? ==> r.value == SecondValues(l, mem, first, second, keepdims)
  {
    hide CanAllocate, SumInside, OutValues, Fits, CStrides;
    var out := OutShape(l.shape, first, keepdims);
    r := SumAxis(l, mem, n, first, keepdims);
    if r.Ok? {
      DenseInside(out);
      r := SumAxis(Dense(out, 8), ValuesIn(r.value), Prod(out) * 8, second, keepdims);
    }
  }

  lemma SecondAt(l: Layout, mem: Memory, first: nat, second: nat, keepdims: bool, idx: Index)
    requires first < |l.shape| && second < |OutShape(l.shape, first, keepdims)|
    requires CanAllocate(OutShape(l.shape, first, keepdims), 8)
    requires InBounds(idx, OutShape(OutShape(l.shape, first, keepdims), second, keepdims))
    ensures var out := OutShape(l.shape, first, keepdims);
      OutTensor(Dense(out, 8), ValuesIn(OutValues(l, mem, first, keepdims)), second, keepdims)(idx)
      == SumTensor(OutTensor(l, mem, first, keepdims), second, out[second], keepdims)(idx)
  {
    hide Prod, Unravel, CStrides, NewC, Read, SumTensor;
    var out, v := OutShape(l.shape, first, keepdims), OutValues(l, mem, first, keepdims);
    var t := OutTensor(l, mem, first, keepdims);
    forall i: Index | InBounds(i, out) ensures Read(Dense(out, 8), ValuesIn(v))(i) == t(i) {
      DenseReads(out, v, t, i);
    }
    SumTensorSame(out, Read(Dense(out, 8), ValuesIn(v)), t, second, keepdims, idx);
  }

  /**
   * Summing two axes by two calls, in either order: when both orders have an output for the first call, the
   * second calls have outputs of one shape and return the same sequence, with the axes kept or removed.
   */
  lemma SumAxisOrders(l: Layout, mem: Memory, a: nat, b: nat, keepdims: bool)
    requires a < b < |l.shape|
    requires CanAllocate(OutShape(l.shape, a, keepdims), 8) && CanAllocate(OutShape(l.shape, b, keepdims), 8)
    ensures a < |OutShape(l.shape, b, keepdims)| && Later(b, keepdims) < |OutShape(l.shape, a, keepdims)|
    ensures OutShape(OutShape(l.shape, b, keepdims), a, keepdims)
         == OutShape(OutShape(l.shape, a, keepdims), Later(b, keepdims), keepdims)
    ensures SecondValues(l, mem, b, a, keepdims) == SecondValues(l, mem, a, Later(b, keepdims), keepdims)
  {
    hide CanAllocate, SecondValues;
    OutShapesCommute(l.shape, a, b, keepdims);
    SecondsEqual(l, mem, a, b, keepdims);
  }

  lemma SecondsEqual(l: Layout, mem: Memory, a: nat, b: nat, keepdims: bool)
    requires a < b < |l.shape|
    requires CanAllocate(OutShape(l.shape, a, keepdims), 8) && CanAllocate(OutShape(l.shape, b, keepdims), 8)
    requires a < |OutShape(l.shape, b, keepdims)| && Later(b, keepdims) < |OutShape(l.shape, a, keepdims)|
    ensures SecondValues(l, mem, b, a, keepdims) == SecondValues(l, mem, a, Later(b, keepdims), keepdims)
  {
    hide Prod, Unravel, CanAllocate, SumTensor, Read;
    var outA, outB := OutShape(l.shape, a, keepdims), OutShape(l.shape, b, keepdims);
    SumTensorsCommute(l.shape, Read(l, mem), a, b, keepdims, []);
    var out := OutShape(outB, a, keepdims);
    var v, w := SecondValues(l, mem, b, a, keepdims), SecondValues(l, mem, a, Later(b, keepdims), keepdims);
    forall k: nat | k < Prod(out) ensures v[k] == w[k] {
      var idx := Unravel(k, out);
      UnravelInBounds(k, out);
      SecondAt(l, mem, b, a, keepdims, idx);
      SecondAt(l, mem, a, Later(b, keepdims), keepdims, idx);
      SumTensorsCommute(l.shape, Read(l, mem), a, b, keepdims, idx);
    }
  }

  /** Reads of a dense output stay inside it: it has no offset. */
  lemma DenseInside(shape: Shape)
    requires CanAllocate(shape, 8)
    ensures Dense(shape, 8).WellFormed() && Fits(Dense(shape, 8), Prod(shape) * 8)
    ensures SumInside(Dense(shape, 8), Prod(shape) * 8)
  {
    hide Prod, CStrides, NewC;
    var l := Dense(shape, 8);
    NewCFits(shape, 8);
    SumInsideExactly(l, Prod(shape) * 8);
    forall idx | InBounds(idx, shape) ensures AddressInside(l, Prod(shape) * 8, idx) { }
  }
}
