/** The odometer over N-dimensional indices and the byte-offset iterator built on it. */
module NdIter {
  import opened Results
  import opened Shapes

  /** Every component is at its last position. */
  predicate AtEnd(idx: Index, shape: Shape)
    requires |idx| == |shape|
  {
    forall k :: 0 <= k < |shape| ==> idx[k] + 1 == shape[k]
  }

  predicate AllZero(idx: Index) {
    forall k :: 0 <= k < |idx| ==> idx[k] == 0
  }

  lemma {:induction false} ZeroRavel(idx: Index, shape: Shape)
    requires |idx| == |shape| && AllZero(idx)
    ensures Ravel(idx, shape) == 0
  {
    if idx != [] { ZeroRavel(idx[1..], shape[1..]); }
  }

  lemma {:induction false} EndRavel(idx: Index, shape: Shape)
    requires |idx| == |shape| && AtEnd(idx, shape)
    ensures Ravel(idx, shape) + 1 == Prod(shape)
  {
    if idx != [] {
      EndRavel(idx[1..], shape[1..]);
      OneMore(idx[0], Prod(shape[1..]));
    }
  }

  lemma OneMore(i: nat, p: nat)
    ensures (i + 1) * p == i * p + p
  {
  }

  lemma EndExtends(idx: Index, shape: Shape, k: nat)
    requires k < |idx| == |shape| && idx[k] + 1 == shape[k] && AtEnd(idx[k + 1..], shape[k + 1..])
    ensures AtEnd(idx[k..], shape[k..])
  {
    assert idx[k..] == [idx[k]] + idx[k + 1..] && shape[k..] == [shape[k]] + shape[k + 1..];
  }

  lemma ZeroExtends(idx: Index, k: nat)
    requires k < |idx| && idx[k] == 0 && AllZero(idx[k + 1..])
    ensures AllZero(idx[k..])
  {
    assert idx[k..] == [0] + idx[k + 1..];
  }

  /** Carrying out of a full tail into position k is one step in row-major order. */
  lemma {:induction false} CarryIsSuccessor(before: Index, after: Index, shape: Shape, k: nat)
    requires k < |before| == |after| == |shape|
    requires before[..k] == after[..k] && after[k] == before[k] + 1
    requires AtEnd(before[k + 1..], shape[k + 1..]) && AllZero(after[k + 1..])
    ensures Ravel(after, shape) == Ravel(before, shape) + 1
  {
    if k == 0 {
      EndRavel(before[1..], shape[1..]);
      ZeroRavel(after[1..], shape[1..]);
      OneMore(before[0], Prod(shape[1..]));
    } else {
      assert before[0] == before[..k][0] == after[..k][0] == after[0];
      assert before[1..][..k - 1] == before[..k][1..] && after[1..][..k - 1] == after[..k][1..];
      assert before[1..][k..] == before[k + 1..] && after[1..][k..] == after[k + 1..];
      assert shape[1..][k..] == shape[k + 1..];
      CarryIsSuccessor(before[1..], after[1..], shape[1..], k - 1);
    }
  }

  class NdIndexIter {
    const shape: Shape
    var current: Index
    var done: bool
    var count: nat
    const total: nat

    /** `count` indices have been yielded and the next one is number `count` in row-major order. */
    ghost predicate Valid()
      reads this
    {
      && total == Prod(shape) && count <= total
      && (done <==> count == total)
      && (!done ==> InBounds(current, shape) && current == Unravel(count, shape))
    }

    constructor (shape: Shape)
      ensures Valid() && this.shape == shape && count == 0
    {
      this.shape := shape;
      var product := 1;
      for i := 0 to |shape|
        invariant product == Prod(shape[..i])
      {
        ProdPrefixStep(shape, i);
        product := product * shape[i];
      }
      assert shape[..|shape|] == shape;
      total := product;
      current := seq(|shape|, _ => 0);
      done := product == 0;
      count := 0;
      new;
      if !done {
        NonEmptyProd(shape);
        assert InBounds(current, shape);
        ZeroRavel(current, shape);
        UnravelRavel(current, shape);
      }
    }

    /** The carry loop: the successor in row-major order, or zeros and `done` after the last index. */
    method Advance()
      requires InBounds(current, shape) && !done
      modifies this`current, this`done
      ensures done <==> AtEnd(old(current), shape)
      ensures done ==> |current| == |shape| && AllZero(current)
      ensures !done ==> InBounds(current, shape) && Ravel(current, shape) == Ravel(old(current), shape) + 1
    {
      var ndim := |shape|;
      if ndim == 0 {
        done := true;
        return;
      }
      var axis := ndim - 1;
      while true
        invariant 0 <= axis < ndim && |current| == ndim && !done
        invariant current[..axis + 1] == old(current)[..axis + 1]
        invariant AtEnd(old(current)[axis + 1..], shape[axis + 1..]) && AllZero(current[axis + 1..])
        decreases axis
      {
        assert current[axis] == current[..axis + 1][axis] == old(current)[axis];
        current := current[axis := current[axis] + 1];
        if current[axis] < shape[axis] {
          assert current[..axis] == old(current)[..axis + 1][..axis];
          assert old(current)[..axis] == old(current)[..axis + 1][..axis];
          CarryIsSuccessor(old(current), current, shape, axis);
          CarryInBounds(old(current), current, shape, axis);
          return;
        }
        EndExtends(old(current), shape, axis);
        current := current[axis := 0];
        ZeroExtends(current, axis);
        assert current[..axis] == old(current)[..axis];
        if axis == 0 {
          done := true;
          assert old(current)[0..] == old(current) && shape[0..] == shape && current[0..] == current;
          return;
        }
        axis := axis - 1;
      }
    }

    method Next() returns (r: Option<Index>)
      requires Valid()
      modifies this
      ensures Valid()
      ensures r == if old(count) < Prod(shape) then Some(Unravel(old(count), shape)) else None
      ensures count == if r.Some? then old(count) + 1 else old(count)
    {
      if done { return None; }
      var idx := current;
      RavelUnravel(count, shape);
      count := count + 1;
      if count < total {
        if AtEnd(current, shape) { EndRavel(current, shape); }
        Advance();
        UnravelRavel(current, shape);
      } else {
        done := true;
      }
      return Some(idx);
    }
  }

  lemma CarryInBounds(before: Index, after: Index, shape: Shape, k: nat)
    requires InBounds(before, shape) && k < |before| == |after|
    requires before[..k] == after[..k] && after[k] < shape[k] && AllZero(after[k + 1..])
    ensures InBounds(after, shape)
  {
    forall j | 0 <= j < |shape| ensures after[j] < shape[j] {
      if j < k {
        assert after[j] == after[..k][j] == before[..k][j] == before[j];
      } else if j > k {
        assert after[j] == after[k + 1..][j - k - 1] && before[j] < shape[j];
      }
    }
  }

  /** Byte offsets of the elements in row-major order. */
  class StridedByteIter {
    const ndIter: NdIndexIter
    const strides: Strides
    const baseOffset: int

    ghost predicate Valid()
      reads this, ndIter
    {
      ndIter.Valid()
    }

    constructor (shape: Shape, strides: Strides, baseOffset: int)
      ensures Valid() && fresh(ndIter)
      ensures ndIter.shape == shape && ndIter.count == 0 && this.strides == strides && this.baseOffset == baseOffset
    {
      ndIter := new NdIndexIter(shape);
      this.strides := strides;
      this.baseOffset := baseOffset;
    }

    method Next() returns (r: Option<int>)
      requires Valid()
      modifies ndIter
      ensures Valid()
      ensures ndIter.count == if r.Some? then old(ndIter.count) + 1 else old(ndIter.count)
      ensures r == if old(ndIter.count) < Prod(ndIter.shape)
        then Some(baseOffset + Dot(Unravel(old(ndIter.count), ndIter.shape), strides)) else None
    {
      var idx := ndIter.Next();
      if idx.None? { return None; }
      var off := ByteOffset(idx.value, strides, baseOffset);
      return Some(off);
    }
  }

  /** Collecting the iterator: product(shape) indices, number k being the k-th in row-major order. */
  method AllIndices(shape: Shape) returns (all: seq<Index>)
    ensures |all| == Prod(shape)
    ensures forall k :: 0 <= k < |all| ==> all[k] == Unravel(k, shape)
    ensures forall j, k :: 0 <= j < k < |all| ==> |all[j]| == |all[k]| && LexLess(all[j], all[k])
  {
    var iter := new NdIndexIter(shape);
    all := [];
    while true
      invariant iter.Valid() && fresh(iter) && iter.shape == shape
      invariant |all| == iter.count
      invariant forall k :: 0 <= k < |all| ==> k < Prod(shape) && all[k] == Unravel(k, shape)
      decreases Prod(shape) - iter.count
    {
      var next := iter.Next();
      if next.None? { break; }
      all := all + [next.value];
    }
    forall j, k | 0 <= j < k < |all|
      ensures |all[j]| == |all[k]| && LexLess(all[j], all[k])
    {
      UnravelIsMonotone(j, k, shape);
    }
  }

  /** Later positions have lexicographically larger indices. */
  lemma UnravelIsMonotone(j: nat, k: nat, shape: Shape)
    requires j < k < Prod(shape)
    ensures LexLess(Unravel(j, shape), Unravel(k, shape))
  {
    UnravelInBounds(j, shape);
    UnravelInBounds(k, shape);
    RavelUnravel(j, shape);
    RavelUnravel(k, shape);
    RavelIsLexicographic(Unravel(j, shape), Unravel(k, shape), shape);
  }
}
