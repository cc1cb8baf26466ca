/** The elements a layout shows of a byte sequence, and how they are copied out. */
module Materialise {
  import opened Arith
  import opened Results
  import opened Words
  import opened Shapes
  import opened NdIter
  import opened Layouts
  import opened Views
  import opened Reachability

  type Bytes = seq<u8>

  /** The n bytes at an address inside the allocation. */
  function Block(bytes: Bytes, at: int, n: nat): (b: Bytes)
    requires 0 <= at <= |bytes| - n
    ensures |b| == n
  {
    bytes[at..at + n]
  }

  /** `get`: the bytes of the element at idx. */
  function Element(bytes: Bytes, l: Layout, idx: Index): (b: Bytes)
    requires l.WellFormed() && Fits(l, |bytes|) && InBounds(idx, l.shape)
    ensures |b| == l.itemsize
  {
    Block(bytes, l.Off(idx), l.itemsize)
  }

  /** All elements in row-major order. */
  function Elements(bytes: Bytes, l: Layout): (es: seq<Bytes>)
    requires l.WellFormed() && Fits(l, |bytes|)
    ensures |es| == l.Size()
  {
    seq(l.Size(), k requires 0 <= k < l.Size() => ElementNumber(bytes, l, k))
  }

  /** The element at row-major position k. */
  function ElementNumber(bytes: Bytes, l: Layout, k: nat): (b: Bytes)
    requires l.WellFormed() && Fits(l, |bytes|) && k < l.Size()
    ensures |b| == l.itemsize
  {
    UnravelInBounds(k, l.shape);
    Element(bytes, l, Unravel(k, l.shape))
  }

  /** Element k of the sequence is the element whose row-major position is k. */
  lemma ElementsAt(bytes: Bytes, l: Layout, idx: Index)
    requires l.WellFormed() && Fits(l, |bytes|) && InBounds(idx, l.shape)
    ensures Ravel(idx, l.shape) < l.Size()
    ensures Elements(bytes, l)[Ravel(idx, l.shape)] == Element(bytes, l, idx)
  {
    UnravelRavel(idx, l.shape);
  }

  /** A C-contiguous layout keeps its elements in consecutive blocks from its offset. */
  lemma ContiguousOff(l: Layout, n: nat, k: nat)
    requires l.WellFormed() && Fits(l, n) && n <= ISIZE_MAX && l.CContiguous() && k < l.Size()
    ensures l.Off(Unravel(k, l.shape)) == l.offset + k * l.itemsize
    ensures 0 <= l.offset + k * l.itemsize <= n - l.itemsize
  {
    NonEmptyProd(l.shape);
    ContiguousFits(l, n);
    UnravelInBounds(k, l.shape);
    RavelUnravel(k, l.shape);
    CStridesRavel(l.shape, l.itemsize, Unravel(k, l.shape));
    SpanSign(l.itemsize, k);
  }

  /** Consecutive blocks starting at an address: what the contiguous fast paths read. */
  function Consecutive(bytes: Bytes, l: Layout): (es: seq<Bytes>)
    requires l.WellFormed() && Fits(l, |bytes|) && |bytes| <= ISIZE_MAX && l.CContiguous()
    ensures |es| == l.Size()
  {
    seq(l.Size(), k requires 0 <= k < l.Size() =>
      ContiguousOff(l, |bytes|, k);
      Block(bytes, l.offset + k * l.itemsize, l.itemsize))
  }

  /** The contiguous fast path and indexing give the same sequence. */
  lemma FastPathAgrees(bytes: Bytes, l: Layout)
    requires l.WellFormed() && Fits(l, |bytes|) && |bytes| <= ISIZE_MAX && l.CContiguous()
    ensures Consecutive(bytes, l) == Elements(bytes, l)
  {
    forall k | 0 <= k < l.Size() ensures Consecutive(bytes, l)[k] == Elements(bytes, l)[k] {
      ContiguousOff(l, |bytes|, k);
    }
  }

  /** Reshaping keeps the row-major sequence of elements. */
  lemma ReshapeKeepsElements(bytes: Bytes, l: Layout, newShape: Shape)
    requires l.WellFormed() && Fits(l, |bytes|) && |bytes| <= ISIZE_MAX && l.Reshape(newShape).Ok?
    ensures Fits(l.Reshape(newShape).value, |bytes|)
    ensures Elements(bytes, l.Reshape(newShape).value) == Elements(bytes, l)
  {
    var v := l.Reshape(newShape).value;
    ViewKeeps(l, Reshape(newShape), |bytes|);
    forall k | 0 <= k < l.Size() ensures Elements(bytes, v)[k] == Elements(bytes, l)[k] {
      UnravelInBounds(k, newShape);
      ReshapeReads(l, newShape, |bytes|, Unravel(k, newShape));
      RavelUnravel(k, newShape);
    }
  }

  // The strided path of copy_to_contiguous.

  /**
   * Where the strided path reads element idx. It starts from `as_ptr()`, which already points at the
   * layout's offset, and adds the element's byte offset, which includes that offset again.
   */
  function StridedAddress(l: Layout, idx: Index): int {
    l.offset + l.Off(idx)
  }

  ghost predicate StridedInRange(l: Layout, n: nat) {
    forall idx :: InBounds(idx, l.shape) ==> 0 <= StridedAddress(l, idx) <= n - l.itemsize
  }

  /** What the strided path copies, when all its reads are inside the allocation. */
  ghost function StridedCopy(bytes: Bytes, l: Layout): (es: Option<seq<Bytes>>)
    requires l.WellFormed()
    ensures es.Some? ==> |es.value| == l.Size()
  {
    if StridedInRange(l, |bytes|) then
      Some(seq(l.Size(), k requires 0 <= k < l.Size() =>
        UnravelInBounds(k, l.shape);
        Block(bytes, StridedAddress(l, Unravel(k, l.shape)), l.itemsize)))
    else None
  }

  /** The elements `to_contiguous` gives its copy; None if it reads outside the allocation. */
  ghost function CopiedElements(bytes: Bytes, l: Layout): (es: Option<seq<Bytes>>)
    requires l.WellFormed() && Fits(l, |bytes|) && |bytes| <= ISIZE_MAX
    ensures es.Some? ==> |es.value| == l.Size() && forall k :: 0 <= k < l.Size() ==> |es.value[k]| == l.itemsize
  {
    if l.CContiguous() then Some(Consecutive(bytes, l)) else StridedCopy(bytes, l)
  }

  /** The last element, moved by a second offset, still ends inside n bytes. */
  predicate StridedInside(l: Layout, n: nat)
    requires l.WellFormed()
  {
    l.offset + l.Off(HighIndex(l.shape, l.strides)) <= n - l.itemsize
  }

  /** A test on layout and allocation alone: the copy reads inside the allocation. */
  predicate CopyInside(l: Layout, n: nat)
    requires l.WellFormed()
  {
    l.CContiguous() || StridedInside(l, n)
  }

  /** The strided path of a non-empty layout stays inside the allocation exactly when the highest element does. */
  lemma StridedInsideExactly(l: Layout, n: nat)
    requires l.WellFormed() && Fits(l, n) && NonEmpty(l.shape)
    ensures StridedInRange(l, n) <==> StridedInside(l, n)
  {
    hide LowIndex, HighIndex, Dot;
    var zero: Index := seq(|l.shape|, _ => 0);
    assert InBounds(zero, l.shape);
    DotZero(zero, l.strides);
    ByteRangeTight(l, zero);
    forall idx | InBounds(idx, l.shape) ensures l.Off(idx) <= l.Off(HighIndex(l.shape, l.strides)) {
      ByteRangeTight(l, idx);
    }
  }

  /** A copy is defined exactly when the test holds. */
  lemma CopyDefinedExactly(bytes: Bytes, l: Layout)
    requires l.WellFormed() && Fits(l, |bytes|) && |bytes| <= ISIZE_MAX
    ensures CopiedElements(bytes, l).Some? <==> CopyInside(l, |bytes|)
  {
    hide Consecutive;
    if !l.CContiguous() { StridedInsideExactly(l, |bytes|); }
  }

  /**
   * Byte by byte: a C-contiguous layout is copied as it is shown, and any other from addresses moved by a
   * second offset; the copy is defined when all of these lie inside the allocation.
   */
  lemma CopiedBytes(bytes: Bytes, l: Layout, idx: Index, b: nat)
    requires l.WellFormed() && Fits(l, |bytes|) && |bytes| <= ISIZE_MAX && InBounds(idx, l.shape) && b < l.itemsize
    ensures var first := (if l.CContiguous() then l.offset else l.offset + l.offset) + Dot(idx, l.strides);
      match CopiedElements(bytes, l)
      case Some(es) =>
        && Ravel(idx, l.shape) < |es| && |es[Ravel(idx, l.shape)]| == l.itemsize && 0 <= first + b < |bytes|
        && es[Ravel(idx, l.shape)][b] == bytes[first + b]
      case None => !l.CContiguous()
    ensures CopiedElements(bytes, l).None? <==>
      && !l.CContiguous()
      && exists i ::
           InBounds(i, l.shape) && !(0 <= l.offset + l.offset + Dot(i, l.strides) <= |bytes| - l.itemsize)
  {
    hide Ravel, Dot, CStrides, Consecutive;
    UnravelRavel(idx, l.shape);
    if l.CContiguous() { FastPathAgrees(bytes, l); }
  }

  /** A copy shows what the original shows, whatever the bytes are. */
  ghost predicate CopyFaithful(l: Layout, n: nat)
    requires l.WellFormed() && Fits(l, n) && n <= ISIZE_MAX
  {
    forall bytes: Bytes | |bytes| == n :: CopiedElements(bytes, l) == Some(Elements(bytes, l))
  }

  /** Copying out is faithful exactly for C-contiguous layouts and for layouts without an offset. */
  lemma CopyFaithfulExactly(l: Layout, n: nat)
    requires l.WellFormed() && Fits(l, n) && n <= ISIZE_MAX
    ensures CopyFaithful(l, n) <==> l.CContiguous() || l.offset == 0
  {
    if l.CContiguous() || l.offset == 0 {
      forall bytes: Bytes | |bytes| == n ensures CopiedElements(bytes, l) == Some(Elements(bytes, l)) {
        CopyIsFaithful(bytes, l);
      }
    } else {
      CopyDiffers(l, n);
    }
  }

  lemma CopyIsFaithful(bytes: Bytes, l: Layout)
    requires l.WellFormed() && Fits(l, |bytes|) && |bytes| <= ISIZE_MAX
    requires l.CContiguous() || l.offset == 0
    ensures CopiedElements(bytes, l) == Some(Elements(bytes, l))
  {
    if l.CContiguous() {
      FastPathAgrees(bytes, l);
    } else {
      assert StridedInRange(l, |bytes|);
      assert StridedCopy(bytes, l).value == Elements(bytes, l);
    }
  }

  lemma CopyDiffers(l: Layout, n: nat)
    requires l.WellFormed() && Fits(l, n) && n <= ISIZE_MAX
    requires !l.CContiguous() && l.offset != 0
    ensures !CopyFaithful(l, n)
  {
    NonEmptyProd(l.shape);
    var zero := Unravel(0, l.shape);
    UnravelInBounds(0, l.shape);
    RavelUnravel(0, l.shape);
    ZeroIndex(zero, l.shape);
    DotZero(zero, l.strides);
    assert l.Off(zero) == l.offset > 0;
    var bytes: Bytes := seq(n, i => if i == l.offset then 1 else 0);
    assert Elements(bytes, l)[0][0] == 1;
    if CopiedElements(bytes, l).Some? {
      assert CopiedElements(bytes, l).value[0][0] == bytes[l.offset + l.offset] == 0;
    }
  }

  lemma {:induction false} ZeroIndex(idx: Index, shape: Shape)
    requires InBounds(idx, shape) && Ravel(idx, shape) == 0
    ensures AllZero(idx)
  {
    if idx != [] {
      var zero: Index := seq(|shape|, _ => 0);
      assert InBounds(zero, shape) by {
        forall k | 0 <= k < |shape| ensures zero[k] < shape[k] { assert idx[k] < shape[k]; }
      }
      ZeroRavel(zero, shape);
      UnravelRavel(idx, shape);
      UnravelRavel(zero, shape);
    }
  }

  // A dense buffer made of given elements.

  /** The elements one after the other. */
  function Pack(es: seq<Bytes>, itemsize: nat): (b: Bytes)
    requires forall k :: 0 <= k < |es| ==> |es[k]| == itemsize
    ensures |b| == |es| * itemsize
  {
    if es == [] then [] else Pack(es[..|es| - 1], itemsize) + es[|es| - 1]
  }

  lemma {:induction false} PackBlock(es: seq<Bytes>, itemsize: nat, k: nat)
    requires forall k :: 0 <= k < |es| ==> |es[k]| == itemsize
    requires k < |es|
    ensures 0 <= k * itemsize <= |es| * itemsize - itemsize
    ensures Block(Pack(es, itemsize), k * itemsize, itemsize) == es[k]
  {
    var m := |es| - 1;
    MulLess(k, |es|, itemsize);
    if k < m {
      PackBlock(es[..m], itemsize, k);
      assert Pack(es, itemsize)[..m * itemsize] == Pack(es[..m], itemsize);
      assert Block(Pack(es, itemsize), k * itemsize, itemsize) == Block(Pack(es[..m], itemsize), k * itemsize, itemsize);
    }
  }

  /** The row-major layout of a fresh buffer. */
  function Dense(shape: Shape, itemsize: nat): Layout {
    Layout(shape, CStrides(shape, itemsize), 0, itemsize)
  }

  /** Packing elements and reading them back through the dense layout gives the elements. */
  lemma PackRoundTrip(es: seq<Bytes>, shape: Shape, itemsize: nat)
    requires itemsize > 0 && |es| == Prod(shape) && Prod(shape) * itemsize <= ISIZE_MAX
    requires forall k :: 0 <= k < |es| ==> |es[k]| == itemsize
    ensures Dense(shape, itemsize).WellFormed() && Fits(Dense(shape, itemsize), |es| * itemsize)
    ensures Elements(Pack(es, itemsize), Dense(shape, itemsize)) == es
  {
    var l := Dense(shape, itemsize);
    SpanSign(itemsize, Prod(shape));
    NewCFits(shape, itemsize);
    forall k | 0 <= k < |es| ensures Elements(Pack(es, itemsize), l)[k] == es[k] {
      ContiguousOff(l, |es| * itemsize, k);
      PackBlock(es, itemsize, k);
    }
  }

  // Writing one element.

  /** The bytes after storing `value` at idx. */
  function Stored(bytes: Bytes, l: Layout, idx: Index, value: Bytes): (b: Bytes)
    requires l.WellFormed() && Fits(l, |bytes|) && InBounds(idx, l.shape) && |value| == l.itemsize
    ensures |b| == |bytes|
  {
    bytes[..l.Off(idx)] + value + bytes[l.Off(idx) + l.itemsize..]
  }

  /** Byte by byte: the element's bytes are the value's and all others stay. */
  lemma StoredBytes(bytes: Bytes, l: Layout, idx: Index, value: Bytes, at: nat)
    requires l.WellFormed() && Fits(l, |bytes|) && InBounds(idx, l.shape) && |value| == l.itemsize && at < |bytes|
    ensures var first := l.offset + Dot(idx, l.strides);
      Stored(bytes, l, idx, value)[at] == if first <= at < first + l.itemsize then value[at - first] else bytes[at]
  {
  }

  /** A write changes exactly the elements at the same address as the written one. */
  lemma StoreChanges(bytes: Bytes, l: Layout, idx: Index, value: Bytes, j: Index)
    requires l.WellFormed() && Fits(l, |bytes|) && |value| == l.itemsize
    requires InBounds(idx, l.shape) && InBounds(j, l.shape)
    ensures Element(Stored(bytes, l, idx, value), l, j)
         == if l.Off(j) == l.Off(idx) then value else Element(bytes, l, j)
  {
    DisjointBlocks(l, |bytes|, idx, j);
    var s := Stored(bytes, l, idx, value);
    var a, b := l.Off(idx), l.Off(j);
    if a + l.itemsize <= b {
      assert s[b..b + l.itemsize] == bytes[b..b + l.itemsize];
    } else if b + l.itemsize <= a {
      assert s[b..b + l.itemsize] == bytes[b..b + l.itemsize];
    }
  }

  /** "Only the written element changes": for every content, index, value and other index. */
  ghost predicate WritesAlone(l: Layout, n: nat)
    requires l.WellFormed() && Fits(l, n)
  {
    forall bytes: Bytes, idx, value: Bytes, j |
      |bytes| == n && InBounds(idx, l.shape) && |value| == l.itemsize && InBounds(j, l.shape) && j != idx ::
      Element(Stored(bytes, l, idx, value), l, j) == Element(bytes, l, j)
  }

  /**
   * On a reachable layout a write changes the written element alone exactly when no axis longer than one
   * has stride zero.
   */
  lemma WritesAloneExactly(l: Layout, n: nat)
    requires l.WellFormed() && Fits(l, n) && SharesOnlyByBroadcast(l) && NonEmpty(l.shape)
    ensures WritesAlone(l, n) <==> forall k :: 0 <= k < |l.shape| && l.shape[k] > 1 ==> l.strides[k] != 0
  {
    InjectiveExactly(l);
    if Injective(l) {
      forall bytes: Bytes, idx, value: Bytes, j |
        |bytes| == n && InBounds(idx, l.shape) && |value| == l.itemsize && InBounds(j, l.shape) && j != idx
        ensures Element(Stored(bytes, l, idx, value), l, j) == Element(bytes, l, j)
      {
        StoreChanges(bytes, l, idx, value, j);
      }
    } else {
      var i, j :| InBounds(i, l.shape) && InBounds(j, l.shape) && l.Off(i) == l.Off(j) && i != j;
      assert l.Off(i) <= n - l.itemsize;
      var bytes: Bytes := seq(n, _ => 0);
      var value: Bytes := seq(l.itemsize, _ => 1);
      StoreChanges(bytes, l, i, value, j);
      assert value[0] != Element(bytes, l, j)[0];
    }
  }
}
