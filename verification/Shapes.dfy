/** Shapes, byte strides and index conversion. */
module Shapes {
  import opened Arith
  import opened Results

  const USIZE_MAX: nat := 0xFFFF_FFFF_FFFF_FFFF
  const ISIZE_MAX: nat := 0x7FFF_FFFF_FFFF_FFFF

  type Shape = seq<nat>
  type Index = seq<nat>
  type Strides = seq<int>

  /** Product of the dimensions. */
  function Prod(s: Shape): nat {
    if s == [] then 1 else s[0] * Prod(s[1..])
  }

  /** Sum of index times stride over the axes both have. */
  function Dot(idx: Index, strides: Strides): int {
    if idx == [] || strides == [] then 0 else idx[0] * strides[0] + Dot(idx[1..], strides[1..])
  }

  predicate InBounds(idx: Index, shape: Shape) {
    |idx| == |shape| && forall k :: 0 <= k < |shape| ==> idx[k] < shape[k]
  }

  lemma ConsInBounds(i: Index, shape: Shape)
    requires |i| == |shape| > 0 && i[0] < shape[0] && InBounds(i[1..], shape[1..])
    ensures InBounds(i, shape)
  {
    forall k | 0 <= k < |shape| ensures i[k] < shape[k] {
      if k > 0 { assert i[1..][k - 1] < shape[1..][k - 1]; }
    }
  }

  lemma TailInBounds(i: Index, shape: Shape)
    requires shape != [] && InBounds(i, shape)
    ensures InBounds(i[1..], shape[1..])
  {
    forall k | 0 <= k < |shape| - 1 ensures i[1..][k] < shape[1..][k] { assert i[k + 1] < shape[k + 1]; }
  }

  /** Position of an index in row-major order. */
  function Ravel(idx: Index, shape: Shape): nat
    requires |idx| == |shape|
  {
    if idx == [] then 0 else idx[0] * Prod(shape[1..]) + Ravel(idx[1..], shape[1..])
  }

  /** The index at row-major position `flat`. */
  function Unravel(flat: nat, shape: Shape): (idx: Index)
    requires flat < Prod(shape)
    ensures |idx| == |shape|
  {
    if shape == [] then []
    else
      TailPositive(shape);
      var p := Prod(shape[1..]);
      [Quotient(flat, p)] + Unravel(Remainder(flat, p), shape[1..])
  }

  lemma ZeroFactor(a: nat, b: nat)
    ensures a == 0 || b == 0 ==> a * b == 0
  {
  }

  lemma TailPositive(shape: Shape)
    requires shape != [] && Prod(shape) > 0
    ensures shape[0] > 0 && Prod(shape[1..]) > 0
  {
    ZeroFactor(shape[0], Prod(shape[1..]));
  }

  lemma {:induction false} RavelBound(idx: Index, shape: Shape)
    requires InBounds(idx, shape)
    ensures Ravel(idx, shape) < Prod(shape)
  {
    if idx != [] {
      RavelBound(idx[1..], shape[1..]);
      MulLess(idx[0], shape[0], Prod(shape[1..]));
    }
  }

  lemma {:induction false} UnravelInBounds(flat: nat, shape: Shape)
    requires flat < Prod(shape)
    ensures InBounds(Unravel(flat, shape), shape)
  {
    if shape != [] {
      var i, low := UnravelUnfold(flat, shape);
      UnravelInBounds(low, shape[1..]);
      hide Prod, Unravel;
    }
  }

  /** One level of unravelling: the first coordinate and the position below it. */
  lemma UnravelUnfold(flat: nat, shape: Shape) returns (i: nat, low: nat)
    requires shape != [] && flat < Prod(shape)
    ensures low < Prod(shape[1..]) && i < shape[0] && flat == i * Prod(shape[1..]) + low
    ensures Unravel(flat, shape) == [i] + Unravel(low, shape[1..])
  {
    TailPositive(shape);
    var p := Prod(shape[1..]);
    i, low := DivMod(flat, shape[0], p);
  }

  lemma DivMod(n: nat, d: nat, p: nat) returns (q: nat, r: nat)
    requires p > 0 && n < d * p
    ensures q == n / p && r == n % p
    ensures n == q * p + r && r < p && q < d
  {
    q, r := n / p, n % p;
    if q >= d { MulMonotone(d, q, p); }
  }

  /** Row-major position `low` below first coordinate i. */
  lemma UnravelCons(i: nat, low: nat, shape: Shape)
    requires shape != [] && i < shape[0] && low < Prod(shape[1..])
    ensures 0 <= i * Prod(shape[1..]) + low < Prod(shape)
    ensures Unravel(i * Prod(shape[1..]) + low, shape) == [i] + Unravel(low, shape[1..])
  {
    hide Unravel;
    ProdCons(shape);
    hide Prod;
    MulLess(i, shape[0], Prod(shape[1..]));
    UnravelAt(i * Prod(shape[1..]) + low, i, low, shape);
  }

  lemma ProdCons(shape: Shape)
    requires shape != []
    ensures Prod(shape) == shape[0] * Prod(shape[1..])
  {
  }

  lemma UnravelAt(flat: nat, i: nat, low: nat, shape: Shape)
    requires shape != [] && flat < Prod(shape) && low < Prod(shape[1..])
    requires flat == i * Prod(shape[1..]) + low
    ensures Unravel(flat, shape) == [i] + Unravel(low, shape[1..])
  {
    hide Prod, Unravel;
    var q, r := UnravelUnfold(flat, shape);
    DivModUnique(flat, Prod(shape[1..]), i, low);
    DivModUnique(flat, Prod(shape[1..]), q, r);
  }

  lemma {:induction false} RavelUnravel(flat: nat, shape: Shape)
    requires flat < Prod(shape)
    ensures Ravel(Unravel(flat, shape), shape) == flat
  {
    if shape != [] {
      var i, low := UnravelUnfold(flat, shape);
      RavelUnravel(low, shape[1..]);
      hide Prod, Unravel;
    }
  }

  lemma {:induction false} UnravelRavel(idx: Index, shape: Shape)
    requires InBounds(idx, shape)
    ensures Ravel(idx, shape) < Prod(shape) && Unravel(Ravel(idx, shape), shape) == idx
  {
    RavelBound(idx, shape);
    if idx != [] {
      UnravelRavel(idx[1..], shape[1..]);
      DivModUnique(Ravel(idx, shape), Prod(shape[1..]), idx[0], Ravel(idx[1..], shape[1..]));
    }
  }

  // Row-major order is the lexicographic order of indices.

  predicate LexLess(a: Index, b: Index)
    requires |a| == |b|
  {
    a != [] && (a[0] < b[0] || (a[0] == b[0] && LexLess(a[1..], b[1..])))
  }

  lemma {:induction false} RavelIsLexicographic(a: Index, b: Index, shape: Shape)
    requires InBounds(a, shape) && InBounds(b, shape)
    ensures LexLess(a, b) <==> Ravel(a, shape) < Ravel(b, shape)
  {
    if a != [] {
      var p := Prod(shape[1..]);
      RavelBound(a[1..], shape[1..]);
      RavelBound(b[1..], shape[1..]);
      if a[0] < b[0] {
        MulLess(a[0], b[0], p);
      } else if b[0] < a[0] {
        MulLess(b[0], a[0], p);
      } else {
        RavelIsLexicographic(a[1..], b[1..], shape[1..]);
      }
    }
  }

  // Contiguous strides.

  /** `isize::saturating_mul` on non-negative operands. */
  function SatMul(a: nat, b: nat): nat {
    if a * b <= ISIZE_MAX then a * b else ISIZE_MAX
  }

  /** The accumulator after multiplying in every dimension of `shape`, last axis first. */
  function StrideAcc(shape: Shape, acc: nat): nat {
    if shape == [] then acc else SatMul(StrideAcc(shape[1..], acc), shape[0])
  }

  function CStrides(shape: Shape, itemsize: nat): (s: Strides)
    ensures |s| == |shape|
  {
    if shape == [] then [] else [StrideAcc(shape[1..], itemsize)] + CStrides(shape[1..], itemsize)
  }

  function FStrides(shape: Shape, acc: nat): (s: Strides)
    ensures |s| == |shape|
  {
    if shape == [] then [] else [acc] + FStrides(shape[1..], SatMul(acc, shape[0]))
  }

  method ComputeCStrides(shape: Shape, itemsize: nat) returns (strides: Strides)
    ensures strides == CStrides(shape, itemsize)
  {
    var ndim := |shape|;
    strides := seq(ndim, _ => 0);
    var acc := itemsize;
    for i := ndim downto 0
      invariant |strides| == ndim
      invariant acc == StrideAcc(shape[i..], itemsize)
      invariant strides[i..] == CStrides(shape[i..], itemsize)
    {
      strides := strides[i := acc];
      acc := SatMul(acc, shape[i]);
      assert shape[i..][1..] == shape[i + 1..];
    }
  }

  method ComputeFStrides(shape: Shape, itemsize: nat) returns (strides: Strides)
    ensures strides == FStrides(shape, itemsize)
  {
    strides := [];
    var acc := itemsize;
    for i := 0 to |shape|
      invariant strides + FStrides(shape[i..], acc) == FStrides(shape, itemsize)
    {
      assert shape[i..][1..] == shape[i + 1..];
      ghost var before := strides;
      strides := strides + [acc];
      ghost var next := SatMul(acc, shape[i]);
      assert before + FStrides(shape[i..], acc) == strides + FStrides(shape[i + 1..], next);
      acc := SatMul(acc, shape[i]);
    }
  }

  /** No dimension is zero. */
  predicate NonEmpty(shape: Shape) {
    forall k :: 0 <= k < |shape| ==> shape[k] > 0
  }

  lemma {:induction false} NonEmptyProd(shape: Shape)
    ensures NonEmpty(shape) <==> Prod(shape) > 0
  {
    if shape != [] {
      NonEmptyProd(shape[1..]);
      if Prod(shape) > 0 {
        TailPositive(shape);
        assert NonEmpty(shape[1..]);
        forall k | 0 <= k < |shape| ensures shape[k] > 0 {
          if k > 0 { assert shape[k] == shape[1..][k - 1]; }
        }
      }
      if NonEmpty(shape) {
        forall k | 0 <= k < |shape[1..]| ensures shape[1..][k] > 0 {
          assert shape[1..][k] == shape[k + 1];
        }
        MulAtLeast(shape[0], Prod(shape[1..]));
      }
    }
  }

  /** The saturating multiplication never fires on a non-empty shape whose bytes fit in isize. */
  lemma {:induction false} AccExact(shape: Shape, itemsize: nat)
    requires NonEmpty(shape) && itemsize * Prod(shape) <= ISIZE_MAX
    ensures StrideAcc(shape, itemsize) == itemsize * Prod(shape)
  {
    if shape != [] {
      var p := Prod(shape[1..]);
      TailFits(shape, itemsize);
      AccExact(shape[1..], itemsize);
      assert (itemsize * p) * shape[0] == itemsize * (shape[0] * p);
    }
  }

  lemma TailFits(shape: Shape, itemsize: nat)
    requires shape != [] && NonEmpty(shape)
    ensures NonEmpty(shape[1..])
    ensures itemsize * Prod(shape[1..]) <= itemsize * Prod(shape)
  {
    ProdCons(shape);
    forall k | 0 <= k < |shape[1..]| ensures shape[1..][k] > 0 {
      assert shape[1..][k] == shape[k + 1];
    }
    var p := Prod(shape[1..]);
    hide Prod;
    MulAtLeast(shape[0], p);
    MulMonotone(p, shape[0] * p, itemsize);
  }

  /** Row-major strides place index `idx` at `itemsize` times its row-major position. */
  lemma {:induction false} CStridesRavel(shape: Shape, itemsize: nat, idx: Index)
    requires NonEmpty(shape) && itemsize * Prod(shape) <= ISIZE_MAX
    requires |idx| == |shape|
    ensures Dot(idx, CStrides(shape, itemsize)) == itemsize * Ravel(idx, shape)
  {
    if shape != [] {
      var p := Prod(shape[1..]);
      TailFits(shape, itemsize);
      AccExact(shape[1..], itemsize);
      CStridesRavel(shape[1..], itemsize, idx[1..]);
      assert CStrides(shape, itemsize)[1..] == CStrides(shape[1..], itemsize);
      Distribute(itemsize, idx[0], p, Ravel(idx[1..], shape[1..]));
      hide Prod, SatMul, StrideAcc;
    }
  }

  lemma Distribute(w: int, i: int, p: int, r: int)
    ensures w * (i * p + r) == i * (w * p) + w * r
  {
    assert w * (i * p) == i * (w * p);
  }

  /** With the dimensions positive, the accumulator is the exact product cut off at the largest `isize`. */
  lemma {:induction false} AccSaturates(shape: Shape, acc: nat)
    requires acc <= 0x7FFF_FFFF_FFFF_FFFF
    ensures NonEmpty(shape) ==> StrideAcc(shape, acc) == CutOff(acc * Prod(shape))
    ensures !NonEmpty(shape) ==> StrideAcc(shape, acc) == 0
  {
    if shape != [] {
      AccSaturates(shape[1..], acc);
      EmptyTail(shape);
      if NonEmpty(shape) {
        CutOffTwice(acc, Prod(shape[1..]), shape[0]);
      } else if shape[0] == 0 {
        ZeroFactor(StrideAcc(shape[1..], acc), shape[0]);
      }
    }
  }

  function CutOff(n: int): int {
    if n <= 0x7FFF_FFFF_FFFF_FFFF then n else 0x7FFF_FFFF_FFFF_FFFF
  }

  lemma EmptyTail(shape: Shape)
    requires shape != []
    ensures NonEmpty(shape) <==> shape[0] > 0 && NonEmpty(shape[1..])
  {
    if shape[0] > 0 && NonEmpty(shape[1..]) {
      forall k | 0 <= k < |shape| ensures shape[k] > 0 {
        if k > 0 { assert shape[1..][k - 1] > 0; }
      }
    }
  }

  lemma CutOffTwice(acc: nat, p: nat, d: nat)
    requires d > 0
    ensures acc * p >= 0 && SatMul(CutOff(acc * p), d) == CutOff(acc * (d * p))
  {
    assert acc * (d * p) == (acc * p) * d;
    MulMonotone(1, d, acc * p);
    MulMonotone(1, d, 0x7FFF_FFFF_FFFF_FFFF);
    MulMonotone(0x7FFF_FFFF_FFFF_FFFF, if acc * p > 0x7FFF_FFFF_FFFF_FFFF then acc * p else 0x7FFF_FFFF_FFFF_FFFF, d);
  }

  /** Each row-major stride is the cut-off bytes of everything to its right. */
  lemma {:induction false} CStrideAt(shape: Shape, itemsize: nat, k: nat)
    requires k < |shape| && itemsize <= 0x7FFF_FFFF_FFFF_FFFF
    ensures CStrides(shape, itemsize)[k]
         == if NonEmpty(shape[k + 1..]) then CutOff(itemsize * Prod(shape[k + 1..])) else 0
  {
    if k == 0 {
      AccSaturates(shape[1..], itemsize);
    } else {
      CStrideAt(shape[1..], itemsize, k - 1);
      assert shape[1..][k..] == shape[k + 1..];
    }
  }

  // Column-major strides are the row-major strides of the reversed shape, reversed.

  function Reverse<T>(s: seq<T>): (r: seq<T>)
    ensures |r| == |s|
    ensures forall k :: 0 <= k < |s| ==> r[k] == s[|s| - 1 - k]
  {
    seq(|s|, k requires 0 <= k < |s| => s[|s| - 1 - k])
  }

  lemma {:induction false} CStridesAppend(shape: Shape, d: nat, acc: nat)
    ensures StrideAcc(shape + [d], acc) == StrideAcc(shape, SatMul(acc, d))
    ensures CStrides(shape + [d], acc) == CStrides(shape, SatMul(acc, d)) + [acc]
  {
    if shape == [] {
      assert (shape + [d])[1..] == [];
    } else {
      CStridesAppend(shape[1..], d, acc);
      assert (shape + [d])[1..] == shape[1..] + [d];
    }
  }

  lemma {:induction false} FStridesReverse(shape: Shape, acc: nat)
    ensures Reverse(FStrides(shape, acc)) == CStrides(Reverse(shape), acc)
  {
    if shape != [] {
      var next := SatMul(acc, shape[0]);
      FStridesReverse(shape[1..], next);
      CStridesAppend(Reverse(shape[1..]), shape[0], acc);
      assert Reverse(shape) == Reverse(shape[1..]) + [shape[0]];
      assert Reverse(FStrides(shape, acc)) == Reverse(FStrides(shape[1..], next)) + [acc];
    }
  }

  // Sizes.

  /** Every partial product stays within isize. */
  predicate SizeRepresentable(shape: Shape) {
    forall k :: 0 <= k <= |shape| ==> Prod(shape[..k]) <= ISIZE_MAX
  }

  lemma {:induction false} ProdAppend(s: Shape, d: nat)
    ensures Prod(s + [d]) == Prod(s) * d
  {
    if s == [] {
      assert s + [d] == [d] && [d][1..] == [];
    } else {
      ProdAppend(s[1..], d);
      assert (s + [d])[1..] == s[1..] + [d];
      assert s[0] * (Prod(s[1..]) * d) == (s[0] * Prod(s[1..])) * d;
    }
  }

  lemma ProdPrefixStep(shape: Shape, i: nat)
    requires i < |shape|
    ensures Prod(shape[..i + 1]) == Prod(shape[..i]) * shape[i]
  {
    ProdAppend(shape[..i], shape[i]);
    assert shape[..i + 1] == shape[..i] + [shape[i]];
  }

  /** `shape_size`: both overflow tests report the same error. */
  method ShapeSize(shape: Shape) returns (r: Result<nat>)
    ensures r == if SizeRepresentable(shape) then Ok(Prod(shape)) else Err(ShapeOverflow)
    ensures r.Ok? <==> forall k :: 0 <= k <= |shape| ==> Prod(shape[..k]) <= 0x7FFF_FFFF_FFFF_FFFF
  {
    var total: nat := 1;
    for i := 0 to |shape|
      invariant total == Prod(shape[..i])
      invariant forall k :: 0 <= k <= i ==> Prod(shape[..k]) <= ISIZE_MAX
    {
      ProdPrefixStep(shape, i);
      total := total * shape[i];
      if total > USIZE_MAX { return Err(ShapeOverflow); }
      if total > ISIZE_MAX { return Err(ShapeOverflow); }
    }
    assert shape[..|shape|] == shape;
    return Ok(total);
  }

  predicate NbytesRepresentable(shape: Shape, itemsize: nat) {
    shape != [] ==> SizeRepresentable(shape) && Prod(shape) * itemsize <= USIZE_MAX
  }

  method ContiguousNbytes(shape: Shape, itemsize: nat) returns (r: Result<nat>)
    ensures r == if NbytesRepresentable(shape, itemsize) then Ok(Prod(shape) * itemsize) else Err(ShapeOverflow)
    ensures shape == [] ==> r == Ok(itemsize)
    ensures shape != [] ==>
      (r.Ok? <==> SizeRepresentable(shape) && Prod(shape) * itemsize <= 0xFFFF_FFFF_FFFF_FFFF)
  {
    if shape == [] { return Ok(itemsize); }
    var size := ShapeSize(shape);
    if !size.Ok? { return Err(ShapeOverflow); }
    if size.value * itemsize > USIZE_MAX { return Err(ShapeOverflow); }
    return Ok(size.value * itemsize);
  }

  // Index conversion.

  /**
   * `unravel_index`. The bounds test is skipped for a size of zero, and the division by the
   * zero dimension then panics instead of reporting the error the documentation promises.
   */
  method UnravelIndex(flat: nat, shape: Shape) returns (r: Result<Index>)
    ensures r.Ok? <==> SizeRepresentable(shape) && flat < Prod(shape)
    ensures r.Ok? ==> r.value == Unravel(flat, shape)
    ensures r.Panic? <==> SizeRepresentable(shape) && Prod(shape) == 0
    ensures r == Err(ShapeOverflow) <==> !SizeRepresentable(shape)
    ensures SizeRepresentable(shape) && flat >= Prod(shape) > 0 ==> r == Err(IndexOutOfBounds(0))
  {
    var size := ShapeSize(shape);
    if !size.Ok? { return Err(ShapeOverflow); }
    if flat >= size.value && size.value > 0 { return Err(IndexOutOfBounds(0)); }
    hide Rest, Prod, Quotient, Remainder;
    var idx: Index, rem := [], flat;
    ghost var low: nat := 0;
    assert shape[|shape|..] == [];
    UnravelStart(flat);
    for i := |shape| downto 0
      invariant low < Prod(shape[i..]) && idx == Unravel(low, shape[i..])
      invariant Rest(flat, rem, low, shape[i..])
    {
      if shape[i] == 0 {
        NonEmptyProd(shape);
        return Panic;
      }
      hide Unravel;
      assert shape[i..][1..] == shape[i + 1..];
      low := UnravelDivide(flat, rem, low, shape[i..]);
      // pushed and reversed at the end: the same as prepending
      idx := [Remainder(rem, shape[i])] + idx;
      rem := Quotient(rem, shape[i]);
    }
    assert shape[0..] == shape;
    UnravelEnd(flat, rem, low, shape);
    return Ok(idx);
  }

  /** `flat` is position `low` of the axes divided out, with `rem` left for the others. */
  predicate Rest(flat: nat, rem: nat, low: nat, s: Shape) {
    flat == rem * Prod(s) + low
  }

  lemma UnravelStart(flat: nat)
    ensures Prod([]) == 1 && Unravel(0, []) == [] && Rest(flat, flat, 0, [])
  {
  }

  lemma UnravelEnd(flat: nat, rem: nat, low: nat, s: Shape)
    requires Rest(flat, rem, low, s) && flat < Prod(s)
    ensures flat == low
  {
    if rem > 0 { MulAtLeast(rem, Prod(s)); }
  }

  /** One division of the loop: the remainder becomes the leading component of the part unravelled so far. */
  lemma UnravelDivide(flat: nat, rem: nat, low: nat, s: Shape) returns (low': nat)
    requires s != [] && s[0] > 0 && low < Prod(s[1..]) && Rest(flat, rem, low, s[1..])
    ensures low' < Prod(s)
    ensures Unravel(low', s) == [Remainder(rem, s[0])] + Unravel(low, s[1..])
    ensures Rest(flat, Quotient(rem, s[0]), low', s)
  {
    hide Prod, Unravel, Rest, Quotient, Remainder;
    DivModBack(rem, s[0]);
    low' := UnravelStep(flat, rem, Quotient(rem, s[0]), Remainder(rem, s[0]), low, s);
  }

  function Quotient(n: nat, d: nat): nat
    requires d > 0
  {
    n / d
  }

  function Remainder(n: nat, d: nat): (r: nat)
    requires d > 0
    ensures r < d
  {
    n % d
  }

  lemma DivModBack(n: nat, d: nat)
    requires d > 0
    ensures Quotient(n, d) * d + Remainder(n, d) == n && Remainder(n, d) < d
  {
  }

  lemma UnravelStep(flat: nat, rem: nat, q: nat, r: nat, low: nat, s: Shape) returns (low': nat)
    requires s != [] && r < s[0] && low < Prod(s[1..]) && Rest(flat, rem, low, s[1..])
    requires rem == q * s[0] + r
    ensures low' < Prod(s)
    ensures Unravel(low', s) == [r] + Unravel(low, s[1..])
    ensures Rest(flat, q, low', s)
  {
    UnravelCons(r, low, s);
    low' := r * Prod(s[1..]) + low;
    HornerStep(q, s[0], r, Prod(s[1..]));
    ProdCons(s);
    hide Prod, Unravel;
  }

  /** The first axis whose component is out of range, if any. */
  predicate FirstBad(idx: Index, shape: Shape, axis: nat) {
    axis < |idx| == |shape| && idx[axis] >= shape[axis] && forall k :: 0 <= k < axis ==> idx[k] < shape[k]
  }

  method RavelMultiIndex(idx: Index, shape: Shape) returns (r: Result<nat>)
    ensures r.Ok? <==> InBounds(idx, shape)
    ensures r.Ok? ==> r.value == Ravel(idx, shape)
    ensures r.Ok? || r.Err?
    ensures r.Err? && |idx| == |shape| ==> r.error.IndexOutOfBounds? && FirstBad(idx, shape, r.error.axis)
    ensures r == Err(TooManyIndices) <==> |idx| != |shape|
  {
    if |idx| != |shape| { return Err(TooManyIndices); }
    hide Position, Ravel, Prod, Extended;
    var flat: nat := 0;
    assert idx[0..] == idx && shape[0..] == shape;
    PositionEnds(0, idx, shape);
    for axis := 0 to |idx|
      invariant forall k :: 0 <= k < axis ==> idx[k] < shape[k]
      invariant Position(flat, idx[axis..], shape[axis..]) == Ravel(idx, shape)
    {
      if idx[axis] >= shape[axis] { return Err(IndexOutOfBounds(axis)); }
      Horner(flat, idx, shape, axis);
      flat := Extended(flat, shape[axis], idx[axis]);
    }
    PositionEnds(flat, [], []);
    assert idx[|idx|..] == [] && shape[|idx|..] == [];
    return Ok(flat);
  }

  /** The row-major position when `flat` is the position of the axes before these. */
  function Position(flat: nat, idx: Index, shape: Shape): nat
    requires |idx| == |shape|
  {
    flat * Prod(shape) + Ravel(idx, shape)
  }

  lemma PositionEnds(flat: nat, idx: Index, shape: Shape)
    requires |idx| == |shape|
    ensures Position(0, idx, shape) == Ravel(idx, shape)
    ensures idx == [] ==> Position(flat, idx, shape) == flat
  {
  }

  /** The position with one more axis, of length d and coordinate i. */
  function Extended(flat: nat, d: nat, i: nat): nat {
    flat * d + i
  }

  /** One step of Horner's rule. */
  lemma Horner(flat: nat, idx: Index, shape: Shape, axis: nat)
    requires axis < |idx| == |shape|
    ensures Position(flat, idx[axis..], shape[axis..])
         == Position(Extended(flat, shape[axis], idx[axis]), idx[axis + 1..], shape[axis + 1..])
  {
    assert shape[axis..][1..] == shape[axis + 1..] && idx[axis..][1..] == idx[axis + 1..];
    HornerStep(flat, shape[axis], idx[axis], Prod(shape[axis + 1..]));
  }

  lemma HornerStep(flat: nat, d: nat, i: nat, p: nat)
    ensures flat * (d * p) + i * p == (flat * d + i) * p
  {
    assert flat * (d * p) == (flat * d) * p;
  }

  method ByteOffset(idx: Index, strides: Strides, baseOffset: int) returns (off: int)
    ensures off == baseOffset + Dot(idx, strides)
  {
    off := baseOffset;
    var n := if |idx| < |strides| then |idx| else |strides|;
    for k := 0 to n
      invariant off + Dot(idx[k..], strides[k..]) == baseOffset + Dot(idx, strides)
    {
      assert idx[k..][1..] == idx[k + 1..] && strides[k..][1..] == strides[k + 1..];
      off := off + idx[k] * strides[k];
    }
  }

  // Broadcasting.

  /** Trailing axes match or are one in the source. */
  predicate Broadcastable(src: Shape, tgt: Shape) {
    |src| <= |tgt| &&
    forall k :: 0 <= k < |src| ==> src[k] == tgt[|tgt| - |src| + k] || src[k] == 1
  }

  function BroadcastStride(src: Shape, strides: Strides, tgt: Shape, axis: nat): int
    requires |src| == |strides| && |src| <= |tgt| && axis < |tgt|
  {
    var lead := |tgt| - |src|;
    if axis < lead then 0
    else if src[axis - lead] == tgt[axis] then strides[axis - lead]
    else 0
  }

  function BroadcastStrides(src: Shape, strides: Strides, tgt: Shape): (s: Strides)
    requires |src| == |strides| && |src| <= |tgt|
    ensures |s| == |tgt|
  {
    seq(|tgt|, axis requires 0 <= axis < |tgt| => BroadcastStride(src, strides, tgt, axis))
  }

  method ComputeBroadcastStrides(src: Shape, strides: Strides, tgt: Shape) returns (r: Result<Strides>)
    requires |src| == |strides|
    ensures r == if Broadcastable(src, tgt) then Ok(BroadcastStrides(src, strides, tgt)) else Err(BroadcastError)
    ensures r.Ok? <==> |src| <= |tgt| && forall k :: 0 <= k < |src| ==> src[k] == tgt[|tgt| - |src| + k] || src[k] == 1
    ensures !r.Ok? ==> r == Err(BroadcastError)
    ensures r.Ok? ==> |r.value| == |tgt| && forall k :: 0 <= k < |tgt| ==>
      r.value[k] == if k >= |tgt| - |src| && src[k - (|tgt| - |src|)] == tgt[k] then strides[k - (|tgt| - |src|)] else 0
  {
    if |src| > |tgt| { return Err(BroadcastError); }
    var out: Strides := [];
    var offset := |tgt| - |src|;
    for k := 0 to offset
      invariant out == BroadcastStrides(src, strides, tgt)[..k]
    {
      out := out + [0];
    }
    for axis := 0 to |src|
      invariant |out| == offset + axis
      invariant out == BroadcastStrides(src, strides, tgt)[..offset + axis]
      invariant forall k :: 0 <= k < axis ==> src[k] == tgt[offset + k] || src[k] == 1
    {
      var dim := tgt[offset + axis];
      if src[axis] == dim {
        out := out + [strides[axis]];
      } else if src[axis] == 1 {
        out := out + [0];
      } else {
        return Err(BroadcastError);
      }
    }
    assert out == BroadcastStrides(src, strides, tgt);
    return Ok(out);
  }

  /** Broadcasting in two steps gives the strides of broadcasting at once. */
  lemma BroadcastTwice(s1: Shape, strides: Strides, s2: Shape, s3: Shape)
    requires |s1| == |strides|
    requires Broadcastable(s1, s2) && Broadcastable(s2, s3)
    ensures Broadcastable(s1, s3)
    ensures BroadcastStrides(s2, BroadcastStrides(s1, strides, s2), s3) == BroadcastStrides(s1, strides, s3)
  {
    var lead := |s3| - |s2|;
    forall k | 0 <= k < |s1| ensures s1[k] == s3[|s3| - |s1| + k] || s1[k] == 1 {
      var j := |s2| - |s1| + k;
      assert s1[k] == s2[j] || s1[k] == 1;
      assert s2[j] == s3[lead + j] || s2[j] == 1;
    }
    forall axis | 0 <= axis < |s3|
      ensures BroadcastStride(s2, BroadcastStrides(s1, strides, s2), s3, axis) == BroadcastStride(s1, strides, s3, axis)
    {
      if axis >= lead {
        var j := axis - lead;
        if j >= |s2| - |s1| {
          var k := j - (|s2| - |s1|);
          assert s1[k] == s2[j] || s1[k] == 1;
          assert s2[j] == s3[lead + j] || s2[j] == 1;
        }
      }
    }
  }

  /** `validate_strides` for a read-only layout: strides of axes longer than one are multiples of the item size. */
  predicate ValidStrides(shape: Shape, strides: Strides, itemsize: nat)
    requires |shape| == |strides| && itemsize > 0
  {
    forall k :: 0 <= k < |shape| ==> shape[k] <= 1 || strides[k] % itemsize == 0
  }
}
