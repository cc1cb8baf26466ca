/** Axis permutations, and sums and products under them. */
module Permutations {
  import opened Arith
  import opened Shapes

  predicate Distinct(s: seq<nat>) {
    forall i, j :: 0 <= i < j < |s| ==> s[i] != s[j]
  }

  /** `axes` lists every number below n exactly once. */
  predicate IsPermutation(axes: seq<nat>, n: nat) {
    |axes| == n && (forall k :: 0 <= k < n ==> axes[k] < n) && Distinct(axes)
  }

  /** The entries of s picked in the order of `axes`. */
  function Pick<T>(s: seq<T>, axes: seq<nat>): (r: seq<T>)
    requires forall k :: 0 <= k < |axes| ==> axes[k] < |s|
    ensures |r| == |axes|
    ensures forall k :: 0 <= k < |axes| ==> r[k] == s[axes[k]]
  {
    seq(|axes|, k requires 0 <= k < |axes| => s[axes[k]])
  }

  /** Pigeonhole: a permutation reaches every axis. */
  lemma Onto(axes: seq<nat>, a: nat)
    requires IsPermutation(axes, |axes|) && a < |axes|
    ensures a in axes
  {
    var f: nat -> nat := (i: nat) => if i < |axes| then axes[i] else 0;
    InjectiveIsSurjective(|axes|, f, a);
  }

  function IndexOf(s: seq<nat>, a: nat): (k: nat)
    requires a in s
    ensures k < |s| && s[k] == a
  {
    if s[0] == a then 0 else 1 + IndexOf(s[1..], a)
  }

  function Inverse(axes: seq<nat>): (inv: seq<nat>)
    requires IsPermutation(axes, |axes|)
    ensures |inv| == |axes|
    ensures forall a :: 0 <= a < |axes| ==> inv[a] < |axes| && axes[inv[a]] == a
  {
    seq(|axes|, a requires 0 <= a < |axes| => Onto(axes, a); IndexOf(axes, a))
  }

  lemma InverseIsPermutation(axes: seq<nat>)
    requires IsPermutation(axes, |axes|)
    ensures IsPermutation(Inverse(axes), |axes|)
    ensures forall k :: 0 <= k < |axes| ==> Inverse(axes)[axes[k]] == k
  {
    var inv := Inverse(axes);
    forall k | 0 <= k < |axes| ensures inv[axes[k]] == k {
      assert axes[inv[axes[k]]] == axes[k];
    }
    forall a, b | 0 <= a < b < |axes| ensures inv[a] != inv[b] {
      assert axes[inv[a]] == a && axes[inv[b]] == b;
    }
  }

  function Remove<T>(s: seq<T>, p: nat): (r: seq<T>)
    requires p < |s|
    ensures |r| == |s| - 1
    ensures forall k :: 0 <= k < |r| ==> r[k] == if k < p then s[k] else s[k + 1]
  {
    s[..p] + s[p + 1..]
  }

  function Insert<T>(s: seq<T>, p: nat, x: T): (r: seq<T>)
    requires p <= |s|
    ensures |r| == |s| + 1
    ensures forall k :: 0 <= k < |r| ==> r[k] == if k < p then s[k] else if k == p then x else s[k - 1]
  {
    s[..p] + [x] + s[p..]
  }

  lemma {:induction false} DotRemove(a: Index, b: Strides, p: nat)
    requires |a| == |b| && p < |a|
    ensures Dot(a, b) == a[p] * b[p] + Dot(Remove(a, p), Remove(b, p))
  {
    if p == 0 {
      assert Remove(a, 0) == a[1..] && Remove(b, 0) == b[1..];
    } else {
      DotRemove(a[1..], b[1..], p - 1);
      assert Remove(a, p)[1..] == Remove(a[1..], p - 1);
      assert Remove(b, p)[1..] == Remove(b[1..], p - 1);
    }
  }

  lemma MulSwap(x: int, y: int, z: int)
    ensures x * (y * z) == y * (x * z)
  {
    assert x * (y * z) == (x * y) * z;
  }

  lemma {:induction false} ProdRemove(a: Shape, p: nat)
    requires p < |a|
    ensures Prod(a) == a[p] * Prod(Remove(a, p))
  {
    if p == 0 {
      assert Remove(a, 0) == a[1..];
    } else {
      ProdRemove(a[1..], p - 1);
      assert Remove(a, p)[1..] == Remove(a[1..], p - 1);
      MulSwap(a[0], a[p], Prod(Remove(a[1..], p - 1)));
    }
  }

  /** Dropping the largest axis from a permutation leaves a permutation of the others. */
  lemma DropLast(axes: seq<nat>, p: nat)
    requires IsPermutation(axes, |axes|) && p < |axes| && axes[p] == |axes| - 1
    ensures IsPermutation(Remove(axes, p), |axes| - 1)
  {
    forall k | 0 <= k < |axes| - 1 ensures Remove(axes, p)[k] < |axes| - 1 {
      var j := if k < p then k else k + 1;
      assert j != p ==> axes[j] != axes[p];
    }
  }

  lemma PickRemove<T>(s: seq<T>, axes: seq<nat>, p: nat)
    requires |s| == |axes| && IsPermutation(axes, |axes|) && p < |axes| && axes[p] == |axes| - 1
    ensures IsPermutation(Remove(axes, p), |axes| - 1)
    ensures Remove(Pick(s, axes), p) == Pick(s[..|s| - 1], Remove(axes, p))
    ensures Remove(s, |s| - 1) == s[..|s| - 1]
  {
    DropLast(axes, p);
  }

  /** The stride sum does not depend on the order of the axes. */
  lemma {:induction false} DotPick(idx: Index, strides: Strides, axes: seq<nat>)
    requires |idx| == |strides| == |axes| && IsPermutation(axes, |axes|)
    ensures Dot(Pick(idx, axes), Pick(strides, axes)) == Dot(idx, strides)
    decreases |axes|
  {
    var n := |axes|;
    if n > 0 {
      Onto(axes, n - 1);
      var p := IndexOf(axes, n - 1);
      PickRemove(idx, axes, p);
      PickRemove(strides, axes, p);
      DotRemove(Pick(idx, axes), Pick(strides, axes), p);
      DotRemove(idx, strides, n - 1);
      DotPick(idx[..n - 1], strides[..n - 1], Remove(axes, p));
    }
  }

  lemma {:induction false} ProdPick(shape: Shape, axes: seq<nat>)
    requires |shape| == |axes| && IsPermutation(axes, |axes|)
    ensures Prod(Pick(shape, axes)) == Prod(shape)
    decreases |axes|
  {
    var n := |axes|;
    if n > 0 {
      Onto(axes, n - 1);
      var p := IndexOf(axes, n - 1);
      PickRemove(shape, axes, p);
      ProdRemove(Pick(shape, axes), p);
      ProdRemove(shape, n - 1);
      ProdPick(shape[..n - 1], Remove(axes, p));
    }
  }
}
