/** Resolving `start:stop:step` against an axis. */
module Slices {
  import opened Arith
  import opened Results
  import opened Shapes

  datatype SliceArg = SliceArg(start: Option<int>, stop: Option<int>, step: Option<int>) {
    function Step(): int {
      if step.Some? then step.value else 1
    }

    /** The resolved start, element count and step, in element units. */
    function Resolve(dim: nat): Result<Resolved> {
      if Step() == 0 then Err(ZeroSliceStep)
      else if Step() > 0 then
        var s := if start.Some? then Clamp(start.value, dim) else 0;
        var e := if stop.Some? then Clamp(stop.value, dim) else dim;
        Ok(Resolved(s, if e <= s then 0 else DivCeil(e - s, Step()), Step()))
      else
        var s := if start.Some? then Clamp(start.value, dim) else if dim > 0 then dim - 1 else 0;
        var e := ReversedStop(stop, dim);
        var count := if e != USIZE_MAX && e >= s then 0
                     else DivCeil(if s >= e then s - e else 0, -Step());
        Ok(Resolved(s, count, Step()))
    }
  }

  datatype Resolved = Resolved(start: nat, count: nat, step: int) {
    function Position(k: nat): int {
      start + k * step
    }

    predicate Inside(dim: nat) {
      forall k :: 0 <= k < count ==> 0 <= Position(k) < dim
    }

    /** The selected positions, in order. */
    function Positions(): (p: seq<int>)
      ensures |p| == count
    {
      seq(count, k requires 0 <= k < count => Position(k))
    }
  }

  /** Negative values count from the end; the result is clamped to [0, dim]. */
  function Clamp(v: int, dim: nat): (c: nat)
    ensures c <= dim
  {
    var w := if v < 0 then (if v + dim > 0 then v + dim else 0) else v;
    if w < dim then w else dim
  }

  /** The stop of a reversed slice, with `usize::MAX` standing for "before position 0". */
  function ReversedStop(stop: Option<int>, dim: nat): nat {
    match stop
    case None => USIZE_MAX
    case Some(v) =>
      if v < 0 then (if v + dim >= 0 then v + dim else USIZE_MAX)
      else if v < dim then v else dim
  }

  function DivCeil(a: nat, b: nat): nat
    requires b > 0
  {
    (a + b - 1) / b
  }

  /** Counting by b below a takes DivCeil(a, b) steps. */
  lemma DivCeilCounts(a: nat, b: nat, k: nat)
    requires b > 0
    ensures k < DivCeil(a, b) <==> k * b < a
  {
    var c := DivCeil(a, b);
    assert a + b - 1 == c * b + (a + b - 1) % b;
    if k < c { MulLess(k, c, b); } else { MulMonotone(c, k, b); }
  }

  // Positive steps.

  /** The positions a slice of positive step selects: from the start, by the step, below the clamped stop. */
  predicate Selected(arg: SliceArg, dim: nat, p: int)
    requires arg.Step() > 0
  {
    var s := if arg.start.Some? then Clamp(arg.start.value, dim) else 0;
    var e := if arg.stop.Some? then Clamp(arg.stop.value, dim) else dim;
    s <= p < e && (p - s) % arg.Step() == 0
  }

  lemma PositiveStepSelects(arg: SliceArg, dim: nat, p: int)
    requires arg.Step() > 0
    ensures p in arg.Resolve(dim).value.Positions() <==> Selected(arg, dim, p)
    ensures p in arg.Resolve(dim).value.Positions() ==> 0 <= p < dim
  {
    var r := arg.Resolve(dim).value;
    var s := r.start;
    var e := if arg.stop.Some? then Clamp(arg.stop.value, dim) else dim;
    if p in r.Positions() {
      var k :| 0 <= k < r.count && r.Positions()[k] == p;
      DivCeilCounts(e - s, r.step, k);
      ModOfMultiple(k, r.step);
    }
    if Selected(arg, dim, p) {
      var k := (p - s) / r.step;
      Exact(p - s, r.step);
      DivCeilCounts(e - s, r.step, k);
      assert r.Positions()[k] == p;
    }
  }

  // Python's slice, which the documentation of SliceArg describes.

  /** Start, stop and step adjusted to an axis as Python does; -1 stands for "before position 0". */
  function PythonBound(v: Option<int>, missing: int, low: int, high: int, dim: nat): int {
    match v
    case None => missing
    case Some(x) =>
      var y := if x < 0 then x + dim else x;
      if y < low then low else if y > high then high else y
  }

  function PythonPositions(arg: SliceArg, dim: nat): seq<int>
    requires arg.Step() != 0
  {
    var st := arg.Step();
    if st > 0 then
      var s := PythonBound(arg.start, 0, 0, dim, dim);
      var e := PythonBound(arg.stop, dim, 0, dim, dim);
      var count := if s < e then DivCeil(e - s, st) else 0;
      seq(count, k => s + k * st)
    else
      var s := PythonBound(arg.start, dim - 1, -1, dim - 1, dim);
      var e := PythonBound(arg.stop, -1, -1, dim - 1, dim);
      var count := if e < s then DivCeil(s - e, -st) else 0;
      seq(count, k => s + k * st)
  }

  /** When a negative step still selects what Python would: there is a stop at or after position 0, or nothing to select. */
  predicate NegativeStepFaithful(arg: SliceArg, dim: nat) {
    || dim == 0
    || (arg.start.Some? && arg.start.value + dim < 0)
    || (arg.stop.Some? && arg.stop.value + dim >= 0
        && (arg.start.None? || arg.start.value < dim || arg.stop.value >= dim))
  }

  /** The resolved slice is Python's exactly for positive steps and for the negative ones above. */
  lemma ResolveIsPython(arg: SliceArg, dim: nat)
    requires arg.Step() != 0 && dim <= ISIZE_MAX
    ensures arg.Resolve(dim).value.Positions() == PythonPositions(arg, dim)
       <==> arg.Step() > 0 || NegativeStepFaithful(arg, dim)
  {
    if arg.Step() > 0 {
      hide DivCeil;
      assert arg.Resolve(dim).value.Positions() == PythonPositions(arg, dim);
    } else if NegativeStepFaithful(arg, dim) {
      NegativeAgrees(arg, dim);
    } else {
      NegativeDiffers(arg, dim);
    }
  }

  lemma NegativeAgrees(arg: SliceArg, dim: nat)
    requires arg.Step() < 0 && dim <= ISIZE_MAX && NegativeStepFaithful(arg, dim)
    ensures arg.Resolve(dim).value.Positions() == PythonPositions(arg, dim)
  {
    hide DivCeil;
    var r := arg.Resolve(dim).value;
    NegativeCount(r.start, ReversedStop(arg.stop, dim), -arg.Step());
    assert r.Positions() == PythonPositions(arg, dim);
  }

  lemma NegativeDiffers(arg: SliceArg, dim: nat)
    requires arg.Step() < 0 && dim <= ISIZE_MAX && !NegativeStepFaithful(arg, dim)
    ensures arg.Resolve(dim).value.Positions() != PythonPositions(arg, dim)
  {
    hide DivCeil;
    var r := arg.Resolve(dim).value;
    var s := PythonBound(arg.start, dim - 1, -1, dim - 1, dim);
    var e := PythonBound(arg.stop, -1, -1, dim - 1, dim);
    NegativeCount(r.start, ReversedStop(arg.stop, dim), -arg.Step());
    if e < s {
      DivCeilCounts(s - e, -arg.Step(), 0);
      assert PythonPositions(arg, dim)[0] == s;
    }
    if r.count > 0 { assert r.Positions()[0] == r.start == dim; }
  }

  lemma NegativeCount(s: nat, e: nat, b: nat)
    requires b > 0
    ensures DivCeil(if s >= e then s - e else 0, b) == 0 <==> s <= e
  {
    DivCeilCounts(if s >= e then s - e else 0, b, 0);
  }

  /** Reversing a whole axis with the default bounds selects nothing, where Python selects every position. */
  lemma DefaultReverseIsEmpty(dim: nat, step: int)
    requires step < 0 && 0 < dim <= ISIZE_MAX
    ensures SliceArg(None, None, Some(step)).Resolve(dim).value.Positions() == []
    ensures PythonPositions(SliceArg(None, None, Some(step)), dim) != []
  {
    NegativeCount(dim - 1, USIZE_MAX, -step);
    DivCeilCounts(dim, -step, 0);
    assert |PythonPositions(SliceArg(None, None, Some(step)), dim)| > 0;
  }

  /** Every selected position lies on the axis. */
  predicate StaysInside(arg: SliceArg, dim: nat) {
    arg.Resolve(dim).Ok? ==> arg.Resolve(dim).value.Inside(dim)
  }

  /** A slice leaves the axis exactly when it runs backwards from a start at or past the end to an earlier stop. */
  lemma StaysInsideExactly(arg: SliceArg, dim: nat)
    requires dim <= ISIZE_MAX
    ensures StaysInside(arg, dim) <==>
      arg.Step() >= 0 || arg.start.None? || arg.start.value < dim
      || arg.stop.None? || arg.stop.value + dim < 0 || arg.stop.value >= dim
  {
    if arg.Step() > 0 {
      var r := arg.Resolve(dim).value;
      forall k | 0 <= k < r.count ensures 0 <= r.Position(k) < dim {
        assert r.Positions()[k] == r.Position(k);
        PositiveStepSelects(arg, dim, r.Position(k));
      }
    } else if arg.Step() < 0 {
      var r := arg.Resolve(dim).value;
      var stop := ReversedStop(arg.stop, dim);
      NegativeCount(r.start, stop, -r.step);
      if r.start < dim || r.count == 0 {
        forall k | 0 <= k < r.count ensures 0 <= r.Position(k) < dim {
          DivCeilCounts(r.start - stop, -r.step, k);
          assert k * r.step == -(k * -r.step);
          assert k * -r.step >= 0;
        }
      } else {
        assert r.Position(0) == dim;
      }
    }
  }

  // Two positive slices in a row.

  /** The single slice equal to `first` followed by `second`, both resolved with positive steps. */
  function Composed(first: Resolved, second: Resolved): SliceArg {
    var step := second.step * first.step;
    if second.count == 0 then SliceArg(Some(0), Some(0), Some(step))
    else
      var start := first.start + second.start * first.step;
      SliceArg(Some(start), Some(start + (second.count - 1) * step + 1), Some(step))
  }

  /** The single slice selects what the second one selects of the first, in order; empty ones included. */
  lemma ComposedResolves(first: SliceArg, second: SliceArg, dim: nat)
    requires first.Step() > 0 && second.Step() > 0
    ensures var r1 := first.Resolve(dim).value;
      var r2 := second.Resolve(r1.count).value;
      var arg := Composed(r1, r2);
      && arg.Step() > 0 && arg.Resolve(dim).Ok?
      && arg.Resolve(dim).value.count == r2.count && arg.Resolve(dim).value.step == r2.step * r1.step
      && (r2.count > 0 ==> arg.Resolve(dim).value.start == r1.start + r2.start * r1.step)
      && forall k :: 0 <= k < r2.count ==>
           0 <= r2.Position(k) && arg.Resolve(dim).value.Position(k) == r1.Position(r2.Position(k))
  {
    hide DivCeil, Clamp, Selected;
    var r1 := first.Resolve(dim).value;
    var r2 := second.Resolve(r1.count).value;
    if r2.count == 0 {
      EmptyResolves(r2.step, r1.step, dim);
    } else {
      forall k | 0 <= k < r2.count ensures 0 <= r2.Position(k) < r1.count {
        assert r2.Positions()[k] == r2.Position(k);
        PositiveStepSelects(second, r1.count, r2.Position(k));
      }
      var lastPos := r2.Position(r2.count - 1);
      assert r1.Positions()[lastPos] == r1.Position(lastPos);
      PositiveStepSelects(first, dim, r1.Position(lastPos));
      hide SliceArg.Resolve;
      ComposedInRange(r1, r2, dim);
      forall k | 0 <= k < r2.count ensures Composed(r1, r2).Resolve(dim).value.Position(k) == r1.Position(r2.Position(k)) {
        PositionTwice(r1, r2, k);
      }
    }
  }

  lemma EmptyResolves(a: int, b: int, dim: nat)
    requires a > 0 && b > 0
    ensures var arg := SliceArg(Some(0), Some(0), Some(a * b));
      && arg.Step() == a * b > 0 && arg.Resolve(dim).Ok?
      && arg.Resolve(dim).value.count == 0 && arg.Resolve(dim).value.step == a * b
  {
    MulAtLeast(a, b);
  }

  /** When the last doubly selected position is on the axis, the single slice resolves without clamping. */
  lemma ComposedInRange(r1: Resolved, r2: Resolved, dim: nat)
    requires r1.step > 0 && r2.step > 0 && r2.count > 0
    requires r2.Position(r2.count - 1) >= 0 && r1.Position(r2.Position(r2.count - 1)) < dim
    ensures r2.step * r1.step > 0
    ensures Composed(r1, r2).Resolve(dim)
         == Ok(Resolved(r1.start + r2.start * r1.step, r2.count, r2.step * r1.step))
  {
    hide DivCeil;
    var step, n := r2.step * r1.step, r2.count - 1;
    MulAtLeast(r2.step, r1.step);
    var start, span := r1.start + r2.start * r1.step, n * step;
    PositionTwice(r1, r2, n);
    assert r2.start * r1.step >= 0 && span >= 0;
    CountSpan(span, step, n);
  }

  lemma PositionTwice(r1: Resolved, r2: Resolved, n: nat)
    requires r2.Position(n) >= 0
    ensures r1.Position(r2.Position(n)) == r1.start + r2.start * r1.step + n * (r2.step * r1.step)
  {
    assert (r2.start + n * r2.step) * r1.step == r2.start * r1.step + (n * r2.step) * r1.step;
    assert (n * r2.step) * r1.step == n * (r2.step * r1.step);
  }

  lemma CountSpan(span: nat, step: nat, n: nat)
    requires step > 0 && span == n * step
    ensures DivCeil(span + 1, step) == n + 1
  {
    DivCeilCounts(span + 1, step, n);
    DivCeilCounts(span + 1, step, n + 1);
    assert (n + 1) * step == span + step;
  }
}
