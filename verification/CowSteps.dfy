/** What every command of the copy-on-write machine does: contents, counts and flags after one step. */
module CowSteps {
  import opened Arith
  import opened Results
  import opened Shapes
  import opened Layouts
  import opened Views
  import opened Reachability
  import opened Materialise
  import opened CowHeap
  import Permutations

  /** The strong count of the storage behind a handle. */
  function Count(heap: Heap, h: nat): nat
    requires h in heap.handles && heap.handles[h].raw in heap.raws
  {
    heap.raws[heap.handles[h].raw].strong
  }

  /**
   * `set` on a writeable handle of an allocatable shape that is alone, C-contiguous or without offset: the
   * element at idx becomes the value. Any other element keeps its value, unless the handle was alone and
   * shows both at one address. Afterwards the handle is alone and writeable.
   */
  lemma SetStep(heap: Heap, h: nat, idx: seq<nat>, value: Bytes, j: seq<nat>)
    requires Inv(heap) && h in heap.handles && heap.handles[h].writeable
    requires var l := heap.handles[h].layout;
      && |value| == l.itemsize && InBounds(idx, l.shape) && InBounds(j, l.shape)
      && (Count(heap, h) == 1 || (CanAllocate(l.shape, l.itemsize) && (l.CContiguous() || l.offset == 0)))
    ensures Step(heap, Set(h, idx, value)).Some?
    ensures var after := Step(heap, Set(h, idx, value)).value;
      var l := heap.handles[h].layout;
      && Inv(after) && after.handles.Keys == heap.handles.Keys
      && Count(after, h) == 1 && after.handles[h].writeable && after.handles[h].layout.shape == l.shape
      && Ravel(j, l.shape) < |Contents(after, h)| == |Contents(heap, h)|
      && Contents(after, h)[Ravel(j, l.shape)] ==
           if j == idx || (Count(heap, h) == 1 && l.Off(j) == l.Off(idx)) then value
           else Contents(heap, h)[Ravel(j, l.shape)]
  {
    hide Uniquely, SetElement, Owners, Element, Stored, Elements, CanAllocate, Layout.CContiguous;
    InvHandle(heap, h);
    UniqueExactly(heap, h);
    SetShows(heap, h, idx, value, j);
    SetAlone(heap, h, idx, value);
  }

  /** A handle can be made unique exactly when it is alone, or can be allocated and copied inside its allocation. */
  lemma UniqueExactly(heap: Heap, h: nat)
    requires Inv(heap) && h in heap.handles
    ensures var l := heap.handles[h].layout;
      l.WellFormed() && heap.handles[h].raw in heap.raws
      && (Uniquely(heap, h).Unique? <==>
            || Count(heap, h) == 1
            || (CanAllocate(l.shape, l.itemsize) && CopyInside(l, |heap.raws[heap.handles[h].raw].bytes|)))
      && (Uniquely(heap, h).AllocationFailed? <==> Count(heap, h) != 1 && !CanAllocate(l.shape, l.itemsize))
      && (l.CContiguous() || l.offset == 0 ==> CopyInside(l, |heap.raws[heap.handles[h].raw].bytes|))
  {
    hide Owners, CanAllocate, CopyInside, Pack, CopiedElements, Layout.CContiguous, HandleOk;
    InvHandle(heap, h);
    var bytes, l := heap.raws[heap.handles[h].raw].bytes, heap.handles[h].layout;
    CopyDefinedExactly(bytes, l);
    if l.CContiguous() || l.offset == 0 { CopyIsFaithful(bytes, l); }
  }

  lemma SetAlone(heap: Heap, h: nat, idx: seq<nat>, value: Bytes)
    requires Inv(heap) && h in heap.handles && |value| == heap.handles[h].layout.itemsize
    requires Uniquely(heap, h).Unique? && InBounds(idx, heap.handles[h].layout.shape)
    ensures SetElement(heap, h, idx, value).Some?
    ensures var after := SetElement(heap, h, idx, value).value;
      && after.handles.Keys == heap.handles.Keys && h in after.handles && after.handles[h].raw in after.raws
      && after.raws[after.handles[h].raw].strong == 1 && after.handles[h].writeable
      && after.handles[h].layout.shape == heap.handles[h].layout.shape
  {
    hide Owners, CanAllocate, CopiedElements, Stored, HandleOk, Pack, Fits, Elements;
    UniquelyKeeps(heap, h);
    UniqueKeys(heap, h);
    InvHandle(Uniquely(heap, h).heap, h);
    hide Uniquely;
  }

  lemma UniqueKeys(heap: Heap, h: nat)
    requires Inv(heap) && h in heap.handles && Uniquely(heap, h).Unique?
    ensures Uniquely(heap, h).heap.handles.Keys == heap.handles.Keys
  {
    hide Owners, CanAllocate, CopiedElements, HandleOk, Pack;
  }

  /** The cases in which `set` writes nothing. */
  lemma SetFails(heap: Heap, h: nat, idx: seq<nat>, value: Bytes)
    requires Inv(heap) && h in heap.handles
    ensures var l := heap.handles[h].layout;
      && (!heap.handles[h].writeable || |value| != l.itemsize ==> Step(heap, Set(h, idx, value)) == Some(heap))
      && (Count(heap, h) > 1 && !CanAllocate(l.shape, l.itemsize) ==> Step(heap, Set(h, idx, value)) == Some(heap))
      && (heap.handles[h].writeable && |value| == l.itemsize && !InBounds(idx, l.shape) ==>
            Step(heap, Set(h, idx, value)) == Step(heap, MakeUnique(h)))
  {
    hide Owners, CanAllocate, CopiedElements, Stored, HandleOk, Pack, Elements, Fits;
    UniqueExactly(heap, h);
    if Uniquely(heap, h).Unique? { UniquelyKeeps(heap, h); }
    hide Uniquely;
  }

  /** `make_unique`: alone and writeable, with the contents it had when it copies faithfully; or nothing changes. */
  lemma MakeUniqueStep(heap: Heap, h: nat)
    requires Inv(heap) && h in heap.handles
    ensures var l := heap.handles[h].layout;
      && (Count(heap, h) > 1 && !CanAllocate(l.shape, l.itemsize) ==> Step(heap, MakeUnique(h)) == Some(heap))
      && (Count(heap, h) == 1 || (CanAllocate(l.shape, l.itemsize) && CopyInside(l, |heap.raws[heap.handles[h].raw].bytes|)) ==>
            && Step(heap, MakeUnique(h)).Some?
            && var after := Step(heap, MakeUnique(h)).value;
               && Inv(after) && after.handles.Keys == heap.handles.Keys
               && Count(after, h) == 1 && after.handles[h].writeable && after.handles[h].layout.shape == l.shape
               && (Count(heap, h) == 1 || l.CContiguous() || l.offset == 0 ==> Contents(after, h) == Contents(heap, h)))
  {
    hide Owners, CanAllocate, CopiedElements, HandleOk, Pack, Elements, CopyInside, Layout.CContiguous;
    UniqueExactly(heap, h);
    if Uniquely(heap, h).Unique? {
      UniquelyKeeps(heap, h);
      UniqueKeys(heap, h);
      if CopiesFaithfully(heap, h) { UniquelyShowsSame(heap, h); }
    }
    hide Uniquely;
  }

  /** The heap with one more handle, on the storage of handle h. */
  ghost predicate Adds(heap: Heap, after: Heap, h: nat, l: Layout, flag: bool)
    requires h in heap.handles && heap.handles[h].raw in heap.raws
  {
    var r := heap.handles[h].raw;
    && heap.nextHandle !in heap.handles
    && after.handles == heap.handles[heap.nextHandle := Handle(r, l, flag)]
    && after.raws == heap.raws[r := Raw(heap.raws[r].bytes, heap.raws[r].strong + 1)]
  }

  /** `share` and `clone`: one more handle, read-only, that shows the same; the count grows by one. */
  lemma ShareStep(heap: Heap, h: nat)
    requires Inv(heap) && h in heap.handles
    ensures Step(heap, Share(h)).Some?
    ensures var after := Step(heap, Share(h)).value;
      && Inv(after) && Adds(heap, after, h, heap.handles[h].layout, false)
      && Contents(after, heap.nextHandle) == Contents(heap, h)
  {
    hide Owners, HandleOk, Elements;
    StepKeeps(heap, Share(h));
  }

  /**
   * A view: one more handle on the same storage that shows at j what handle h shows at the source index;
   * nothing when the view does not exist.
   */
  lemma DeriveStep(heap: Heap, h: nat, op: ViewOp, j: seq<nat>)
    requires Inv(heap) && h in heap.handles && Allowed(heap.handles[h].layout, op)
    ensures Step(heap, Derive(h, op)).Some?
    ensures View(heap.handles[h].layout, op).None? ==> Step(heap, Derive(h, op)) == Some(heap)
    ensures View(heap.handles[h].layout, op).Some? ==>
      var after, l := Step(heap, Derive(h, op)).value, heap.handles[h].layout;
      var v := View(l, op).value;
      && Inv(after)
      && Adds(heap, after, h, v, op.Reshape? || ((op.ExpandDims? || op.Squeeze?) && heap.handles[h].writeable))
      && |Contents(after, heap.nextHandle)| == Prod(v.shape)
      && (InBounds(j, v.shape) ==>
            && InBounds(SourceIndex(l, op, j), l.shape)
            && Ravel(j, v.shape) < Prod(v.shape) && Ravel(SourceIndex(l, op, j), l.shape) < |Contents(heap, h)|
            && Contents(after, heap.nextHandle)[Ravel(j, v.shape)] ==
               Contents(heap, h)[Ravel(SourceIndex(l, op, j), l.shape)])
  {
    hide Owners, View, Allowed, SourceIndex, Fits, SharesOnlyByBroadcast, Elements, Ravel, Prod;
    InvHandle(heap, h);
    StepKeeps(heap, Derive(h, op));
    var l, bytes := heap.handles[h].layout, heap.raws[heap.handles[h].raw].bytes;
    if View(l, op).Some? && InBounds(j, View(l, op).value.shape) {
      ViewReads(l, op, |bytes|, j);
      ViewKeeps(l, op, |bytes|);
      ElementsAt(bytes, View(l, op).value, j);
      ElementsAt(bytes, l, SourceIndex(l, op, j));
    }
  }

  /** `set_writeable`: refused on a shared handle; otherwise the flag alone changes. */
  lemma SetWriteableStep(heap: Heap, h: nat, on: bool)
    requires Inv(heap) && h in heap.handles
    ensures Step(heap, SetWriteable(h, on)) ==
      if on && Count(heap, h) > 1 then Some(heap)
      else Some(heap.(handles := heap.handles[h := heap.handles[h].(writeable := on)]))
  {
  }

  /** Dropping h: its storage loses one reference, or is freed with the last one. */
  lemma DropStep(heap: Heap, h: nat)
    requires Inv(heap) && h in heap.handles
    ensures Step(heap, Drop(h)).Some?
    ensures var after, r := Step(heap, Drop(h)).value, heap.handles[h].raw;
      && after.handles == heap.handles - {h}
      && after.raws == if Count(heap, h) == 1 then heap.raws - {r}
                       else heap.raws[r := Raw(heap.raws[r].bytes, heap.raws[r].strong - 1)]
  {
    InvHandle(heap, h);
  }

  /**
   * A new array: one more handle, writeable and alone, whose element at idx is the block of the given bytes
   * at its row-major position, or at the row-major position of the reversed index for column-major order.
   */
  lemma NewStep(heap: Heap, shape: Shape, columnMajor: bool, itemsize: nat, bytes: Bytes, idx: seq<nat>)
    requires Inv(heap) && itemsize > 0 && itemsize * Prod(shape) == |bytes| <= ISIZE_MAX
    requires if columnMajor then NewF(shape, itemsize).Ok? else NewC(shape, itemsize).Ok?
    ensures Step(heap, New(shape, columnMajor, itemsize, bytes)).Some?
    ensures var after := Step(heap, New(shape, columnMajor, itemsize, bytes)).value;
      && Inv(after) && heap.nextHandle !in heap.handles && heap.nextRaw !in heap.raws
      && heap.nextHandle in after.handles && after.handles[heap.nextHandle].writeable
      && after.handles - {heap.nextHandle} == heap.handles
      && Count(after, heap.nextHandle) == 1 && after.raws - {heap.nextRaw} == heap.raws
      && after.handles[heap.nextHandle].layout.shape == shape
      && |Contents(after, heap.nextHandle)| == Prod(shape)
      && (InBounds(idx, shape) ==>
            var at := itemsize * if columnMajor then Ravel(Reverse(idx), Reverse(shape)) else Ravel(idx, shape);
            && Ravel(idx, shape) < Prod(shape) && 0 <= at <= |bytes| - itemsize
            && Contents(after, heap.nextHandle)[Ravel(idx, shape)] == bytes[at..at + itemsize])
  {
    hide Owners, HandleOk, Elements, Ravel, Prod, CStrides, FStrides, NewCustom, Fits;
    var cmd := New(shape, columnMajor, itemsize, bytes);
    Commutes(itemsize, Prod(shape));
    StepKeeps(heap, cmd);
    var after := Step(heap, cmd).value;
    var l := after.handles[heap.nextHandle].layout;
    InvHandle(after, heap.nextHandle);
    assert after.raws[heap.nextRaw] == Raw(bytes, 1);
    if InBounds(idx, shape) {
      ElementsAt(bytes, l, idx);
      if columnMajor { ColumnOffset(shape, itemsize, idx); } else { RowOffset(shape, itemsize, idx); }
    }
  }

  /**
   * When an array can be allocated: a non-empty one exactly when its bytes fit in `isize`. An empty one also
   * needs its leading dimensions' products to fit, and its cut-off strides to be multiples of the itemsize.
   */
  lemma AllocatableExactly(shape: Shape, itemsize: nat)
    ensures Prod(shape) > 0 ==>
      (CanAllocate(shape, itemsize) <==> itemsize > 0 && itemsize * Prod(shape) <= 0x7FFF_FFFF_FFFF_FFFF)
    ensures Prod(shape) == 0 ==>
      (CanAllocate(shape, itemsize) <==>
        && itemsize > 0
        && (forall k :: 0 <= k <= |shape| ==> Prod(shape[..k]) <= 0x7FFF_FFFF_FFFF_FFFF)
        && forall k :: 0 <= k < |shape| ==> shape[k] <= 1 || CStrides(shape, itemsize)[k] % itemsize == 0)
  {
    hide Prod, CStrides;
    NonEmptyProd(shape);
    Commutes(itemsize, Prod(shape));
    Commutes(itemsize, 0);
    if Prod(shape) > 0 && itemsize > 0 && itemsize * Prod(shape) <= ISIZE_MAX {
      forall k | 0 <= k <= |shape| ensures Prod(shape[..k]) <= ISIZE_MAX { PrefixSize(shape, k); }
      MulAtLeast(itemsize, Prod(shape));
      DenseStrides(shape, itemsize);
    }
  }

  lemma {:induction false} PrefixSize(shape: Shape, k: nat)
    requires NonEmpty(shape) && k <= |shape|
    ensures Prod(shape[..k]) <= Prod(shape)
  {
    if k == 0 {
      NonEmptyProd(shape);
    } else {
      EmptyTail(shape);
      PrefixSize(shape[1..], k - 1);
      assert shape[..k][1..] == shape[1..][..k - 1];
      MulMonotone(Prod(shape[1..][..k - 1]), Prod(shape[1..]), shape[0]);
    }
  }

  lemma {:induction false} DenseStrides(shape: Shape, itemsize: nat)
    requires NonEmpty(shape) && itemsize > 0 && itemsize * Prod(shape) <= ISIZE_MAX
    ensures ValidStrides(shape, CStrides(shape, itemsize), itemsize)
  {
    if shape != [] {
      TailFits(shape, itemsize);
      DenseStrides(shape[1..], itemsize);
      AccExact(shape[1..], itemsize);
      ModOfMultiple(Prod(shape[1..]), itemsize);
      Commutes(itemsize, Prod(shape[1..]));
      var s := CStrides(shape, itemsize);
      assert s[1..] == CStrides(shape[1..], itemsize);
      forall k | 0 <= k < |shape| ensures shape[k] <= 1 || s[k] % itemsize == 0 {
        if k > 0 { assert shape[1..][k - 1] <= 1 || s[1..][k - 1] % itemsize == 0; }
      }
    }
  }

  lemma Commutes(a: nat, b: nat)
    ensures a * b == b * a
  {
  }

  lemma RowOffset(shape: Shape, itemsize: nat, idx: seq<nat>)
    requires itemsize > 0 && itemsize * Prod(shape) <= ISIZE_MAX && InBounds(idx, shape)
    ensures Dot(idx, CStrides(shape, itemsize)) == itemsize * Ravel(idx, shape)
  {
    forall k | 0 <= k < |shape| ensures shape[k] > 0 { assert idx[k] < shape[k]; }
    CStridesRavel(shape, itemsize, idx);
  }

  lemma ColumnOffset(shape: Shape, itemsize: nat, idx: seq<nat>)
    requires itemsize > 0 && itemsize * Prod(shape) <= ISIZE_MAX && InBounds(idx, shape)
    ensures Dot(idx, FStrides(shape, itemsize)) == itemsize * Ravel(Reverse(idx), Reverse(shape))
  {
    hide CStrides, FStrides, Ravel, Prod, Dot;
    var axes := ReversedAxes(|shape|);
    Permutations.ProdPick(shape, axes);
    assert Permutations.Pick(shape, axes) == Reverse(shape) && Permutations.Pick(idx, axes) == Reverse(idx);
    forall k | 0 <= k < |shape| ensures Reverse(idx)[k] < Reverse(shape)[k] {
      assert idx[|shape| - 1 - k] < shape[|shape| - 1 - k];
    }
    RowOffset(Reverse(shape), itemsize, Reverse(idx));
    FStridesReverse(shape, itemsize);
    var f := FStrides(shape, itemsize);
    assert Permutations.Pick(f, axes) == Reverse(f);
    Permutations.DotPick(idx, f, axes);
  }

  // The last command of a run.

  /** A run is one command after the other, in order. */
  lemma {:induction false} RunSnoc(heap: Heap, cmds: seq<Command>, cmd: Command)
    requires Inv(heap) && Run(heap, cmds).Some?
    ensures Run(heap, []) == Some(heap) && Inv(Run(heap, cmds).value)
    ensures Run(heap, cmds + [cmd]) ==
      if Applicable(Run(heap, cmds).value, cmd) then Step(Run(heap, cmds).value, cmd) else None
    decreases |cmds|
  {
    hide Step, Applicable, HandleOk, Owners;
    RunKeeps(heap, cmds);
    if cmds == [] {
      assert (cmds + [cmd])[1..] == [];
      if Applicable(heap, cmd) && Step(heap, cmd).Some? { StepKeeps(heap, cmd); }
    } else {
      StepKeeps(heap, cmds[0]);
      RunSnoc(Step(heap, cmds[0]).value, cmds[1..], cmd);
      assert (cmds + [cmd])[1..] == cmds[1..] + [cmd];
    }
  }

  /** After any run that ends with such a `set`, its handle shows the value at idx. */
  lemma RunSet(heap: Heap, cmds: seq<Command>, h: nat, idx: seq<nat>, value: Bytes)
    requires Inv(heap) && Run(heap, cmds).Some?
    requires var reached := Run(heap, cmds).value;
      && h in reached.handles && reached.handles[h].writeable
      && reached.handles[h].raw in reached.raws
      && var l := reached.handles[h].layout;
         && |value| == l.itemsize && InBounds(idx, l.shape)
         && (Count(reached, h) == 1 || (CanAllocate(l.shape, l.itemsize) && (l.CContiguous() || l.offset == 0)))
    ensures Run(heap, cmds + [Set(h, idx, value)]).Some?
    ensures var reached, last := Run(heap, cmds).value, Run(heap, cmds + [Set(h, idx, value)]).value;
      var shape := reached.handles[h].layout.shape;
      && Inv(reached) && Inv(last) && h in last.handles && last.handles[h].layout.shape == shape
      && Ravel(idx, shape) < |Contents(last, h)| && Contents(last, h)[Ravel(idx, shape)] == value
  {
    hide Step, Run, CanAllocate, Layout.CContiguous, Elements;
    RunSnoc(heap, cmds, Set(h, idx, value));
    SetStep(Run(heap, cmds).value, h, idx, value, idx);
  }

  /** The commands that may change what handle g shows: those that unshare, write, flag or drop g. */
  lemma TargetsExactly(cmd: Command, g: nat)
    ensures Targets(cmd, g) <==>
      match cmd
      case MakeUnique(h) => h == g
      case Set(h, _, _) => h == g
      case SetWriteable(h, _) => h == g
      case Drop(h) => h == g
      case _ => false
  {
  }
}
