/** Copy-on-write buffers as a state machine: shared storages with reference counts, and the handles on them. */
module CowHeap {
  import opened Arith
  import opened Results
  import opened Shapes
  import opened Layouts
  import opened Views
  import opened Reachability
  import opened Materialise

  /** The bytes behind an `Arc`, and its strong count. */
  datatype Raw = Raw(bytes: Bytes, strong: nat)

  datatype Handle = Handle(raw: nat, layout: Layout, writeable: bool)

  datatype Heap = Heap(raws: map<nat, Raw>, handles: map<nat, Handle>, nextRaw: nat, nextHandle: nat)

  datatype Command =
    | New(shape: Shape, columnMajor: bool, itemsize: nat, bytes: Bytes)
    | Share(h: nat)
    | Derive(h: nat, op: ViewOp)
    | MakeUnique(h: nat)
    | Set(h: nat, idx: seq<nat>, value: Bytes)
    | SetWriteable(h: nat, writeable: bool)
    | Drop(h: nat)

  function Owners(handles: map<nat, Handle>, r: nat): set<nat> {
    set h | h in handles && handles[h].raw == r
  }

  ghost predicate HandleOk(h: Handle, bytes: Bytes) {
    h.layout.WellFormed() && Fits(h.layout, |bytes|) && |bytes| <= ISIZE_MAX && SharesOnlyByBroadcast(h.layout)
  }

  /** Every handle shows elements inside its storage, and every count is the number of live handles. */
  ghost predicate Inv(heap: Heap) {
    && (forall h <- heap.handles :: h < heap.nextHandle && heap.handles[h].raw in heap.raws)
    && (forall h <- heap.handles :: HandleOk(heap.handles[h], heap.raws[heap.handles[h].raw].bytes))
    && (forall r <- heap.raws :: r < heap.nextRaw)
    && (forall r <- heap.raws :: heap.raws[r].strong == |Owners(heap.handles, r)| > 0)
  }

  /** What reading through a handle shows. */
  ghost function Contents(heap: Heap, h: nat): seq<Bytes>
    requires Inv(heap) && h in heap.handles
  {
    Elements(heap.raws[heap.handles[h].raw].bytes, heap.handles[h].layout)
  }

  // Steps.

  /** A new handle on an existing storage: the count goes up by one. */
  function AddHandle(heap: Heap, h: Handle): Heap
    requires h.raw in heap.raws
  {
    var raw := heap.raws[h.raw];
    heap.(raws := heap.raws[h.raw := raw.(strong := raw.strong + 1)],
          handles := heap.handles[heap.nextHandle := h],
          nextHandle := heap.nextHandle + 1)
  }

  function AddRaw(heap: Heap, bytes: Bytes, layout: Layout): Heap {
    Heap(heap.raws[heap.nextRaw := Raw(bytes, 1)],
         heap.handles[heap.nextHandle := Handle(heap.nextRaw, layout, true)],
         heap.nextRaw + 1, heap.nextHandle + 1)
  }

  /** One reference fewer; the last one frees the storage. */
  function Release(raws: map<nat, Raw>, r: nat): map<nat, Raw>
    requires r in raws
  {
    if raws[r].strong <= 1 then raws - {r} else raws[r := Raw(raws[r].bytes, raws[r].strong - 1)]
  }

  /** The writeable flag of a derived view. */
  function DerivedFlag(op: ViewOp, flag: bool): bool {
    match op
    case Reshape(_) => true
    case ExpandDims(_) => flag
    case Squeeze => flag
    case _ => false
  }

  predicate CanAllocate(shape: Shape, itemsize: nat) {
    NbytesRepresentable(shape, itemsize) && Prod(shape) * itemsize <= ISIZE_MAX && NewC(shape, itemsize).Ok?
  }

  /** The error of an allocation that `CanAllocate` excludes, by its cause. */
  predicate AllocationError(e: Error, shape: Shape, itemsize: nat) {
    && (e == ShapeOverflow <==> !NbytesRepresentable(shape, itemsize))
    && (e == AllocFailed <==> NbytesRepresentable(shape, itemsize) && Prod(shape) * itemsize > ISIZE_MAX)
    && (e == ShapeOverflow || e == AllocFailed || NewC(shape, itemsize) == Err(e))
  }

  datatype Uniqueness = UndefinedRead | AllocationFailed | Unique(heap: Heap)

  /** `*self = new_buf`: the handle moves to a new storage and the old one loses a reference. */
  function OnNewRaw(heap: Heap, h: nat, bytes: Bytes, l: Layout): Heap
    requires h in heap.handles && heap.handles[h].raw in heap.raws
  {
    Heap(Release(heap.raws, heap.handles[h].raw)[heap.nextRaw := Raw(bytes, 1)],
         heap.handles[h := Handle(heap.nextRaw, l, true)], heap.nextRaw + 1, heap.nextHandle)
  }

  /** `make_unique`. */
  ghost function Uniquely(heap: Heap, h: nat): Uniqueness
    requires Inv(heap) && h in heap.handles
  {
    var handle := heap.handles[h];
    var raw := heap.raws[handle.raw];
    var l := handle.layout;
    if raw.strong == 1 then Unique(heap.(handles := heap.handles[h := handle.(writeable := true)]))
    else if !CanAllocate(l.shape, l.itemsize) then AllocationFailed
    else
      match CopiedElements(raw.bytes, l)
      case None => UndefinedRead
      case Some(es) =>
        Unique(OnNewRaw(heap, h, Pack(es, l.itemsize), Dense(l.shape, l.itemsize)))
  }

  /** `set` after the element type and writeable checks: the copy comes before the bounds check. */
  ghost function SetElement(heap: Heap, h: nat, idx: seq<nat>, value: Bytes): Option<Heap>
    requires Inv(heap) && h in heap.handles && |value| == heap.handles[h].layout.itemsize
  {
    match Uniquely(heap, h)
    case UndefinedRead => None
    case AllocationFailed => Some(heap)
    case Unique(u) =>
      UniquelyKeeps(heap, h);
      var handle := u.handles[h];
      if !InBounds(idx, handle.layout.shape) then Some(u)
      else
        var raw := u.raws[handle.raw];
        Some(u.(raws := u.raws[handle.raw := Raw(Stored(raw.bytes, handle.layout, idx, value), raw.strong)]))
  }

  /** The command names a live handle, and a slice keeps to its axis. */
  predicate Applicable(heap: Heap, cmd: Command) {
    match cmd
    case New(_, _, _, _) => true
    case Derive(h, op) => h in heap.handles && Allowed(heap.handles[h].layout, op)
    case Share(h) => h in heap.handles
    case MakeUnique(h) => h in heap.handles
    case Set(h, _, _) => h in heap.handles
    case SetWriteable(h, _) => h in heap.handles
    case Drop(h) => h in heap.handles
  }

  /** The heap after a command; commands that report an error before touching anything leave it as it was. */
  ghost function Step(heap: Heap, cmd: Command): Option<Heap>
    requires Inv(heap) && Applicable(heap, cmd)
  {
    match cmd
    case New(shape, columnMajor, itemsize, bytes) =>
      var l := if columnMajor then NewF(shape, itemsize) else NewC(shape, itemsize);
      if l.Ok? && Prod(shape) * itemsize == |bytes| <= ISIZE_MAX then Some(AddRaw(heap, bytes, l.value)) else Some(heap)
    case Share(h) => Some(AddHandle(heap, heap.handles[h].(writeable := false)))
    case Derive(h, op) =>
      var handle := heap.handles[h];
      var v := View(handle.layout, op);
      if v.None? then Some(heap)
      else Some(AddHandle(heap, Handle(handle.raw, v.value, DerivedFlag(op, handle.writeable))))
    case MakeUnique(h) =>
      (match Uniquely(heap, h)
       case UndefinedRead => None
       case AllocationFailed => Some(heap)
       case Unique(u) => Some(u))
    case Set(h, idx, value) =>
      var handle := heap.handles[h];
      if |value| != handle.layout.itemsize || !handle.writeable then Some(heap)
      else SetElement(heap, h, idx, value)
    case SetWriteable(h, writeable) =>
      var handle := heap.handles[h];
      if writeable && heap.raws[handle.raw].strong > 1 then Some(heap)
      else Some(heap.(handles := heap.handles[h := handle.(writeable := writeable)]))
    case Drop(h) => Some(heap.(raws := Release(heap.raws, heap.handles[h].raw), handles := heap.handles - {h}))
  }

  /** The command may change what handle g shows only if it works on g itself. */
  predicate Targets(cmd: Command, g: nat) {
    (cmd.MakeUnique? || cmd.Set? || cmd.SetWriteable? || cmd.Drop?) && cmd.h == g
  }

  /** Handle g is still there and shows the same. */
  ghost predicate Undisturbed(before: Heap, after: Heap, g: nat)
    requires g in before.handles
  {
    && g in after.handles && after.handles[g] == before.handles[g]
    && before.handles[g].raw in before.raws && before.handles[g].raw in after.raws
    && after.raws[after.handles[g].raw].bytes == before.raws[before.handles[g].raw].bytes
  }

  // Counting owners.

  lemma OwnersOfNew(handles: map<nat, Handle>, n: nat, h: Handle, r: nat)
    requires n !in handles
    ensures |Owners(handles[n := h], r)| == |Owners(handles, r)| + if h.raw == r then 1 else 0
  {
    assert Owners(handles[n := h], r) == Owners(handles, r) + if h.raw == r then {n} else {};
  }

  lemma OwnersOfDropped(handles: map<nat, Handle>, h: nat, r: nat)
    requires h in handles
    ensures |Owners(handles - {h}, r)| == |Owners(handles, r)| - if handles[h].raw == r then 1 else 0
  {
    assert Owners(handles, r) == Owners(handles - {h}, r) + if handles[h].raw == r then {h} else {};
  }

  /** Replacing a handle is dropping the old one and adding the new one. */
  lemma OwnersOfReplaced(handles: map<nat, Handle>, h: nat, n: Handle, r: nat)
    requires h in handles
    ensures |Owners(handles[h := n], r)|
         == |Owners(handles, r)| - (if handles[h].raw == r then 1 else 0) + (if n.raw == r then 1 else 0)
  {
    OwnersOfDropped(handles, h, r);
    OwnersOfNew(handles - {h}, h, n, r);
    assert (handles - {h})[h := n] == handles[h := n];
  }

  /** A storage with count one is used by its single owner alone. */
  lemma SoleOwner(heap: Heap, h: nat, g: nat)
    requires Inv(heap) && h in heap.handles && g in heap.handles && h != g
    requires heap.raws[heap.handles[h].raw].strong == 1
    ensures heap.handles[g].raw != heap.handles[h].raw
  {
    var r := heap.handles[h].raw;
    if heap.handles[g].raw == r {
      SubsetSize({h, g}, Owners(heap.handles, r));
    }
  }

  lemma InvHandle(heap: Heap, h: nat)
    requires Inv(heap) && h in heap.handles
    ensures heap.handles[h].raw in heap.raws
    ensures HandleOk(heap.handles[h], heap.raws[heap.handles[h].raw].bytes)
    ensures heap.handles[h].layout.WellFormed()
    ensures |heap.raws[heap.handles[h].raw].bytes| <= ISIZE_MAX
    ensures Fits(heap.handles[h].layout, |heap.raws[heap.handles[h].raw].bytes|)
  {
  }

  // Each kind of step keeps the invariant.

  lemma AddHandleKeeps(heap: Heap, h: Handle)
    requires Inv(heap) && h.raw in heap.raws && HandleOk(h, heap.raws[h.raw].bytes)
    ensures Inv(AddHandle(heap, h))
    ensures forall g <- heap.handles :: Undisturbed(heap, AddHandle(heap, h), g)
  {
    hide HandleOk, Owners;
    forall r <- heap.raws { OwnersOfNew(heap.handles, heap.nextHandle, h, r); }
  }

  lemma AddRawKeeps(heap: Heap, bytes: Bytes, layout: Layout)
    requires Inv(heap) && HandleOk(Handle(heap.nextRaw, layout, true), bytes)
    ensures Inv(AddRaw(heap, bytes, layout))
    ensures forall g <- heap.handles :: Undisturbed(heap, AddRaw(heap, bytes, layout), g)
  {
    hide HandleOk;
    var h := Handle(heap.nextRaw, layout, true);
    assert HandleOk(h, bytes);
    assert Owners(heap.handles, heap.nextRaw) == {};
    forall r <- AddRaw(heap, bytes, layout).raws { OwnersOfNew(heap.handles, heap.nextHandle, h, r); }
  }

  lemma DropKeeps(heap: Heap, h: nat)
    requires Inv(heap) && h in heap.handles
    ensures var after := heap.(raws := Release(heap.raws, heap.handles[h].raw), handles := heap.handles - {h});
      Inv(after) && forall g <- heap.handles :: g != h ==> Undisturbed(heap, after, g)
  {
    hide HandleOk, Owners;
    forall r <- heap.raws { OwnersOfDropped(heap.handles, h, r); }
    forall g <- heap.handles | g != h && heap.raws[heap.handles[h].raw].strong == 1
      ensures heap.handles[g].raw != heap.handles[h].raw
    {
      SoleOwner(heap, h, g);
    }
  }

  /** Changing only the flag of a handle. */
  lemma FlagKeeps(heap: Heap, h: nat, writeable: bool)
    requires Inv(heap) && h in heap.handles
    ensures var after := heap.(handles := heap.handles[h := heap.handles[h].(writeable := writeable)]);
      Inv(after) && forall g <- heap.handles :: g != h ==> Undisturbed(heap, after, g)
  {
    hide Owners;
    var n := heap.handles[h].(writeable := writeable);
    forall r <- heap.raws { OwnersOfReplaced(heap.handles, h, n, r); }
  }

  /** A dense copy's handle is sound and shows the copied elements. */
  lemma DenseHandle(es: seq<Bytes>, l: Layout, n: Handle)
    requires l.WellFormed() && CanAllocate(l.shape, l.itemsize) && |es| == l.Size()
    requires forall k :: 0 <= k < |es| ==> |es[k]| == l.itemsize
    requires n.layout == Dense(l.shape, l.itemsize)
    ensures HandleOk(n, Pack(es, l.itemsize)) && Elements(Pack(es, l.itemsize), n.layout) == es
  {
    hide Pack, Elements;
    PackRoundTrip(es, l.shape, l.itemsize);
    NewCFits(l.shape, l.itemsize);
  }

  /** The copying branch: the old storage loses a reference and the handle moves to a dense storage of its own. */
  lemma CopyKeeps(heap: Heap, h: nat, es: seq<Bytes>)
    requires Inv(heap) && h in heap.handles && heap.raws[heap.handles[h].raw].strong > 1
    requires var l := heap.handles[h].layout;
      && CanAllocate(l.shape, l.itemsize) && |es| == l.Size()
      && forall k :: 0 <= k < |es| ==> |es[k]| == l.itemsize
    ensures var l := heap.handles[h].layout;
      var after := OnNewRaw(heap, h, Pack(es, l.itemsize), Dense(l.shape, l.itemsize));
      && Inv(after) && (forall g <- heap.handles :: g != h ==> Undisturbed(heap, after, g))
      && Contents(after, h) == es
  {
    hide OnNewRaw, HandleOk, Owners, Pack, Elements, Dense, CanAllocate;
    var l := heap.handles[h].layout;
    InvHandle(heap, h);
    DenseHandle(es, l, Handle(heap.nextRaw, Dense(l.shape, l.itemsize), true));
    MoveKeeps(heap, h, Pack(es, l.itemsize), Dense(l.shape, l.itemsize));
  }

  /** A shared handle moves to a storage of its own. */
  lemma MoveKeeps(heap: Heap, h: nat, bytes: Bytes, l: Layout)
    requires Inv(heap) && h in heap.handles && heap.raws[heap.handles[h].raw].strong > 1
    requires HandleOk(Handle(heap.nextRaw, l, true), bytes)
    ensures var after := OnNewRaw(heap, h, bytes, l);
      && Inv(after) && after.handles[h] == Handle(heap.nextRaw, l, true)
      && after.raws[heap.nextRaw] == Raw(bytes, 1)
      && forall g <- heap.handles :: g != h ==> Undisturbed(heap, after, g)
  {
    hide HandleOk, Owners;
    MoveCounts(heap, h, bytes, l);
  }

  lemma MoveCounts(heap: Heap, h: nat, bytes: Bytes, l: Layout)
    requires Inv(heap) && h in heap.handles && heap.raws[heap.handles[h].raw].strong > 1
    ensures var after := OnNewRaw(heap, h, bytes, l);
      forall r <- after.raws :: after.raws[r].strong == |Owners(after.handles, r)| > 0
  {
    hide HandleOk;
    var n := Handle(heap.nextRaw, l, true);
    assert Owners(heap.handles, heap.nextRaw) == {};
    hide Owners;
    forall r { OwnersOfReplaced(heap.handles, h, n, r); }
  }

  lemma UniquelyKeeps(heap: Heap, h: nat)
    requires Inv(heap) && h in heap.handles && Uniquely(heap, h).Unique?
    ensures var u := Uniquely(heap, h).heap;
      && Inv(u) && h in u.handles && u.handles[h].writeable
      && u.handles[h].layout.shape == heap.handles[h].layout.shape
      && u.handles[h].layout.itemsize == heap.handles[h].layout.itemsize
      && u.raws[u.handles[h].raw].strong == 1
      && (forall g <- heap.handles :: g != h ==> Undisturbed(heap, u, g))
  {
    InvHandle(heap, h);
    hide HandleOk, Owners, Pack, Elements, CanAllocate, CopiedElements;
    var handle := heap.handles[h];
    var raw := heap.raws[handle.raw];
    if raw.strong == 1 {
      FlagKeeps(heap, h, true);
    } else {
      CopyKeeps(heap, h, CopiedElements(raw.bytes, handle.layout).value);
    }
  }

  /** Writing bytes of a storage with a single owner disturbs nobody else. */
  lemma WriteKeeps(heap: Heap, h: nat, bytes: Bytes)
    requires Inv(heap) && h in heap.handles && heap.raws[heap.handles[h].raw].strong == 1
    requires |bytes| == |heap.raws[heap.handles[h].raw].bytes|
    ensures var r := heap.handles[h].raw;
      var after := heap.(raws := heap.raws[r := Raw(bytes, heap.raws[r].strong)]);
      Inv(after) && forall g <- heap.handles :: g != h ==> Undisturbed(heap, after, g)
  {
    hide Owners;
    forall g <- heap.handles | g != h ensures heap.handles[g].raw != heap.handles[h].raw {
      SoleOwner(heap, h, g);
    }
  }

  lemma SetElementKeeps(heap: Heap, h: nat, idx: seq<nat>, value: Bytes)
    requires Inv(heap) && h in heap.handles && |value| == heap.handles[h].layout.itemsize
    requires SetElement(heap, h, idx, value).Some?
    ensures var after := SetElement(heap, h, idx, value).value;
      Inv(after) && forall g <- heap.handles :: g != h ==> Undisturbed(heap, after, g)
  {
    hide Inv, HandleOk, Uniquely, Stored;
    forall g <- heap.handles { InvHandle(heap, g); }
    if Uniquely(heap, h).Unique? {
      UniquelyKeeps(heap, h);
      var u := Uniquely(heap, h).heap;
      var handle := u.handles[h];
      if InBounds(idx, handle.layout.shape) {
        InvHandle(u, h);
        WriteKeeps(u, h, Stored(u.raws[handle.raw].bytes, handle.layout, idx, value));
        var after := SetElement(heap, h, idx, value).value;
        forall g <- heap.handles | g != h ensures Undisturbed(heap, after, g) {
          assert Undisturbed(heap, u, g) && Undisturbed(u, after, g);
        }
      }
    }
  }

  /** Every defined step keeps the counts and the bounds, and disturbs no handle but its target. */
  lemma StepKeeps(heap: Heap, cmd: Command)
    requires Inv(heap) && Applicable(heap, cmd) && Step(heap, cmd).Some?
    ensures Inv(Step(heap, cmd).value)
    ensures forall g <- heap.handles :: !Targets(cmd, g) ==> Undisturbed(heap, Step(heap, cmd).value, g)
  {
    hide Owners, Uniquely, SetElement, AddHandle, AddRaw, Release, Fits, SharesOnlyByBroadcast;
    match cmd
    case New(shape, columnMajor, itemsize, bytes) =>
      var l := if columnMajor then NewF(shape, itemsize) else NewC(shape, itemsize);
      if l.Ok? && Prod(shape) * itemsize == |bytes| <= ISIZE_MAX {
        NewCFits(shape, itemsize);
        NewFFits(shape, itemsize);
        AddRawKeeps(heap, bytes, l.value);
      }
    case Share(h) => AddHandleKeeps(heap, heap.handles[h].(writeable := false));
    case Derive(h, op) =>
      var handle := heap.handles[h];
      var v := View(handle.layout, op);
      if v.Some? {
        ViewKeeps(handle.layout, op, |heap.raws[handle.raw].bytes|);
        AddHandleKeeps(heap, Handle(handle.raw, v.value, DerivedFlag(op, handle.writeable)));
      }
    case MakeUnique(h) => if Uniquely(heap, h).Unique? { UniquelyKeeps(heap, h); }
    case Set(h, idx, value) =>
      var handle := heap.handles[h];
      if |value| == handle.layout.itemsize && handle.writeable { SetElementKeeps(heap, h, idx, value); }
    case SetWriteable(h, writeable) => FlagKeeps(heap, h, writeable);
    case Drop(h) => DropKeeps(heap, h);
  }

  // Which steps read outside an allocation.

  /**
   * The command copies a shared handle whose highest element, moved by a second offset, ends outside its
   * allocation.
   */
  ghost predicate ReadsOutside(heap: Heap, cmd: Command)
    requires Inv(heap) && Applicable(heap, cmd)
  {
    && (cmd.MakeUnique? || (cmd.Set? && |cmd.value| == heap.handles[cmd.h].layout.itemsize && heap.handles[cmd.h].writeable))
    && var l := heap.handles[cmd.h].layout;
       var raw := heap.raws[heap.handles[cmd.h].raw];
       raw.strong > 1 && CanAllocate(l.shape, l.itemsize) && !CopyInside(l, |raw.bytes|)
  }

  /** Those steps and no others are undefined. */
  lemma StepUndefinedExactly(heap: Heap, cmd: Command)
    requires Inv(heap) && Applicable(heap, cmd)
    ensures Step(heap, cmd).None? <==> ReadsOutside(heap, cmd)
  {
    hide CopiedElements, CopyInside, CanAllocate, Owners, HandleOk;
    if cmd.MakeUnique? || cmd.Set? {
      InvHandle(heap, cmd.h);
      CopyDefinedExactly(heap.raws[heap.handles[cmd.h].raw].bytes, heap.handles[cmd.h].layout);
    }
  }

  // Runs.

  /** The heap after a run of commands, when each applies and is defined. */
  ghost function Run(heap: Heap, cmds: seq<Command>): Option<Heap>
    requires Inv(heap)
    decreases |cmds|
  {
    if cmds == [] then Some(heap)
    else if !Applicable(heap, cmds[0]) || Step(heap, cmds[0]).None? then None
    else
      StepKeeps(heap, cmds[0]);
      Run(Step(heap, cmds[0]).value, cmds[1..])
  }

  /** Over any run the reference counts stay exact, and a handle no command works on shows the same at the end. */
  lemma {:induction false} RunKeeps(heap: Heap, cmds: seq<Command>)
    requires Inv(heap) && Run(heap, cmds).Some?
    ensures Inv(Run(heap, cmds).value)
    ensures forall g <- heap.handles :: (forall k :: 0 <= k < |cmds| ==> !Targets(cmds[k], g)) ==>
      Undisturbed(heap, Run(heap, cmds).value, g) && Contents(Run(heap, cmds).value, g) == Contents(heap, g)
    decreases |cmds|
  {
    hide Step, Applicable, Targets, Elements, HandleOk, Owners;
    if cmds != [] {
      var next := Step(heap, cmds[0]).value;
      StepKeeps(heap, cmds[0]);
      RunKeeps(next, cmds[1..]);
      forall g <- heap.handles | forall k :: 0 <= k < |cmds| ==> !Targets(cmds[k], g)
        ensures Undisturbed(heap, Run(heap, cmds).value, g)
      {
        assert Undisturbed(heap, next, g);
        assert forall k :: 0 <= k < |cmds[1..]| ==> cmds[1..][k] == cmds[k + 1];
      }
    }
  }

  /** The k-th command of the run comes to a heap where it does not apply or reads outside an allocation. */
  ghost predicate FailsAt(heap: Heap, cmds: seq<Command>, k: nat)
    requires Inv(heap) && k < |cmds|
  {
    && Run(heap, cmds[..k]).Some?
    && (RunKeeps(heap, cmds[..k]);
        var reached := Run(heap, cmds[..k]).value;
        !Applicable(reached, cmds[k]) || ReadsOutside(reached, cmds[k]))
  }

  /** A run is defined exactly when none of its commands fails in that way. */
  lemma {:induction false} RunDefinedExactly(heap: Heap, cmds: seq<Command>)
    requires Inv(heap)
    ensures Run(heap, cmds).Some? <==> forall k: nat :: k < |cmds| ==> !FailsAt(heap, cmds, k)
    decreases |cmds|
  {
    hide Step, Applicable, ReadsOutside, Owners, HandleOk;
    if cmds != [] {
      assert cmds[..0] == [];
      assert FailsAt(heap, cmds, 0) <==> !Applicable(heap, cmds[0]) || ReadsOutside(heap, cmds[0]);
      if !FailsAt(heap, cmds, 0) {
        StepUndefinedExactly(heap, cmds[0]);
        StepKeeps(heap, cmds[0]);
        var next, rest := Step(heap, cmds[0]).value, cmds[1..];
        RunDefinedExactly(next, rest);
        forall k: nat | k < |rest| ensures FailsAt(heap, cmds, k + 1) <==> FailsAt(next, rest, k) {
          assert cmds[..k + 1][1..] == rest[..k];
        }
        forall k: nat | 0 < k < |cmds| ensures FailsAt(heap, cmds, k) <==> FailsAt(next, rest, k - 1) {
          assert FailsAt(heap, cmds, (k - 1) + 1) <==> FailsAt(next, rest, k - 1);
        }
      } else {
        if Applicable(heap, cmds[0]) { StepUndefinedExactly(heap, cmds[0]); }
      }
    }
  }

  /** From an empty heap, every reachable heap has exact reference counts, and every handle lies inside its storage. */
  lemma RunFromEmpty(cmds: seq<Command>)
    ensures Inv(Heap(map[], map[], 0, 0))
    ensures Run(Heap(map[], map[], 0, 0), cmds).Some? ==> Inv(Run(Heap(map[], map[], 0, 0), cmds).value)
    ensures Run(Heap(map[], map[], 0, 0), cmds).Some? ==>
      var heap := Run(Heap(map[], map[], 0, 0), cmds).value;
      && (forall r <- heap.raws :: heap.raws[r].strong == |set h | h in heap.handles && heap.handles[h].raw == r| >= 1)
      && forall h <- heap.handles ::
           && heap.handles[h].raw in heap.raws && heap.handles[h].layout.WellFormed()
           && Fits(heap.handles[h].layout, |heap.raws[heap.handles[h].raw].bytes|)
  {
    if Run(Heap(map[], map[], 0, 0), cmds).Some? {
      RunKeeps(Heap(map[], map[], 0, 0), cmds);
      var heap := Run(Heap(map[], map[], 0, 0), cmds).value;
      forall r <- heap.raws
        ensures heap.raws[r].strong == |set h | h in heap.handles && heap.handles[h].raw == r| >= 1
      {
        assert Owners(heap.handles, r) == set h | h in heap.handles && heap.handles[h].raw == r;
      }
    }
  }

  // What the writer sees.

  /** A handle may be copied without change: it is the only one, or its layout is C-contiguous or has no offset. */
  predicate CopiesFaithfully(heap: Heap, h: nat)
    requires h in heap.handles && heap.handles[h].raw in heap.raws
  {
    var l := heap.handles[h].layout;
    heap.raws[heap.handles[h].raw].strong == 1 || l.CContiguous() || l.offset == 0
  }

  /** `make_unique` is defined and keeps what its handle shows. */
  lemma UniquelyShowsSame(heap: Heap, h: nat)
    requires Inv(heap) && h in heap.handles && CopiesFaithfully(heap, h)
    ensures !Uniquely(heap, h).UndefinedRead?
    ensures Uniquely(heap, h).Unique? ==>
      Inv(Uniquely(heap, h).heap) && h in Uniquely(heap, h).heap.handles
      && Contents(Uniquely(heap, h).heap, h) == Contents(heap, h)
  {
    hide Owners, Pack;
    var handle := heap.handles[h];
    var raw := heap.raws[handle.raw];
    var l := handle.layout;
    if raw.strong == 1 {
      FlagKeeps(heap, h, true);
    } else if CanAllocate(l.shape, l.itemsize) {
      CopyIsFaithful(raw.bytes, l);
      CopyKeeps(heap, h, Elements(raw.bytes, l));
    }
  }

  /**
   * A successful `set` on a handle that copies faithfully: the element at idx becomes the value; any
   * other element keeps its value unless the handle stays on its own storage and shows both at one address.
   */
  lemma SetShows(heap: Heap, h: nat, idx: seq<nat>, value: Bytes, j: seq<nat>)
    requires Inv(heap) && h in heap.handles && CopiesFaithfully(heap, h)
    requires |value| == heap.handles[h].layout.itemsize && Uniquely(heap, h).Unique?
    requires InBounds(idx, heap.handles[h].layout.shape) && InBounds(j, heap.handles[h].layout.shape)
    ensures SetElement(heap, h, idx, value).Some?
    ensures var after := SetElement(heap, h, idx, value).value;
      var l := heap.handles[h].layout;
      var sole := heap.raws[heap.handles[h].raw].strong == 1;
      && Inv(after) && h in after.handles
      && Ravel(j, l.shape) < |Contents(after, h)| == |Contents(heap, h)|
      && Contents(after, h)[Ravel(j, l.shape)] ==
           if j == idx || (sole && l.Off(j) == l.Off(idx)) then value else Contents(heap, h)[Ravel(j, l.shape)]
  {
    hide Uniquely, SetElement, CopiesFaithfully, Owners, Element, Stored;
    SetDefined(heap, h, idx, value);
    SetElementKeeps(heap, h, idx, value);
    UniquelyKeeps(heap, h);
    UniquelyShowsSame(heap, h);
    UniquelyLayout(heap, h);
    var u := Uniquely(heap, h).heap;
    var after := SetElement(heap, h, idx, value).value;
    var l := u.handles[h].layout;
    var bytes := u.raws[u.handles[h].raw].bytes;
    ElementsAt(bytes, l, j);
    ElementsAt(after.raws[after.handles[h].raw].bytes, l, j);
    StoreChanges(bytes, l, idx, value, j);
  }

  lemma SetDefined(heap: Heap, h: nat, idx: seq<nat>, value: Bytes)
    requires Inv(heap) && h in heap.handles && |value| == heap.handles[h].layout.itemsize
    requires Uniquely(heap, h).Unique? && InBounds(idx, heap.handles[h].layout.shape)
    ensures SetElement(heap, h, idx, value).Some?
    ensures var u := Uniquely(heap, h).heap;
      var after := SetElement(heap, h, idx, value).value;
      && Inv(u) && h in u.handles && h in after.handles && after.handles[h] == u.handles[h]
      && u.handles[h].layout.shape == heap.handles[h].layout.shape && u.handles[h].layout.itemsize == |value|
      && after.handles[h].raw in after.raws
      && after.raws[after.handles[h].raw].bytes
         == Stored(u.raws[u.handles[h].raw].bytes, u.handles[h].layout, idx, value)
  {
    hide Uniquely, Stored, Owners, HandleOk;
    UniquelyKeeps(heap, h);
    InvHandle(Uniquely(heap, h).heap, h);
  }

  /** After `make_unique` a sole owner keeps its layout, and a copy is injective. */
  lemma UniquelyLayout(heap: Heap, h: nat)
    requires Inv(heap) && h in heap.handles && Uniquely(heap, h).Unique?
    ensures var u := Uniquely(heap, h).heap;
      && h in u.handles && u.handles[h].layout.WellFormed()
      && if heap.raws[heap.handles[h].raw].strong == 1
         then u.handles[h].layout == heap.handles[h].layout
         else Injective(u.handles[h].layout)
  {
    var l := heap.handles[h].layout;
    if heap.raws[heap.handles[h].raw].strong != 1 {
      NewCFits(l.shape, l.itemsize);
    }
  }
}
