/** The buffer handle as an object: shared storage, layout, writeable flag, updated in place. */
module Buffers {
  import opened Arith
  import opened Results
  import opened Words
  import opened Shapes
  import opened NdIter
  import opened Layouts
  import opened Views
  import opened Reachability
  import opened Materialise
  import opened CowHeap

  /** An element type, known by a code and its size in bytes. */
  datatype DType = DType(code: nat, itemsize: nat)

  /** The storage behind an `Arc`: its bytes and its strong count. */
  class RawBuffer {
    const bytes: array<u8>
    var strong: nat

    constructor (bytes: array<u8>)
      ensures this.bytes == bytes && strong == 1
    {
      this.bytes := bytes;
      strong := 1;
    }
  }

  class Buffer {
    var raw: RawBuffer
    const dtype: DType
    var layout: Layout
    var writeable: bool

    constructor (raw: RawBuffer, dtype: DType, layout: Layout, writeable: bool)
      ensures this.raw == raw && this.dtype == dtype && this.layout == layout && this.writeable == writeable
    {
      this.raw, this.dtype, this.layout, this.writeable := raw, dtype, layout, writeable;
    }

    ghost predicate Ok()
      reads this
    {
      && layout.WellFormed() && layout.itemsize == dtype.itemsize
      && Fits(layout, raw.bytes.Length) && raw.bytes.Length <= ISIZE_MAX && SharesOnlyByBroadcast(layout)
    }

    /** What the handle shows. */
    ghost function Shown(): seq<Bytes>
      requires Ok()
      reads this, raw.bytes
    {
      Elements(raw.bytes[..], layout)
    }

    method Get(t: DType, idx: seq<nat>) returns (r: Result<Bytes>)
      requires Ok()
      ensures t != dtype ==> r == Err(DTypeMismatch)
      ensures t == dtype ==> (r.Ok? <==> InBounds(idx, layout.shape)) && (r.Ok? || r.Err?)
      ensures r.Ok? ==> r.value == Element(raw.bytes[..], layout, idx)
      ensures r.Ok? ==> |r.value| == layout.itemsize && forall b :: 0 <= b < layout.itemsize ==>
        var at := layout.offset + Dot(idx, layout.strides) + b; 0 <= at < raw.bytes.Length && r.value[b] == raw.bytes[at]
    {
      if t != dtype { return Err(DTypeMismatch); }
      var off := layout.CheckedOff(idx);
      if !off.Ok? { return Err(off.error); }
      return Results.Ok(raw.bytes[off.value..off.value + layout.itemsize]);
    }

    /** `to_vec`: consecutive blocks when C-contiguous, the byte-offset iterator otherwise. */
    method ToVec(t: DType) returns (r: Result<seq<Bytes>>)
      requires Ok()
      ensures r == if t != dtype then Err(DTypeMismatch) else Results.Ok(Shown())
    {
      if t != dtype { return Err(DTypeMismatch); }
      var out: seq<Bytes>;
      if layout.CContiguous() {
        out := SliceToVec();
        FastPathAgrees(raw.bytes[..], layout);
      } else {
        out := WalkToVec();
      }
      return Results.Ok(out);
    }

    method SliceToVec() returns (out: seq<Bytes>)
      requires Ok() && layout.CContiguous()
      ensures out == Consecutive(raw.bytes[..], layout)
    {
      hide Fits, SharesOnlyByBroadcast;
      out := [];
      var size := layout.Size();
      for k := 0 to size
        invariant |out| == k
        invariant forall j :: 0 <= j < k ==> out[j] == Consecutive(raw.bytes[..], layout)[j]
      {
        ContiguousOff(layout, raw.bytes.Length, k);
        var at := layout.offset + k * layout.itemsize;
        out := out + [raw.bytes[at..at + layout.itemsize]];
      }
    }

    method WalkToVec() returns (out: seq<Bytes>)
      requires Ok()
      ensures out == Shown()
    {
      hide SharesOnlyByBroadcast, Dot;
      out := [];
      var iter := new StridedByteIter(layout.shape, layout.strides, layout.offset);
      while true
        invariant iter.Valid() && fresh(iter) && fresh(iter.ndIter)
        invariant iter.ndIter.shape == layout.shape && iter.strides == layout.strides && iter.baseOffset == layout.offset
        invariant iter.ndIter.count == |out| <= layout.Size()
        invariant forall j :: 0 <= j < |out| ==> out[j] == Shown()[j]
        decreases layout.Size() - iter.ndIter.count
      {
        var off := iter.Next();
        if off.None? { break; }
        UnravelInBounds(|out|, layout.shape);
        out := out + [raw.bytes[off.value..off.value + layout.itemsize]];
      }
    }

    /** The bytes of a dense copy: one block move when C-contiguous, element by element otherwise. */
    method CopyOut(n: nat) returns (r: Option<array<u8>>)
      requires Ok() && n == Prod(layout.shape) * layout.itemsize && n <= ISIZE_MAX
      ensures r.Some? <==> CopyInside(layout, raw.bytes.Length)
      ensures r.Some? ==> fresh(r.value) && r.value.Length == n
      ensures r.Some? ==> CopiedElements(raw.bytes[..], layout).Some?
      ensures r.Some? ==> IsDense(r.value[..], CopiedElements(raw.bytes[..], layout).value, layout.itemsize)
    {
      CopyDefinedExactly(raw.bytes[..], layout);
      var dst := new u8[n](_ => 0);
      if layout.CContiguous() {
        if n > 0 {
          ContiguousSpan(layout, raw.bytes.Length);
          forall i | 0 <= i < n { dst[i] := raw.bytes[layout.offset + i]; }
          MovedIsDense(raw.bytes[..], layout, dst[..]);
        } else {
          NoElements(raw.bytes[..], layout);
        }
        return Some(dst);
      }
      r := GatherInto(dst);
    }

    /** The strided loop, starting from `as_ptr()`; None when it would read outside the allocation. */
    method GatherInto(dst: array<u8>) returns (r: Option<array<u8>>)
      requires Ok() && dst != raw.bytes
      requires dst.Length == Prod(layout.shape) * layout.itemsize
      modifies dst
      ensures r == if StridedInRange(layout, raw.bytes.Length) then Some(dst) else None
      ensures r.Some? ==> IsDense(dst[..], StridedCopy(raw.bytes[..], layout).value, layout.itemsize)
    {
      hide Fits, SharesOnlyByBroadcast, Dot, Prod, Unravel, Gathered, IsDense, StridedCopy;
      ghost var src := raw.bytes[..];
      var size, itemsize := layout.Size(), layout.itemsize;
      hide Layout.Size;
      var iter := new StridedByteIter(layout.shape, layout.strides, layout.offset);
      var k := 0;
      while true
        invariant iter.Valid() && fresh(iter) && fresh(iter.ndIter)
        invariant iter.ndIter.shape == layout.shape && iter.strides == layout.strides && iter.baseOffset == layout.offset
        invariant iter.ndIter.count == k <= size
        invariant raw.bytes[..] == src
        invariant forall j :: 0 <= j < k ==> Gathered(dst[..], src, layout, j)
        decreases size - k
      {
        var off := iter.Next();
        if off.None? { break; }
        UnravelInBounds(k, layout.shape);
        var at := layout.offset + off.value;
        if at < 0 || at + itemsize > raw.bytes.Length {
          assert StridedAddress(layout, Unravel(k, layout.shape)) == at;
          return None;
        }
        MulLess(k, size, itemsize);
        ghost var before := dst[..];
        CopyBlock(dst, k * itemsize, at);
        GatheredStep(before, dst[..], src, layout, k);
        k := k + 1;
      }
      GatheredAll(dst[..], src, layout);
      return Some(dst);
    }

    /** One element copied. */
    method CopyBlock(dst: array<u8>, to: nat, at: nat)
      requires dst != raw.bytes
      requires to + layout.itemsize <= dst.Length && at + layout.itemsize <= raw.bytes.Length
      modifies dst
      ensures Block(dst[..], to, layout.itemsize) == Block(raw.bytes[..], at, layout.itemsize)
      ensures forall i :: 0 <= i < to ==> dst[..][i] == old(dst[..])[i]
    {
      forall i | 0 <= i < layout.itemsize { dst[to + i] := raw.bytes[at + i]; }
    }

    /** `to_contiguous`. */
    method ToContiguous() returns (r: Result<Buffer>)
      requires Ok()
      ensures r.Ok? <==> CanAllocate(layout.shape, layout.itemsize) && CopyInside(layout, raw.bytes.Length)
      ensures r.Err? <==> !CanAllocate(layout.shape, layout.itemsize)
      ensures r.Err? ==> AllocationError(r.error, layout.shape, layout.itemsize)
      ensures r.Undefined? <==> CanAllocate(layout.shape, layout.itemsize) && !CopyInside(layout, raw.bytes.Length)
      ensures r.Ok? ==> fresh(r.value) && fresh(r.value.raw) && fresh(r.value.raw.bytes) && r.value.Ok()
      ensures r.Ok? ==> r.value.raw.strong == 1 && r.value.dtype == dtype && r.value.writeable
      ensures r.Ok? ==> r.value.layout == Dense(layout.shape, layout.itemsize)
      ensures r.Ok? ==> Some(r.value.Shown()) == CopiedElements(raw.bytes[..], layout)
      ensures r.Ok? && (layout.CContiguous() || layout.offset == 0) ==> r.value.Shown() == Shown()
    {
      hide Fits, SharesOnlyByBroadcast, Elements;
      var n := ContiguousNbytes(layout.shape, layout.itemsize);
      if !n.Ok? { return Err(ShapeOverflow); }
      if n.value > ISIZE_MAX { return Err(AllocFailed); }
      var dense := NewC(layout.shape, layout.itemsize);
      if !dense.Ok? { return Err(dense.error); }
      var bytes := CopyOut(n.value);
      if bytes.None? { return Undefined; }
      DenseShows(bytes.value[..], layout.shape, layout.itemsize, CopiedElements(raw.bytes[..], layout).value);
      if layout.CContiguous() || layout.offset == 0 { CopyIsFaithful(raw.bytes[..], layout); }
      var newRaw := new RawBuffer(bytes.value);
      var b := new Buffer(newRaw, dtype, dense.value, true);
      return Results.Ok(b);
    }

    /** `Arc::clone` with a layout and flag of its own: another handle on the same storage. */
    method Attach(l: Layout, flag: bool, ghost live: set<Buffer>) returns (b: Buffer)
      requires World(live) && this in live && l.itemsize == dtype.itemsize
      requires l.WellFormed() && Fits(l, raw.bytes.Length) && SharesOnlyByBroadcast(l)
      modifies raw`strong
      ensures fresh(b) && b.raw == raw && b.layout == l && b.dtype == dtype && b.writeable == flag
      ensures raw.strong == old(raw.strong) + 1
      ensures World(live + {b})
    {
      hide Fits, SharesOnlyByBroadcast, Layout.WellFormed, Sharers;
      b := new Buffer(raw, dtype, l, flag);
      assert b !in live && b.Ok();
      StillSeparated(live, b, this);
      StillSound(live, b);
      hide Separated, Sound, Buffer.Ok;
      SharersWith(live, b, raw);
      forall c <- live | c.raw != raw ensures c.raw.strong == |Sharers(live + {b}, c.raw)| {
        SharersWith(live, b, c.raw);
      }
      raw.strong := raw.strong + 1;
    }

    /** `share` and `clone`: another handle on the same storage, read-only. */
    method Share(ghost live: set<Buffer>) returns (b: Buffer)
      requires World(live) && this in live
      modifies raw`strong
      ensures fresh(b) && b.raw == raw && b.layout == layout && b.dtype == dtype && !b.writeable
      ensures raw.strong == old(raw.strong) + 1
      ensures World(live + {b})
    {
      b := Attach(layout, false, live);
    }

    /** A view: another handle on the same storage with a rewritten layout. */
    method Derive(op: ViewOp, ghost live: set<Buffer>) returns (b: Option<Buffer>)
      requires World(live) && this in live && Allowed(layout, op)
      modifies raw`strong
      ensures b.Some? <==> View(layout, op).Some?
      ensures b.None? ==> raw.strong == old(raw.strong) && World(live)
      ensures b.Some? ==> fresh(b.value) && b.value.raw == raw && b.value.dtype == dtype
      ensures b.Some? ==> View(layout, op) == Some(b.value.layout)
      ensures b.Some? ==> b.value.writeable == (op.Reshape? || ((op.ExpandDims? || op.Squeeze?) && writeable))
      ensures b.Some? ==> raw.strong == old(raw.strong) + 1 && World(live + {b.value})
    {
      hide View, Allowed, Fits, SharesOnlyByBroadcast, Sharers;
      var v := View(layout, op);
      if v.None? { return None; }
      ViewKeeps(layout, op, raw.bytes.Length);
      var c := Attach(v.value, DerivedFlag(op, writeable), live);
      return Some(c);
    }

    /** `make_unique`: no other handle's storage, layout or bytes change. */
    method MakeUnique(ghost live: set<Buffer>) returns (r: Result<()>)
      requires World(live) && this in live
      modifies this, raw`strong
      ensures World(live)
      ensures r.Ok? ==> raw.strong == 1 && writeable && layout.shape == old(layout.shape)
      ensures !r.Ok? ==> raw == old(raw) && layout == old(layout) && writeable == old(writeable)
      ensures r.Ok? <==> old(CanBeUnique())
      ensures old(raw.strong) == 1 ==> raw == old(raw) && layout == old(layout)
      ensures old(raw.strong) > 1 && r.Ok? ==>
        fresh(raw) && fresh(raw.bytes) && layout == Dense(old(layout.shape), dtype.itemsize)
      ensures old(raw.strong) > 1 && r.Ok? ==> Some(Shown()) == old(CopiedElements(raw.bytes[..], layout))
      ensures r.Ok? && old(raw.strong == 1 || layout.CContiguous() || layout.offset == 0) ==> Shown() == old(Shown())
      ensures r.Err? <==> old(raw.strong > 1 && !CanAllocate(layout.shape, layout.itemsize))
      ensures r.Err? ==> AllocationError(r.error, layout.shape, layout.itemsize)
      ensures !r.Panic?
    {
      SharersKnown(live, this);
      if raw.strong == 1 {
        writeable := true;
        assert forall c <- live :: Sharers(live, c.raw) == old(Sharers(live, c.raw));
        return Results.Ok(());
      }
      var copy := ToContiguous();
      if !copy.Ok? {
        if copy.Err? { return Err(copy.error); }
        return Undefined;
      }
      MoveTo(copy.value, live);
      return Results.Ok(());
    }

    /** The handle is the only one, or its shape can be allocated and the copy reads inside the allocation. */
    ghost predicate CanBeUnique()
      requires Ok()
      reads this, raw
    {
      raw.strong == 1 || (CanAllocate(layout.shape, layout.itemsize) && CopyInside(layout, raw.bytes.Length))
    }

    /** `*self = new_buf`: the old storage loses this reference. */
    method MoveTo(b: Buffer, ghost live: set<Buffer>)
      requires World(live) && this in live && raw.strong > 1
      requires b !in live && b.Ok() && b.raw.strong == 1 && b.dtype == dtype
      requires forall c <- live :: c.raw != b.raw && c.raw.bytes != b.raw.bytes
      modifies this, raw`strong
      ensures World(live)
      ensures raw == b.raw && layout == b.layout && writeable == b.writeable
      ensures raw.strong == 1
    {
      hide Fits, SharesOnlyByBroadcast, Layout.WellFormed;
      ghost var was := raw;
      ghost var before := Sharers(live, was);
      SharersKnown(live, this);
      raw.strong := raw.strong - 1;
      raw, layout, writeable := b.raw, b.layout, b.writeable;
      assert Ok() && Separated(live);
      hide Separated, Buffer.Ok;
      assert Sharers(live, was) == before - {this};
      assert Sharers(live, raw) == {this};
      forall c <- live ensures c.raw.strong == |Sharers(live, c.raw)| {
        if c.raw != was && c.raw != raw { assert Sharers(live, c.raw) == old(Sharers(live, c.raw)); }
      }
      hide Sharers;
    }

    /** `set`: type check, writeable check, copy-on-write, bounds check, write. */
    method Set(t: DType, idx: seq<nat>, value: Bytes, ghost live: set<Buffer>) returns (r: Result<()>)
      requires World(live) && this in live && |value| == t.itemsize
      modifies this, raw, raw.bytes
      ensures World(live)
      ensures t != dtype ==> r == Err(DTypeMismatch)
      ensures t == dtype && !old(writeable) ==> r == Err(ReadOnly)
      ensures t == dtype && old(writeable) ==>
        (r.Ok? <==> InBounds(idx, old(layout.shape)) && old(CanBeUnique()))
      ensures t != dtype || !old(writeable) || !old(CanBeUnique()) ==>
        && raw == old(raw) && layout == old(layout) && writeable == old(writeable)
        && raw.bytes[..] == old(raw.bytes[..])
      ensures t == dtype && old(writeable) && !old(CanBeUnique()) ==>
        if old(CanAllocate(layout.shape, layout.itemsize)) then r == Undefined
        else r.Err? && AllocationError(r.error, layout.shape, layout.itemsize)
      ensures t == dtype && old(writeable) && old(CanBeUnique()) && !InBounds(idx, old(layout.shape)) ==>
        && r.Err? && IndexError(r.error, idx, layout.shape) && raw.strong == 1 && writeable
        && if old(raw.strong) == 1
           then raw == old(raw) && layout == old(layout) && raw.bytes[..] == old(raw.bytes[..])
           else layout == Dense(old(layout.shape), dtype.itemsize)
                && Some(Shown()) == old(CopiedElements(raw.bytes[..], layout))
      ensures r.Ok? ==> InBounds(idx, layout.shape) && Element(raw.bytes[..], layout, idx) == value
      ensures r.Ok? && old(raw.strong) == 1 ==>
        raw == old(raw) && layout == old(layout) && raw.bytes[..] == Stored(old(raw.bytes[..]), layout, idx, value)
      ensures r.Ok? && old(raw.strong) > 1 ==>
        && layout == Dense(old(layout.shape), dtype.itemsize)
        && exists copy: Bytes :: |copy| == raw.bytes.Length
             && Some(Elements(copy, layout)) == old(CopiedElements(raw.bytes[..], layout))
             && raw.bytes[..] == Stored(copy, layout, idx, value)
      ensures forall c <- live :: c != this ==> c.raw.bytes[..] == old(c.raw.bytes[..])
    {
      hide World, Buffer.Ok, Elements, CopiedElements, CanAllocate, Stored, Element, Fits;
      SharersKnown(live, this);
      if t != dtype { return Err(DTypeMismatch); }
      if !writeable { return Err(ReadOnly); }
      r := MakeUnique(live);
      if !r.Ok? { return; }
      r := WriteUnique(idx, value, live);
    }

    /**
     * `as_mut_slice`: where the slice starts and its number of elements. The contiguity check comes
     * before the copy, so the copy is faithful: the handle shows what it showed, now alone.
     */
    method AsMutSlice(t: DType, ghost live: set<Buffer>) returns (r: Result<(int, nat)>)
      requires World(live) && this in live
      modifies this, raw`strong
      ensures World(live)
      ensures t != dtype ==> r == Err(DTypeMismatch)
      ensures t == dtype && !old(writeable) ==> r == Err(ReadOnly)
      ensures t == dtype && old(writeable) && !old(layout).CContiguous() ==> r == Err(NonContiguous)
      ensures t == dtype && old(writeable) && old(layout).CContiguous() ==>
        (r.Ok? <==> old(raw.strong) == 1 || CanAllocate(old(layout.shape), dtype.itemsize))
      ensures r.Ok? ==> raw.strong == 1 && layout.CContiguous() && r.value == (layout.offset, layout.Size())
      ensures r.Ok? ==> Shown() == old(Shown()) == Consecutive(raw.bytes[..], layout)
      ensures !r.Undefined?
    {
      hide Fits, SharesOnlyByBroadcast, Elements, Consecutive, CStrides, CanAllocate, Separated, Sharers;
      if t != dtype { return Err(DTypeMismatch); }
      if !writeable { return Err(ReadOnly); }
      if !layout.CContiguous() { return Err(NonContiguous); }
      SharersKnown(live, this);
      FastPathAgrees(raw.bytes[..], layout);
      var unique := MakeUnique(live);
      if !unique.Ok? { return Err(unique.error); }
      FastPathAgrees(raw.bytes[..], layout);
      return Results.Ok((layout.offset, layout.Size()));
    }

    /** The rest of `set` once the storage is unshared. */
    method WriteUnique(idx: seq<nat>, value: Bytes, ghost live: set<Buffer>) returns (r: Result<()>)
      requires World(live) && this in live && raw.strong == 1 && |value| == dtype.itemsize
      modifies raw.bytes
      ensures World(live)
      ensures r.Ok? <==> InBounds(idx, layout.shape)
      ensures !r.Ok? ==> r.Err? && IndexError(r.error, idx, layout.shape) && raw.bytes[..] == old(raw.bytes[..])
      ensures r.Ok? ==> raw.bytes[..] == Stored(old(raw.bytes[..]), layout, idx, value)
      ensures r.Ok? ==> Element(raw.bytes[..], layout, idx) == value
      ensures forall c <- live :: c != this ==> c.raw.bytes[..] == old(c.raw.bytes[..])
    {
      hide SharesOnlyByBroadcast, Sharers;
      var off := layout.CheckedOff(idx);
      if !off.Ok? { return Err(off.error); }
      ghost var before := raw.bytes[..];
      OnlySharer(live, this);
      StoreAt(off.value, value);
      StoreChanges(before, layout, idx, value, idx);
      return Results.Ok(());
    }

    method StoreAt(at: nat, value: Bytes)
      requires at + |value| <= raw.bytes.Length
      modifies raw.bytes
      ensures raw.bytes[..] == old(raw.bytes[..at]) + value + old(raw.bytes[at + |value|..])
    {
      forall i | 0 <= i < |value| { raw.bytes[at + i] := value[i]; }
    }

    /** `set_writeable`. */
    method SetWriteable(on: bool) returns (r: Result<()>)
      modifies this`writeable
      ensures r == if on && raw.strong > 1 then Err(CannotResizeShared) else Results.Ok(())
      ensures writeable == if r.Ok? then on else old(writeable)
    {
      if on && raw.strong > 1 { return Err(CannotResizeShared); }
      writeable := on;
      return Results.Ok(());
    }

    /** Dropping the handle: the storage has one reference fewer. */
    method Drop(ghost live: set<Buffer>)
      requires World(live) && this in live
      modifies raw`strong
      ensures World(live - {this}) && raw.strong == old(raw.strong) - 1
    {
      ghost var before := Sharers(live, raw);
      SharersKnown(live, this);
      raw.strong := raw.strong - 1;
      assert Sharers(live - {this}, raw) == before - {this};
      assert forall c <- live :: c.raw != raw ==> Sharers(live - {this}, c.raw) == Sharers(live, c.raw);
    }
  }

  predicate IndexError(e: Error, idx: seq<nat>, shape: Shape) {
    if |idx| != |shape| then e == TooManyIndices else e.IndexOutOfBounds? && FirstBad(idx, shape, e.axis)
  }

  // The live handles together.

  ghost function Sharers(live: set<Buffer>, r: RawBuffer): set<Buffer>
    reads live
  {
    set b | b in live && b.raw == r
  }

  /** Every live handle is sound, and every strong count is the number of live handles on the storage. */
  ghost predicate World(live: set<Buffer>)
    reads live, set b | b in live :: b.raw
  {
    && Sound(live) && Separated(live)
    && forall b <- live :: b.raw.strong == |Sharers(live, b.raw)|
  }

  ghost predicate Sound(live: set<Buffer>)
    reads live
  {
    forall b <- live :: b.Ok()
  }

  /** Different storages have different bytes. */
  ghost predicate Separated(live: set<Buffer>)
    reads live
  {
    forall b <- live, c <- live :: b.raw != c.raw ==> b.raw.bytes != c.raw.bytes
  }

  lemma SharersWith(live: set<Buffer>, b: Buffer, r: RawBuffer)
    requires b !in live
    ensures Sharers(live + {b}, r) == if b.raw == r then Sharers(live, r) + {b} else Sharers(live, r)
    ensures b !in Sharers(live, r)
  {
  }

  lemma StillSound(live: set<Buffer>, b: Buffer)
    requires Sound(live) && b.Ok()
    ensures Sound(live + {b})
  {
  }

  lemma StillSeparated(live: set<Buffer>, b: Buffer, c: Buffer)
    requires Separated(live) && c in live && b.raw == c.raw
    ensures Separated(live + {b})
  {
  }

  lemma SharersKnown(live: set<Buffer>, b: Buffer)
    requires World(live) && b in live
    ensures b in Sharers(live, b.raw) && b.raw.strong == |Sharers(live, b.raw)| >= 1
  {
    SubsetSize({b}, Sharers(live, b.raw));
  }

  lemma OnlySharer(live: set<Buffer>, b: Buffer)
    requires World(live) && b in live && b.raw.strong == 1
    ensures forall c <- live :: c != b ==> c.raw != b.raw && c.raw.bytes != b.raw.bytes
  {
    forall c <- live | c != b ensures c.raw != b.raw {
      if c.raw == b.raw { SubsetSize({b, c}, Sharers(live, b.raw)); }
    }
  }

  // Blocks of a dense copy.

  ghost predicate IsDense(bytes: Bytes, es: seq<Bytes>, itemsize: nat) {
    && |bytes| == |es| * itemsize
    && forall k :: 0 <= k < |es| ==> 0 <= k * itemsize <= |bytes| - itemsize && Block(bytes, k * itemsize, itemsize) == es[k]
  }

  ghost predicate Gathered(dst: Bytes, src: Bytes, l: Layout, k: nat)
    requires l.WellFormed() && k < l.Size()
  {
    && 0 <= k * l.itemsize <= |dst| - l.itemsize
    && InBounds(Unravel(k, l.shape), l.shape)
    && 0 <= StridedAddress(l, Unravel(k, l.shape)) <= |src| - l.itemsize
    && Block(dst, k * l.itemsize, l.itemsize) == Block(src, StridedAddress(l, Unravel(k, l.shape)), l.itemsize)
  }

  lemma GatheredAll(dst: Bytes, src: Bytes, l: Layout)
    requires l.WellFormed() && |dst| == l.Size() * l.itemsize
    requires forall k :: 0 <= k < l.Size() ==> Gathered(dst, src, l, k)
    ensures StridedInRange(l, |src|)
    ensures IsDense(dst, StridedCopy(src, l).value, l.itemsize)
  {
    forall idx | InBounds(idx, l.shape) ensures 0 <= StridedAddress(l, idx) <= |src| - l.itemsize {
      UnravelRavel(idx, l.shape);
      assert Gathered(dst, src, l, Ravel(idx, l.shape));
    }
    var es := StridedCopy(src, l).value;
    forall k | 0 <= k < |es|
      ensures 0 <= k * l.itemsize <= |dst| - l.itemsize && Block(dst, k * l.itemsize, l.itemsize) == es[k]
    {
      assert Gathered(dst, src, l, k);
    }
  }

  /** Writing block k keeps the earlier blocks and adds its own. */
  lemma GatheredStep(before: Bytes, after: Bytes, src: Bytes, l: Layout, k: nat)
    requires l.WellFormed() && k < l.Size() && |before| == |after| == l.Size() * l.itemsize
    requires InBounds(Unravel(k, l.shape), l.shape) && 0 <= k * l.itemsize <= |after| - l.itemsize
    requires 0 <= StridedAddress(l, Unravel(k, l.shape)) <= |src| - l.itemsize
    requires Block(after, k * l.itemsize, l.itemsize) == Block(src, StridedAddress(l, Unravel(k, l.shape)), l.itemsize)
    requires forall i :: 0 <= i < k * l.itemsize ==> after[i] == before[i]
    requires forall j :: 0 <= j < k ==> Gathered(before, src, l, j)
    ensures forall j :: 0 <= j <= k ==> Gathered(after, src, l, j)
  {
    hide StridedAddress, Unravel;
    forall j | 0 <= j <= k ensures Gathered(after, src, l, j) {
      if j < k {
        assert Gathered(before, src, l, j);
        MulLess(j, k, l.itemsize);
        KeptBlock(before, after, j * l.itemsize, l.itemsize, k * l.itemsize);
      }
    }
  }

  /** A block before the written range keeps its bytes. */
  lemma KeptBlock(before: Bytes, after: Bytes, at: nat, n: nat, to: nat)
    requires |before| == |after| && at + n <= to <= |before|
    requires forall i :: 0 <= i < to ==> after[i] == before[i]
    ensures Block(after, at, n) == Block(before, at, n)
  {
  }

  lemma ContiguousSpan(l: Layout, n: nat)
    requires l.WellFormed() && Fits(l, n) && n <= ISIZE_MAX && l.CContiguous() && l.Size() > 0
    ensures 0 <= l.offset && l.offset + l.Size() * l.itemsize <= n
  {
    ContiguousOff(l, n, 0);
    ContiguousOff(l, n, l.Size() - 1);
    assert (l.Size() - 1) * l.itemsize + l.itemsize == l.Size() * l.itemsize;
  }

  lemma MovedIsDense(src: Bytes, l: Layout, dst: Bytes)
    requires l.WellFormed() && Fits(l, |src|) && |src| <= ISIZE_MAX && l.CContiguous()
    requires |dst| == l.Size() * l.itemsize && 0 <= l.offset && l.offset + |dst| <= |src|
    requires forall i :: 0 <= i < |dst| ==> dst[i] == src[l.offset + i]
    ensures IsDense(dst, Consecutive(src, l), l.itemsize)
  {
    hide Fits, Layout.Off, Block, Prod, Layout.CContiguous;
    var es := Consecutive(src, l);
    forall k | 0 <= k < |es|
      ensures 0 <= k * l.itemsize <= |dst| - l.itemsize && Block(dst, k * l.itemsize, l.itemsize) == es[k]
    {
      MulLess(k, l.Size(), l.itemsize);
      ContiguousOff(l, |src|, k);
      MovedBlock(src, dst, l.offset, k * l.itemsize, l.itemsize);
    }
  }

  lemma MovedBlock(src: Bytes, dst: Bytes, offset: nat, at: nat, n: nat)
    requires offset + |dst| <= |src| && at + n <= |dst|
    requires forall i :: 0 <= i < |dst| ==> dst[i] == src[offset + i]
    ensures Block(dst, at, n) == Block(src, offset + at, n)
  {
  }

  lemma NoElements(src: Bytes, l: Layout)
    requires l.WellFormed() && Fits(l, |src|) && |src| <= ISIZE_MAX && l.CContiguous()
    requires l.Size() * l.itemsize == 0
    ensures IsDense([], Consecutive(src, l), l.itemsize)
  {
    if l.Size() > 0 { MulAtLeast(l.Size(), l.itemsize); }
  }

  /** A dense byte sequence read through the dense layout shows its blocks. */
  lemma DenseShows(bytes: Bytes, shape: Shape, itemsize: nat, es: seq<Bytes>)
    requires itemsize > 0 && |es| == Prod(shape) && |bytes| <= ISIZE_MAX && IsDense(bytes, es, itemsize)
    ensures Fits(Dense(shape, itemsize), |bytes|) && SharesOnlyByBroadcast(Dense(shape, itemsize))
    ensures Elements(bytes, Dense(shape, itemsize)) == es
  {
    var l := Dense(shape, itemsize);
    SpanSign(itemsize, Prod(shape));
    NewCFits(shape, itemsize);
    forall k | 0 <= k < |es| ensures Elements(bytes, l)[k] == es[k] {
      ContiguousOff(l, |bytes|, k);
    }
  }
}
