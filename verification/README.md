# A verified model of mohu's arrays, pool and generators

This project models the computational core of the `mohu` workspace in Dafny and proves what it is for:

- **Strided views** (`strides.rs`, `layout.rs`). A layout maps N-dimensional indices to byte offsets. Every view
  operation rewrites a layout, reads what a precomposed index reads, stays inside the allocation and, broadcasting
  aside, keeps elements apart. The odometer refines division and remainder.
- **Copy-on-write buffers** (`buffer.rs`, parts of `ops.rs`). Handles on shared, reference-counted storage, as a state
  machine over all runs (`CowHeap`, `CowSteps`) and as objects updated in place (`Buffers`). A write shows through its
  own handle, and no handle's writes reach another's contents.
- **Chunked kernels** (`ops.rs`, `buffer.rs`). The three-phase prefix scan against the serial scan, with the chunks of
  its parallel phases in any order; `sum_axis` over exact arithmetic.
- **Pool and allocation counters** (`pool.rs`, `alloc.rs`). The two-tier pool as objects and as interleaved steps of any
  number of threads, where an uninterrupted call does what the method does; the trimming loop and when it is optimal;
  the lock-free counters one atomic access at a time.
- **Generators** (`generator.rs`). The full period of the PCG step, the bijectivity of the Philox block function, and
  byte streams.

## How the model is built

Machine words are bounded naturals with wrap-around written out (`Words`). Shapes, indices and strides are sequences of
mathematical integers; the saturating multiplications of the stride loops, the overflow tests of `shape_size` and
`contiguous_nbytes`, and the 64-bit sentinel of reversed slices are modelled as they are. A layout's offset is a
mathematical integer. Code that the source writes as a loop or as an object that changes is a method or a class here,
proved against a function, and the laws are lemmas about that function. Locked sections are single steps; so is each
atomic access. The order in which a parallel loop takes its chunks is an arbitrary permutation. What the allocator
returns is a parameter. A read outside an allocation is the result `Undefined`.

Bounds `itemsize * product <= ISIZE_MAX` and `n <= ISIZE_MAX` in the lemmas are the allocation limit that `shape_size`
and the allocator enforce; they keep the saturating products exact on non-empty shapes. `Fits` says that a layout lies
inside an allocation on element boundaries, and `SharesOnlyByBroadcast` that indices with one address differ only on
zero-stride axes. Both are proved of every fresh array and kept by every view. The predicate `Allowed` asks of a slice
that its positions stay on the axis, which holds for every positive step, and nothing of any other operation.
`squeeze_axis`, which layouts have and buffers do not expose, is among the views.

## Where the code falls short of what is expected, and exactly when

The model follows the code. Where a documented or expected property fails, a lemma gives the exact condition under
which it holds.

- `copy_to_contiguous` and `sum_axis` start from an address that already includes the layout's offset and add element
  offsets that include it again. Copies are faithful for every content exactly when the layout is C-contiguous or has
  offset zero (`Materialise.CopyFaithfulExactly`), and read inside the allocation exactly when the highest element,
  moved by a second offset, ends inside it (`Materialise.CopyDefinedExactly`); `sum_axis` conserves the total exactly
  when the offset is zero or the array is empty (`SumAxes.SumAxisConservesExactly`). One or two ordinary slices of a
  fresh array reach both failures (`Witnesses`). The same pattern in `fill_raw`, `cast_copy` and `flip_axis_copy` is not
  part of this model.
- A slice with a negative step and no stop is empty, and a start at or beyond the axis length is clamped one position
  too far (`Slices.DefaultReverseIsEmpty`, `Slices.ResolveIsPython`, `Slices.StaysInsideExactly`).
- `unravel_index` panics for a shape of size zero; its documentation promises an error (`Shapes.UnravelIndex`).
- `BufferPool::acquire` promises at least the requested bytes, but `release` accepts handles of any length. A cached
  handle serves every request of its class exactly when its length is a power of two
  (`PoolState.LongEnoughExactly`, `PoolState.ShortHit`), and `trim` evicts as few handles as possible exactly when every
  bucket is sorted by length (`Trim.FewestExactly`, `Trim.MixedTrimsBadly`).
- `parallel_scan` starts every chunk from the identity argument, and no chunk is smaller than 256. It gives the serial
  scan for an associative function exactly when the function absorbs that argument after 256 values, which it does for
  every left identity (`Scan.SerialExactly`).
- Consecutive `fill_bytes` calls of the PCG engine give the bytes of one longer call at every point of its stream exactly
  when the first length is a multiple of eight or the second is zero (`Pcg.EngineSplitsExactly`). For the Philox engine
  the condition is proved sufficient (`ByteStream.FillSplitAligned`).
- `byte_range` of an empty layout is (offset, offset), not (0, 0) (`Layouts.Layout.ByteRange`), and an allocation of
  exactly 1 MiB is counted as mapped, where the table at the head of `alloc.rs` has it on the heap
  (`AllocStats.AllocCall`).
- `Buffer::reshape` marks its result writeable although the storage is shared. `set` copies first, so the other handles
  are safe all the same (`CowHeap.RunKeeps`).

## Model

| member | source | states |
|---|---|---|
| Pcg.Period | crates/mohu-random/src/generator.rs:22-29 | for every state and odd increment, n steps return to the state if and only if 2^128 divides n |
| Pcg.SeededPeriod | crates/mohu-random/src/generator.rs:43-52 | every seed starts a sequence of period exactly 2^128 |
| Pcg.GeoDivisible | crates/mohu-random/src/generator.rs:22-29 | for a multiplier that is 1 modulo 4, 2^k divides the n-term geometric sum if and only if 2^k divides n: the number theory behind the period |
| Pcg.VisitsOnce | crates/mohu-random/src/generator.rs:22-29 | within 2^128 steps every 128-bit state is visited, and at exactly one step |
| Pcg.OutputBijective | crates/mohu-random/src/generator.rs:31-40 | for a fixed odd low word the output function is a bijection of the high word |
| Pcg.Equidistributed | crates/mohu-random/src/generator.rs:31-58 | over one period every output value occurs exactly once beside every low half of the state, odd or even |
| Pcg.Pcg64.Seed | crates/mohu-random/src/generator.rs:43-52 | the constructor's state in closed form: the increment is 2 * seed + 1 and the state ((3 * seed + 1) * multiplier + 2 * seed + 1) mod 2^128, which is two steps around adding the seed |
| Pcg.Pcg64.NextU64 | crates/mohu-random/src/generator.rs:54-58 | the result is the output of the old state, and the state moves exactly one step |
| Pcg.Pcg64.Step | crates/mohu-random/src/generator.rs:22-29 | the new state is the old one times the multiplier plus the increment, modulo 2^128, written out |
| Pcg.OutputIs | crates/mohu-random/src/generator.rs:31-40 | the output function in plain division, exclusive or and multiplication, with its constants |
| Pcg.Pcg64.FillBytes | crates/mohu-random/src/generator.rs:60-72 | the destination becomes the first bytes of the little-endian output stream and ceil(n/8) outputs are consumed |
| Philox.Mul128 | crates/mohu-random/src/generator.rs:109-112 | high and low word together are the exact 128-bit product |
| Philox.RoundIs | crates/mohu-random/src/generator.rs:83-89 | a round in plain arithmetic: both wide products, and which high word is mixed with which counter and key word |
| Philox.BlockIsTenRounds | crates/mohu-random/src/generator.rs:91-107 | a block is ten rounds, and round i uses the key words k0 + i * 0x9E3779B97F4A7C15 and k1 + i * 0xBB67AE8584CCA73B modulo 2^64 |
| Philox.Philox4x64.Seed | crates/mohu-random/src/generator.rs:115-124 | the key is the seed and its product with the first bump constant, and nothing has been drawn |
| Philox.OutputWords | crates/mohu-random/src/generator.rs:126-133 | outputs 4b to 4b + 3 are the words, in order, of the block with counter b |
| Philox.RoundBijective | crates/mohu-random/src/generator.rs:83-89 | a round maps x to y if and only if the inverse round maps y to x, for every key |
| Philox.BlockBijective | crates/mohu-random/src/generator.rs:91-107 | for every key the ten rounds with key bumps are a bijection of four-word counters, with its inverse |
| Philox.BlocksRepeat | crates/mohu-random/src/generator.rs:91-107 | the i-th and j-th block of a run are equal if and only if i and j agree modulo 2^128 |
| Philox.CounterStep | crates/mohu-random/src/generator.rs:101-106 | the two-word carry advances counter n to counter n + 1, wrapping after 2^128 |
| Philox.Philox4x64.Generate | crates/mohu-random/src/generator.rs:91-107 | the buffer becomes the block of the old counter; the low counter word grows by one, the next by one exactly when the low one wraps |
| Philox.Philox4x64.NextU64 | crates/mohu-random/src/generator.rs:126-133 | the k-th call after seeding returns word k mod 4 of block k div 4 |
| Philox.Philox4x64.FillBytes | crates/mohu-random/src/generator.rs:135-146 | the destination is the byte stream from the current word on, and ceil(n/8) words are drawn |
| ByteStream.FillAt | crates/mohu-random/src/generator.rs:60-72 | byte i of a fill is byte i mod 8 of output i div 8 |
| ByteStream.FillSplitAligned | crates/mohu-random/src/generator.rs:135-146 | filling 8a and then m bytes equals filling 8a + m bytes |
| ByteStream.FillSplitExactly | crates/mohu-random/src/generator.rs:60-72 | for arbitrary output streams: two fills in a row equal one longer fill on every stream if and only if the first length is a multiple of 8 or the second is 0 |
| Pcg.EngineSplitsExactly | crates/mohu-random/src/generator.rs:60-72 | on the stream of every PCG state with an odd increment, hence of every seed: fills compose at all positions if and only if the first length is a multiple of 8 or the second is 0 |
| Pcg.UnequalBytes | crates/mohu-random/src/generator.rs:22-40 | for every odd increment and every byte position some state has an output that differs there from the first byte of the next output |
| Words.MulBothWays | crates/mohu-random/src/generator.rs:83-89 | multiplication by an odd 64-bit word is undone by its inverse word, both ways |
| Words.LeBytesRoundTrip | crates/mohu-random/src/generator.rs:60-72 | the eight little-endian bytes of a word give the word back |
| Words.LeByteAt | crates/mohu-random/src/generator.rs:60-72 | byte i of a word is the word divided by 256^i, modulo 256: the least significant comes first |
| Words.XorBit | crates/mohu-random/src/generator.rs:31-40 | each bit of an exclusive or is the sum of the two bits modulo 2 |
| Words.XorShiftRightUndo | crates/mohu-random/src/generator.rs:31-40 | xor with the word shifted right by at least 32 is its own inverse |
| Shapes.ComputeCStrides | crates/mohu-buffer/src/strides.rs:35-47 | the backward loop computes the row-major strides, saturating as the source does |
| Shapes.ComputeFStrides | crates/mohu-buffer/src/strides.rs:55-64 | the forward loop computes the column-major strides |
| Shapes.CStrideAt | crates/mohu-buffer/src/strides.rs:35-47 | each row-major stride is the bytes of everything to its right, cut off at 2^63 - 1, or zero when that is empty |
| Shapes.CStridesRavel | crates/mohu-buffer/src/strides.rs:35-47 | the row-major strides place an index at itemsize times its row-major position |
| Shapes.FStridesReverse | crates/mohu-buffer/src/strides.rs:55-64 | column-major strides are the reversed row-major strides of the reversed shape |
| Shapes.ShapeSize | crates/mohu-buffer/src/strides.rs:70-83 | the product, or an overflow error exactly when a partial product exceeds 2^63 - 1 |
| Shapes.ContiguousNbytes | crates/mohu-buffer/src/strides.rs:86-94 | product times itemsize, or an overflow error exactly when a partial product exceeds 2^63 - 1 or the bytes exceed 2^64 - 1; the item size for a scalar |
| Shapes.ComputeBroadcastStrides | crates/mohu-buffer/src/strides.rs:108-147 | succeeds if and only if the source has no more axes than the target and each of its axes equals the target's or is one; matching axes keep their stride, new and stretched ones get zero; otherwise the broadcast error |
| Shapes.BroadcastTwice | crates/mohu-buffer/src/strides.rs:108-147 | broadcasting the strides in two steps equals broadcasting directly |
| Shapes.UnravelIndex | crates/mohu-buffer/src/strides.rs:154-171 | for a position below the size, the index with that row-major position; panics exactly for representable shapes of size zero; an out-of-bounds error at or beyond a positive size; an overflow error exactly for unrepresentable shapes |
| Shapes.RavelMultiIndex | crates/mohu-buffer/src/strides.rs:176-195 | the row-major position exactly for in-bounds indices; every other index of the right length gives the out-of-bounds error that names its first bad axis |
| Shapes.RavelUnravel | crates/mohu-buffer/src/strides.rs:154-195 | ravelling an unravelled position gives the position back |
| Shapes.UnravelRavel | crates/mohu-buffer/src/strides.rs:154-195 | unravelling the position of an in-bounds index gives the index back |
| Shapes.RavelIsLexicographic | crates/mohu-buffer/src/strides.rs:176-195 | row-major positions order indices lexicographically |
| Shapes.ByteOffset | crates/mohu-buffer/src/strides.rs:203-209 | base offset plus the sum of index times stride |
| NdIter.NdIndexIter.constructor | crates/mohu-buffer/src/strides.rs:236-247 | a fresh odometer has yielded nothing and stands at position zero, or is done when a dimension is zero |
| NdIter.NdIndexIter.Advance | crates/mohu-buffer/src/strides.rs:254-273 | the carry loop moves to the row-major successor, or to zeros and done after the last index |
| NdIter.NdIndexIter.Next | crates/mohu-buffer/src/strides.rs:279-291 | the k-th call yields unravel(k), exactly product(shape) times, then nothing |
| NdIter.CarryIsSuccessor | crates/mohu-buffer/src/strides.rs:254-273 | carrying out of a full tail is one step of row-major position |
| NdIter.AllIndices | crates/mohu-buffer/src/strides.rs:232-297 | collecting the iterator gives every index once, in strictly increasing lexicographic order |
| NdIter.StridedByteIter.Next | crates/mohu-buffer/src/strides.rs:326-333 | the k-th result is the byte offset of unravel(k) |
| Slices.PositiveStepSelects | crates/mohu-buffer/src/layout.rs:59-111 | for a positive step and any start and stop, the resolved positions are exactly start, start + step, ... below the clamped stop, all on the axis |
| Slices.ResolveIsPython | crates/mohu-buffer/src/layout.rs:59-111 | for every argument: resolve selects the positions that Python selects if and only if the step is positive or the stated condition on start and stop holds |
| Slices.DefaultReverseIsEmpty | crates/mohu-buffer/src/layout.rs:75-107 | a negative step without bounds selects nothing on every non-empty axis, where Python reverses it |
| Slices.StaysInsideExactly | crates/mohu-buffer/src/layout.rs:59-111 | the resolved positions stay on the axis if and only if a test on step, start and stop holds |
| Slices.ComposedResolves | crates/mohu-buffer/src/layout.rs:59-111 | two positive-step slices of one axis, empty ones included, are one slice: same count, multiplied step, and each position is the first slice's at the second slice's |
| Layouts.Layout.Permute | crates/mohu-buffer/src/layout.rs:290-323 | succeeds exactly on permutations of the axes (the seen array), with shape and strides picked; each error has its cause |
| Layouts.PermuteInverse | crates/mohu-buffer/src/layout.rs:290-323 | permuting by the inverse permutation restores the layout |
| Layouts.TransposeInvolution | crates/mohu-buffer/src/layout.rs:329-336 | transposing twice restores the layout |
| Layouts.Layout.ExpandDims | crates/mohu-buffer/src/layout.rs:341-368 | the push loop inserts an axis of length one, or an error beyond the last position |
| Layouts.FIsTransposedC | crates/mohu-buffer/src/layout.rs:139-148 | the column-major layout is the transposed row-major layout of the reversed shape |
| Layouts.Layout.CheckedOff | crates/mohu-buffer/src/layout.rs:507-524 | the offset plus the stride sum exactly for in-bounds indices; otherwise the length error, or the out-of-bounds error that names the first bad axis |
| Layouts.BroadcastTwoSteps | crates/mohu-buffer/src/layout.rs:492-500 | whenever both steps succeed, broadcasting in two steps gives the identical layout |
| Layouts.SliceTwice | crates/mohu-buffer/src/layout.rs:457-486 | slicing twice with positive steps is slicing once with the composed argument: identical layouts when not empty, and when empty layouts that differ at most in an offset no element uses |
| Layouts.FlipTwice | crates/mohu-buffer/src/buffer.rs:1177-1216 | when both flips succeed the second restores the layout |
| Layouts.Layout.ByteRange | crates/mohu-buffer/src/layout.rs:543-561 | the loop ends at the offsets of the lowest and the highest element |
| Layouts.ByteRangeTight | crates/mohu-buffer/src/layout.rs:543-561 | every element offset lies in the range and both ends are element offsets, for mixed-sign strides |
| Layouts.OverlapsWith | crates/mohu-buffer/src/layout.rs:569-578 | false implies that no elements of the two views share a byte; true if and only if each view has an element that starts before an element of the other ends |
| Layouts.NewCustom | crates/mohu-buffer/src/layout.rs:155-178 | succeeds exactly for equally long shape and strides, a positive item size and strides that are multiples of it on axes longer than one; an error names such an axis |
| ViewResults.ViewIs | crates/mohu-buffer/src/layout.rs:341-500 | a chain's operations are the layout's own, so the results below are those of chains and of the copy-on-write machine |
| ViewResults.AllowedExactly | crates/mohu-buffer/src/layout.rs:75-107 | the only slices that leave their axis go backwards from a start at or past its end to a stop before that end |
| ViewResults.PermuteIs | crates/mohu-buffer/src/layout.rs:290-323 | permuting succeeds if and only if as many axes are given as there are and every axis is named; each axis keeps its stride |
| ViewResults.EveryAxisNamed | crates/mohu-buffer/src/layout.rs:290-323 | naming every one of n axes with n entries is the same as n distinct entries below n |
| ViewResults.TransposeIs | crates/mohu-buffer/src/layout.rs:329-336 | transposing always succeeds and reverses lengths and strides |
| ViewResults.ExpandDimsIs | crates/mohu-buffer/src/layout.rs:341-368 | the layout with one more axis of length one, exactly for positions up to the number of axes |
| ViewResults.SqueezeIs | crates/mohu-buffer/src/layout.rs:373-387 | no axis of length one is left, taking any of them out first changes nothing, and without one the layout stays as it is |
| ViewResults.SqueezeAxisIs | crates/mohu-buffer/src/layout.rs:392-425 | one axis of length one is taken out; each failure has its error |
| ViewResults.ContiguousExactly | crates/mohu-buffer/src/layout.rs:263-269 | C-contiguous means empty, or every stride the cut-off bytes of everything to its right |
| ViewResults.ReshapeIs | crates/mohu-buffer/src/layout.rs:431-451 | reshaping succeeds if and only if the layout is C-contiguous and the products agree, each failure with its error; the new strides are row-major |
| ViewResults.SliceIs | crates/mohu-buffer/src/layout.rs:457-486 | slicing fails only beyond the axes and for a step of zero; one length, one stride and the offset change |
| ViewResults.WholeAxis | crates/mohu-buffer/src/layout.rs:59-111 | without start, stop and step a slice is the whole axis |
| ViewResults.BroadcastIs | crates/mohu-buffer/src/layout.rs:492-500 | broadcasting succeeds if and only if each trailing source axis equals the target's or is one; new and stretched axes get stride zero |
| ViewResults.FlipIs | crates/mohu-buffer/src/buffer.rs:1177-1216 | flipping succeeds if and only if the axis exists, the new offset is not negative and the strides are valid; one stride is negated |
| ViewResults.DiagonalIs | crates/mohu-buffer/src/buffer.rs:1126-1171 | the k-th diagonal exists if and only if its first element does and its strides are valid; its length is what is left of the rows or of the columns; with fewer than two axes it is an error (`DiagonalNeedsTwo`) |
| Views.ViewReads | crates/mohu-buffer/src/layout.rs:290-500 | every view shows at each index the element that its source shows at the mapped index: all ten operations |
| Coverage.ViewCoversExactly | crates/mohu-buffer/src/layout.rs:290-500 | a view shows a source element if and only if the operation means it: a slice exactly its positions, a diagonal exactly column minus row equal to k, every other view all elements |
| Views.PermuteReads | crates/mohu-buffer/src/layout.rs:290-323 | the permuted layout at j has the offset of the original at j picked by the inverse permutation |
| Views.BroadcastReads | crates/mohu-buffer/src/layout.rs:492-500 | broadcasting reads the element at the projected index: leading axes dropped, length-one axes set to zero |
| Views.ReshapeReads | crates/mohu-buffer/src/layout.rs:431-451 | reshaping reads the element with the same row-major position |
| Views.SliceReads | crates/mohu-buffer/src/layout.rs:457-486 | slicing reads start plus step times the coordinate |
| Views.FlipReads | crates/mohu-buffer/src/buffer.rs:1177-1216 | flipping reads length minus one minus the coordinate |
| Views.DiagonalReads | crates/mohu-buffer/src/buffer.rs:1126-1171 | the diagonal reads row and column start plus the coordinate, batch axes kept |
| Reachability.ViewKeeps | crates/mohu-buffer/src/layout.rs:290-500 | each view keeps bounds and alignment, keeps sharing to zero-stride axes, and keeps injectivity unless it broadcasts |
| Reachability.Reachable | crates/mohu-buffer/src/layout.rs:139-500 | any chain of views of a fresh array stays inside the allocation on element boundaries; without broadcasting distinct indices are distinct elements |
| Reachability.ChainSnoc | crates/mohu-buffer/src/layout.rs:290-500 | a chain is one view after the other in order, each of the layout reached so far, and is allowed exactly when each of them is |
| Reachability.DisjointBlocks | crates/mohu-buffer/src/layout.rs:507-524 | elements at different offsets occupy disjoint byte blocks |
| Reachability.InjectiveExactly | crates/mohu-buffer/src/layout.rs:492-500 | a non-empty reachable layout is injective if and only if no axis longer than one has stride zero |
| Reachability.FlipRestores | crates/mohu-buffer/src/buffer.rs:1177-1216 | flipping an axis of any non-empty reachable layout succeeds and flipping again restores it |
| Reachability.SliceFitsExactly | crates/mohu-buffer/src/layout.rs:457-486 | a slice of a fresh one-axis array stays inside the allocation if and only if its positions stay on the axis |
| Materialise.FastPathAgrees | crates/mohu-buffer/src/buffer.rs:911-933 | the contiguous fast path and element-wise indexing give the same sequence |
| Materialise.ElementsAt | crates/mohu-buffer/src/buffer.rs:722-733 | element k of the materialised sequence is what `get` shows at the index with row-major position k |
| Materialise.ReshapeKeepsElements | crates/mohu-buffer/src/layout.rs:431-451 | reshaping keeps the row-major sequence of elements |
| Materialise.CopyFaithfulExactly | crates/mohu-buffer/src/ops.rs:146-193 | copying out shows the original for every content if and only if the layout is C-contiguous or has offset zero |
| Materialise.StridedInsideExactly | crates/mohu-buffer/src/ops.rs:177-191 | the strided loop of a non-empty fitting layout reads inside the allocation if and only if its highest element, moved by a second offset, does |
| Materialise.CopyDefinedExactly | crates/mohu-buffer/src/ops.rs:146-193 | copying out is defined if and only if the layout is C-contiguous or its highest element, moved by a second offset, ends inside the allocation |
| Materialise.CopiedBytes | crates/mohu-buffer/src/ops.rs:146-193 | which byte of the source every byte of a copied element is, on either path, and exactly when a read leaves the allocation |
| Materialise.StoredBytes | crates/mohu-buffer/src/buffer.rs:736-752 | a write puts the value's bytes, in order, at the element's address and leaves every other byte |
| Witnesses.ColumnReached | crates/mohu-buffer/src/layout.rs:457-486 | slicing fresh arrays of two columns reaches the second column of two rows, from two rows and from four |
| Witnesses.CopyReadsOutside | crates/mohu-buffer/src/ops.rs:177-191 | copying that column of the two-row array reads outside its allocation |
| Witnesses.CopyReadsElsewhere | crates/mohu-buffer/src/ops.rs:177-191 | copying that column of the four-row array reads inside the allocation, and for some content not what the column shows |
| Materialise.PackRoundTrip | crates/mohu-buffer/src/buffer.rs:785-789 | elements packed densely and read through the row-major layout come back unchanged |
| Materialise.StoreChanges | crates/mohu-buffer/src/buffer.rs:736-752 | a write changes exactly the elements at the written address |
| Materialise.WritesAloneExactly | crates/mohu-buffer/src/buffer.rs:736-752 | a write changes one element only, for every content and index, if and only if no axis longer than one has stride zero |
| CowHeap.StepKeeps | crates/mohu-buffer/src/buffer.rs:736-891 | every command keeps exact reference counts and sound handles, and leaves every other handle undisturbed |
| CowHeap.StepUndefinedExactly | crates/mohu-buffer/src/buffer.rs:736-789 | a step is undefined if and only if it copies a shared, allocatable handle whose highest element, moved by a second offset, ends outside the allocation |
| CowHeap.RunKeeps | crates/mohu-buffer/src/buffer.rs:736-965 | over any defined run, a handle that no command targets shows the same elements at the end, and every count is the number of live handles |
| CowHeap.RunDefinedExactly | crates/mohu-buffer/src/buffer.rs:736-965 | a run is defined if and only if no command comes to a heap where it names no live handle, slices off an axis, or makes that outside copy |
| CowHeap.RunFromEmpty | crates/mohu-buffer/src/buffer.rs:281-310 | every heap reached from nothing has as count of each storage the number of handles on it, at least one, and every handle inside its storage |
| CowHeap.UniquelyShowsSame | crates/mohu-buffer/src/buffer.rs:772-781 | making a handle unique keeps what it shows, when it is alone or copies faithfully |
| CowHeap.SetShows | crates/mohu-buffer/src/buffer.rs:736-752 | after a write the written index shows the value, and any other index its old value unless a sole owner shows both at one address |
| CowSteps.SetStep | crates/mohu-buffer/src/buffer.rs:736-752 | `set` on a writeable, faithfully copied handle: the element at the index is the value, every other one keeps its value unless a sole owner shows both at one address; afterwards the handle is alone and writeable |
| CowSteps.SetFails | crates/mohu-buffer/src/buffer.rs:736-752 | a read-only handle, a value of another size or a shape that cannot be copied leaves the heap as it is; a bad index leaves what making unique leaves |
| CowSteps.RunSet | crates/mohu-buffer/src/buffer.rs:736-752 | after any run that ends with such a `set` its handle shows the value |
| CowSteps.RunSnoc | crates/mohu-buffer/src/buffer.rs:736-965 | a run is one command after the other in order; the last one acts on the heap reached before it |
| CowSteps.MakeUniqueStep | crates/mohu-buffer/src/buffer.rs:772-781 | the handle has count one, is writeable and shows what it showed; or nothing changes when it cannot be allocated |
| CowSteps.ShareStep | crates/mohu-buffer/src/buffer.rs:760-767 | exactly one more handle, read-only, on the same storage, with the same contents; the count grows by one |
| CowSteps.DeriveStep | crates/mohu-buffer/src/buffer.rs:807-891 | exactly one more handle on the same storage that shows at each index what the source shows at the source index, writeable for a reshape and as the source for added or squeezed axes; nothing for a view that does not exist |
| CowSteps.DropStep | crates/mohu-buffer/src/buffer.rs:270-276 | exactly that handle goes; its storage loses one reference, or goes with the last one |
| CowSteps.NewStep | crates/mohu-buffer/src/buffer.rs:281-310 | one more writeable handle, alone on the given bytes, whose elements are their blocks in row-major or column-major order |
| CowSteps.AllocatableExactly | crates/mohu-buffer/src/buffer.rs:281-295 | a non-empty array can be allocated if and only if its bytes fit in `isize`; the exact condition for empty ones |
| Buffers.Buffer.Get | crates/mohu-buffer/src/buffer.rs:722-733 | the element, byte by byte from offset plus stride sum, exactly for in-bounds indices of the right type; errors otherwise |
| Buffers.Buffer.ToVec | crates/mohu-buffer/src/buffer.rs:911-933 | the row-major sequence of shown elements, by either path |
| Buffers.Buffer.ToContiguous | crates/mohu-buffer/src/buffer.rs:785-789 | succeeds exactly for an allocatable shape whose copy stays inside the allocation, by a test on layout and length; each failure has its cause; the result shows what the copy read, which is the original for C-contiguous layouts and for offset zero |
| Buffers.Buffer.GatherInto | crates/mohu-buffer/src/ops.rs:177-191 | the strided loop copies the elements it addresses into consecutive blocks, or reports the first read outside the allocation |
| Buffers.Buffer.Share | crates/mohu-buffer/src/buffer.rs:760-767 | a read-only handle on the same storage, count one higher, all handles still sound |
| Buffers.Buffer.Derive | crates/mohu-buffer/src/buffer.rs:807-891 | a view is another handle on the same storage with the rewritten layout, writeable for a reshape and as the source for added or squeezed axes |
| Buffers.Buffer.MakeUnique | crates/mohu-buffer/src/buffer.rs:772-781 | succeeds exactly when alone or copyable by the same test, each failure with its cause and nothing changed; afterwards alone and writeable, showing what it showed when alone, C-contiguous or without offset |
| Buffers.Buffer.AsMutSlice | crates/mohu-buffer/src/buffer.rs:698-717 | the checks in order; on success the handle is alone and shows exactly what it showed, in consecutive blocks |
| Buffers.Buffer.Set | crates/mohu-buffer/src/buffer.rs:736-752 | success exactly when type, flag, copy test and bounds allow it; the stored bytes; the error and the whole state of every failing case, with the copy already made when only the index is bad; no other live handle's bytes change |
| Buffers.Buffer.SetWriteable | crates/mohu-buffer/src/buffer.rs:792-802 | refused exactly when turning on a shared handle |
| Buffers.Buffer.Drop | crates/mohu-buffer/src/buffer.rs:270-276 | the count falls by one and the remaining handles stay sound |
| Scan.SerialExactly | crates/mohu-buffer/src/ops.rs:461-502 | for an associative function: every call, whatever its input and number of threads, gives the serial scan if and only if the function absorbs the identity argument after 256 values, the smallest chunk; every left identity is absorbed |
| Scan.SerialAtExactly | crates/mohu-buffer/src/ops.rs:461-502 | for each chunk size: chunks of that size give the serial scan on every input if and only if the identity argument is absorbed after that many values |
| Scan.ChunkSizeIs | crates/mohu-buffer/src/ops.rs:461-464 | the chunk size is the least power of two at or above both 256 and the length divided by the number of threads |
| Scan.WrongIdentity | crates/mohu-buffer/src/ops.rs:461-502 | started from 1 the scan of a sum is not the serial scan |
| Scan.ChunkedIsSerial | crates/mohu-buffer/src/ops.rs:461-502 | the three phases give the serial fold at every position, for every chunk size after which the identity argument is absorbed |
| Scan.ParallelScan | crates/mohu-buffer/src/ops.rs:461-502 | on arrays, with the chunks of phases one and three in any order: each cell is the chunked value, hence the serial fold |
| Scan.LocalScans | crates/mohu-buffer/src/ops.rs:467-482 | phase one in any chunk order: local folds and chunk totals |
| Scan.CarryTotals | crates/mohu-buffer/src/ops.rs:484-487 | phase two turns totals into carries |
| Scan.AddCarries | crates/mohu-buffer/src/ops.rs:489-500 | phase three in any chunk order adds to each chunk the carry of the one before |
| SumAxes.SumAxis | crates/mohu-buffer/src/buffer.rs:1427-1477 | for an array in a given allocation: succeeds exactly for a valid axis, an allocatable output and reads inside the allocation, by a test on layout and length, with each failure's cause; the output elements, and their sum as the total of what was read |
| SumAxes.SumAxisTotal | crates/mohu-buffer/src/buffer.rs:1427-1477 | for every shape, axis and keepdims the sum of the output sequence is the total of what was read |
| SumAxes.OutValueAt | crates/mohu-buffer/src/buffer.rs:1427-1477 | each output element is the sum, over the axis, of what lies at the addresses moved by a second offset |
| SumAxes.SumAxisConservesExactly | crates/mohu-buffer/src/buffer.rs:1427-1477 | the sum of the output sequence is the array's total for every content if and only if the offset is zero or the array is empty |
| Witnesses.SumReadsElsewhere | crates/mohu-buffer/src/buffer.rs:1427-1477 | summing the second column reads outside the two-row array, and in the four-row array loses the total |
| SumAxes.SumTwice | crates/mohu-buffer/src/buffer.rs:1427-1477 | two calls in a row, the second on the dense output of the first: when they are defined and what they return |
| SumAxes.SumAxisOrders | crates/mohu-buffer/src/buffer.rs:1427-1477 | summing two axes by two calls returns one shape and the same sequence in either order, with the axes kept or removed |
| Reductions.SumAlongConserves | crates/mohu-buffer/src/buffer.rs:1427-1477 | summing any axis away keeps the total |
| Reductions.SumKeptConserves | crates/mohu-buffer/src/buffer.rs:1427-1477 | the same with the axis kept at length one |
| Reductions.SumsCommute | crates/mohu-buffer/src/buffer.rs:1427-1477 | the element-wise law behind it for removed axes |
| Reductions.KeptSumsCommute | crates/mohu-buffer/src/buffer.rs:1427-1477 | the same for axes kept at length one |
| Reductions.FlatIsTotal | crates/mohu-buffer/src/strides.rs:232-297 | summing over the odometer's positions visits every index once |
| PoolState.ClassIsLeast | crates/mohu-buffer/src/pool.rs:82-87 | the class is the least power of two at or above the request |
| PoolState.OwnClass | crates/mohu-buffer/src/pool.rs:82-87 | the lengths that are their own class are exactly the powers of two, and a class is its own class |
| PoolState.PutKeeps | crates/mohu-buffer/src/pool.rs:104-107 | pushing keeps the accounting and adds exactly the pushed handle and its bytes |
| PoolState.PopKeeps | crates/mohu-buffer/src/pool.rs:109-113 | popping keeps the accounting, lowers the bytes, and takes exactly the top handle out |
| PoolState.WarmKeeps | crates/mohu-buffer/src/pool.rs:350-378 | the locked part of warm keeps accounting and cap, and each prepared handle is either cached or dropped |
| PoolState.LongEnoughExactly | crates/mohu-buffer/src/pool.rs:206-247 | a cached handle is long enough for every request of its class if and only if its length is a power of two |
| PoolState.HitsLongEnoughExactly | crates/mohu-buffer/src/pool.rs:206-224 | every request served from the cache gets enough bytes if and only if each bucket's top handle has a power-of-two length |
| PoolState.ShortHit | crates/mohu-buffer/src/pool.rs:227-247 | a released three-byte handle answers a four-byte request |
| Pool.BufferPool.Acquire | crates/mohu-buffer/src/pool.rs:206-224 | a hit pops the class's last handle, a miss counts and allocates the class; accounting and cap kept |
| Pool.BufferPool.Release | crates/mohu-buffer/src/pool.rs:227-247 | empty handles vanish, handles beyond the cap are dropped, others are cached under their class; accounting and cap kept |
| Pool.BufferPool.FastAcquire | crates/mohu-buffer/src/pool.rs:255-284 | thread cache first, then the pool, then the allocator; the handle has the request's class; both tiers stay sound |
| Pool.BufferPool.FastRelease | crates/mohu-buffer/src/pool.rs:289-321 | the thread cache when it accepts, otherwise the pool; both tiers stay sound |
| Pool.BufferPool.DrainThreadLocal | crates/mohu-buffer/src/pool.rs:327-337 | the thread cache becomes empty and its handles are released in slot order |
| Pool.BufferPool.WarmBucket | crates/mohu-buffer/src/pool.rs:361-373 | the loop caches handles until the cap is reached |
| Pool.BufferPool.LargestNonEmpty | crates/mohu-buffer/src/pool.rs:390-396 | the largest class that holds a handle, or none when there is none |
| Pool.BufferPool.Trim | crates/mohu-buffer/src/pool.rs:386-408 | terminates with at most the target cached, having evicted the shortest sufficient prefix of the eviction order |
| Pool.BufferPool.Clear | crates/mohu-buffer/src/pool.rs:472-476 | nothing cached, counters kept |
| Pool.ThreadCache.Take | crates/mohu-buffer/src/pool.rs:262-280 | the first slot of the class is swap-removed with exact statistics, or a miss is counted |
| Pool.ThreadCache.Offer | crates/mohu-buffer/src/pool.rs:299-317 | accepted exactly below both limits |
| ThreadCaches.TakeKeeps | crates/mohu-buffer/src/pool.rs:262-280 | taking keeps both limits and exact bytes and removes exactly the found handle, which has the request's class |
| ThreadCaches.OfferKeeps | crates/mohu-buffer/src/pool.rs:299-317 | offering keeps both limits and exact bytes and adds exactly the accepted handle |
| ThreadCaches.FoundLongEnoughExactly | crates/mohu-buffer/src/pool.rs:255-284 | every request served from the thread cache gets enough bytes if and only if the first slot of each class holds a power-of-two length |
| Trim.TrimEvictsPrefix | crates/mohu-buffer/src/pool.rs:386-408 | trimming meets every target, evicts a prefix of the order, and no shorter prefix would do |
| Trim.FewestExactly | crates/mohu-buffer/src/pool.rs:386-408 | no choice of fewer handles reaches any target if and only if every bucket holds its handles in non-decreasing length from bottom to top |
| Trim.OrderDescendsExactly | crates/mohu-buffer/src/pool.rs:386-408 | the eviction order is descending in length if and only if every bucket is sorted: the classes keep buckets apart |
| Trim.PowersTrimBest | crates/mohu-buffer/src/pool.rs:380-408 | a pool of power-of-two handles is always trimmed with the fewest evictions |
| Trim.MixedTrimsBadly | crates/mohu-buffer/src/pool.rs:386-408 | eight and five bytes in one class: trimming to five bytes evicts two handles, although evicting the eight alone leaves five |
| PoolRuns.StepKeeps | crates/mohu-buffer/src/pool.rs:206-476 | every action of every thread keeps accounting, caps, exact thread caches and the one place of every handle |
| PoolRuns.RunKeeps | crates/mohu-buffer/src/pool.rs:206-476 | over any interleaving and any released lengths: cached bytes are the sum of cached lengths and at most the cap, thread caches are exact and within both limits, each issued handle is at exactly one place |
| PoolRuns.OnePlace | crates/mohu-buffer/src/pool.rs:206-476 | a held handle is not freed, not in any bucket and not in any thread |
| PoolRuns.RunServes | crates/mohu-buffer/src/pool.rs:206-284 | in every run that releases only power-of-two lengths, every request gets at least the bytes it asked for |
| PoolRuns.ServesFromStart | crates/mohu-buffer/src/pool.rs:206-476 | the same from the initial state for any cap and number of threads, where trimming is then always optimal |
| PoolSteps.PossibleExactly | crates/mohu-buffer/src/pool.rs:206-476 | which actions are possible: a call between calls, a step during one, and giving back only what is held |
| PoolSteps.GlobalEffect | crates/mohu-buffer/src/pool.rs:206-224 | the locked search serves the class's last handle and counts a hit, or counts a miss and sends the thread to the allocator; nothing else changes |
| PoolSteps.LetGoEffect | crates/mohu-buffer/src/pool.rs:227-247 | a handle is cached on top of its class if and only if the cached bytes plus its length are at most the cap; otherwise, or when empty, it is freed |
| PoolSteps.FastAcquireEffect | crates/mohu-buffer/src/pool.rs:255-284 | the thread's cache serves the first slot of the class, up to 4 MiB; otherwise the thread turns to the pool |
| PoolSteps.FastReleaseEffect | crates/mohu-buffer/src/pool.rs:289-321 | the thread's cache takes a handle if and only if fewer than 32 slots and at most 4 MiB result; otherwise the thread turns to the pool |
| PoolSteps.RunLimits | crates/mohu-buffer/src/pool.rs:206-476 | after any run: the pool's bytes are the cached lengths and within the cap, each thread caches at most 32 handles and 4194304 bytes |
| PoolSteps.RunSnoc | crates/mohu-buffer/src/pool.rs:206-476 | a run is one action after the other in order, each possible where it is taken |
| PoolCalls.FastAcquireCall | crates/mohu-buffer/src/pool.rs:255-284 | a `fast_acquire` that no other thread interrupts ends, after at most three steps, with the pool, the thread cache and the handle of the method; nothing else has changed but what was issued and granted |
| PoolCalls.AcquireCall | crates/mohu-buffer/src/pool.rs:206-224 | the same for `acquire` |
| PoolCalls.FastReleaseCall | crates/mohu-buffer/src/pool.rs:289-321 | an uninterrupted `fast_release` ends with the pool and the thread cache of the method, and the handle is freed if and only if neither keeps it |
| PoolCalls.DrainCall | crates/mohu-buffer/src/pool.rs:327-337 | uninterrupted draining of n slots takes n + 2 steps and releases the handles in slot order, as the method does |
| PoolCalls.WarmCall | crates/mohu-buffer/src/pool.rs:350-378 | uninterrupted warming issues count new handles of the class, caches them up to the cap as the method does, and frees the rest |
| AllocStats.ActExact | crates/mohu-buffer/src/alloc.rs:90-128 | each atomic access keeps every counter equal to its exact value plus what unfinished operations owe |
| AllocStats.ActPeak | crates/mohu-buffer/src/alloc.rs:90-104 | each access, spurious failures included, keeps PEAK at most the largest LIVE so far, with some thread still to raise it when below; PEAK never falls |
| AllocStats.AllocCall | crates/mohu-buffer/src/alloc.rs:90-114 | a whole `record_alloc` by one thread: LIVE, PEAK and count, and HEAP for a length below 1048576 or MMAP from 1048576 on |
| AllocStats.FreeCall | crates/mohu-buffer/src/alloc.rs:116-128 | a whole `record_free` takes the same back and leaves PEAK |
| AllocStats.CompareExchange | crates/mohu-buffer/src/alloc.rs:93-103 | the compare-exchange raises PEAK only from the value seen; a failed one, spurious or not, only reads again |
| AllocStats.LargestAttained | crates/mohu-buffer/src/alloc.rs:90-104 | the largest LIVE is a value LIVE had and at least every other |
| AllocStats.ExecutionGrows | crates/mohu-buffer/src/alloc.rs:90-128 | executions start with all counters at zero and go on by every possible action and by nothing else |
| AllocStats.Monotone | crates/mohu-buffer/src/alloc.rs:90-128 | over any interleaving PEAK never decreases and no live counter is negative |
| AllocStats.Quiescence | crates/mohu-buffer/src/alloc.rs:90-128 | when all threads are idle: PEAK is the largest value LIVE ever had, HEAP is the sum of the live lengths below 1048576, MMAP the sum of those from 1048576 on, LIVE the sum of both, and allocations minus frees the number of live handles |
| AllocStats.NeverNegative | crates/mohu-buffer/src/alloc.rs:687-710 | LIVE and both strategy counters are never negative |

## Left out

- Layout.Off: offsets are mathematical integers, so the wrap-around of `usize` and `isize` offsets of empty views and of element counts beyond the allocation limit is not modelled.
- Dimensions are taken below 2^63 and `i64` arithmetic in `resolve` does not overflow; slices with the minimal `i64` step are not distinguished.
- Slices.ResolveIsPython: assumes an axis length of at most ISIZE_MAX, the largest that an allocated array can have.
- SumAxes.SumAxis: elements are exact integers decoded by address, so rounding of the `f64` accumulator is not modelled.
- Buffers.Buffer.Get: the element type is a code with a size; conversion between bytes and typed values is not modelled.
- Buffers.Buffer.ToContiguous: allocation fails only beyond the size limit; running out of memory is not modelled there.
- Buffers.Buffer.Drop: removes a handle; giving the bytes of the last one back to the allocator is part of the counters only.
- Buffers.Buffer.AsMutSlice: gives the start and length of the slice; what the borrower writes through it is not modelled.
- `copy_to_contiguous` is modelled as `to_contiguous` uses it, with a fresh dense destination; any other destination is not.
- ByteStream.FillSplitExactly: that a misaligned split fails is proved for arbitrary streams and for every PCG engine, not for the Philox stream, whose blocks are known here only to be distinct.
- Scan.ParallelScan: starts from two arrays of one length; the type, contiguity and writeable checks of the wrapper are not modelled.
- The Rayon scheduler is an arbitrary order of whole chunks; interleaving inside two chunks, which touch different cells, is not modelled.
- Pool.BufferPool.WarmBucket: the allocations before the lock and the loop over sizes appear only in the interleaving model, one size per action.
- Pool.BufferPool.Acquire: sizes above 2^63, for which rounding up to a power of two overflows, are not modelled.
- PoolRuns.RunKeeps: one pool; a thread cache that serves several pools is not modelled, nor are poison fills and memory advice.
- AllocStats.ActPeak: atomics are single steps in one global order; reordering of relaxed accesses to different counters is not modelled, nor is termination of the weak compare-exchange loop under endless spurious failure.
- `check_no_overlap` is never reached from a layout constructor; reachability and injectivity are proved instead.
- Buffer constructors from data, `eye`, `diag`, `tril`, `triu`, `fill_diagonal`, fill, cast, gather, scatter, `flip_axis_copy` and the element-wise kernels would add easy members or need floating-point rounding.
- Type tables, promotion, DLPack and Arrow exchange, memory mapping, prefetching and SIMD code, error formatting and tracing are not modelled.
- The statistical quality of the generators is not modelled beyond period and equidistribution.
