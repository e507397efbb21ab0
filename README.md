# substrate: buffers, memory blocks and spans in Dafny

substrate is a small, allocation-free C toolkit of fat-pointer value types.
They describe memory the caller owns. This project models its three parts:

- **Memory blocks** (`struct SbMemory`, `sbMemoryValid`): an address and a
  length. The block is valid when the pointer to it, its base address and its
  length are all non-zero.
- **Buffers** (`struct SbBuffer`, `sbBufferValid`, `sbBufferCapacity`,
  `sbBufferIndex`): an address, a length and a stride. The model gives the
  validity checks, the capacity in whole elements and the address of the
  `index`-th element.
- **Spans** (`SbSpan`, `sbCreateSpan`, `sbSliceSpan`, `sbCopySpan`): an
  address and a length. `sbCreateSpan` turns a null pointer into an empty
  span. `sbSliceSpan` carves a clamped sub-span. `sbCopySpan` is the
  all-or-nothing copy that stays correct when the two spans overlap.

How the model represents the C world:

- `size_t`, `uintptr_t` and `intptr_t` are 64-bit values (`Platform.Size`,
  `Platform.Address`).
- Unsigned wrap-around is written out as `Platform.Wrap`.
- Address 0 is the null pointer.
- A pointer to a struct that may be null is an `Option`.
- For the copy, memory is one `array<Byte>` indexed by address. Address 0
  never lies inside a non-empty span.
- The buffer and slice lemmas assume that a block's bytes and the address
  one past them lie below 2^64 (`Platform.InAddressSpace`), as C guarantees
  for every object. Without it the address arithmetic could wrap to NULL.
- `SpanCopy.Move` moves the bytes one at a time. When the destination starts
  above the origin, it copies from the last byte down to the first. Otherwise
  it copies from the first byte up to the last. Its loops are proved to
  perform `SpanCopy.DescendingCopy` and `SpanCopy.AscendingCopy`. Lemmas prove
  that each of these orders equals `SpanCopy.Moved`, the copy through a
  temporary (memmove semantics), in the cases where the rule picks it. Two
  counterexamples show that the other order corrupts an overlapping copy.

Files: `platform.dfy` (module `Platform`), `memory.dfy` (`MemoryBlocks`),
`buffer.dfy` (`Buffers`), `span.dfy` (`Spans`), `span_copy.dfy`
(`SpanCopy`).

Where the documentation and the code or tests disagree, the model follows
the code, and where there is no code it follows the tests:

- include/buffer.h:48-49 says the capacity equals the length in bytes.
  src/buffer.c:30 returns `length / stride`, and the model does the same.
- include/substrate/memory/span.h:68 declares `SbSubSpan(parent, len, offset)`.
  tests/test_span.c:234 calls `sbSliceSpan(span, offset, len)`.
  `Spans.Slice` takes the tests' argument order.
- include/substrate/memory/span.h:50-53 says the origin is copied in full or
  not at all. tests/test_span.c:59-91 make a copy to or from an empty or null
  span succeed while copying nothing, even when the origin holds bytes.
  `SpanCopy.Succeeds` follows the tests. A copy is refused only between two
  non-empty spans whose origin is longer (tests/test_span.c:193-227).
- The self-copy test (tests/test_span.c:138) sizes its span with
  `sizeof(origin)`. That is the size of the span struct, not of the 7-byte
  array. `SpanCopy.SelfCopyIsIdentity` states the intended property: copying
  any accessible span onto itself.

## Model

| member | source | states |
|---|---|---|
| MemoryBlocks.Valid | src/memory.c:3-18 | a memory block is valid exactly when the pointer is non-null, the base is non-null and the length is non-zero; each of the three failures makes it invalid on its own |
| Buffers.Valid | src/buffer.c:3-22 | a buffer is valid exactly when the pointer and base are non-null, length and stride are non-zero and stride is at most the length (stride equal to length is accepted) |
| Buffers.ValidBufferHasValidMemory | src/buffer.c:3-22 | a valid buffer's bytes form a valid memory block; with a stride in (0, length] the converse holds too |
| Buffers.Capacity | src/buffer.c:24-31 | 0 for an invalid or null buffer; otherwise the floor of length / stride, characterised as `r*stride <= length < (r+1)*stride`, and at least 1 |
| Buffers.Index | src/buffer.c:33-44 | NULL for an invalid or null buffer whatever the index; on a valid buffer whose bytes lie in the address space, NULL exactly when the 64-bit product `index*stride` is not below the length, and a non-NULL result lies in `[base, base+length)` |
| Buffers.IndexWithoutOverflow | src/buffer.c:39-43 | without overflow, the result is `base + index*stride` when `index*stride < length` and NULL otherwise |
| Buffers.IndexBelowCapacity | src/buffer.c:24-43 | on a buffer inside the address space, every index below the capacity yields `base + index*stride`, which is non-NULL, and the whole element fits inside the buffer |
| Buffers.IndexPastCapacity | src/buffer.c:24-43 | on a buffer inside the address space, when the stride does not divide the length, the index equal to the capacity is still accepted, and its element runs past the buffer's end |
| Buffers.IndexAcceptedIffBelowCapacity | src/buffer.c:24-43 | when the stride divides the length and `index*stride` does not overflow, an index is accepted exactly when it is below the capacity |
| Buffers.CapacityGapExample | src/buffer.c:24-43 | length 16, stride 15: capacity 1, yet index 1 returns `base + 15` |
| Buffers.IndexOverflowExample | src/buffer.c:39-43 | the as-written bounds check accepts index 2^63 on a two-byte buffer with stride 2 and returns the base address, while the corrected check rejects it |
| Buffers.CheckedIndex | src/buffer.c:33-44 | corrected `sbBufferIndex`, whose bounds check cannot overflow; NULL for an invalid or null buffer |
| Buffers.CheckedIndexCorrect | src/buffer.c:39-43 | on a buffer inside the address space, the corrected index is NULL exactly when the true product `index*stride` is at least the length, and otherwise is the element's address inside the buffer |
| Buffers.CheckedIndexAgrees | src/buffer.c:39-43 | the corrected index equals `sbBufferIndex` whenever `index*stride` does not overflow |
| Spans.Create | src/memory/span.c:4-13 | the pointer is kept as given; a null pointer forces length 0, any other pointer keeps the requested length (0 included); every created span satisfies "null implies empty" |
| Spans.Slice | tests/test_span.c:243-343 | the slice starts `offset` bytes into the parent; its length is the largest length up to the requested one that stays within the parent, and 0 at or past the parent's end |
| Spans.SliceLength | tests/test_span.c:256-343 | a slice that fits keeps its length; one that overflows is cut to `parent.len - offset`; at or past the end it has length 0 |
| Spans.SliceWhole | tests/test_span.c:229-240 | slicing `(0, parent.len)` returns the parent itself |
| Spans.SliceWithinParent | tests/test_span.c:273-319 | a slice at an offset up to the parent's length starts at `parent.ptr + offset` and ends no later than the parent |
| Spans.SliceWellFormed | src/memory/span.c:5-11 | slicing a span keeps the invariant that a null span is empty |
| Spans.SliceOfSlice | include/substrate/memory/span.h:61-68 | a slice of a slice is a single slice of the parent at the summed offset |
| SpanCopy.NonEmptyIffValidMemory | src/memory.c:3-18 | a span holds bytes exactly when its pointer and length form a valid memory block |
| SpanCopy.Succeeds | tests/test_span.c:46-227 | the copy fails exactly when both spans are non-empty and the origin is longer than the destination; an empty or null side always succeeds |
| SpanCopy.Moved | include/substrate/memory/span.h:47-59 | the reference copy through a temporary: the destination window receives the source's former bytes, and every other byte is unchanged |
| SpanCopy.AfterCopy | tests/test_span.c:93-227 | on failure, or with an empty side, memory is unchanged; on a write, the first `origin.len` destination bytes are the origin's former bytes, and nothing outside them changes (the destination's tail included) |
| SpanCopy.Copy | include/substrate/memory/span.h:47-59 | `sbCopySpan` returns `Succeeds(origin, destination)` and leaves memory equal to `AfterCopy` of the old memory, whatever the overlap |
| SpanCopy.AscendingCopy | tests/test_span.c:145-159 | copying byte by byte from the first byte to the last changes no byte outside the destination window |
| SpanCopy.DescendingCopy | tests/test_span.c:161-175 | copying byte by byte from the last byte to the first changes no byte outside the destination window |
| SpanCopy.AscendingCopyIsMove | tests/test_span.c:145-159 | when the destination does not start above the source, the upward byte order gives exactly the copy through a temporary (proved by induction) |
| SpanCopy.DescendingCopyIsMove | tests/test_span.c:161-175 | when the destination does not start below the source, the downward byte order gives exactly the copy through a temporary (proved by induction) |
| SpanCopy.AscendingCopyUnsafeAboveSource | tests/test_span.c:161-175 | the upward order is wrong for the upper-overlap test: it yields `{1,2,1,2,1,2,7}`, not `{1,2,1,2,3,4,7}` |
| SpanCopy.DescendingCopyUnsafeBelowSource | tests/test_span.c:145-159 | the downward order is wrong for the lower-overlap test: it yields `{5,6,5,6,5,6,7}`, not `{3,4,5,6,5,6,7}` |
| SpanCopy.Move | tests/test_span.c:145-191 | the in-place loop descends when the destination starts above the source and ascends otherwise; it performs exactly that byte order, so memory ends equal to the copy through a temporary |
| SpanCopy.SelfCopyIsIdentity | tests/test_span.c:134-143 | copying a span onto itself succeeds and leaves memory unchanged |
| SpanCopy.SliceAccessible | include/substrate/memory/span.h:31-44 | a slice of an accessible span created by `sbCreateSpan` is accessible, so it can be passed to the copy |
| SpanCopy.UpperOverlapScenario | tests/test_span.c:161-175 | `{1..7}`, origin bytes 0-3 to bytes 2-5: the copy succeeds and the buffer becomes `{1,2,1,2,3,4,7}` |
| SpanCopy.LowerOverlapScenario | tests/test_span.c:145-159 | `{1..7}`, origin bytes 2-5 to bytes 0-3: the copy succeeds and the buffer becomes `{3,4,5,6,5,6,7}` |
| SpanCopy.SupersetDestinationScenario | tests/test_span.c:177-191 | a destination that contains the origin receives the origin's former bytes at its start |
| SpanCopy.SubsetDestinationScenario | tests/test_span.c:193-207 | a destination inside a longer origin is rejected and every byte is unchanged |
| SpanCopy.EmptyDestinationScenario | tests/test_span.c:59-70 | a zero-length destination succeeds and writes nothing |
| SpanCopy.CopyUpperOverlap | tests/test_span.c:165-175 | running `Copy` on an array reproduces the upper-overlap result |

## Left out

- The word-sized fast path of the copy (align, bulk words, tail). It is not in
  the source files modelled here; a byte-wise copy has the same contract.
- No overlap predicate appears in the modelled files. The model chooses the
  copy direction by comparing the two start addresses.
- The body of `sbCopySpan` is not part of this model, and nor is any body of
  `sbSliceSpan`/`SbSubSpan`. Both are modelled from the header contract and
  from tests/test_span.c.
- Real pointer dereference and the integer/pointer casts. Addresses index one
  abstract byte array.
- `SbSpan.ptr` is an `intptr_t` in C. The model treats it as an unsigned
  64-bit address, and a slice's start address wraps modulo 2^64. The tests
  pin only offsets up to the parent's length.
- A span with a null pointer and a non-zero length cannot come from
  `sbCreateSpan`. The copy treats such a span as empty, which no test pins.
- Memory lifetime and concurrent access. The caller must keep both spans
  accessible and unshared for the call (include/substrate/memory/span.h:36-38,
  include/memory.h:19-21). The model states this as `SpanCopy.Accessible` and
  assumes the rest.
- The cmocka `main` functions and tests/test_dummy.c, which are test plumbing.

## Findings

| source | as written | input that shows it | evidently intended | confidence | as-written member | corrected member |
|---|---|---|---|---|---|---|
| src/buffer.c:39 | `index * buffer->stride` is a `size_t` product that wraps modulo 2^64 before it is compared with the length | buffer (base 1, length 2, stride 2), index 2^63: the product wraps to 0, so the index is accepted and the base address is returned | reject every index whose element starts at or past the buffer's end | high (not executed) | Buffers.IndexOverflowExample | Buffers.CheckedIndexCorrect |
