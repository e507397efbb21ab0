/** Spans (`SbSpan`): an immutable address and length over memory the caller
    owns, created from a raw pointer and narrowed by slicing. */
module Spans {
  import opened Platform

  /** A fat pointer: start address and length in bytes. */
  datatype Span = Span(ptr: Address, len: Size)

  /** The invariant of every span `Create` returns: a null span is empty. */
  predicate WellFormed(s: Span)
  {
    s.ptr == NULL ==> s.len == 0
  }

  /** `sbCreateSpan`: keeps the pointer as given; a null pointer gets length 0
      whatever was requested, any other pointer keeps the requested length,
      0 included. */
  function Create(ptr: Address, len: Size): (s: Span)
    ensures s.ptr == ptr
    ensures ptr == NULL ==> s.len == 0
    ensures ptr != NULL ==> s.len == len
    ensures WellFormed(s)
  {
    var length := if ptr == NULL then 0 else len;
    Span(ptr, length)
  }

  /** `sbSliceSpan(parent, offset, len)`: the span starting `offset` bytes
      into the parent, `len` bytes long but silently shortened so as not to
      run past the parent's end (length 0 at or beyond the end). The start
      address is computed in unsigned 64-bit arithmetic. */
  function Slice(parent: Span, offset: Size, len: Size): (s: Span)
    ensures s.ptr == Wrap(parent.ptr + offset)
    ensures s.len <= len
    ensures s.len == 0 || offset + s.len <= parent.len
    ensures s.len == len || offset + s.len >= parent.len
  {
    var length := if offset >= parent.len then 0 else Min(len, parent.len - offset);
    Span(Wrap(parent.ptr + offset), length)
  }

  /** A slice that fits in its parent keeps the requested length; one that
      does not is cut at the parent's end. */
  lemma SliceLength(parent: Span, offset: Size, len: Size)
    ensures offset + len <= parent.len ==> Slice(parent, offset, len).len == len
    ensures offset <= parent.len < offset + len ==> Slice(parent, offset, len).len == parent.len - offset
    ensures offset >= parent.len ==> Slice(parent, offset, len).len == 0
  {
  }

  /** Slicing from offset 0 with the parent's length gives back the parent. */
  lemma SliceWhole(parent: Span)
    ensures Slice(parent, 0, parent.len) == parent
  {
  }

  /** A slice at an offset inside (or at the end of) a parent that lies in
      the address space starts `offset` bytes in and ends no later than the
      parent does. */
  lemma SliceWithinParent(parent: Span, offset: Size, len: Size)
    requires InAddressSpace(parent.ptr, parent.len) && offset <= parent.len
    ensures Slice(parent, offset, len).ptr == parent.ptr + offset
    ensures parent.ptr <= Slice(parent, offset, len).ptr
    ensures Slice(parent, offset, len).ptr + Slice(parent, offset, len).len <= parent.ptr + parent.len
  {
  }

  /** Slicing keeps the invariant that a null span is empty. */
  lemma SliceWellFormed(parent: Span, offset: Size, len: Size)
    requires WellFormed(parent) && InAddressSpace(parent.ptr, parent.len)
    ensures WellFormed(Slice(parent, offset, len))
  {
  }

  /** Slicing a slice is one slice of the parent: the offsets add up and the
      lengths are cut by both ends. */
  lemma SliceOfSlice(parent: Span, a: Size, n: Size, b: Size, m: Size)
    requires InAddressSpace(parent.ptr, parent.len)
    requires a <= parent.len && b <= Min(n, parent.len - a)
    ensures a + b < WORD_MODULUS
    ensures Slice(Slice(parent, a, n), b, m) == Slice(parent, a + b, Min(m, Min(n, parent.len - a) - b))
  {
  }
}
