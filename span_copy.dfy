/** `sbCopySpan`: an all-or-nothing, overlap-safe copy between two spans.

    Memory is one array of bytes whose indices are the addresses; address 0
    is the null pointer and lies in no non-empty span. */
module SpanCopy {
  import opened Platform
  import opened Spans
  import MemoryBlocks

  type Byte = b: int | 0 <= b < 256

  /** A span that holds no bytes: a null pointer or a zero length. */
  predicate IsEmpty(s: Span)
  {
    s.ptr == NULL || s.len == 0
  }

  /** A span holds bytes exactly when its address and length form a valid
      memory block. */
  lemma NonEmptyIffValidMemory(s: Span)
    ensures !IsEmpty(s) <==> MemoryBlocks.Valid(Some(MemoryBlocks.Memory(s.ptr, s.len)))
  {
  }

  /** The caller's promise that a non-empty span's bytes are accessible in a
      memory of `size` bytes. */
  predicate Accessible(size: nat, s: Span)
  {
    IsEmpty(s) || s.ptr + s.len <= size
  }

  /** Whether `sbCopySpan` reports success: an empty origin or destination
      is a successful no-op, even when the origin is the longer one; between
      two non-empty spans the copy is refused exactly when the origin is
      longer than the destination. */
  function Succeeds(origin: Span, destination: Span): (ok: bool)
    ensures !ok <==> !IsEmpty(origin) && !IsEmpty(destination) && destination.len < origin.len
    ensures origin == destination ==> ok
  {
    if IsEmpty(origin) || IsEmpty(destination) then true
    else origin.len <= destination.len
  }

  /** Whether `sbCopySpan` writes anything: both spans hold bytes and the
      origin fits in the destination. */
  predicate Writes(origin: Span, destination: Span)
  {
    !IsEmpty(origin) && !IsEmpty(destination) && origin.len <= destination.len
  }

  /** The reference meaning of an overlap-safe copy of `n` bytes from `src`
      to `dst`: the bytes are first read into a temporary and then written,
      so the destination receives the bytes the source held before the call
      and nothing outside the destination changes. */
  function Moved(m: seq<Byte>, src: nat, dst: nat, n: nat): (r: seq<Byte>)
    requires src + n <= |m| && dst + n <= |m|
    ensures |r| == |m|
    ensures r[dst..dst + n] == m[src..src + n]
    ensures forall j :: dst <= j < dst + n ==> r[j] == m[j - dst + src]
    ensures forall j :: 0 <= j < |m| && !(dst <= j < dst + n) ==> r[j] == m[j]
  {
    var temporary := m[src..src + n];
    m[..dst] + temporary + m[dst + n..]
  }

  /** Memory after `sbCopySpan(origin, destination)`: all of the origin's
      former bytes at the start of the destination when the copy writes, the
      memory as it was otherwise. */
  function AfterCopy(m: seq<Byte>, origin: Span, destination: Span): (r: seq<Byte>)
    requires Accessible(|m|, origin) && Accessible(|m|, destination)
    ensures |r| == |m|
    ensures !Succeeds(origin, destination) ==> r == m
    ensures IsEmpty(origin) || IsEmpty(destination) ==> r == m
    ensures Writes(origin, destination) ==>
              r[destination.ptr..destination.ptr + origin.len] == m[origin.ptr..origin.ptr + origin.len]
    ensures forall j :: 0 <= j < |m| && !(destination.ptr <= j < destination.ptr + origin.len) ==> r[j] == m[j]
  {
    if Writes(origin, destination) then Moved(m, origin.ptr, destination.ptr, origin.len) else m
  }

  /** `sbCopySpan`: returns whether the copy succeeded and leaves memory as
      `AfterCopy` describes, whatever the overlap between the two spans. */
  method Copy(mem: array<Byte>, origin: Span, destination: Span) returns (ok: bool)
    requires Accessible(mem.Length, origin) && Accessible(mem.Length, destination)
    modifies mem
    ensures ok == Succeeds(origin, destination)
    ensures mem[..] == AfterCopy(old(mem[..]), origin, destination)
  {
    if IsEmpty(origin) || IsEmpty(destination) {
      return true;
    }
    if origin.len > destination.len {
      return false;
    }
    Move(mem, origin.ptr, destination.ptr, origin.len);
    return true;
  }

  /** The memory after copying `n` bytes from `src` to `dst` one byte at a
      time from the first byte to the last, each byte read from memory as it
      stands at that moment. */
  function AscendingCopy(m: seq<Byte>, src: nat, dst: nat, n: nat): (r: seq<Byte>)
    requires src + n <= |m| && dst + n <= |m|
    ensures |r| == |m|
    ensures forall j :: 0 <= j < |m| && !(dst <= j < dst + n) ==> r[j] == m[j]
    decreases n
  {
    if n == 0 then m else AscendingCopy(m[dst := m[src]], src + 1, dst + 1, n - 1)
  }

  /** The memory after copying `n` bytes from `src` to `dst` one byte at a
      time from the last byte to the first. */
  function DescendingCopy(m: seq<Byte>, src: nat, dst: nat, n: nat): (r: seq<Byte>)
    requires src + n <= |m| && dst + n <= |m|
    ensures |r| == |m|
    ensures forall j :: 0 <= j < |m| && !(dst <= j < dst + n) ==> r[j] == m[j]
    decreases n
  {
    if n == 0 then m else DescendingCopy(m[dst + n - 1 := m[src + n - 1]], src, dst, n - 1)
  }

  /** Copying upwards is overlap-safe when the destination does not start
      above the source: no source byte is overwritten before it is read. */
  lemma {:induction false} AscendingCopyIsMove(m: seq<Byte>, src: nat, dst: nat, n: nat)
    requires src + n <= |m| && dst + n <= |m|
    requires dst <= src
    ensures AscendingCopy(m, src, dst, n) == Moved(m, src, dst, n)
    decreases n
  {
    if n > 0 {
      var next := m[dst := m[src]];
      AscendingCopyIsMove(next, src + 1, dst + 1, n - 1);
      var r, expected := Moved(next, src + 1, dst + 1, n - 1), Moved(m, src, dst, n);
      forall j | 0 <= j < |m| ensures r[j] == expected[j] {
        if dst + 1 <= j < dst + n {
          assert r[j] == next[j - dst + src] == m[j - dst + src];
        }
      }
    }
  }

  /** Copying downwards is overlap-safe when the destination does not start
      below the source. */
  lemma {:induction false} DescendingCopyIsMove(m: seq<Byte>, src: nat, dst: nat, n: nat)
    requires src + n <= |m| && dst + n <= |m|
    requires dst >= src
    ensures DescendingCopy(m, src, dst, n) == Moved(m, src, dst, n)
    decreases n
  {
    if n > 0 {
      var next := m[dst + n - 1 := m[src + n - 1]];
      DescendingCopyIsMove(next, src, dst, n - 1);
      var r, expected := Moved(next, src, dst, n - 1), Moved(m, src, dst, n);
      forall j | 0 <= j < |m| ensures r[j] == expected[j] {
        if dst <= j < dst + n - 1 {
          assert r[j] == next[j - dst + src] == m[j - dst + src];
        }
      }
    }
  }

  /** The direction matters: copying upwards when the destination overlaps
      the source's upper end re-reads bytes already overwritten, so bytes
      1-4 of {1, ..., 7} copied onto bytes 3-6 give {1, 2, 1, 2, 1, 2, 7}. */
  lemma AscendingCopyUnsafeAboveSource()
    ensures AscendingCopy([0, 1, 2, 3, 4, 5, 6, 7], 1, 3, 4) == [0, 1, 2, 1, 2, 1, 2, 7]
    ensures AscendingCopy([0, 1, 2, 3, 4, 5, 6, 7], 1, 3, 4) != Moved([0, 1, 2, 3, 4, 5, 6, 7], 1, 3, 4)
  {
    var m: seq<Byte> := [0, 1, 2, 3, 4, 5, 6, 7];
    assert AscendingCopy(m, 1, 3, 4) == AscendingCopy([0, 1, 2, 1, 4, 5, 6, 7], 2, 4, 3);
    assert AscendingCopy([0, 1, 2, 1, 4, 5, 6, 7], 2, 4, 3) == AscendingCopy([0, 1, 2, 1, 2, 5, 6, 7], 3, 5, 2);
    assert AscendingCopy([0, 1, 2, 1, 2, 5, 6, 7], 3, 5, 2) == AscendingCopy([0, 1, 2, 1, 2, 1, 6, 7], 4, 6, 1);
    assert AscendingCopy([0, 1, 2, 1, 2, 1, 6, 7], 4, 6, 1) == AscendingCopy([0, 1, 2, 1, 2, 1, 2, 7], 5, 7, 0);
    assert Moved(m, 1, 3, 4)[5] == 3;
  }

  /** Symmetrically, copying downwards when the destination overlaps the
      source's lower end: bytes 3-6 of {1, ..., 7} copied onto bytes 1-4 give
      {5, 6, 5, 6, 5, 6, 7}. */
  lemma DescendingCopyUnsafeBelowSource()
    ensures DescendingCopy([0, 1, 2, 3, 4, 5, 6, 7], 3, 1, 4) == [0, 5, 6, 5, 6, 5, 6, 7]
    ensures DescendingCopy([0, 1, 2, 3, 4, 5, 6, 7], 3, 1, 4) != Moved([0, 1, 2, 3, 4, 5, 6, 7], 3, 1, 4)
  {
    var m: seq<Byte> := [0, 1, 2, 3, 4, 5, 6, 7];
    assert DescendingCopy(m, 3, 1, 4) == DescendingCopy([0, 1, 2, 3, 6, 5, 6, 7], 3, 1, 3);
    assert DescendingCopy([0, 1, 2, 3, 6, 5, 6, 7], 3, 1, 3) == DescendingCopy([0, 1, 2, 5, 6, 5, 6, 7], 3, 1, 2);
    assert DescendingCopy([0, 1, 2, 5, 6, 5, 6, 7], 3, 1, 2) == DescendingCopy([0, 1, 6, 5, 6, 5, 6, 7], 3, 1, 1);
    assert DescendingCopy([0, 1, 6, 5, 6, 5, 6, 7], 3, 1, 1) == DescendingCopy([0, 5, 6, 5, 6, 5, 6, 7], 3, 1, 0);
    assert Moved(m, 3, 1, 4)[1] == 3;
  }

  /** Moves `n` bytes from `src` to `dst` in place, one byte at a time. When
      the destination starts above the source the bytes are copied from the
      last to the first, otherwise from the first to the last; either way the
      result is that of a copy through a temporary. */
  method Move(mem: array<Byte>, src: nat, dst: nat, n: nat)
    requires src + n <= mem.Length && dst + n <= mem.Length
    modifies mem
    ensures mem[..] == (if dst > src then DescendingCopy(old(mem[..]), src, dst, n)
                        else AscendingCopy(old(mem[..]), src, dst, n))
    ensures mem[..] == Moved(old(mem[..]), src, dst, n)
  {
    if dst > src {
      var i := n;
      while i > 0
        invariant 0 <= i <= n
        invariant DescendingCopy(mem[..], src, dst, i) == DescendingCopy(old(mem[..]), src, dst, n)
      {
        i := i - 1;
        mem[dst + i] := mem[src + i];
      }
      DescendingCopyIsMove(old(mem[..]), src, dst, n);
    } else {
      var i := 0;
      while i < n
        invariant 0 <= i <= n
        invariant AscendingCopy(mem[..], src + i, dst + i, n - i) == AscendingCopy(old(mem[..]), src, dst, n)
      {
        mem[dst + i] := mem[src + i];
        i := i + 1;
      }
      AscendingCopyIsMove(old(mem[..]), src, dst, n);
    }
  }

  /** Copying a span onto itself succeeds and leaves memory unchanged. */
  lemma SelfCopyIsIdentity(m: seq<Byte>, s: Span)
    requires Accessible(|m|, s)
    ensures Succeeds(s, s)
    ensures AfterCopy(m, s, s) == m
  {
    if Writes(s, s) {
      assert m[..s.ptr] + m[s.ptr..s.ptr + s.len] + m[s.ptr + s.len..] == m;
    }
  }

  /** A slice of an accessible, well-formed span is accessible: slicing can
      carve the ranges that are then copied. */
  lemma SliceAccessible(size: nat, parent: Span, offset: Size, len: Size)
    requires size < WORD_MODULUS
    requires WellFormed(parent) && Accessible(size, parent)
    ensures Accessible(size, Slice(parent, offset, len))
  {
    if !IsEmpty(parent) && offset <= parent.len {
      SliceWithinParent(parent, offset, len);
    }
  }

  // The scenarios below place the test buffers at address 1, after the null
  // byte at address 0.

  /** Origin bytes 1-4 copied onto bytes 3-6 of {1, ..., 7}: the destination
      overlaps the origin's upper end and receives {1, 2, 3, 4}. */
  lemma UpperOverlapScenario()
    ensures Succeeds(Span(1, 4), Span(3, 4))
    ensures AfterCopy([0, 1, 2, 3, 4, 5, 6, 7], Span(1, 4), Span(3, 4)) == [0, 1, 2, 1, 2, 3, 4, 7]
  {
    var m: seq<Byte> := [0, 1, 2, 3, 4, 5, 6, 7];
    assert m[..3] + m[1..5] + m[7..] == [0, 1, 2, 1, 2, 3, 4, 7];
  }

  /** Origin bytes 3-6 copied onto bytes 1-4 of {1, ..., 7}: the destination
      overlaps the origin's lower end and receives {3, 4, 5, 6}. */
  lemma LowerOverlapScenario()
    ensures Succeeds(Span(3, 4), Span(1, 4))
    ensures AfterCopy([0, 1, 2, 3, 4, 5, 6, 7], Span(3, 4), Span(1, 4)) == [0, 3, 4, 5, 6, 5, 6, 7]
  {
    var m: seq<Byte> := [0, 1, 2, 3, 4, 5, 6, 7];
    assert m[..1] + m[3..7] + m[5..] == [0, 3, 4, 5, 6, 5, 6, 7];
  }

  /** A destination that is a superset of the origin: bytes 3-6 of
      {1, ..., 8} copied into the whole buffer. */
  lemma SupersetDestinationScenario()
    ensures Succeeds(Span(3, 4), Span(1, 8))
    ensures AfterCopy([0, 1, 2, 3, 4, 5, 6, 7, 8], Span(3, 4), Span(1, 8)) == [0, 3, 4, 5, 6, 5, 6, 7, 8]
  {
    var m: seq<Byte> := [0, 1, 2, 3, 4, 5, 6, 7, 8];
    assert m[..1] + m[3..7] + m[5..] == [0, 3, 4, 5, 6, 5, 6, 7, 8];
  }

  /** A destination that is a subset of the origin is too short: the copy
      fails and memory is unchanged. */
  lemma SubsetDestinationScenario()
    ensures !Succeeds(Span(1, 8), Span(3, 4))
    ensures AfterCopy([0, 1, 2, 3, 4, 5, 6, 7, 8], Span(1, 8), Span(3, 4)) == [0, 1, 2, 3, 4, 5, 6, 7, 8]
  {
  }

  /** A non-empty origin into a zero-length destination succeeds and writes
      nothing. */
  lemma EmptyDestinationScenario()
    ensures Succeeds(Span(1, 6), Span(7, 0))
    ensures AfterCopy([0, 2, 2, 2, 2, 2, 2, 4, 4, 4, 4, 4, 4], Span(1, 6), Span(7, 0))
            == [0, 2, 2, 2, 2, 2, 2, 4, 4, 4, 4, 4, 4]
  {
  }

  /** A client of `Copy`: the upper-overlap scenario run on an array. */
  method CopyUpperOverlap() returns (bytes: seq<Byte>)
    ensures bytes == [0, 1, 2, 1, 2, 3, 4, 7]
  {
    var mem := new Byte[8](i => i);
    assert mem[..] == [0, 1, 2, 3, 4, 5, 6, 7];
    var ok := Copy(mem, Span(1, 4), Span(3, 4));
    assert ok;
    UpperOverlapScenario();
    bytes := mem[..];
  }
}
