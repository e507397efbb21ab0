/** Stride-indexed views over caller-owned memory (`struct SbBuffer`):
    validity, capacity in elements and the address of the `index`-th element. */
module Buffers {
  import opened Platform
  import MemoryBlocks

  /** A fat pointer: start address, size in bytes, and the distance in bytes
      between consecutive elements. */
  datatype Buffer = Buffer(base: Address, length: Size, stride: Size)

  /** `sbBufferValid`: four guard clauses, in the order the C code tests them;
      `None` stands for a null `SbBuffer *`. A stride equal to the length is
      accepted. */
  function Valid(buffer: Option<Buffer>): (r: bool)
    ensures r <==> buffer.Some? && buffer.value.base != NULL
                   && buffer.value.length > 0 && buffer.value.stride > 0
                   && buffer.value.stride <= buffer.value.length
  {
    if buffer.None? then false
    else if buffer.value.base == NULL then false
    else if buffer.value.length == 0 || buffer.value.stride == 0 then false
    else if buffer.value.length < buffer.value.stride then false
    else true
  }

  /** The bytes of a valid buffer form a valid memory block; the converse
      fails only on the stride checks. */
  lemma ValidBufferHasValidMemory(b: Buffer)
    ensures Valid(Some(b)) ==> MemoryBlocks.Valid(Some(MemoryBlocks.Memory(b.base, b.length)))
    ensures MemoryBlocks.Valid(Some(MemoryBlocks.Memory(b.base, b.length))) && 0 < b.stride <= b.length
            ==> Valid(Some(b))
  {
  }

  /** `sbBufferCapacity`: the number of whole elements the buffer holds
      (trailing bytes that do not fill an element are not counted), 0 for an
      invalid or null buffer. */
  function Capacity(buffer: Option<Buffer>): (r: Size)
    ensures !Valid(buffer) ==> r == 0
    ensures Valid(buffer) ==> 1 <= r
    ensures Valid(buffer) ==> r * buffer.value.stride <= buffer.value.length
                              < (r + 1) * buffer.value.stride
  {
    if !Valid(buffer) then 0
    else
      var b := buffer.value;
      DivisionBounds(b.length, b.stride);
      b.length / b.stride
  }

  /** `sbBufferIndex`: NULL for an invalid or null buffer whatever the index;
      otherwise NULL when the element offset `index * stride`, computed in
      64-bit `size_t` arithmetic, is not below the length, and
      `base + index * stride` (again modulo 2^64) when it is. */
  function Index(buffer: Option<Buffer>, index: Size): (r: Address)
    ensures !Valid(buffer) ==> r == NULL
    ensures Valid(buffer) && InAddressSpace(buffer.value.base, buffer.value.length) ==>
              (r == NULL <==> Wrap(index * buffer.value.stride) >= buffer.value.length)
    ensures Valid(buffer) && InAddressSpace(buffer.value.base, buffer.value.length) && r != NULL ==>
              buffer.value.base <= r < buffer.value.base + buffer.value.length
  {
    if !Valid(buffer) then NULL
    else
      var b := buffer.value;
      var offset := Wrap(index * b.stride);
      if offset >= b.length then NULL
      else Wrap(offset + b.base)
  }

  /** When `index * stride` does not overflow, `Index` is exactly the
      mathematical bounds check: the address of the element when its first
      byte lies inside the buffer, NULL otherwise. */
  lemma IndexWithoutOverflow(b: Buffer, index: Size)
    requires Valid(Some(b)) && InAddressSpace(b.base, b.length)
    requires index * b.stride < WORD_MODULUS
    ensures Index(Some(b), index) == if index * b.stride < b.length then b.base + index * b.stride else NULL
  {
  }

  /** Every index below the capacity yields the address of an element that
      lies wholly inside the buffer. */
  lemma IndexBelowCapacity(b: Buffer, index: Size)
    requires Valid(Some(b)) && InAddressSpace(b.base, b.length)
    requires index < Capacity(Some(b))
    ensures Index(Some(b), index) == b.base + index * b.stride
    ensures Index(Some(b), index) != NULL
    ensures Index(Some(b), index) + b.stride <= b.base + b.length
  {
    var c := Capacity(Some(b));
    MultiplyMonotone(index + 1, c, b.stride);
    assert index * b.stride + b.stride == (index + 1) * b.stride;
    IndexWithoutOverflow(b, index);
  }

  /** The bounds check of `sbBufferIndex` uses the first byte of an element,
      whereas the capacity counts whole elements: when the stride does not
      divide the length, the index equal to the capacity is still accepted
      and its element runs past the end of the buffer. */
  lemma IndexPastCapacity(b: Buffer)
    requires Valid(Some(b)) && InAddressSpace(b.base, b.length)
    requires b.length % b.stride != 0
    ensures Capacity(Some(b)) < WORD_MODULUS
    ensures Index(Some(b), Capacity(Some(b))) == b.base + Capacity(Some(b)) * b.stride
    ensures Index(Some(b), Capacity(Some(b))) != NULL
    ensures Index(Some(b), Capacity(Some(b))) + b.stride > b.base + b.length
  {
    var c := Capacity(Some(b));
    DivisionBounds(b.length, b.stride);
    assert c * b.stride == b.length - b.length % b.stride;
    IndexWithoutOverflow(b, c);
  }

  /** When the stride divides the length, the accepted indices are exactly
      those below the capacity. */
  lemma IndexAcceptedIffBelowCapacity(b: Buffer, index: Size)
    requires Valid(Some(b)) && InAddressSpace(b.base, b.length)
    requires b.length % b.stride == 0
    requires index * b.stride < WORD_MODULUS
    ensures Index(Some(b), index) != NULL <==> index < Capacity(Some(b))
  {
    var c := Capacity(Some(b));
    DivisionBounds(b.length, b.stride);
    assert c * b.stride == b.length;
    IndexWithoutOverflow(b, index);
    if index < c {
      MultiplyMonotone(index + 1, c, b.stride);
    } else {
      MultiplyMonotone(c, index, b.stride);
    }
  }

  /** A 16-byte buffer with a 15-byte stride: capacity 1, yet index 1 is
      accepted and points 15 bytes past the base. */
  lemma CapacityGapExample()
    ensures Capacity(Some(Buffer(1, 16, 15))) == 1
    ensures Index(Some(Buffer(1, 16, 15)), 1) == 16
  {
  }

  /** `index * stride` wraps modulo 2^64 before the bounds check: for a valid
      two-byte buffer with stride 2, index 2^63 wraps to offset 0 and is
      accepted, returning the base address, although the element lies 2^64
      bytes past it; `CheckedIndex` rejects the same index. */
  lemma IndexOverflowExample()
    ensures Valid(Some(Buffer(1, 2, 2)))
    ensures Index(Some(Buffer(1, 2, 2)), 0x8000_0000_0000_0000) == 1
    ensures CheckedIndex(Some(Buffer(1, 2, 2)), 0x8000_0000_0000_0000) == NULL
  {
  }

  /** `sbBufferIndex` with a bounds check that cannot overflow: the index is
      compared with the largest index whose first byte is inside the buffer,
      `(length - 1) / stride`, before anything is multiplied. */
  function CheckedIndex(buffer: Option<Buffer>, index: Size): (r: Address)
    ensures !Valid(buffer) ==> r == NULL
  {
    if !Valid(buffer) then NULL
    else
      var b := buffer.value;
      if index > (b.length - 1) / b.stride then NULL
      else
        LastIndexBound(b.length, b.stride, index);
        Wrap(index * b.stride + b.base)
  }

  /** The corrected index is NULL exactly when the element's first byte
      `index * stride`, taken as a mathematical product, is not inside the
      buffer, and is otherwise the element's address. */
  lemma CheckedIndexCorrect(b: Buffer, index: Size)
    requires Valid(Some(b)) && InAddressSpace(b.base, b.length)
    ensures CheckedIndex(Some(b), index) == NULL <==> index * b.stride >= b.length
    ensures CheckedIndex(Some(b), index) != NULL ==>
              CheckedIndex(Some(b), index) == b.base + index * b.stride
              && b.base <= CheckedIndex(Some(b), index) < b.base + b.length
  {
    LastIndexBound(b.length, b.stride, index);
  }

  /** The corrected index agrees with `sbBufferIndex` wherever the original
      multiplication does not overflow. */
  lemma CheckedIndexAgrees(b: Buffer, index: Size)
    requires Valid(Some(b)) && InAddressSpace(b.base, b.length)
    requires index * b.stride < WORD_MODULUS
    ensures CheckedIndex(Some(b), index) == Index(Some(b), index)
  {
    CheckedIndexCorrect(b, index);
    IndexWithoutOverflow(b, index);
  }

  // Arithmetic helpers.

  lemma MultiplyMonotone(a: nat, b: nat, s: nat)
    requires a <= b
    ensures a * s <= b * s
  {
  }

  lemma DivisionBounds(n: nat, d: nat)
    requires d > 0
    ensures n == (n / d) * d + n % d && 0 <= n % d < d
    ensures (n / d) * d <= n < (n / d + 1) * d
  {
  }

  /** `i <= (n - 1) / d` exactly when `i * d < n`. */
  lemma LastIndexBound(n: nat, d: nat, i: nat)
    requires n > 0 && d > 0
    ensures i <= (n - 1) / d <==> i * d < n
  {
    var q := (n - 1) / d;
    DivisionBounds(n - 1, d);
    if i <= q {
      MultiplyMonotone(i, q, d);
    } else {
      MultiplyMonotone(q + 1, i, d);
    }
  }
}
