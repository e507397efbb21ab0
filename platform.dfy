/** Machine-level types of the C implementation on a 64-bit (LP64) target.

    `size_t`, `uintptr_t` and `intptr_t` are all 64 bits wide there; addresses
    are modelled as unsigned integers below 2^64 with 0 as the null pointer, and
    the wrap-around of unsigned C arithmetic is written out with `Wrap`.
 */
module Platform {

  /** 2^64, the number of distinct `size_t` / `uintptr_t` values. */
  const WORD_MODULUS: int := 0x1_0000_0000_0000_0000

  /** A `size_t` value. */
  type Size = x: int | 0 <= x < WORD_MODULUS

  /** A pointer, seen as an integer address. */
  type Address = x: int | 0 <= x < WORD_MODULUS

  /** The null pointer. */
  const NULL: Address := 0

  /** Unsigned C arithmetic: the mathematical result reduced modulo 2^64. */
  function Wrap(x: nat): (r: Size)
    ensures x < WORD_MODULUS ==> r == x
    ensures x >= WORD_MODULUS ==> r < x
  {
    x % WORD_MODULUS
  }

  /** The bytes [base, base + length) and the address one past them lie
      inside the address space, as C guarantees for every object in memory;
      lemmas assume it where address arithmetic could otherwise wrap past
      2^64. */
  predicate InAddressSpace(base: Address, length: Size)
  {
    base + length < WORD_MODULUS
  }

  function Min(a: int, b: int): (r: int)
    ensures r <= a && r <= b && (r == a || r == b)
  {
    if a <= b then a else b
  }

  /** A pointer to a struct that may be null: `None` is the null pointer. */
  datatype Option<+T> = None | Some(value: T)
}
