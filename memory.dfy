/** Fixed-size blocks of caller-owned memory (`struct SbMemory`). */
module MemoryBlocks {
  import opened Platform

  /** A fat pointer: start address and size in bytes. */
  datatype Memory = Memory(base: Address, length: Size)

  /** `sbMemoryValid`: the pointer to the block, the block's base address and
      its length are checked in turn; `None` stands for a null `SbMemory *`. */
  function Valid(memory: Option<Memory>): (r: bool)
    ensures r <==> memory.Some? && memory.value.base != NULL && memory.value.length > 0
  {
    if memory.None? then false
    else if memory.value.base == NULL then false
    else if memory.value.length == 0 then false
    else true
  }
}
