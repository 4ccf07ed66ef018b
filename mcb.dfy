/** The memory control block (MCB) of the Zltigo heap: the header that sits in
    front of every chunk, the constants that fix its layout, and the address
    arithmetic that derives the storage area from it. */
module MemoryControlBlock {

  /** sizeof(mcb) on a 32-bit target: `next`, `prev` and one 32-bit word that
      packs the 8-bit type and the 24-bit size. A multiple of HEAP_ALIGN. */
  const MCB_SIZE: nat := 12

  /** HEAP_ALIGN = sizeof(uint32_t): the allocation unit. */
  const HEAP_ALIGN: nat := 4

  /** The size field is a 24-bit bitfield: every stored size is below this. */
  const SIZE_LIMIT: nat := 0x100_0000

  /** The two values the 8-bit `type` field takes. */
  datatype Mark = Free | Allocated {
    /** The value stored in the type field: FREE = 0, ALLOCATED = 1. */
    function Code(): (r: nat)
      ensures r < 0x100
      ensures r == 0 <==> this.Free?
      ensures r == 1 <==> this.Allocated?
    {
      if this == Free then 0 else 1
    }
  }

  /** One header as stored in the pool. `next` and `prev` are the byte
      addresses of other headers; `size` is the recorded (24-bit) size. */
  datatype Mcb = Mcb(next: nat, prev: nat, state: Mark, size: nat)

  /** mcb::pool(): the storage area begins immediately after the header. */
  function Pool(hdr: nat): (p: nat)
    ensures hdr < p && p - hdr == MCB_SIZE
    ensures p % HEAP_ALIGN == hdr % HEAP_ALIGN
  {
    hdr + MCB_SIZE
  }
}
