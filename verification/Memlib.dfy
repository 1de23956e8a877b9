/** How far the heap may grow, and what mem_sbrk makes of it in 32-bit arithmetic. */
module Memlib {
  import opened Blocks

  const HEAP_BYTES := 20971520

  /** Whether the system lets the heap grow by `n` units. */
  predicate CanGrow(l: Layout, n: nat) {
    4 * (l.end + 1) + 8 * n <= HEAP_BYTES
  }

  /** Whether mem_sbrk refuses, in 32-bit arithmetic: the increment is read as a signed int, and the sum of
      the break and the increment as an address. */
  function SbrkRefuses(base: nat, brk: nat, incr: nat): bool {
    incr >= 0x8000_0000 || (base + brk + incr) % 0x1_0000_0000 > base + HEAP_BYTES
  }

  /** The address of the new break wraps round to below the end of the arena. */
  predicate SbrkMisled(base: nat, brk: nat, incr: nat) {
    incr < 0x8000_0000 && base + brk + incr >= 0x1_0000_0000 && base + brk + incr - 0x1_0000_0000 <= base + HEAP_BYTES
  }

  /** mem_sbrk refuses exactly what would exceed the heap, unless it is misled; and then it does not refuse
      what it should. */
  lemma SbrkRight(base: nat, brk: nat, incr: nat)
    requires brk <= HEAP_BYTES && base + HEAP_BYTES < 0x1_0000_0000 && incr < 0x1_0000_0000
    ensures (SbrkRefuses(base, brk, incr) <==> brk + incr > HEAP_BYTES) <==> !SbrkMisled(base, brk, incr)
    ensures SbrkMisled(base, brk, incr) ==> !SbrkRefuses(base, brk, incr) && brk + incr > HEAP_BYTES
  {
  }

  /** A heap as mm_init leaves it, which mem_sbrk lets grow far beyond its arena. */
  lemma SbrkWraps()
    ensures !SbrkRefuses(0xF000_0000, 536, 0x1000_0000) && 536 + 0x1000_0000 > HEAP_BYTES
  {
  }
}
