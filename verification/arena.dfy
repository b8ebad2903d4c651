/** The bump allocator from which the decoder takes its trees. */
module Arenas {
  /** `addr` moved up to a multiple of 8. */
  function Aligned(addr: nat): (r: nat)
    ensures addr <= r <= addr + 7 && r % 8 == 0
  {
    addr + (8 - addr % 8) % 8
  }

  class Arena {
    const base: nat
    const capacity: nat
    var offset: nat

    /** A buffer at address `base`; a capacity of 0 stands for one that could not be had. */
    constructor (base: nat, capacity: nat)
      ensures this.base == base && this.capacity == capacity && offset == 0
    {
      this.base, this.capacity, offset := base, capacity, 0;
    }

    method Reset()
      modifies `offset
      ensures offset == 0
    {
      offset := 0;
    }

    /** Takes `size` bytes at a multiple of 8 behind all that was taken before;
        refuses, and takes nothing, exactly when they do not fit. */
    method Allocate(size: nat) returns (ok: bool, ptr: nat)
      modifies `offset
      ensures ok <==> Aligned(base + old(offset)) + size <= base + capacity
      ensures ok ==> ptr % 8 == 0 && base + old(offset) <= ptr && ptr + size == base + offset <= base + capacity
      ensures if ok then offset <= old(offset) + 7 + size else offset == old(offset)
    {
      ptr := Aligned(base + offset);
      var next := ptr - base + size;
      if next > capacity { return false, 0; }
      offset := next;
      ok := true;
    }
  }
}
