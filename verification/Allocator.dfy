/** sys_sbrk of src/syscall.c, as the allocator under the circular buffers. */
module Allocator {

  import opened Common

  const ENOMEM := 11

  /** The address that a request returns, and the new top of the heap. */
  function Sbrk(top: int, end: int, nbytes: int): (int, int) {
    var next := (top + nbytes) % MOD32;
    if next > end then (-1, top) else (top, next)
  }

  class Heap {
    const base: int
    const end: int
    var top: int
    var errno: int

    /** The heap lies in the lower half of the address space. */
    ghost predicate Valid()
      reads this
    {
      0 <= base <= end < MOD32 / 2 && 0 <= top <= end
    }

    constructor (base: int, end: int)
      requires 0 <= base <= end < MOD32 / 2
      ensures Valid() && top == base && this.base == base && this.end == end
    {
      this.base, this.end, top, errno := base, end, base, 0;
    }

    method SysSbrk(nbytes: int) returns (address: int)
      requires Valid() && -MOD32 / 2 <= nbytes < MOD32 / 2
      modifies this
      ensures Valid() && (address, top) == Sbrk(old(top), end, nbytes)
      ensures if 0 <= old(top) + nbytes <= end
              then address == old(top) && top == old(top) + nbytes && errno == old(errno)
              else address == -1 && top == old(top) && errno == 11
    {
      var next := (top + nbytes) % MOD32;
      if next > end {
        errno := ENOMEM;
        return -1;
      }
      address := top;
      top := next;
    }
  }
}
