/** The stack manager's cursor arithmetic (src/mango.c:375-485) as
    functions of the registers, so that what one call does can be related
    to what another undoes. */
module Stacks {
  import opened Words
  import opened Results

  /** `UINT16_MAX * sizeof(stackval)`: the largest request any of the stack
      calls accepts, in bytes. */
  const MAX_STACK_BYTES: nat := 65535 * 4

  /** Whole cells a request of `size` bytes takes, rounded up. For every
      request that passes the size check the quotient fits the source's
      16-bit `count`, so the cast it goes through changes nothing. */
  function CellCount(size: nat): (n: nat)
    ensures 4 * n >= size && 4 * n < size + 4
    ensures size <= MAX_STACK_BYTES ==> n < U16
  {
    (size + 3) / 4
  }

  /** `sp` after `mango_stack_alloc` has passed its size and stack checks:
      `None` when fewer than the needed cells lie between `rp` and `sp`. */
  function AllocSp(sp: int, rp: int, size: nat): (r: Option<int>)
    ensures r.Some? <==> rp + CellCount(size) <= sp
    ensures r.Some? ==> rp <= r.value <= sp && sp - r.value == CellCount(size)
  {
    if sp - rp < CellCount(size) then None else Some(sp - CellCount(size))
  }

  /** `sp` after `mango_stack_free` has passed its size and stack checks:
      `None` (a stack overflow) when fewer than the cells given back lie
      above `sp`. */
  function FreeSp(sp: int, stackSize: nat, size: nat): (r: Option<int>)
    ensures r.Some? <==> sp + CellCount(size) <= stackSize
    ensures r.Some? ==> sp <= r.value <= stackSize && r.value - sp == CellCount(size)
  {
    if stackSize - sp < CellCount(size) then None else Some(sp + CellCount(size))
  }

  /** Freeing what was just allocated always succeeds and gives back the
      stack pointer the allocation started from. */
  lemma AllocThenFree(sp: int, rp: int, stackSize: nat, size: nat)
    requires sp <= stackSize && AllocSp(sp, rp, size).Some?
    ensures FreeSp(AllocSp(sp, rp, size).value, stackSize, size) == Some(sp)
  {
  }

  /** Bytes between the two cursors as `mango_stack_available` reports them:
      the difference of the two 16-bit registers times four, truncated to
      the 32-bit result. */
  function Available(sp: int, rp: int): (n: nat)
    ensures n < U32
    ensures 0 <= rp <= sp < U16 ==> n == 4 * (sp - rp)
  {
    assert 0 <= rp <= sp < U16 ==> (sp - rp) * 4 < 4 * U16 < U32;
    Wrap((sp - rp) * 4, W32)
  }

  /** An allocation succeeds exactly when the space reported available
      covers the request rounded up to whole cells. */
  lemma AllocWhenAvailable(sp: int, rp: int, size: nat)
    requires 0 <= rp <= sp < U16
    ensures AllocSp(sp, rp, size).Some? <==> 4 * CellCount(size) <= Available(sp, rp)
  {
  }
}
