/** The bump allocator of `mango_heap_alloc` (src/mango.c:319-355) as a
    function of the two cursors and the request. The VM applies it to its
    own `heapUsed`; everything the allocator promises is stated here. */
module Heap {
  import opened Words
  import opened Results

  /** `sizeof(mango_vm)`: the VM header at offset 0 of the arena. */
  const VM_HEADER_SIZE: nat := 64

  /** A block handed out by the allocator: its offset from the VM base and
      the number of bytes it spans. */
  datatype Block = Block(offset: nat, size: nat) {
    function End(): nat {
      offset + size
    }
  }

  predicate ValidAlignment(alignment: int) {
    alignment == 1 || alignment == 2 || alignment == 4
  }

  /** The smallest multiple of the alignment that is not below `used`. */
  function RoundUp(used: nat, alignment: int): (r: nat)
    requires ValidAlignment(alignment)
    ensures r % alignment == 0 && used <= r < used + alignment
  {
    (used + alignment - 1) / alignment * alignment
  }

  /** The allocator's steps as the source takes them: reject a bad
      alignment, a `count * size` product that overflows 32 bits, an
      aligned-up cursor that overflows, and a request beyond the space left.
      `None` is the NULL result. */
  function Alloc(used: u32, heapSize: u32, count: u32, size: u32, alignment: u32): (r: Option<Block>)
    ensures r.Some? <==>
              ValidAlignment(alignment) && count * size < U32 && used + alignment - 1 < U32 &&
              RoundUp(used, alignment) + count * size <= heapSize
    ensures r.Some? ==>
              r.value.offset == RoundUp(used, alignment) && r.value.size == count * size &&
              r.value.offset % alignment == 0 && used <= r.value.offset &&
              r.value.End() <= heapSize
  {
    if !ValidAlignment(alignment) then None
    else if count * size >= U32 then None
    else if used + alignment - 1 >= U32 then None
    else
      // `offset &= ~(alignment - 1)` clears the low bits, which for a
      // power-of-two alignment is rounding down to a multiple of it
      var offset := (used + alignment - 1) - (used + alignment - 1) % alignment;
      if heapSize - offset < 0 then None
      else if count * size > heapSize - offset then None
      else Some(Block(offset, count * size))
  }

  /** The cursor after a successful allocation is the end of the block, so
      the next block starts at or after it. */
  lemma {:induction false} SuccessiveBlocksDisjoint(used: u32, heapSize: u32,
                                                    c1: u32, s1: u32, a1: u32,
                                                    c2: u32, s2: u32, a2: u32)
    requires Alloc(used, heapSize, c1, s1, a1).Some?
    requires Alloc(Alloc(used, heapSize, c1, s1, a1).value.End(), heapSize, c2, s2, a2).Some?
    ensures Alloc(used, heapSize, c1, s1, a1).value.End() <=
            Alloc(Alloc(used, heapSize, c1, s1, a1).value.End(), heapSize, c2, s2, a2).value.offset
  {
  }

  /** A request to the allocator: `count` elements of `size` bytes. */
  datatype Request = Request(count: u32, size: u32, alignment: u32)

  /** Run a series of requests from cursor `used`, stopping at the first
      that fails; the blocks handed out and the final cursor. */
  function AllocAll(used: u32, heapSize: u32, rs: seq<Request>): (res: (seq<Block>, nat))
    requires used <= heapSize
    ensures used <= res.1 <= heapSize
    decreases |rs|
  {
    if rs == [] then ([], used)
    else
      match Alloc(used, heapSize, rs[0].count, rs[0].size, rs[0].alignment)
      case None => ([], used)
      case Some(b) =>
        var rest := AllocAll(b.End(), heapSize, rs[1..]);
        ([b] + rest.0, rest.1)
  }

  /** Every block of a series lies between the starting cursor and the
      final one, in allocation order, so no two blocks overlap and none
      leaves the heap. */
  lemma {:induction false} AllocAllDisjoint(used: u32, heapSize: u32, rs: seq<Request>)
    requires used <= heapSize
    ensures forall i :: 0 <= i < |AllocAll(used, heapSize, rs).0| ==>
              used <= AllocAll(used, heapSize, rs).0[i].offset &&
              AllocAll(used, heapSize, rs).0[i].End() <= AllocAll(used, heapSize, rs).1
    ensures forall i, j :: 0 <= i < j < |AllocAll(used, heapSize, rs).0| ==>
              AllocAll(used, heapSize, rs).0[i].End() <= AllocAll(used, heapSize, rs).0[j].offset
    decreases |rs|
  {
    if rs != [] {
      var r := Alloc(used, heapSize, rs[0].count, rs[0].size, rs[0].alignment);
      if r.Some? {
        var b := r.value;
        AllocAllDisjoint(b.End(), heapSize, rs[1..]);
        var rest := AllocAll(b.End(), heapSize, rs[1..]);
        var bs := [b] + rest.0;
        assert AllocAll(used, heapSize, rs) == (bs, rest.1);
        forall i | 0 <= i < |bs|
          ensures used <= bs[i].offset && bs[i].End() <= rest.1
        {
          if i > 0 {
            assert bs[i] == rest.0[i - 1];
          }
        }
        forall i, j | 0 <= i < j < |bs|
          ensures bs[i].End() <= bs[j].offset
        {
          assert bs[j] == rest.0[j - 1];
          if i > 0 {
            assert bs[i] == rest.0[i - 1];
          }
        }
      }
    }
  }
}
