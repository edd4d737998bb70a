/** The interpreter's working state and its view of the stack.

    The stack is an array of 4-byte cells inside the arena, so a cell is
    the four little-endian bytes at `stack + 4 * k`. `rp` counts saved
    frames upward from cell 0 and `sp` is the operand stack pointer, which
    grows downward from cell `stackSize`. A 64-bit value occupies two cells
    with its low word at the lower index (src/mango.c:139-151). */
module Machine {
  import opened Words
  import opened Memory
  import opened Frames
  import opened Heap

  /** The registers `_mango_execute` keeps in locals (`sp`, `rp`, `sf`,
      `ip`) with the arena bytes, the heap cursor and the stack's place in
      the arena. `ip` is an offset into the image of module `sf.moduleIndex`. */
  datatype Core = Core(mem: Bytes, heapUsed: nat, stack: nat, stackSize: nat,
                       sp: int, rp: int, sf: Frame, ip: int)

  /** The arena fits 32-bit offsets, the stack array lies below the heap
      cursor, and both stack pointers point into the array or one past it. */
  predicate WellFormed(c: Core) {
    |c.mem| < U32 && VM_HEADER_SIZE <= c.heapUsed <= |c.mem| &&
    c.stack + 4 * c.stackSize <= c.heapUsed &&
    0 <= c.sp <= c.stackSize && 0 <= c.rp <= c.stackSize
  }

  /** What no instruction changes: where the stack lies, its size and the
      arena's size; the heap cursor only moves forward. */
  predicate Successor(c: Core, c': Core) {
    WellFormed(c') && c'.stack == c.stack && c'.stackSize == c.stackSize &&
    |c'.mem| == |c.mem| && c.heapUsed <= c'.heapUsed
  }

  predicate IsCell(c: Core, k: int) {
    0 <= k < c.stackSize
  }

  lemma Pow256Four()
    ensures Pow256(4) == U32 && Pow256(8) == U64
  {
  }

  /** The 32-bit pattern held by cell k. */
  function Cell(c: Core, k: int): (v: nat)
    requires WellFormed(c) && IsCell(c, k)
    ensures v < U32
  {
    Pow256Four();
    Load(c.mem, c.stack + 4 * k, 4)
  }

  /** Cell k set to the low 32 bits of v; nothing else changes. */
  function SetCell(c: Core, k: int, v: int): (c': Core)
    requires WellFormed(c) && IsCell(c, k)
    ensures WellFormed(c') && |c'.mem| == |c.mem|
    ensures c' == c.(mem := c'.mem)
    ensures c'.stack == c.stack && c'.stackSize == c.stackSize && c'.sp == c.sp && c'.heapUsed == c.heapUsed
  {
    c.(mem := Store(c.mem, c.stack + 4 * k, 4, v))
  }

  /** The 64-bit pattern in cells k (low word) and k + 1 (high word). */
  function Cell64(c: Core, k: int): (v: nat)
    requires WellFormed(c) && IsCell(c, k) && IsCell(c, k + 1)
    ensures v < U64
  {
    Cell(c, k) + U32 * Cell(c, k + 1)
  }

  function SetCell64(c: Core, k: int, v: int): (c': Core)
    requires WellFormed(c) && IsCell(c, k) && IsCell(c, k + 1)
    ensures WellFormed(c') && |c'.mem| == |c.mem|
    ensures c' == c.(mem := c'.mem)
  {
    SetCell(SetCell(c, k, v % U32), k + 1, (v % U64) / U32)
  }

  /** Reading a cell after a cell store: the stored cell holds the value
      reduced to 32 bits, every other cell is unchanged. */
  lemma {:induction false} CellSet(c: Core, k: int, v: int, j: int)
    requires WellFormed(c) && IsCell(c, k) && IsCell(c, j)
    ensures Cell(SetCell(c, k, v), j) == if j == k then v % U32 else Cell(c, j)
  {
    if j == k {
      CellSetSame(c, k, v);
    } else {
      CellSetOther(c, k, v, j);
    }
  }

  lemma CellSetSame(c: Core, k: int, v: int)
    requires WellFormed(c) && IsCell(c, k)
    ensures Cell(SetCell(c, k, v), k) == v % U32
  {
    Pow256Four();
    LoadStore(c.mem, c.stack + 4 * k, 4, v);
  }

  lemma CellSetOther(c: Core, k: int, v: int, j: int)
    requires WellFormed(c) && IsCell(c, k) && IsCell(c, j) && j != k
    ensures Cell(SetCell(c, k, v), j) == Cell(c, j)
  {
    var a := c.stack + 4 * k;
    var b := c.stack + 4 * j;
    var m' := Store(c.mem, a, 4, v);
    forall i | b <= i < b + 4
      ensures m'[i] == c.mem[i]
    {
      StoreOutside(c.mem, a, 4, v, i);
    }
    LoadSame(c.mem, m', b, 4);
  }

  /** Cells depend on the arena and the stack's place only. */
  lemma SameCells(c: Core, d: Core)
    requires WellFormed(c) && WellFormed(d)
    requires d.mem == c.mem && d.stack == c.stack && d.stackSize == c.stackSize
    ensures forall k :: IsCell(c, k) ==> Cell(d, k) == Cell(c, k)
  {
  }

  /** A cell store leaves every other cell unchanged. */
  lemma SetCellOthers(c: Core, k: int, v: int)
    requires WellFormed(c) && IsCell(c, k)
    ensures forall j :: IsCell(c, j) && j != k ==> Cell(SetCell(c, k, v), j) == Cell(c, j)
  {
    forall j | IsCell(c, j) && j != k
      ensures Cell(SetCell(c, k, v), j) == Cell(c, j)
    {
      CellSetOther(c, k, v, j);
    }
  }

  /** A cell store leaves the arena outside that cell's four bytes alone. */
  lemma {:induction false} SetCellOutside(c: Core, k: int, v: int, i: nat)
    requires WellFormed(c) && IsCell(c, k) && i < |c.mem|
    requires i < c.stack + 4 * k || c.stack + 4 * k + 4 <= i
    ensures SetCell(c, k, v).mem[i] == c.mem[i]
  {
    StoreOutside(c.mem, c.stack + 4 * k, 4, v, i);
  }

  /** The 64-bit counterpart of CellSet: the pair reads back as the value
      reduced to 64 bits. */
  lemma {:induction false} Cell64Set(c: Core, k: int, v: int)
    requires WellFormed(c) && IsCell(c, k) && IsCell(c, k + 1)
    ensures Cell64(SetCell64(c, k, v), k) == v % U64
  {
    var lo, hi := v % U32, (v % U64) / U32;
    var c1 := SetCell(c, k, lo);
    var c2 := SetCell(c1, k + 1, hi);
    assert Cell(c2, k) == lo by {
      CellSet(c, k, lo, k);
      CellSet(c1, k + 1, hi, k);
      DivModUnique(lo, U32, 0, lo);
    }
    assert Cell(c2, k + 1) == hi % U32 by {
      CellSet(c1, k + 1, hi, k + 1);
    }
    SplitWord(v);
  }

  /** A 64-bit store leaves every cell outside the pair unchanged. */
  lemma {:induction false} Cell64SetOther(c: Core, k: int, v: int, j: int)
    requires WellFormed(c) && IsCell(c, k) && IsCell(c, k + 1) && IsCell(c, j)
    requires j != k && j != k + 1
    ensures Cell(SetCell64(c, k, v), j) == Cell(c, j)
  {
    var c1 := SetCell(c, k, v % U32);
    CellSet(c, k, v % U32, j);
    CellSet(c1, k + 1, (v % U64) / U32, j);
  }

  /** A 64-bit value is its low word plus 2^32 times its high word. */
  lemma SplitWord(v: int)
    ensures v % U32 + U32 * (((v % U64) / U32) % U32) == v % U64
  {
    var w := v % U64;
    assert w / U32 < U32;
    assert (w / U32) % U32 == w / U32;
    DivModUnique(v, U32, v / U32, v % U32);
    var q := v / U64;
    assert v == U64 * q + w;
    assert U64 == U32 * U32;
    assert v == U32 * (U32 * q + w / U32) + w % U32;
    DivModUnique(v, U32, U32 * q + w / U32, w % U32);
  }

  /** Bytes of the arena that the model follows a reference to: inside the
      arena and past the VM header, whose fields the model keeps outside
      `mem`. */
  predicate MemOk(c: Core, a: int, n: nat) {
    VM_HEADER_SIZE <= a && a + n <= |c.mem|
  }
}
