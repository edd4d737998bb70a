/** One instruction of `_mango_execute` (src/mango.c:1044-2420) as a
    function of the machine state. The integer, stack, local, call, branch,
    constant, system-call and object opcodes are modelled; an opcode slot
    the dispatch table maps to `INVALID` is `Unused`.

    Each instruction's own function requires what the model needs to
    follow it: the stack cells it touches lie in the stack array, the
    references it follows reach arena bytes past the VM header, the signed
    division does not overflow, the shift amount is in range, and a called
    function exists. C leaves some of these cases undefined; in the others
    the source reads bytes of the VM's block that the model keeps as
    fields or records. `Step` checks those conditions and answers
    `Undefined` where one fails, so it is total. */
module Interp {
  import opened Words
  import opened Memory
  import opened Results
  import opened Images
  import opened Frames
  import opened Heap
  import opened Alu
  import opened Machine
  import opened Registry

  /** What an instruction leads to: the next state, a `RETURN` through the
      `done:` exit with its result, the `YIELD` of SYSCALL, which sets
      `sp_expected` and `syscall` itself, or a case the model does not
      follow (a cell outside the stack array, a reference outside the
      arena or into its header, a signed division that overflows, an
      out-of-range shift, a call to a function that is not there). */
  datatype Outcome =
    | Continue(next: Core)
    | Done(core: Core, code: Code)
    | Yield(core: Core, spExpected: u16, syscall: u16)
    | Undefined(core: Core)
  {
    function Final(): Core {
      match this
      case Continue(c) => c
      case Done(c, _) => c
      case Yield(c, _, _) => c
      case Undefined(c) => c
    }
  }

  /** Cells sp + lo .. sp + hi - 1 exist, and sp may move anywhere in
      [sp + lo, sp + hi]. */
  predicate Window(c: Core, lo: int, hi: int) {
    0 <= c.sp + lo && c.sp + hi <= c.stackSize
  }

  /** A cell read as `int32_t`. */
  function I32At(c: Core, k: int): int
    requires WellFormed(c) && IsCell(c, k)
  {
    Signed(Cell(c, k), W32)
  }

  predicate InModule(mods: seq<ModuleRec>, c: Core) {
    c.sf.moduleIndex as int < |mods| && mods[c.sf.moduleIndex].image.Some?
  }

  function CurrentImage(mods: seq<ModuleRec>, c: Core): Image
    requires InModule(mods, c)
  {
    mods[c.sf.moduleIndex].image.value
  }

  /** The instruction at `ip` in the current module's image. */
  function Fetch(mods: seq<ModuleRec>, c: Core): Option<Instr> {
    if InModule(mods, c) && c.ip in CurrentImage(mods, c).code
    then Some(CurrentImage(mods, c).code[c.ip]) else None
  }

  /** `ip` is at a RET opcode. */
  predicate AtRet(mods: seq<ModuleRec>, c: Core, ip: int)
    requires InModule(mods, c)
  {
    ip in CurrentImage(mods, c).code && CurrentImage(mods, c).code[ip] == Ret
  }

  // ---------------------------------------------------------------------
  // Calls

  /** The table slot a function token's module byte selects: INVALID_MODULE
      is the caller's own module, any other value an entry of the caller's
      import-index array (src/mango.c:1257-1263). */
  function CalleeSlot(mods: seq<ModuleRec>, c: Core, slot: u8): Option<nat>
    requires InModule(mods, c)
  {
    if slot == INVALID_MODULE then Some(c.sf.moduleIndex as nat)
    else
      var ix := mods[c.sf.moduleIndex].imports;
      if ix.Some? && (slot as int) < |ix.value| then Some(ix.value[slot] as nat) else None
  }

  /** The token names a function descriptor of a supplied module. */
  predicate CallDefined(mods: seq<ModuleRec>, c: Core, slot: u8, target: int)
    requires InModule(mods, c)
  {
    CalleeSlot(mods, c, slot).Some? &&
    CalleeSlot(mods, c, slot).value < |mods| &&
    mods[CalleeSlot(mods, c, slot).value].image.Some? &&
    target in mods[CalleeSlot(mods, c, slot).value].image.value.funcs
  }

  /** `call:` (src/mango.c:1250-1301), for CALL (`indirect` false, token in
      the instruction) and CALLI (`indirect`, token popped from the stack).
      The trust gate comes first, then the stack check; the return frame is
      saved unless the caller's own frame pops nothing and the next
      instruction is RET. */
  function CallStep(mods: seq<ModuleRec>, c: Core, slot: u8, target: int, indirect: bool): (r: Outcome)
    requires WellFormed(c) && InModule(mods, c) && CallDefined(mods, c, slot, target)
    requires indirect ==> IsCell(c, c.sp)
    ensures Successor(c, r.Final())
  {
    var m := mods[CalleeSlot(mods, c, slot).value];
    var f := m.image.value.funcs[target];
    match TrustGate(c.sf.trusted, f, m.flags)
    case None => Done(c, Security)
    case Some(trusted) =>
      if c.sp - c.rp < 1 + f.locCount + f.maxStack then Done(c, StackOverflow)
      else
        var sp := c.sp + (if indirect then 1 else 0);
        var ip := c.ip + (if indirect then 1 else 4);
        var tail := c.sf.pop == 0 && AtRet(mods, c, ip);
        var saved := c.sf.(ip := Wrap(ip, W16));
        var c1 := if tail then c else SetCell(c, c.rp, EncodeFrame(saved));
        var sf := (if tail then c.sf else saved)
                  .(trusted := trusted, pop := (f.argCount + f.locCount) % 128, moduleIndex := m.index);
        Continue(c1.(sp := sp - f.locCount, rp := if tail then c.rp else c.rp + 1,
                     sf := sf, ip := target + FUNC_DEF_SIZE))
  }

  /** A call entered from outside the dispatch loop: the current frame
      saved in cell `rp`, `locCount` cells of locals reserved below `sp`,
      and `entry` running from its own `ip`. Both the saved frame and the
      pointers can be read back. */
  function Enter(c: Core, entry: Frame, locCount: nat): (d: Core)
    requires WellFormed(c) && c.rp + 1 + locCount <= c.sp
    ensures Successor(c, d) && d.heapUsed == c.heapUsed
    ensures d.rp == c.rp + 1 && d.sp == c.sp - locCount && d.sf == entry && d.ip == entry.ip
    ensures DecodeFrame(Cell(d, c.rp)) == c.sf
    ensures forall k :: IsCell(c, k) && k != c.rp ==> Cell(d, k) == Cell(c, k)
  {
    var v := EncodeFrame(c.sf);
    var c1 := SetCell(c, c.rp, v);
    CellSetSame(c, c.rp, v);
    DivModUnique(v, U32, 0, v);
    FrameRoundTrip(c.sf);
    SetCellOthers(c, c.rp, v);
    var d := c1.(sp := c.sp - locCount, rp := c.rp + 1, sf := entry, ip := entry.ip);
    SameCells(c1, d);
    d
  }

  /** RET, RET_X32 and RET_X64 (src/mango.c:1222-1241): copy `results`
      cells over the callee's arguments, drop `pop` cells, and resume the
      saved frame, trust included. */
  function RetStep(c: Core, results: nat): (r: Outcome)
    requires WellFormed(c) && results <= 2 && c.rp >= 1 && Window(c, 0, c.sf.pop + results)
    ensures Successor(c, r.Final())
  {
    var p := c.sf.pop;
    var c1 := if results == 2 then SetCell(c, c.sp + p + 1, Cell(c, c.sp + 1)) else c;
    var c2 := if results >= 1 then SetCell(c1, c.sp + p, Cell(c1, c.sp)) else c1;
    var sf := DecodeFrame(Cell(c2, c.rp - 1));
    Continue(c2.(sp := c.sp + p, rp := c.rp - 1, sf := sf, ip := sf.ip))
  }

  // ---------------------------------------------------------------------
  // Stack shuffles, locals and constants

  /** POP, DUP and OVER (src/mango.c:1090-1112, 1122-1126), each
      followed only if the cells it reads and writes exist. */
  function ShuffleStep(c: Core, i: Instr): (r: Outcome)
    requires WellFormed(c)
    ensures Successor(c, r.Final())
  {
    var s := c.sp;
    var ip := c.ip + 1;
    match i
    case PopX32 => if !Window(c, 0, 1) then Undefined(c) else Continue(c.(sp := s + 1, ip := ip))
    case PopX64 => if !Window(c, 0, 2) then Undefined(c) else Continue(c.(sp := s + 2, ip := ip))
    case DupX32 =>
      if !Window(c, -1, 1) then Undefined(c)
      else Continue(SetCell(c, s - 1, Cell(c, s)).(sp := s - 1, ip := ip))
    case DupX64 =>
      if !Window(c, -2, 2) then Undefined(c)
      else
        var c1 := SetCell(c, s - 2, Cell(c, s));
        Continue(SetCell(c1, s - 1, Cell(c1, s + 1)).(sp := s - 2, ip := ip))
    case Over =>
      if !Window(c, -1, 2) then Undefined(c)
      else Continue(SetCell(c, s - 1, Cell(c, s + 1)).(sp := s - 1, ip := ip))
    case _ => Done(c, InvalidProgram)
  }

  /** SWAP and NIP (src/mango.c:1113-1120, 1138-1142), each followed
      only if the cells it reads and writes exist. */
  function PermuteStep(c: Core, i: Instr): (r: Outcome)
    requires WellFormed(c)
    ensures Successor(c, r.Final())
  {
    var s := c.sp;
    var ip := c.ip + 1;
    match i
    case Swap =>
      if !Window(c, 0, 2) then Undefined(c)
      else
        var c1 := SetCell(c, s, Cell(c, s + 1));
        Continue(SetCell(c1, s + 1, Cell(c, s)).(ip := ip))
    case Nip =>
      if !Window(c, 0, 2) then Undefined(c)
      else Continue(SetCell(c, s + 1, Cell(c, s)).(sp := s + 1, ip := ip))
    case _ => Done(c, InvalidProgram)
  }

  /** ROT and TUCK (src/mango.c:1128-1136, 1144-1150), each followed
      only if the cells it reads and writes exist. */
  function RotateStep(c: Core, i: Instr): (r: Outcome)
    requires WellFormed(c)
    ensures Successor(c, r.Final())
  {
    var s := c.sp;
    var ip := c.ip + 1;
    match i
    case Rot =>
      if !Window(c, 0, 3) then Undefined(c)
      else
        var c1 := SetCell(c, s, Cell(c, s + 1));
        var c2 := SetCell(c1, s + 1, Cell(c1, s + 2));
        Continue(SetCell(c2, s + 2, Cell(c, s)).(ip := ip))
    case Tuck =>
      if !Window(c, -1, 2) then Undefined(c)
      else
        var c1 := SetCell(c, s - 1, Cell(c, s));
        var c2 := SetCell(c1, s, Cell(c1, s + 1));
        Continue(SetCell(c2, s + 1, Cell(c2, s - 1)).(sp := s - 1, ip := ip))
    case _ => Done(c, InvalidProgram)
  }

  /** LDLOC and LDLOCA (src/mango.c:1161-1192): locals are addressed
      relative to `sp`; LDLOCA pushes the arena offset of cell sp + index. */
  function LocalStep(c: Core, i: Instr): (r: Outcome)
    requires WellFormed(c)
    ensures Successor(c, r.Final())
  {
    var s := c.sp;
    var ip := c.ip + 2;
    match i
    case LdlocX32(k) =>
      if !Window(c, -1, k + 1) then Undefined(c)
      else Continue(SetCell(c, s - 1, Cell(c, s + k)).(sp := s - 1, ip := ip))
    case LdlocX64(k) =>
      if !Window(c, -2, k + 2) then Undefined(c)
      else
        var c1 := SetCell(c, s - 2, Cell(c, s + k));
        Continue(SetCell(c1, s - 1, Cell(c1, s + k + 1)).(sp := s - 2, ip := ip))
    case Ldloca(k) =>
      if !Window(c, -1, 0) then Undefined(c)
      else Continue(SetCell(c, s - 1, c.stack + 4 * (s + k)).(sp := s - 1, ip := ip))
    case _ => Done(c, InvalidProgram)
  }

  /** STLOC (src/mango.c:1194-1211): the top of the stack goes to the
      local at sp + index, which is counted before the pop. */
  function StoreLocalStep(c: Core, i: Instr): (r: Outcome)
    requires WellFormed(c)
    ensures Successor(c, r.Final())
  {
    var s := c.sp;
    var ip := c.ip + 2;
    match i
    case StlocX32(k) =>
      if !Window(c, 0, k + 1) then Undefined(c)
      else Continue(SetCell(c, s + k, Cell(c, s)).(sp := s + 1, ip := ip))
    case StlocX64(k) =>
      if !Window(c, 0, k + 2) then Undefined(c)
      else
        var c1 := SetCell(c, s + k, Cell(c, s));
        Continue(SetCell(c1, s + k + 1, Cell(c1, s + 1)).(sp := s + 2, ip := ip))
    case _ => Done(c, InvalidProgram)
  }

  /** LDC_I32_M1 .. LDC_I32_8, LDC_I32_S, LDC_X32, LDC_X64 and LDFTN
      (src/mango.c:1365-1403), each with its instruction length. */
  function ConstStep(c: Core, i: Instr): (r: Outcome)
    requires WellFormed(c)
    requires i.LdcI32? || i.LdcI32S? || i.LdcX32? || i.LdcX64? || i.Ldftn?
    requires Window(c, if i.LdcX64? then -2 else -1, 0)
    ensures Successor(c, r.Final())
  {
    var s := c.sp;
    match i
    case LdcI32(k) => Continue(SetCell(c, s - 1, k).(sp := s - 1, ip := c.ip + 1))
    case LdcI32S(k) => Continue(SetCell(c, s - 1, k).(sp := s - 1, ip := c.ip + 2))
    case LdcX32(k) => Continue(SetCell(c, s - 1, k).(sp := s - 1, ip := c.ip + 5))
    case LdcX64(lo, hi) =>
      var c1 := SetCell(c, s - 2, lo);
      Continue(SetCell(c1, s - 1, hi).(sp := s - 2, ip := c.ip + 9))
    case Ldftn(slot, target) =>
      Continue(SetCell(c, s - 1, EncodeToken(slot, target)).(sp := s - 1, ip := c.ip + 4))
  }

  /** BR_S .. BRTRUE (src/mango.c:1329-1355): offsets count from the next
      instruction; the conditional forms pop the value they test. */
  function BranchStep(c: Core, i: Instr): (r: Outcome)
    requires WellFormed(c)
    requires i.BrS? || i.BrfalseS? || i.BrtrueS? || i.Br? || i.Brfalse? || i.Brtrue?
    requires !(i.BrS? || i.Br?) ==> Window(c, 0, 1)
    ensures Successor(c, r.Final())
  {
    match i
    case BrS(off) => Continue(c.(ip := c.ip + 2 + off))
    case BrfalseS(off) =>
      Continue(c.(ip := c.ip + 2 + (if Cell(c, c.sp) == 0 then off else 0), sp := c.sp + 1))
    case BrtrueS(off) =>
      Continue(c.(ip := c.ip + 2 + (if Cell(c, c.sp) != 0 then off else 0), sp := c.sp + 1))
    case Br(off) => Continue(c.(ip := c.ip + 3 + off))
    case Brfalse(off) =>
      Continue(c.(ip := c.ip + 3 + (if Cell(c, c.sp) == 0 then off else 0), sp := c.sp + 1))
    case Brtrue(off) =>
      Continue(c.(ip := c.ip + 3 + (if Cell(c, c.sp) != 0 then off else 0), sp := c.sp + 1))
  }

  /** SYSCALL (src/mango.c:1303-1319): only code in full trust may call the
      host; the yield records the depth the host must leave the stack at
      and the call's number. */
  function SyscallStep(c: Core, adjustment: int, id: u16): (r: Outcome)
    requires WellFormed(c)
    ensures Successor(c, r.Final())
  {
    if !c.sf.trusted then Done(c, Security)
    else Yield(c.(ip := c.ip + 4), Wrap(c.sp + adjustment, W16), id)
  }

  // ---------------------------------------------------------------------
  // Integer families

  /** The operands of a binary opcode are in the cells and a signed
      division does not overflow. */
  predicate BinaryOk(c: Core, w: OpWidth, op: BinOp)
    requires WellFormed(c)
  {
    if w == W32 then Window(c, 0, 2) && DefinedBinary(op, W32, Cell(c, c.sp + 1), Cell(c, c.sp))
    else Window(c, 0, 4) && DefinedBinary(op, W64, Cell64(c, c.sp + 2), Cell64(c, c.sp))
  }

  /** `BINARY1F`/`BINARY1D` and `BINARY2F`/`BINARY2D` (src/mango.c:882-950):
      the right operand is on top; the divisions check it for zero first. */
  function BinaryStep(c: Core, w: OpWidth, op: BinOp): (r: Outcome)
    requires WellFormed(c) && BinaryOk(c, w, op)
    ensures Successor(c, r.Final())
  {
    var s := c.sp;
    if w == W32 then
      match Alu.Binary(op, W32, Cell(c, s + 1), Cell(c, s))
      case Fault(code) => Done(c, code)
      case Value(v) => Continue(SetCell(c, s + 1, v).(sp := s + 1, ip := c.ip + 1))
    else
      match Alu.Binary(op, W64, Cell64(c, s + 2), Cell64(c, s))
      case Fault(code) => Done(c, code)
      case Value(v) => Continue(SetCell64(c, s + 2, v).(sp := s + 2, ip := c.ip + 1))
  }

  predicate ShiftOk(c: Core, w: OpWidth)
    requires WellFormed(c)
  {
    Window(c, 0, if w == W32 then 2 else 3) && DefinedShift(w, I32At(c, c.sp))
  }

  /** `SHIFT1`/`SHIFT2`: the amount is one cell on top of the value. */
  function ShiftStep(c: Core, w: OpWidth, op: ShiftOp): (r: Outcome)
    requires WellFormed(c) && ShiftOk(c, w)
    ensures Successor(c, r.Final())
  {
    var s := c.sp;
    if w == W32 then Continue(SetCell(c, s + 1, Alu.Shift(op, W32, Cell(c, s + 1), I32At(c, s))).(sp := s + 1, ip := c.ip + 1))
    else Continue(SetCell64(c, s + 1, Alu.Shift(op, W64, Cell64(c, s + 1), I32At(c, s))).(sp := s + 1, ip := c.ip + 1))
  }

  /** NEG and NOT rewrite the top value in place. */
  function UnaryStep(c: Core, w: OpWidth, op: UnOp): (r: Outcome)
    requires WellFormed(c) && Window(c, 0, if w == W32 then 1 else 2)
    ensures Successor(c, r.Final())
  {
    var s := c.sp;
    if w == W32 then Continue(SetCell(c, s, Alu.Unary(op, W32, Cell(c, s))).(ip := c.ip + 1))
    else Continue(SetCell64(c, s, Alu.Unary(op, W64, Cell64(c, s))).(ip := c.ip + 1))
  }

  /** `COMPARE1`/`COMPARE2`: two values in, one truth cell out. */
  function CompareStep(c: Core, w: OpWidth, cmp: Cmp): (r: Outcome)
    requires WellFormed(c) && Window(c, 0, if w == W32 then 2 else 4)
    ensures Successor(c, r.Final())
  {
    var s := c.sp;
    if w == W32 then Continue(SetCell(c, s + 1, Alu.Compare(cmp, W32, Cell(c, s + 1), Cell(c, s))).(sp := s + 1, ip := c.ip + 1))
    else Continue(SetCell(c, s + 3, Alu.Compare(cmp, W64, Cell64(c, s + 2), Cell64(c, s))).(sp := s + 3, ip := c.ip + 1))
  }

  /** CONV_I8_I32 .. CONV_U16_I32 narrow a cell in place, CONV_I8_I64 ..
      CONV_U32_I64 narrow a pair to one cell, CONV_I64_I32 and CONV_U64_I32
      widen a cell to a pair (src/mango.c:1512-1522, 1994-2016). */
  function ConvertStep(c: Core, i: Instr): (r: Outcome)
    requires WellFormed(c)
    requires i.Conv32? || i.ConvFrom64? || i.ConvTo64?
    requires Window(c, if i.ConvTo64? then -1 else 0, if i.ConvFrom64? then 2 else 1)
    ensures Successor(c, r.Final())
  {
    var s := c.sp;
    var ip := c.ip + 1;
    match i
    case Conv32(t) => Continue(SetCell(c, s, Narrow(t, Cell(c, s))).(ip := ip))
    case ConvFrom64(t) => Continue(SetCell(c, s + 1, Narrow(t, Cell64(c, s))).(sp := s + 1, ip := ip))
    case ConvTo64(signed) => Continue(SetCell64(c, s - 1, Widen(signed, Cell(c, s))).(sp := s - 1, ip := ip))
  }

  // ---------------------------------------------------------------------
  // Objects and arrays

  /** The heap block NEWOBJ or NEWARR asks `mango_heap_alloc` for:
      `count` elements of `size` bytes, cell-aligned. */
  function NewBlock(c: Core, count: nat, size: u16): Option<Block>
    requires WellFormed(c)
  {
    if count >= U32 then None else Alloc(c.heapUsed, |c.mem|, count, size, 4)
  }

  /** The state after a successful allocation: the cursor moves past the
      block and the block is zero-filled. */
  function Allocated(c: Core, b: Block): (c': Core)
    requires WellFormed(c) && c.heapUsed <= b.offset && b.End() <= |c.mem|
    ensures Successor(c, c')
    ensures c'.heapUsed == b.End() && |c'.mem| == |c.mem|
    ensures forall i :: 0 <= i < |c.mem| ==> c'.mem[i] == if b.offset <= i < b.End() then 0 else c.mem[i]
    ensures c' == c.(heapUsed := c'.heapUsed, mem := c'.mem)
  {
    c.(heapUsed := b.End(), mem := ZeroFill(c.mem, b.offset, b.size))
  }

  /** NEWOBJ (src/mango.c:1535-1547): a zeroed object, its reference pushed. */
  function NewobjStep(c: Core, size: u16): (r: Outcome)
    requires WellFormed(c) && (NewBlock(c, 1, size).Some? ==> Window(c, -1, 0))
    ensures Successor(c, r.Final())
  {
    match NewBlock(c, 1, size)
    case None => Done(c, OutOfMemory)
    case Some(b) => Continue(SetCell(Allocated(c, b), c.sp - 1, b.offset).(sp := c.sp - 1, ip := c.ip + 3))
  }

  predicate NewarrOk(c: Core, size: u16)
    requires WellFormed(c)
  {
    Window(c, 0, 1) && (I32At(c, c.sp) >= 0 && NewBlock(c, I32At(c, c.sp), size).Some? ==> Window(c, -1, 0))
  }

  /** NEWARR (src/mango.c:1549-1565): the count on top is kept as the
      slice's length under the new reference. */
  function NewarrStep(c: Core, size: u16): (r: Outcome)
    requires WellFormed(c) && NewarrOk(c, size)
    ensures Successor(c, r.Final())
  {
    var count := I32At(c, c.sp);
    if count < 0 then Done(c, Argument)
    else match NewBlock(c, count, size)
      case None => Done(c, OutOfMemory)
      case Some(b) => Continue(SetCell(Allocated(c, b), c.sp - 1, b.offset).(sp := c.sp - 1, ip := c.ip + 3))
  }

  /** SLICE1 (src/mango.c:1567-1581): the start is checked against the
      length before the reference is checked against null. */
  function Slice1Step(c: Core): (r: Outcome)
    requires WellFormed(c) && Window(c, 0, 3)
    ensures Successor(c, r.Final())
  {
    var s := c.sp;
    var start := I32At(c, s);
    if start < 0 || start > I32At(c, s + 2) then Done(c, Argument)
    else if Cell(c, s + 1) == 0 then Done(c, NullReference)
    else
      var c1 := SetCell(c, s + 1, Cell(c, s + 1) + start);
      Continue(SetCell(c1, s + 2, I32At(c, s + 2) - start).(sp := s + 1, ip := c.ip + 1))
  }

  /** SLICE2 (src/mango.c:1583-1601). */
  function Slice2Step(c: Core): (r: Outcome)
    requires WellFormed(c) && Window(c, 0, 4)
    ensures Successor(c, r.Final())
  {
    var s := c.sp;
    var length, start := I32At(c, s), I32At(c, s + 1);
    if start < 0 || start > I32At(c, s + 3) then Done(c, Argument)
    else if length < 0 || length > I32At(c, s + 3) - start then Done(c, Argument)
    else if Cell(c, s + 2) == 0 then Done(c, NullReference)
    else
      var c1 := SetCell(c, s + 2, Cell(c, s + 2) + start);
      Continue(SetCell(c1, s + 3, length).(sp := s + 2, ip := c.ip + 1))
  }

  /** Bytes a field or element load reads. */
  function LoadBytes(k: LoadKind): nat {
    match k
    case Int(t) => t.Bytes()
    case X64 => 8
  }

  /** The field offset is not checked against the object's size, so the
      bytes reached must be arena bytes for C to define the access. */
  predicate LdfldOk(c: Core, kind: LoadKind, off: u16)
    requires WellFormed(c)
  {
    Window(c, 0, 1) &&
    (Cell(c, c.sp) != 0 ==> (kind.X64? ==> Window(c, -1, 1)) && MemOk(c, Cell(c, c.sp) + off, LoadBytes(kind)))
  }

  /** LDFLD (src/mango.c:1609-1659): the reference on top is replaced by the
      field, read through the C type of the opcode. */
  function LdfldStep(c: Core, kind: LoadKind, off: u16): (r: Outcome)
    requires WellFormed(c) && LdfldOk(c, kind, off)
    ensures Successor(c, r.Final())
  {
    var s := c.sp;
    var ref := Cell(c, s);
    if ref == 0 then Done(c, NullReference)
    else
      var a := ref + off;
      match kind
      case Int(t) => Continue(SetCell(c, s, Narrow(t, Load(c.mem, a, t.Bytes()))).(ip := c.ip + 3))
      case X64 =>
        var c1 := SetCell(c, s - 1, Load(c.mem, a, 4));
        Continue(SetCell(c1, s, Load(c.mem, a + 4, 4)).(sp := s - 1, ip := c.ip + 3))
  }

  /** LDFLDA: the reference plus the offset, in 32 bits. */
  function LdfldaStep(c: Core, off: u16): (r: Outcome)
    requires WellFormed(c) && Window(c, 0, 1)
    ensures Successor(c, r.Final())
  {
    if Cell(c, c.sp) == 0 then Done(c, NullReference)
    else Continue(SetCell(c, c.sp, Cell(c, c.sp) + off).(ip := c.ip + 3))
  }

  /** Cells STFLD pops: the value (one or two cells) and the reference. */
  function StfldCells(w: StoreWidth): nat {
    if w == S64 then 3 else 2
  }

  predicate StfldOk(c: Core, w: StoreWidth, off: u16)
    requires WellFormed(c)
  {
    var n := StfldCells(w);
    Window(c, 0, n) && (Cell(c, c.sp + n - 1) != 0 ==> MemOk(c, Cell(c, c.sp + n - 1) + off, w.Bytes()))
  }

  /** STFLD (src/mango.c:1661-1695): the value's low bytes go to the field. */
  function StfldStep(c: Core, w: StoreWidth, off: u16): (r: Outcome)
    requires WellFormed(c) && StfldOk(c, w, off)
    ensures Successor(c, r.Final())
  {
    var s := c.sp;
    var n := StfldCells(w);
    var ref := Cell(c, s + n - 1);
    if ref == 0 then Done(c, NullReference)
    else if w == S64 then
      var m1 := Store(c.mem, ref + off, 4, Cell(c, s));
      Continue(c.(mem := Store(m1, ref + off + 4, 4, Cell(c, s + 1)), sp := s + 3, ip := c.ip + 3))
    else Continue(c.(mem := Store(c.mem, ref + off, w.Bytes(), Cell(c, s)), sp := s + 2, ip := c.ip + 3))
  }

  /** The element checks of LDELEM, LDELEMA and STELEM: the index (a cell
      read as `int32_t`) against the length. */
  predicate InBounds(index: int, length: int) {
    0 <= index < length
  }

  /** Where element `index` of `b`-byte elements of the array at `ref` starts. */
  function ElementAt(ref: int, index: int, b: nat): int {
    ref + index * b
  }

  predicate LdelemOk(c: Core, kind: LoadKind)
    requires WellFormed(c)
  {
    Window(c, 0, 3) &&
    (InBounds(I32At(c, c.sp), I32At(c, c.sp + 2)) && Cell(c, c.sp + 1) != 0 ==>
       MemOk(c, ElementAt(Cell(c, c.sp + 1), I32At(c, c.sp), LoadBytes(kind)), LoadBytes(kind)))
  }

  /** LDELEM (src/mango.c:1710-1756): the index on top of the slice's
      reference and length; the three cells become the element. */
  function LdelemStep(c: Core, kind: LoadKind): (r: Outcome)
    requires WellFormed(c) && LdelemOk(c, kind)
    ensures Successor(c, r.Final())
  {
    var s := c.sp;
    var index := I32At(c, s);
    if !InBounds(index, I32At(c, s + 2)) then Done(c, IndexOutOfRange)
    else if Cell(c, s + 1) == 0 then Done(c, NullReference)
    else
      var a := ElementAt(Cell(c, s + 1), index, LoadBytes(kind));
      match kind
      case Int(t) => Continue(SetCell(c, s + 2, Narrow(t, Load(c.mem, a, t.Bytes()))).(sp := s + 2, ip := c.ip + 1))
      case X64 =>
        var c1 := SetCell(c, s + 1, Load(c.mem, a, 4));
        Continue(SetCell(c1, s + 2, Load(c.mem, a + 4, 4)).(sp := s + 1, ip := c.ip + 1))
  }

  /** LDELEMA (src/mango.c:1758-1773): the element's address, in 32 bits. */
  function LdelemaStep(c: Core, size: u16): (r: Outcome)
    requires WellFormed(c) && Window(c, 0, 3)
    ensures Successor(c, r.Final())
  {
    var s := c.sp;
    var index := I32At(c, s);
    if !InBounds(index, I32At(c, s + 2)) then Done(c, IndexOutOfRange)
    else if Cell(c, s + 1) == 0 then Done(c, NullReference)
    else Continue(SetCell(c, s + 2, ElementAt(Cell(c, s + 1), index, size)).(sp := s + 2, ip := c.ip + 3))
  }

  /** Cells STELEM pops: the value (one or two cells), the index, the
      reference and the length. */
  function StelemCells(w: StoreWidth): nat {
    if w == S64 then 5 else 4
  }

  predicate StelemOk(c: Core, w: StoreWidth)
    requires WellFormed(c)
  {
    var n := StelemCells(w);
    Window(c, 0, n) &&
    (InBounds(I32At(c, c.sp + n - 3), I32At(c, c.sp + n - 1)) && Cell(c, c.sp + n - 2) != 0 ==>
       MemOk(c, ElementAt(Cell(c, c.sp + n - 2), I32At(c, c.sp + n - 3), w.Bytes()), w.Bytes()))
  }

  /** STELEM (src/mango.c:1775-1818). */
  function StelemStep(c: Core, w: StoreWidth): (r: Outcome)
    requires WellFormed(c) && StelemOk(c, w)
    ensures Successor(c, r.Final())
  {
    var s := c.sp;
    var n := StelemCells(w);
    var index := I32At(c, s + n - 3);
    if !InBounds(index, I32At(c, s + n - 1)) then Done(c, IndexOutOfRange)
    else if Cell(c, s + n - 2) == 0 then Done(c, NullReference)
    else
      var a := ElementAt(Cell(c, s + n - 2), index, w.Bytes());
      if w == S64 then
        var m1 := Store(c.mem, a, 4, Cell(c, s));
        Continue(c.(mem := Store(m1, a + 4, 4, Cell(c, s + 1)), sp := s + 5, ip := c.ip + 1))
      else Continue(c.(mem := Store(c.mem, a, w.Bytes(), Cell(c, s)), sp := s + 4, ip := c.ip + 1))
  }

  // ---------------------------------------------------------------------
  // The dispatcher

  /** Calls, returns, SYSCALL, branches and constants. */
  function FlowStep(mods: seq<ModuleRec>, c: Core, i: Instr): (r: Outcome)
    requires WellFormed(c) && InModule(mods, c)
    ensures Successor(c, r.Final())
  {
    match i
    case Ret => if c.rp >= 1 && Window(c, 0, c.sf.pop) then RetStep(c, 0) else Undefined(c)
    case RetX32 => if c.rp >= 1 && Window(c, 0, c.sf.pop + 1) then RetStep(c, 1) else Undefined(c)
    case RetX64 => if c.rp >= 1 && Window(c, 0, c.sf.pop + 2) then RetStep(c, 2) else Undefined(c)
    case Call(slot, target) =>
      if CallDefined(mods, c, slot, target) then CallStep(mods, c, slot, target, false) else Undefined(c)
    case Calli =>
      if Window(c, 0, 1) && CallDefined(mods, c, TokenSlot(Cell(c, c.sp)), TokenIp(Cell(c, c.sp)))
      then CallStep(mods, c, TokenSlot(Cell(c, c.sp)), TokenIp(Cell(c, c.sp)), true) else Undefined(c)
    case Syscall(adjustment, id) => SyscallStep(c, adjustment, id)
    case BrS(_) | Br(_) => BranchStep(c, i)
    case BrfalseS(_) | BrtrueS(_) | Brfalse(_) | Brtrue(_) =>
      if Window(c, 0, 1) then BranchStep(c, i) else Undefined(c)
    case LdcI32(_) | LdcI32S(_) | LdcX32(_) | Ldftn(_, _) =>
      if Window(c, -1, 0) then ConstStep(c, i) else Undefined(c)
    case LdcX64(_, _) => if Window(c, -2, 0) then ConstStep(c, i) else Undefined(c)
    case _ => Done(c, InvalidProgram)
  }

  /** The integer and conversion opcodes. */
  function IntegerStep(c: Core, i: Instr): (r: Outcome)
    requires WellFormed(c)
    ensures Successor(c, r.Final())
  {
    match i
    case Binary(w, op) => if BinaryOk(c, w, op) then BinaryStep(c, w, op) else Undefined(c)
    case Shift(w, op) => if ShiftOk(c, w) then ShiftStep(c, w, op) else Undefined(c)
    case Unary(w, op) => if Window(c, 0, if w == W32 then 1 else 2) then UnaryStep(c, w, op) else Undefined(c)
    case Compare(w, cmp) => if Window(c, 0, if w == W32 then 2 else 4) then CompareStep(c, w, cmp) else Undefined(c)
    case Conv32(_) | ConvFrom64(_) | ConvTo64(_) =>
      if Window(c, if i.ConvTo64? then -1 else 0, if i.ConvFrom64? then 2 else 1) then ConvertStep(c, i)
      else Undefined(c)
    case _ => Done(c, InvalidProgram)
  }

  /** The object and array opcodes. */
  function ObjectStep(c: Core, i: Instr): (r: Outcome)
    requires WellFormed(c)
    ensures Successor(c, r.Final())
  {
    match i
    case Newobj(size) => if NewBlock(c, 1, size).Some? ==> Window(c, -1, 0) then NewobjStep(c, size) else Undefined(c)
    case Newarr(size) => if NewarrOk(c, size) then NewarrStep(c, size) else Undefined(c)
    case Slice1 => if Window(c, 0, 3) then Slice1Step(c) else Undefined(c)
    case Slice2 => if Window(c, 0, 4) then Slice2Step(c) else Undefined(c)
    case Ldfld(kind, off) => if LdfldOk(c, kind, off) then LdfldStep(c, kind, off) else Undefined(c)
    case Ldflda(off) => if Window(c, 0, 1) then LdfldaStep(c, off) else Undefined(c)
    case Stfld(w, off) => if StfldOk(c, w, off) then StfldStep(c, w, off) else Undefined(c)
    case Ldelem(kind) => if LdelemOk(c, kind) then LdelemStep(c, kind) else Undefined(c)
    case Ldelema(size) => if Window(c, 0, 3) then LdelemaStep(c, size) else Undefined(c)
    case Stelem(w) => if StelemOk(c, w) then StelemStep(c, w) else Undefined(c)
    case _ => Done(c, InvalidProgram)
  }

  /** One instruction of `_mango_execute`. HALT returns STACK_IMBALANCE
      unless the operand stack is empty (src/mango.c:1073-1077); BREAK steps
      past itself and returns BREAKPOINT; an unused opcode is `invalid:`. */
  function Step(mods: seq<ModuleRec>, c: Core, i: Instr): (r: Outcome)
    requires WellFormed(c) && InModule(mods, c)
    ensures Successor(c, r.Final())
  {
    match i
    case Halt => Done(c, if c.sp < c.stackSize then StackImbalance else Success)
    case Nop => Continue(c.(ip := c.ip + 1))
    case Break => Done(c.(ip := c.ip + 1), Breakpoint)
    case Unused(_) => Done(c, InvalidProgram)
    case PopX32 | PopX64 | DupX32 | DupX64 | Over => ShuffleStep(c, i)
    case Swap | Nip => PermuteStep(c, i)
    case Rot | Tuck => RotateStep(c, i)
    case LdlocX32(_) | LdlocX64(_) | Ldloca(_) => LocalStep(c, i)
    case StlocX32(_) | StlocX64(_) => StoreLocalStep(c, i)
    case Ret | RetX32 | RetX64 | Call(_, _) | Calli | Syscall(_, _) => FlowStep(mods, c, i)
    case BrS(_) | BrfalseS(_) | BrtrueS(_) | Br(_) | Brfalse(_) | Brtrue(_) => FlowStep(mods, c, i)
    case LdcI32(_) | LdcI32S(_) | LdcX32(_) | LdcX64(_, _) | Ldftn(_, _) => FlowStep(mods, c, i)
    case Binary(_, _) | Shift(_, _) | Unary(_, _) | Compare(_, _) => IntegerStep(c, i)
    case Conv32(_) | ConvFrom64(_) | ConvTo64(_) => IntegerStep(c, i)
    case Newobj(_) | Newarr(_) | Slice1 | Slice2 | Ldfld(_, _) | Ldflda(_) | Stfld(_, _) => ObjectStep(c, i)
    case Ldelem(_) | Ldelema(_) | Stelem(_) => ObjectStep(c, i)
  }

  // ---------------------------------------------------------------------
  // Running

  /** How a run of the dispatch loop ends: through `done:` with a result,
      through `yield:` after SYSCALL, at a case the model does not follow
      (including an `ip` that is not at an instruction of the current
      module), or with the step budget used up. */
  datatype Halted =
    | Finished(core: Core, code: Code)
    | Suspended(core: Core, spExpected: u16, syscall: u16)
    | Stuck(core: Core)
    | OutOfFuel(core: Core)

  /** At most `fuel` instructions from state c: fetch the instruction at
      `ip` and, if there is one, carry it out. */
  function Exec(mods: seq<ModuleRec>, c: Core, fuel: nat): (r: Halted)
    requires WellFormed(c)
    ensures Successor(c, r.core)
    decreases fuel, 0
  {
    if fuel == 0 then OutOfFuel(c)
    else match Fetch(mods, c)
      case None => Stuck(c)
      case Some(i) => Fire(mods, c, i, fuel - 1)
  }

  /** The run after carrying out the fetched instruction i, with `fuel`
      instructions left. */
  function Fire(mods: seq<ModuleRec>, c: Core, i: Instr, fuel: nat): (r: Halted)
    requires WellFormed(c) && Fetch(mods, c) == Some(i)
    ensures Successor(c, r.core)
    decreases fuel, 2
  {
    Resume(mods, c, Step(mods, c, i), fuel)
  }

  /** How the run goes on after an instruction from c led to o. */
  function Resume(mods: seq<ModuleRec>, c: Core, o: Outcome, fuel: nat): (r: Halted)
    requires WellFormed(c) && Successor(c, o.Final())
    ensures Successor(c, r.core)
    decreases fuel, 1
  {
    match o
    case Continue(next) => Exec(mods, next, fuel)
    case Done(d, code) => Finished(d, code)
    case Yield(d, e, id) => Suspended(d, e, id)
    case Undefined(d) => Stuck(d)
  }

  /** One pass through the opcode switch of `_mango_execute`: the
      outcome the run goes on from, whatever the budget left. */
  method StepOnce(mods: seq<ModuleRec>, c: Core, i: Instr) returns (o: Outcome)
    requires WellFormed(c) && Fetch(mods, c) == Some(i)
    ensures Successor(c, o.Final())
    ensures forall n: nat :: Fire(mods, c, i, n) == Resume(mods, c, o, n)
  {
    o := Step(mods, c, i);
  }

  /** The dispatch loop of `_mango_execute` (src/mango.c:1068 and each
      opcode's `NEXT`) on the registers, for at most `fuel` instructions. */
  method Dispatch(mods: seq<ModuleRec>, c0: Core, fuel: nat) returns (h: Halted)
    requires WellFormed(c0)
    ensures h == Exec(mods, c0, fuel)
  {
    var c := c0;
    var n := fuel;
    while true
      invariant WellFormed(c)
      invariant Exec(mods, c, n) == Exec(mods, c0, fuel)
      decreases n
    {
      if n == 0 {
        return OutOfFuel(c);
      }
      var f := Fetch(mods, c);
      if f.None? {
        return Stuck(c);
      }
      var o := StepOnce(mods, c, f.value);
      match o {
        case Continue(next) =>
          c, n := next, n - 1;
        case Done(d, code) =>
          return Finished(d, code);
        case Yield(d, e, id) =>
          return Suspended(d, e, id);
        case Undefined(d) =>
          return Stuck(d);
      }
    }
  }
}
