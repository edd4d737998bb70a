# mango: a Dafny model of the VM core

mango is a small bytecode virtual machine written in C. It works entirely
inside one block of memory that the host hands it. That *arena* holds the
VM header, a bump heap, a two-ended stack of 4-byte cells, the module table
with its import-index arrays, and every object and array the program
allocates. This project models the core of `src/mango.c` and proves
properties of the model.

- **Words** and **Memory**: unsigned and two's-complement words of 8 to 64
  bits, C's truncating division, and little-endian loads and stores over the
  arena bytes.
- **Alu**: the integer opcodes' arithmetic.
  - ADD, SUB, MUL and NEG wrap, because the overflow flag of
    `__builtin_*_overflow` is dropped.
  - DIV and REM fault on a zero divisor.
  - It also covers shifts, comparisons, narrowing and widening.
- **Heap**: `mango_heap_alloc`'s overflow-checked bump allocation, as a
  function of the cursor and the request.
- **Stacks**: the arithmetic of the two-ended stack. `rp` grows up from cell
  0, and `sp` grows down from the last cell.
- **Frames**: the saved stack frame, LDFTN's function token and the trust
  gate. The same trust check appears in `_mango_set_entry_point` and in
  `call:`.
- **Images**: module images at the level `mango.c` reads them.
  - There is an application record, function descriptors,
    the import list, and instructions indexed by byte offset.
  - The encoding of instructions into bytes is not modelled.
- **Registry**: the module table and `_mango_get_or_create_module`. A name
  is never stored twice: a slot finds its name through the importer's
  import list.
- **Schedule**: the intrusive doubly-linked initializer list and the
  splice-to-front walk `mango_execute` runs over it, as functions on the
  table and lemmas about them.
- **Machine**: the registers of `_mango_execute`, and the stack cells viewed
  as words inside the arena.
- **Interp**: one instruction as a function of the machine state, the
  fuel-bounded run, and the dispatch loop as a method proved equal to it.
- **Semantics**: what each opcode does to the operand stack, the frames and
  the arena, stated per opcode family.
- **Arena**: the VM object as a class `Vm`.
  - The arena is the byte field `mem`.
  - The heap cursor and stack registers are fields, and so are the module
    table, the initializer list head and the VISITED bit of the VM.
  - `mango_initialize`, the heap and stack API, the import protocol, the
    entry point and `mango_execute` are its methods.

Two kinds of run are outside what the model describes. They are stated
as `requires` on the function that models them, or as the `Undefined`
outcome of a step: the run stops `Stuck`, and the host sees
`UndefinedBehaviour`. The model claims nothing about such runs.
- **Behaviour that C leaves undefined**: `MIN / -1`, a shift count not
  below the width, and bytes outside the block the host handed the VM.
- **Reads the model cannot express**: the VM header, the module table and
  the import arrays are fields here, not bytes of the arena, and images are
  records. A read that in the source lands on such bytes has no value in
  the model. "## Left out" lists these cases.

## Model

| member | source | states |
|---|---|---|
| Words.Wrap | src/mango.c:890-896 | The result is in [0, 2^n), and a value already in range is kept unchanged. |
| Words.Signed | src/mango.c:126-137 | The two's-complement reading of an n-bit pattern lies in [-2^(n-1), 2^(n-1)). |
| Words.WrapSigned | src/mango.c:126-137 | Reading a pattern as signed and storing it back gives the same pattern. |
| Words.Not | src/mango.c:1471-1472 | `~v` on an n-bit unsigned value is again an n-bit value. |
| Words.NotFlipsBits | src/mango.c:1471-1472 | `~v` flips each of the n bits of the value: bit i of the result is 1 exactly when bit i of v is 0. |
| Words.ComplementBit | src/mango.c:1471-1472 | Below bit n, 2^n - 1 - a has each bit of a flipped. |
| Words.ModulusBits | src/mango.c:1471-1472 | The modulus of each width is 2 raised to its number of bits. |
| Memory.Load | src/mango.c:126-137 | An n-byte little-endian load is below 256^n. |
| Memory.StoreOutside | src/mango.c:1661-1695 | A store of n bytes at a changes no byte outside [a, a + n). |
| Memory.LoadSame | src/mango.c:1609-1648 | A load depends only on the n bytes it reads. |
| Memory.LoadStore | src/mango.c:1661-1695 | Loading back what was stored gives the stored value reduced modulo 256^n. |
| Memory.ZeroFill | src/mango.c:350-352 | After `memset(block, 0, n)`, exactly the bytes [a, a + n) are zero and every other byte is unchanged. |
| Alu.Binary | src/mango.c:882-937 | The result faults exactly for a division or remainder by zero, and the fault is DIVIDE_BY_ZERO. Every other result fits the width. |
| Alu.Shift | src/mango.c:954-969 | A shift's result fits the width. |
| Alu.Unary | src/mango.c:1444-1472 | NEG's and NOT's result fits the width. |
| Alu.Compare | src/mango.c:1006-1040 | A comparison yields the C truth value 0 or 1. |
| Alu.Narrow | src/mango.c:1512-1522 | A cast to a narrower type, widened back into a cell, is a valid 32-bit cell. |
| Alu.Widen | src/mango.c:2012-2017 | The sign- or zero-extension of a cell is a valid 64-bit pattern. |
| Alu.WrapAround | src/mango.c:890-896 | ADD, SUB and MUL give the exact result when it fits the width. Otherwise they give the exact result less a multiple of 2^n, in range. |
| Alu.AddOverflow | src/mango.c:1423-1424 | Addition that overflows wraps exactly once: the result is a + b - 2^n. |
| Alu.TruncatedDivision | src/mango.c:898-907 | C's quotient and remainder recombine to the dividend. The remainder is smaller than the divisor in magnitude and has the dividend's sign, and the quotient truncates toward zero. |
| Alu.RemMagnitude | src/mango.c:1438-1439 | REM's magnitude is the remainder of the magnitudes, with the dividend's sign. |
| Alu.SignedDivisionExact | src/mango.c:1432-1433 | Outside `MIN / -1`, DIV read as signed is exactly C's truncated quotient of the signed operands. |
| Alu.NarrowKeepsFitting | src/mango.c:1512-1522 | A cast keeps every value the target type can hold. |
| Alu.WidenNarrow | src/mango.c:2006-2017 | CONV_I64_I32 or CONV_U64_I32 followed by CONV_I32_I64 gives the cell back. |
| Alu.EqualityViewsAgree | src/mango.c:1478-1483 | CEQ (signed view) and CNE (unsigned view) are each other's negation. |
| Alu.ShiftRoundTrip | src/mango.c:1453-1460 | SHR_UN by k then SHL by k clears exactly the k low bits. |
| Alu.ShiftLeftRoundTrip | src/mango.c:954-969 | SHL by k then SHR_UN by k loses the k top bits: it gives v mod 2^(n - k). |
| Alu.ShiftRightFloors | src/mango.c:954-969 | SHR is arithmetic: its result read as signed is the signed value divided by 2^k, rounded down. |
| Alu.SignedOrderBiased | src/mango.c:1006-1040 | CLT and CLE order the signed views exactly as CLT_UN and CLE_UN order the patterns with the sign bit flipped. |
| Alu.CompareMeaning | src/mango.c:1006-1040 | CLT tests `<` on the signed views and CLT_UN on the patterns. CGE and CLE negate CLT and CGT, and CGT mirrors CLT, in both forms. |
| Alu.WidenKeepsValue | src/mango.c:2012-2017 | CONV_I64_I32 keeps the signed value of the cell. CONV_U64_I32 keeps its unsigned value, which the 64-bit signed view reads unchanged. |
| Alu.UnaryInvolution | src/mango.c:1444-1472 | NEG twice, and NOT twice, give the value back. |
| Heap.RoundUp | src/mango.c:337-338 | The aligned-up cursor is a multiple of the alignment, not below the cursor, and less than one alignment above it. |
| Heap.Alloc | src/mango.c:319-355 | Allocation succeeds exactly when all of these hold: the alignment is 1, 2 or 4; `count * size` fits 32 bits; the aligned cursor does not overflow; and the block fits the heap. A block is aligned and starts at or after the cursor. |
| Heap.SuccessiveBlocksDisjoint | src/mango.c:319-355 | The next successful allocation starts at or after the end of the previous block. |
| Heap.AllocAll | src/mango.c:319-355 | Over a series of requests the cursor only moves forward and stays within the heap. |
| Heap.AllocAllDisjoint | src/mango.c:319-355 | The blocks of a series lie in allocation order between the first and last cursor, so no two overlap and none leaves the heap. |
| Stacks.CellCount | src/mango.c:405-431 | A request takes its size rounded up to whole cells, and with a permitted size the count fits 16 bits. |
| Stacks.AllocSp | src/mango.c:405-431 | The stack allocation succeeds exactly when `rp + cells <= sp`. The new `sp` is lower by those cells and still at or above `rp`. |
| Stacks.FreeSp | src/mango.c:433-452 | Freeing succeeds exactly when `sp + cells <= stack_size`. The new `sp` is higher by those cells and still within the array. |
| Stacks.AllocThenFree | src/mango.c:405-452 | Freeing what was just allocated succeeds and restores `sp`. |
| Stacks.Available | src/mango.c:476-485 | With `rp <= sp`, the bytes available are 4 (sp - rp). |
| Stacks.AllocWhenAvailable | src/mango.c:405-485 | An allocation succeeds exactly when the available bytes cover the request rounded up to cells. |
| Frames.FrameRoundTrip | src/mango.c:113-118 | A saved frame decodes to the frame saved, trust included. |
| Frames.TokenRoundTrip | src/mango.c:120-124 | CALLI reads back the module slot and offset that LDFTN packed into the token. |
| Frames.TrustGate | src/mango.c:1266-1278 | A full-trust caller always passes and stays trusted.<br>A sandboxed caller is refused exactly when the callee is critical and not both SAFE_CRITICAL and in a module imported as trusted. A callee that is not critical always passes.<br>A sandboxed caller is elevated exactly when the callee is SAFE_CRITICAL and its module is imported as trusted. |
| Registry.ModuleName | src/mango.c:491-498 | A slot's name is an entry of the import list of the module that first named it. |
| Registry.GetOrCreate | src/mango.c:500-522 | The result is always a registered index that stands for the name, and the table stays registered.<br>The table is unchanged exactly when the name is the application's or already registered; only a new name needs a free slot.<br>Otherwise the next slot is claimed.<br>The set of registered names grows by the name unless it is the application's.<br>Every earlier index keeps its name. |
| Registry.FindName | src/mango.c:506-510 | The search finds a slot exactly when the name is registered, and the slot it finds carries the name. |
| Registry.ResolveAll | src/mango.c:536-539 | After the loop, entry k is the index that import k registers under and stands for that name.<br>Exactly the distinct imported names that are neither the application's nor registered take new slots, and only those need room.<br>Only names are added to the table. |
| Registry.NamesIdentifySlots | src/mango.c:500-522 | No name is registered under two indices. |
| Registry.RegisterNew | src/mango.c:517-521 | A new name takes the next slot, named through the importer's list, and every other slot keeps its name. |
| Registry.ResolveImports | src/mango.c:536-541 | Attaching an import array that resolves the import list keeps the table registered. |
| Registry.SupplyNext | src/mango.c:617-624 | Supplying the first missing module's image keeps every name where it was, and the set of registered names. |
| Registry.RegisteredRelinked | src/mango.c:751-784 | Changing only visited bits and list links keeps the registration facts. |
| Schedule.StartScheduled | src/mango.c:584-599 | A table with only the application's module on the list satisfies the walk's invariant. |
| Schedule.ScheduledKept | src/mango.c:617-624 | Table changes that leave links, visited bits and attached import arrays alone keep the invariant, including the dependency order of the log. |
| Schedule.ScheduledGrow | src/mango.c:617-624 | A newly supplied, unlinked, unvisited slot joins the invariant. |
| Schedule.Splice | src/mango.c:761-774 | The splice statements keep the table's length. |
| Schedule.SpliceAt | src/mango.c:761-774 | Slot by slot, a splice rewrites only the links: p, its old neighbours and the old head. |
| Schedule.SpliceLinked | src/mango.c:761-774 | The splice turns the links of list q into the links of q with p moved to the front. |
| Schedule.FrontMembers | src/mango.c:761-774 | Moving p to the front keeps every entry and adds p. |
| Schedule.FrontDistinct | src/mango.c:761-774 | Moving p to the front keeps the list free of duplicates. |
| Schedule.FrontPrecedes | src/mango.c:761-774 | After the move, p precedes every other entry, and every earlier order between other entries is kept. |
| Schedule.Dequeue | src/mango.c:777-784 | Taking the head off keeps the table's length. |
| Schedule.DequeueLinked | src/mango.c:777-784 | Taking the head off leaves the links of the rest of the list, and the head's successor is the new head. |
| Schedule.VisitStart | src/mango.c:751-752 | Marking the unvisited head visited starts its visit and lowers the count of unvisited modules. |
| Schedule.VisitSkip | src/mango.c:760-761 | An import already visited, or already the head, needs no splice. |
| Schedule.VisitSplice | src/mango.c:760-774 | Splicing an unvisited import in front puts it ahead of the module being visited and keeps the invariant and the unvisited count. |
| Schedule.VisitEnd | src/mango.c:751-776 | Once all of a module's imports are handled, the list is ordered again. |
| Schedule.DequeueStep | src/mango.c:777-784 | A visited head has every import visited. It leaves the list for the log, keeping the invariant. |
| Schedule.WalkComplete | src/mango.c:744-798 | When the list is empty, the log contains the application, has no duplicates and is closed under imports: each reachable module is taken off exactly once. Its dependencies come first. |
| Schedule.ReachBack | src/mango.c:760-774 | An import that reaches its importer back closes a cycle through the importer. |
| Schedule.AcyclicImportsBefore | src/mango.c:744-798 | In a log that puts dependencies first, without import cycles every import comes before its importer. |
| Schedule.VisitStartReached | src/mango.c:751-752 | Marking the head visited keeps the reach facts of the list and the log. Every other visited module on the list reaches the head. |
| Schedule.FrontReached | src/mango.c:760-774 | Splicing an unvisited import in front keeps the reach facts: every visited module behind it reaches it. |
| Schedule.LogReached | src/mango.c:777-784 | Logging a visited head keeps dependencies first: each of its imports is logged already or reaches it back. |
| Schedule.TailReached | src/mango.c:777-784 | The reach facts of the list hold of its tail. |
| Schedule.SpliceRelinks | src/mango.c:761-774 | A splice changes only links. |
| Schedule.DequeueRelinks | src/mango.c:777-784 | Taking the head off changes only links. |
| Schedule.VisitImports | src/mango.c:751-776 | The visit loop keeps the invariant, visits one more module, and changes only visited bits and links. |
| Machine.CellSet | src/mango.c:126-137 | The stored cell reads back as the value mod 2^32, and every other cell is unchanged. |
| Machine.Cell64Set | src/mango.c:139-151 | A 64-bit value stored as low word then high word reads back mod 2^64. |
| Machine.Cell64SetOther | src/mango.c:139-151 | A 64-bit store keeps every cell outside the pair. |
| Machine.SetCellOutside | src/mango.c:126-137 | A cell store changes no arena byte outside that cell. |
| Interp.CallStep | src/mango.c:1250-1301 | CALL and CALLI keep the stack's place and size and the arena size. |
| Interp.Enter | src/mango.c:715-721 | `rp` is one higher, `sp` lower by the locals, and the entered frame runs.<br>The saved cell decodes to the caller's frame.<br>Every other cell is unchanged. |
| Interp.RetStep | src/mango.c:1222-1241 | RET keeps the stack's place and size and the arena size. |
| Interp.ShuffleStep | src/mango.c:1090-1126 | POP, DUP and OVER keep the stack's place and size and the arena size. |
| Interp.PermuteStep | src/mango.c:1113-1142 | SWAP and NIP keep the stack's place and size and the arena size. |
| Interp.RotateStep | src/mango.c:1128-1150 | ROT and TUCK keep the stack's place and size and the arena size. |
| Interp.LocalStep | src/mango.c:1161-1192 | LDLOC and LDLOCA keep the stack's place and size and the arena size. |
| Interp.StoreLocalStep | src/mango.c:1194-1211 | STLOC keeps the stack's place and size and the arena size. |
| Interp.ConstStep | src/mango.c:1365-1403 | The constants keep the stack's place and size and the arena size. |
| Interp.BranchStep | src/mango.c:1329-1355 | The branches keep the stack's place and size and the arena size. |
| Interp.SyscallStep | src/mango.c:1303-1319 | SYSCALL keeps the stack's place and size and the arena size. |
| Interp.BinaryStep | src/mango.c:882-937 | The binary operators keep the stack's place and size and the arena size. |
| Interp.ShiftStep | src/mango.c:954-969 | The shifts keep the stack's place and size and the arena size. |
| Interp.UnaryStep | src/mango.c:939-952 | NEG and NOT keep the stack's place and size and the arena size. |
| Interp.CompareStep | src/mango.c:1006-1040 | The comparisons keep the stack's place and size and the arena size. |
| Interp.ConvertStep | src/mango.c:1994-2017 | The conversions keep the stack's place and size and the arena size. |
| Interp.Allocated | src/mango.c:319-355 | After an allocation the heap cursor is at the block's end. The block reads as zeros and every other byte is unchanged. Nothing else in the state changes. |
| Interp.NewobjStep | src/mango.c:1535-1547 | NEWOBJ never moves the heap cursor back. |
| Interp.NewarrStep | src/mango.c:1549-1565 | NEWARR never moves the heap cursor back. |
| Interp.Slice1Step | src/mango.c:1567-1581 | SLICE1 keeps the stack's place and size and the arena size. |
| Interp.Slice2Step | src/mango.c:1583-1601 | SLICE2 keeps the stack's place and size and the arena size. |
| Interp.LdfldStep | src/mango.c:1609-1648 | LDFLD keeps the stack's place and size and the arena size. |
| Interp.LdfldaStep | src/mango.c:1650-1659 | LDFLDA keeps the stack's place and size and the arena size. |
| Interp.StfldStep | src/mango.c:1661-1695 | STFLD keeps the stack's place and size and the arena size. |
| Interp.LdelemStep | src/mango.c:1710-1756 | LDELEM keeps the stack's place and size and the arena size. |
| Interp.LdelemaStep | src/mango.c:1758-1773 | LDELEMA keeps the stack's place and size and the arena size. |
| Interp.StelemStep | src/mango.c:1775-1818 | STELEM keeps the stack's place and size and the arena size. |
| Interp.FlowStep | src/mango.c:1222-1403 | Control flow keeps the stack's place and size and the arena size. |
| Interp.IntegerStep | src/mango.c:1423-2017 | The integer opcodes keep the stack's place and size and the arena size. |
| Interp.ObjectStep | src/mango.c:1535-1818 | The object opcodes keep the stack's place and size and the arena size. |
| Interp.Step | src/mango.c:1073-1088 | No instruction moves the stack array, changes its size or the arena's, or moves the heap cursor back. |
| Interp.Exec | src/mango.c:851-855 | A run of at most `fuel` instructions keeps the stack's place and size and the arena size. |
| Interp.Fire | src/mango.c:851-855 | The run after an instruction keeps the same frame facts. |
| Interp.Resume | src/mango.c:865-879 | The run after an outcome keeps the same frame facts. |
| Interp.StepOnce | src/mango.c:1073-1088 | For every budget, one pass of the opcode switch yields the outcome the run goes on from. |
| Interp.Dispatch | src/mango.c:1069 | The dispatch loop ends in exactly the state and the way the fuel-bounded run `Exec` does. |
| Semantics.PopEffect | src/mango.c:1090-1093 | POP_X32 drops the top value. |
| Semantics.DupEffect | src/mango.c:1100-1104 | DUP_X32 pushes a copy of the top. |
| Semantics.OverEffect | src/mango.c:1122-1126 | OVER pushes a copy of the second value. |
| Semantics.SwapEffect | src/mango.c:1113-1120 | SWAP exchanges the two top values. |
| Semantics.SwapTwice | src/mango.c:1113-1120 | SWAP twice restores the operand stack. |
| Semantics.NipEffect | src/mango.c:1138-1142 | NIP drops the second value. |
| Semantics.RotEffect | src/mango.c:1128-1136 | ROT moves the top value under the next two. |
| Semantics.TuckEffect | src/mango.c:1144-1150 | TUCK copies the top value under the second. |
| Semantics.LdlocEffect | src/mango.c:1161-1168 | LDLOC_X32 k pushes a copy of operand k. |
| Semantics.StlocEffect | src/mango.c:1194-1201 | STLOC_X32 k pops the top into operand k - 1 of the rest. With k = 0 the value is gone. |
| Semantics.StoreThenLoad | src/mango.c:1161-1201 | After STLOC_X32 k, LDLOC_X32 k - 1 pushes the stored value. |
| Semantics.LdlocaEffect | src/mango.c:1180-1192 | LDLOCA k pushes the arena address of operand k, and a 4-byte load through it reads that operand. |
| Semantics.Binary32Effect | src/mango.c:1423-1469 | A 32-bit binary opcode replaces the two top values by `value1 op value2`. A division by zero returns DIVIDE_BY_ZERO with the state unchanged. |
| Semantics.Binary64Effect | src/mango.c:1902-1950 | The same as for the 32-bit case, with two-cell operands. |
| Semantics.Store64Read | src/mango.c:139-151 | A stored pair reads back as the value mod 2^64, and the cells outside the pair are kept. |
| Semantics.ShiftEffect | src/mango.c:1453-1460 | The shift amount is in [0, 32), and the value under the amount is replaced by the shifted value. |
| Semantics.UnaryEffect | src/mango.c:1444-1472 | NEG_I32 and NOT_I32 rewrite the top in place. |
| Semantics.UnaryTwice | src/mango.c:1444-1472 | Applying either one twice restores the operand stack. |
| Semantics.CompareEffect | src/mango.c:1478-1506 | Two values are replaced by the comparison's truth value. |
| Semantics.Conv32Effect | src/mango.c:1512-1522 | CONV_I8_I32 .. CONV_U16_I32 cast the top in place. |
| Semantics.WidenEffect | src/mango.c:2012-2017 | CONV_I64_I32 and CONV_U64_I32 turn the top cell into a pair holding its extension. |
| Semantics.NarrowEffect | src/mango.c:1994-2011 | CONV_I8_I64 .. CONV_U32_I64 turn the top pair into one cast cell. |
| Semantics.WidenThenNarrow | src/mango.c:2006-2017 | Widening then narrowing restores the operand stack. |
| Semantics.LdcEffect | src/mango.c:1365-1378 | LDC_I32_M1 .. LDC_I32_8 push a cell that reads as the constant. |
| Semantics.LdcSEffect | src/mango.c:1380-1384 | LDC_I32_S pushes its operand byte sign-extended. |
| Semantics.LdcX32Effect | src/mango.c:1386-1390 | LDC_X32 pushes its 32-bit operand, and `ip` moves 5. |
| Semantics.LdftnEffect | src/mango.c:1399-1403 | LDFTN pushes the function token of the slot and offset it names; ip moves on 4 and the rest of the stack is kept. |
| Semantics.LdftnCalli | src/mango.c:1250-1264 | CALLI reads back, from the cell LDFTN pushed, the module slot and the offset LDFTN named. |
| Semantics.BranchPair | src/mango.c:1333-1342 | BRTRUE_S and BRFALSE_S pop the tested value, and exactly one of them jumps, relative to the next instruction. |
| Semantics.SyscallEffect | src/mango.c:1303-1319 | SYSCALL yields exactly in full trust, with the stack untouched and the expected depth and call number recorded. Otherwise it returns SECURITY_VIOLATION. |
| Semantics.RetEffect | src/mango.c:1222-1241 | RET leaves the results in place of the `pop` cells and resumes the saved frame, trust included. |
| Semantics.EnterThenRet | src/mango.c:1222-1241 | A call entered with `Enter` returns to the frame it left, through any RET, if the saved cell is intact. |
| Semantics.CallOrder | src/mango.c:1254-1301 | Trust is checked before room.<br>STACK_OVERFLOW is returned exactly when fewer than 1 + locals + max-stack cells are free.<br>Otherwise the callee runs with the granted trust and its locals reserved. |
| Semantics.CallThenRet | src/mango.c:1254-1301 | A non-tail CALL saves a frame that resumes after it, and a RET at the callee's depth returns there. |
| Semantics.ExecMoreFuel | src/mango.c:851-855 | A run that ends within its budget ends the same way with any larger budget. |
| Semantics.NewobjEffect | src/mango.c:1535-1547 | NEWOBJ pushes a reference to `size` zero bytes past the old cursor and moves the cursor past them. When the heap has no room it returns OUT_OF_MEMORY. |
| Semantics.NewarrEffect | src/mango.c:1549-1565 | A negative count gives ARGUMENT and no room gives OUT_OF_MEMORY. Otherwise NEWARR pushes a reference to `count * size` zero bytes over the count. |
| Semantics.Slice1Effect | src/mango.c:1567-1581 | ARGUMENT exactly when the start is out of [0, length]. NULL_REFERENCE exactly when it is in range and the reference is null. Otherwise the result is (ref + start, length - start), with start counted in bytes. |
| Semantics.Slice2Effect | src/mango.c:1583-1601 | ARGUMENT unless `0 <= start <= length` and `0 <= length' <= length - start`. Then NULL_REFERENCE exactly for a null reference. Otherwise the result is (ref + start, length'). |
| Semantics.LdfldaEffect | src/mango.c:1650-1659 | NULL_REFERENCE exactly for a null reference. Otherwise the reference is replaced by reference + offset, in 32 bits. |
| Semantics.FieldRoundTrip | src/mango.c:1609-1695 | A field stored with STFLD_X8/16/32 reads back with LDFLD of the same size, cast to the load's type. |
| Semantics.LdelemEffect | src/mango.c:1710-1756 | INDEX_OUT_OF_RANGE exactly for an index outside [0, length), then NULL_REFERENCE exactly for a null reference. Otherwise the three cells become element `index`, cast. |
| Semantics.LdelemaEffect | src/mango.c:1758-1773 | The same checks in the same order. On success the three cells become `ref + index * size`, in 32 bits. |
| Semantics.StelemEffect | src/mango.c:1775-1818 | The same checks in the same order. On success element `index` holds the value's low bytes, every other arena byte is unchanged, and four cells are popped. |
| Arena.TablesStart | src/mango.c:576-598 | A table holding only the application's module is in order. |
| Arena.StartTable | src/mango.c:576-598 | The fresh table has `moduleCount` zero slots except slot 0, which is alone on the list, and it is in order. |
| Arena.TablesResolve | src/mango.c:524-545 | Registering a module's imports and attaching its array keeps the table in order. |
| Arena.TablesSupply | src/mango.c:617-624 | Supplying the next missing image keeps the table in order. |
| Arena.TablesHead | src/mango.c:747-756 | The head of a non-empty list is a supplied module whose imports resolve. |
| Arena.WalkVisit | src/mango.c:751-776 | A visit keeps the table in order and visits one more module. Only visited bits and links change. |
| Arena.RelinkedTrans | src/mango.c:751-784 | Two steps that change only links and visited bits together change only those. |
| Arena.WalkTake | src/mango.c:777-784 | Taking the visited head off keeps the table in order and logs the module. Every import of the module is visited. |
| Arena.EntryCode | src/mango.c:692-713 | The trust gate comes before the stack check, and a full-trust caller is never refused for security. |
| Arena.Vm.Initialize | src/mango.c:276-307 | The result is NULL exactly for a null or misaligned address, a buffer smaller than the header, or an overflowing end address. Otherwise the whole buffer is heap with only the header used, there is no stack and there are no modules. |
| Arena.Vm.HeapAlloc | src/mango.c:319-355 | On failure the result is NULL and nothing changes. On success the result is the `Alloc` block, the cursor moves to its end, the block is zero-filled when asked, and everything else is kept. |
| Arena.Vm.HeapSize | src/mango.c:357-363 | The result is the arena size. |
| Arena.Vm.HeapAvailable | src/mango.c:365-371 | The result is exactly the largest unaligned request that can still succeed. |
| Arena.Vm.StackCreate | src/mango.c:375-403 | The result codes are returned in the source's order. On success the stack is empty with `sp = sp_expected = size / 4` and all of `size` available. |
| Arena.Vm.StackAlloc | src/mango.c:405-431 | The result is non-NULL exactly when the size is permitted, there is a stack, and enough cells lie between `rp` and `sp`. Then `sp` drops and the block starts at `sp`. |
| Arena.Vm.StackFree | src/mango.c:433-452 | The result codes are returned in the source's order, with STACK_OVERFLOW when too few cells lie above `sp`. On success `sp` is restored upward. |
| Arena.Vm.StackTop | src/mango.c:454-466 | The result is non-NULL exactly when a stack exists and is not empty. Then it is the address of the top cell. |
| Arena.Vm.StackSize | src/mango.c:468-474 | The capacity fits 16 bits and lies below the heap cursor. |
| Arena.Vm.StackAvailable | src/mango.c:476-485 | The result is 0 without a stack, and 4 (sp - rp) with one when `rp <= sp`. |
| Arena.Vm.CoreState | src/mango.c:1058-1067 | The registers loaded from the VM form a well-formed machine state. |
| Arena.Vm.SetRegisters | src/mango.c:2407-2418 | The registers, arena and cursor are stored from the state, with `ip` as a 16-bit offset. |
| Arena.Vm.WriteBack | src/mango.c:2407-2418 | `done:` stores the current depth as expected and clears the system call. `yield:` records both. Other stops keep them. |
| Arena.Vm.Run | src/mango.c:1058-1069 | The VM after the run is the write-back of `Exec` from the saved registers. |
| Arena.Vm.SetEntryPoint | src/mango.c:692-723 | The call is refused with nothing changed by the gate or the room check. Otherwise the state is `Enter` of the entry frame. |
| Arena.Vm.Push | src/mango.c:715-721 | The registers become those of `Enter`. |
| Arena.Vm.VisitHead | src/mango.c:751-776 | The visit keeps the VM valid and lowers the unvisited count. In the table only visited bits and links change. The log, the arena, the cursor, the stack registers, the frame and the flags are kept. |
| Arena.Vm.TakeHead | src/mango.c:777-784 | The head's successor is returned, the list loses its head and the module is appended to the log. In the table only links change. The arena, the cursor, the stack registers, the frame and the flags are kept. |
| Arena.Vm.SetHead | src/mango.c:779 | The head is stored and nothing else changes. |
| Arena.Vm.Invoke | src/mango.c:787-796 | An offset that names no function gives `UndefinedBehaviour`: the model has no descriptor to follow. A refused entry returns its code. Otherwise the status is that of running from the entered frame. |
| Arena.Vm.Initializers | src/mango.c:744-798 | A completed walk leaves the list empty and logs the application with its import closure, each module once.<br>Whether or not the walk completes, the modules are taken off dependencies first. An import comes later than its importer only when it reaches that importer back through imports.<br>Without import cycles, every import is taken off before its importer.<br>Only visited bits and links change. |
| Arena.Vm.InitOrder | src/mango.c:744-798 | In a valid VM the initializer log puts dependencies first, and without cycles every import comes before its importer. |
| Arena.Vm.StartMain | src/mango.c:800-816 | After the first completed walk the VISITED bit is set, and main is started at most once: only when it exists, and never again. Each start adds one to the count, which the VM invariant keeps at most 1. |
| Arena.Vm.Execute | src/mango.c:725-816 | Execution is refused without the application or with imports missing, and STACK_IMBALANCE is returned unless `sp == sp_expected`. On success every initializer due has been taken off, and the list is empty.<br>The first successful call starts main once when the application has one and not at all otherwise.<br>The log always puts dependencies first, and without import cycles every import before its importer. |
| Arena.Vm.InitializeModule | src/mango.c:524-545 | OUT_OF_MEMORY leaves nothing changed. Otherwise the array resolves every import and the cursor moves past it.<br>Exactly the new names take slots, and only those need room. |
| Arena.Vm.AttachImports | src/mango.c:536-541 | The attached array resolves the module's import list. Exactly the new names take slots. |
| Arena.Attach | src/mango.c:536-541 | On the table itself: it stays in order, the module's array resolves its list, and the count of slots grows by the number of new names. |
| Arena.Vm.Install | src/mango.c:584-599 | Slot 0 holds the application alone on the list, with the frame at its HALT. |
| Arena.Vm.EnsureStack | src/mango.c:568-574 | The result is OUT_OF_MEMORY with nothing changed, or a stack exists afterwards, a new one with the image's cell count. |
| Arena.Vm.ImportStartup | src/mango.c:547-602 | The checks come in order: executable, then features, then HALT. A failed check changes nothing. On success the application fills slot 0 and is alone on the list, its import array resolves its imports, and one slot is taken for each distinct foreign import. OUT_OF_MEMORY either leaves nothing installed, or leaves the application installed without an import array. The table needs room for its distinct foreign imports only. |
| Arena.Vm.Missing | src/mango.c:654-667 | The result is none exactly when every registered module is imported. Otherwise it is a name some supplied module imports, and not the application's. |
| Arena.Vm.ImportMissing | src/mango.c:604-627 | INVALID_OPERATION is returned exactly when the name is not the missing one. Otherwise one more module is imported, with its image. On success its import array resolves its imports and exactly its new names take slots; OUT_OF_MEMORY leaves it without an array and adds no name. The table needs room only for the image's new names. |
| Arena.Vm.Supply | src/mango.c:617-624 | The next slot gets its image and flags with cleared links, and nothing else changes. |
| Arena.Vm.Refusal | src/mango.c:629-644 | The argument checks each give their result in the source's order, and all of them pass exactly for a well-formed request. |
| Arena.Vm.ModuleImport | src/mango.c:629-652 | A refusal is returned unchanged. The first image starts the application. A later one must be the missing module. With nothing missing the call is refused. Room is needed only when the image is accepted.<br>On success the imported module's array resolves its imports, and the slot count grows by its new names. A later import keeps the list, the log, the frame and the stack registers. OUT_OF_MEMORY outcomes are those of the two import methods. |

## Left out

**Scope**
- Floating point: the f32/f64 opcodes and float conversions.
- Diagnostics: `printf`, the debug stack dump and the opcode-name table.
- The 32- or 64-bit reference build choice. References are arena offsets throughout.
- Host `context` pointers and `mango_module_context`.
- `mango_version_*` and the build-time feature `#ifdef`s. One configuration is fixed, with every integer and reference feature on.
- `mango_syscall` reads the `syscall` field, which is `Arena.Vm.syscall` here. A null VM has no counterpart, so no separate member is written for it.
- Bytecode verification: the import refuses any host that does not ask to skip it.
- The byte encoding of instructions and of the image records. Images are records with instructions keyed by byte offset, and opcodes are modelled by meaning.
- The heap space the module table and import arrays take is allocated from the arena, but their contents are fields of `Vm`, not bytes. A store through a reference into them is not seen by the table.
- VISITED is a separate boolean, both per module and for the VM. In the source it shares a byte with the host's import flags and VM flags, and whether their bits collide depends on `mango.h`, which is not part of this model.

**Preconditions and cases the model does not follow**
- Registering more modules than the table holds overruns it in the source. `Room` is a precondition of the import methods instead. It asks room only for the distinct names an accepted image adds: names already registered and the application's own take none.
- Arena.Vm.ImportStartup: `Room` requires a `moduleCount` large enough for slot 0 and the application's foreign imports whenever the image passes the checks. With a smaller count the source overruns the table, unless the stack or table allocation fails first with OUT_OF_MEMORY. That OUT_OF_MEMORY outcome for too small a count is not modelled.
- Undefined behaviour in C is a precondition or the `Undefined` outcome, never a result: `MIN / -1`, a shift count outside [0, width), and bytes outside the arena.
- Reads of bytes the model keeps as fields or records are also a precondition or the `Undefined` outcome. In the source a reference is an offset into the VM's block (src/mango.c:76-79), so each of these reads real bytes of the block, and the model says nothing about what they hold:
  - a reference into the 64-byte VM header (`Machine.MemOk` starts at the header's end);
  - a stack cell outside the stack array but inside the arena;
  - the walk reading an import array whose reference is 0 (src/mango.c:754-757). `Arena.Vm.Initializers` returns `UndefinedBehaviour` there;
  - a call token whose module byte is past the caller's import array, or whose module has no import array (`Interp.CalleeSlot` is `None`, src/mango.c:1257-1263);
  - an initializer or main offset that names no function descriptor in the image record.
- A startup that fails with OUT_OF_MEMORY while allocating the application's import array (src/mango.c:529-534) leaves the application installed with no import array: `Arena.Vm.ImportStartup` states that state. A later `mango_execute` then reads the header's bytes as module indices during the walk. The model stops there with `UndefinedBehaviour` instead of following those bytes.
- The fuel budget: runs and the dispatch loop take an instruction budget, and the run stops `OutOfFuel` when it is spent. `Semantics.ExecMoreFuel` shows the budget only cuts runs short.
- Cyclic imports: the log puts dependencies first, except that an import may come after its importer when it reaches that importer back through imports. Without cycles, every import comes first.
- LDELEMA advances `ip` by 3, the size of its own encoding. The source's `(*ip == LDELEMA) ? 3 : 1` always takes that branch when reached through LDELEMA.

**Opcode families without a Semantics lemma**
- Their steps are modelled in `Interp`, but no Semantics lemma states their effect on the operand stack:
  - the 64-bit shuffles (POP_X64, DUP_X64);
  - LDLOC_X64, STLOC_X64 and LDC_X64;
  - the long branches BR, BRFALSE and BRTRUE;
  - the 64-bit shifts, NEG/NOT and comparisons;
  - LDFLD_X64/STFLD_X64 and LDELEM_X64/STELEM_X64.

**Weaker contracts**
- Interp.CallStep: states only the frame facts. Its meaning is `Semantics.CallOrder` and `Semantics.CallThenRet`.
- Interp.RetStep: states only the frame facts. Its meaning is `Semantics.RetEffect`.
- Interp.ShuffleStep: states only the frame facts. Its meaning is `Semantics.PopEffect`, `DupEffect` and `OverEffect`.
- Interp.PermuteStep: states only the frame facts. Its meaning is `Semantics.SwapEffect` and `NipEffect`.
- Interp.RotateStep: states only the frame facts. Its meaning is `Semantics.RotEffect` and `TuckEffect`.
- Interp.LocalStep: states only the frame facts. Its meaning is `Semantics.LdlocEffect` and `LdlocaEffect`.
- Interp.StoreLocalStep: states only the frame facts. Its meaning is `Semantics.StlocEffect`.
- Interp.ConstStep: states only the frame facts. Its meaning is `Semantics.LdcEffect`, `LdcSEffect`, `LdcX32Effect` and `LdftnEffect`.
- Interp.BranchStep: states only the frame facts. Its meaning is `Semantics.BranchPair`.
- Interp.SyscallStep: states only the frame facts. Its meaning is `Semantics.SyscallEffect`.
- Interp.BinaryStep: states only the frame facts. Its meaning is `Semantics.Binary32Effect` and `Binary64Effect`.
- Interp.ShiftStep: states only the frame facts. Its meaning is `Semantics.ShiftEffect`.
- Interp.UnaryStep: states only the frame facts. Its meaning is `Semantics.UnaryEffect`.
- Interp.CompareStep: states only the frame facts. Its meaning is `Semantics.CompareEffect`.
- Interp.ConvertStep: states only the frame facts. Its meaning is `Semantics.Conv32Effect`, `WidenEffect` and `NarrowEffect`.
- Interp.NewobjStep: states only the frame facts. Its meaning is `Semantics.NewobjEffect`.
- Interp.NewarrStep: states only the frame facts. Its meaning is `Semantics.NewarrEffect`.
- Interp.Slice1Step: states only the frame facts. Its meaning is `Semantics.Slice1Effect`.
- Interp.Slice2Step: states only the frame facts. Its meaning is `Semantics.Slice2Effect`.
- Interp.LdfldStep: states only the frame facts. Its meaning is `Semantics.FieldRoundTrip`.
- Interp.LdfldaStep: states only the frame facts. Its meaning is `Semantics.LdfldaEffect`.
- Interp.StfldStep: states only the frame facts. Its meaning is `Semantics.FieldRoundTrip`.
- Interp.LdelemStep: states only the frame facts. Its meaning is `Semantics.LdelemEffect`.
- Interp.LdelemaStep: states only the frame facts. Its meaning is `Semantics.LdelemaEffect`.
- Interp.StelemStep: states only the frame facts. Its meaning is `Semantics.StelemEffect`.
- Interp.FlowStep: states only the frame facts, as a dispatcher over the families above.
- Interp.IntegerStep: states only the frame facts, as a dispatcher over the families above.
- Interp.ObjectStep: states only the frame facts, as a dispatcher over the families above.
- Interp.Step: states only the frame facts, as a dispatcher over the families above.
- Interp.Exec: states only the frame facts. `Interp.Dispatch` and `Semantics.ExecMoreFuel` relate it to the loop and to the budget.
- Interp.Fire: states only the frame facts. It is a helper of `Exec`.
- Interp.Resume: states only the frame facts. It is a helper of `Exec`.
- Arena.Vm.VisitHead: promises the invariant, one more visited module and what stays, not the links the splices leave. Those are in `Schedule.VisitImports`.
- Arena.Vm.TakeHead: promises the invariant, the successor, the shorter list, the log and what stays, not the new head's cleared back link. That is in `Schedule.DequeueStep`.
- Arena.WalkTake: the same as `Arena.Vm.TakeHead`, at the level of the table.
- Arena.Vm.StartMain: states that main starts at most once and not the status of main's run. That status is `Arena.Vm.Invoke`'s.
- Arena.Vm.CoreState: states well-formedness only. Its body is the register load it models.
