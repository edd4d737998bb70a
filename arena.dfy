/** The VM object `mango_vm` (src/mango.c:153-184) and the public calls
    that update it: creation over a host buffer, the heap, the stack
    manager, module import and execution.

    The arena (the host buffer) is `mem`; the VM header at offset 0 is
    kept as the class's fields rather than as bytes, so `mem[..64]` only
    records that the header was cleared. The module table and the
    import-index arrays are blocks of the heap in the source; here they
    are the records of `modules`, while the heap cursor still moves past
    the blocks they take. A reference into the arena is its offset, and 0
    is the null reference. */
module Arena {
  import opened Words
  import opened Memory
  import opened Results
  import opened Images
  import opened Frames
  import opened Heap
  import opened Stacks
  import opened Machine
  import opened Registry
  import opened Interp
  import opened Schedule

  /** What `_mango_execute` returns to its caller. C has no step budget and
      no undefined-behaviour outcome; `Exhausted` and `Stuck` stand for
      "the run has not ended within the budget" and "the run does what the
      model does not follow": behaviour C leaves undefined, or a read of
      bytes the model keeps as fields or records. */
  datatype Status = Returned(code: Code) | UndefinedBehaviour | Exhausted

  /** The status a finished run reports. */
  function StatusOf(h: Halted): Status {
    match h
    case Finished(_, code) => Returned(code)
    case Suspended(_, _, _) => Returned(Code.Syscall)
    case Stuck(_) => UndefinedBehaviour
    case OutOfFuel(_) => Exhausted
  }

  /** The module table between calls: empty before the application is
      imported; afterwards registered, vacant past the slots in use, and
      with its initializer list, headed by `initHead`, scheduled. */
  ghost predicate Tables(mods: seq<ModuleRec>, created: nat, imported: nat, appName: Name,
                   initHead: u8, queue: seq<nat>, log: seq<nat>) {
    (imported == 0 ==> created == 0 && initHead == 0 && queue == [] && log == []) &&
    (imported >= 1 ==>
       Registered(mods, created, imported, appName) &&
       Vacant(mods, created) &&
       Scheduled(mods, imported, queue, log) && initHead as int == Head(queue))
  }

  /** Registering module m's imports and giving it the import array
      that resolves them, with m still unvisited, keeps the table in
      order. */
  lemma TablesResolve(mods: seq<ModuleRec>, created: nat, imported: nat, appName: Name,
                      initHead: u8, queue: seq<nat>, log: seq<nat>,
                      mods': seq<ModuleRec>, created': nat, m: nat, ix: seq<u8>)
    requires Tables(mods, created, imported, appName, initHead, queue, log)
    requires 1 <= imported && m < imported && !mods[m].visited && mods[m].imports.None?
    requires Registered(mods', created', imported, appName) && |mods'| == |mods| && created <= created'
    requires forall x :: 0 <= x < |mods| ==> Renamed(mods'[x], mods[x])
    requires forall x :: 0 <= x < created || created' <= x < |mods| ==> mods'[x] == mods[x]
    requires |ix| == |mods'[m].image.value.imports|
    requires forall k :: 0 <= k < |ix| ==>
               ix[k] as int < created' && NameOf(mods', appName, ix[k] as int) == mods'[m].image.value.imports[k]
    ensures Tables(mods'[m := mods'[m].(imports := Some(ix))], created', imported, appName, initHead, queue, log)
  {
    ResolveImports(mods', created', imported, appName, m, ix);
    forall x | 0 <= x < |mods|
      ensures mods'[x].visited == mods[x].visited && mods'[x].imports == mods[x].imports
      ensures mods'[x].initNext == mods[x].initNext && mods'[x].initPrev == mods[x].initPrev
    {
      assert Renamed(mods'[x], mods[x]);
    }
    ScheduledKept(mods, mods'[m := mods'[m].(imports := Some(ix))], imported, queue, log);
  }

  /** Module m's imports registered and its import array attached
      (src/mango.c:536-541), on the table itself: the table stays in order,
      m's array resolves its list, and exactly the new names are added. */
  method Attach(mods: seq<ModuleRec>, created: nat, imported: nat, appName: Name,
                initHead: u8, ghost queue: seq<nat>, ghost log: seq<nat>, m: nat)
    returns (mods': seq<ModuleRec>, created': nat)
    requires Tables(mods, created, imported, appName, initHead, queue, log)
    requires 1 <= imported && m < imported && mods[m].imports.None? && !mods[m].visited
    requires created + |NewNames(mods, created, appName, mods[m].image.value.imports)| <= |mods|
    ensures Tables(mods', created', imported, appName, initHead, queue, log) && |mods'| == |mods|
    ensures mods'[m] == mods[m].(imports := mods'[m].imports)
    ensures mods'[m].imports.Some? && Resolved(mods', created', appName, m)
    ensures created' == created + |NewNames(mods, created, appName, mods[m].image.value.imports)|
  {
    var ix;
    mods', created', ix := ResolveAll(mods, created, imported, appName, m);
    TablesResolve(mods, created, imported, appName, initHead, queue, log, mods', created', m, ix);
    mods' := mods'[m := mods'[m].(imports := Some(ix))];
  }

  /** Changing links and visited bits twice changes only those. */
  lemma RelinkedTrans(a: seq<ModuleRec>, b: seq<ModuleRec>, c: seq<ModuleRec>)
    requires |b| == |a| && forall x :: 0 <= x < |a| ==> Relinked(b[x], a[x])
    requires |c| == |b| && forall x :: 0 <= x < |b| ==> Relinked(c[x], b[x])
    ensures |c| == |a| && forall x :: 0 <= x < |a| ==> Relinked(c[x], a[x])
  {
    forall x | 0 <= x < |a| ensures Relinked(c[x], a[x]) {
      assert Relinked(b[x], a[x]) && Relinked(c[x], b[x]);
    }
  }

  /** The table a startup image begins: the application's module in slot
      0, the rest of the `moduleCount` slots zero. */
  lemma TablesStart(mods: seq<ModuleRec>, appName: Name)
    requires 1 <= |mods| <= 255 && mods[0].image.Some? && mods[0].imports.None?
    requires mods[0].index == 0 && !mods[0].visited
    requires mods[0].initNext == INVALID_MODULE && mods[0].initPrev == INVALID_MODULE
    requires forall i :: 1 <= i < |mods| ==> mods[i] == ZeroSlot
    ensures Tables(mods, 1, 1, appName, 0, [0], [])
  {
    StartScheduled(mods);
  }

  /** A fresh table of `moduleCount` slots, zeroed but for the
      application's module in slot 0, which is alone on the initializer
      list (src/mango.c:576-598). */
  method StartTable(appName: Name, img: Image, size: u16, importFlags: ImportFlags)
    returns (mods: seq<ModuleRec>)
    requires 1 <= img.app.moduleCount as int
    ensures |mods| == img.app.moduleCount as int
    ensures mods[0] == ModuleRec(Some(img), size, 0, importFlags, false, INVALID_MODULE, INVALID_MODULE,
                                 INVALID_MODULE, INVALID_MODULE, None)
    ensures forall i :: 1 <= i < |mods| ==> mods[i] == ZeroSlot
    ensures Tables(mods, 1, 1, appName, 0, [0], [])
  {
    mods := [ModuleRec(Some(img), size, 0, importFlags, false, INVALID_MODULE, INVALID_MODULE,
                       INVALID_MODULE, INVALID_MODULE, None)] +
            seq(img.app.moduleCount as int - 1, _ => ZeroSlot);
    TablesStart(mods, appName);
  }

  /** The table with slot `imported` given its image and flags, unlinked. */
  function Supplied(mods: seq<ModuleRec>, imported: nat, img: Image, size: u16, flags: ImportFlags)
    : (mods': seq<ModuleRec>)
    requires imported < |mods|
    ensures |mods'| == |mods| && mods'[imported].image == Some(img)
  {
    mods[imported := mods[imported].(image := Some(img), imageSize := size, flags := flags,
                                     initNext := INVALID_MODULE, initPrev := INVALID_MODULE)]
  }

  /** The image of the first missing module arriving, with its links
      cleared, keeps the table in order; that module is not yet visited. */
  lemma TablesSupply(mods: seq<ModuleRec>, created: nat, imported: nat, appName: Name,
                     initHead: u8, queue: seq<nat>, log: seq<nat>,
                     img: Image, size: u16, flags: ImportFlags)
    requires Tables(mods, created, imported, appName, initHead, queue, log)
    requires 1 <= imported < created
    ensures !mods[imported].visited
    ensures Tables(Supplied(mods, imported, img, size, flags), created, imported + 1, appName, initHead, queue, log)
    ensures Names(Supplied(mods, imported, img, size, flags), created) == Names(mods, created)
  {
    var mods' := Supplied(mods, imported, img, size, flags);
    SupplyNext(mods, created, imported, appName, img, size, flags);
    ScheduledKept(mods, mods', imported, queue, log);
    ScheduledGrow(mods', imported, queue, log);
  }

  /** A table in order holds the application's image in slot 0. */
  lemma TablesHead0(mods: seq<ModuleRec>, created: nat, imported: nat, appName: Name,
                    head: u8, queue: seq<nat>, log: seq<nat>)
    requires Tables(mods, created, imported, appName, head, queue, log) && 1 <= imported
    ensures 0 < |mods| && mods[0].image.Some?
  {
  }

  /** What a table in order says about the head of its non-empty
      initializer list: it is a supplied module, the first on the list,
      and its imports resolve to registered slots. */
  lemma TablesHead(mods: seq<ModuleRec>, created: nat, imported: nat, appName: Name,
                   head: u8, queue: seq<nat>, log: seq<nat>)
    requires Tables(mods, created, imported, appName, head, queue, log)
    requires 1 <= imported && head != INVALID_MODULE
    ensures queue != [] && queue[0] == head as int && (head as int) < imported
    ensures Scheduled(mods, imported, queue, log) && mods[head].image.Some?
    ensures forall k :: 0 <= k < |Schedule.Imports(mods, queue[0])| ==> Schedule.Imports(mods, queue[0])[k] as int < created
  {
    assert Registered(mods, created, imported, appName);
    if mods[head].imports.Some? {
      assert Resolved(mods, created, appName, head as int);
    }
  }

  /** The visit of the unvisited head of the initializer list
      (src/mango.c:751-776) keeps the table in order and visits one more
      module. */
  method WalkVisit(mods: seq<ModuleRec>, created: nat, imported: nat, appName: Name,
                   head: u8, ghost queue: seq<nat>, ghost log: seq<nat>)
    returns (mods': seq<ModuleRec>, ghost queue': seq<nat>, head': u8)
    requires Tables(mods, created, imported, appName, head, queue, log)
    requires 1 <= imported == created && head != INVALID_MODULE
    requires head as int < |mods| && mods[head].image.Some? && !mods[head].visited
    requires mods[head].imports.Some? || |mods[head].image.value.imports| == 0
    ensures Tables(mods', created, imported, appName, head', queue', log) && head' != INVALID_MODULE
    ensures |mods'| == |mods| && Unvisited(mods', imported) < Unvisited(mods, imported)
    ensures forall x :: 0 <= x < |mods| ==> Relinked(mods'[x], mods[x])
  {
    TablesHead(mods, created, imported, appName, head, queue, log);
    mods', queue', head' := VisitImports(mods, imported, head, queue, log);
    RegisteredRelinked(mods, mods', created, imported, appName);
  }

  /** Taking the visited head off the initializer list
      (src/mango.c:777-784): its successor heads the list, the module joins
      the log, and the table stays in order. Every one of its imports has
      been visited. */
  method WalkTake(mods: seq<ModuleRec>, created: nat, imported: nat, appName: Name,
                  head: u8, ghost queue: seq<nat>, ghost log: seq<nat>)
    returns (mods': seq<ModuleRec>, next: u8, ghost queue': seq<nat>, ghost log': seq<nat>)
    requires Tables(mods, created, imported, appName, head, queue, log)
    requires 1 <= imported && head != INVALID_MODULE && head as int < |mods| && mods[head].visited
    ensures queue != [] && queue[0] == head as int && DepsVisited(mods, head as int)
    ensures next == mods[head].initNext && queue' == queue[1..] && log' == log + [head as nat]
    ensures Tables(mods', created, imported, appName, next, queue', log')
    ensures |mods'| == |mods| && forall x :: 0 <= x < |mods| ==> Relinked(mods'[x], mods[x])
    ensures Unvisited(mods', imported) == Unvisited(mods, imported)
  {
    TablesHead(mods, created, imported, appName, head, queue, log);
    DequeueStep(mods, imported, queue, log);
    DequeueRelinks(mods, head as nat);
    RegisteredRelinked(mods, Dequeue(mods, head as nat), created, imported, appName);
    next := mods[head].initNext;
    mods' := Dequeue(mods, head as nat);
    queue', log' := queue[1..], log + [head as nat];
  }

  /** The code `_mango_set_entry_point` (src/mango.c:692-713) returns for
      function f of a module imported with `flags`, called from a frame
      that is `trusted` or not, with the stack cursors at sp and rp. The
      trust gate comes before the stack check; a caller in full trust is
      never refused for security. */
  function EntryCode(trusted: bool, f: FuncDef, flags: ImportFlags, sp: int, rp: int): (r: Code)
    ensures r == Success <==>
              TrustGate(trusted, f, flags).Some? && rp + 1 + f.locCount as int + f.maxStack as int <= sp
    ensures r == Security <==> TrustGate(trusted, f, flags).None?
    ensures r == Success || r == Security || r == StackOverflow
    ensures trusted ==> r != Security
  {
    if TrustGate(trusted, f, flags).None? then Security
    else if sp - rp < 1 + f.locCount as int + f.maxStack as int then StackOverflow
    else Success
  }

  /** The frame an entered function runs in (src/mango.c:719-720): the
      trust the gate granted, the cells RET pops (arguments and locals,
      kept to the 7 bits of the field), its module, and the offset of
      its code, right after the 4-byte descriptor. */
  function EntryFrame(trust: bool, f: FuncDef, index: u8, offset: nat): Frame {
    Frame(trust, (f.argCount as int + f.locCount as int) % 128, index, Wrap(offset + FUNC_DEF_SIZE, W16))
  }

  /** The image ends in a HALT opcode at the offset its application record
      names. */
  predicate HaltAt(img: Image) {
    img.app.halt as int in img.code && img.code[img.app.halt as int] == Halt
  }

  class Vm {
    var mem: Bytes
    var heapUsed: nat
    var flags: u8
    /** The VISITED bit of the VM's flags: main has been started. */
    var mainVisited: bool
    var appName: Name
    var created: nat
    var imported: nat
    var initHead: u8
    var modules: seq<ModuleRec>
    var stack: nat
    var stackSize: nat
    var rp: nat
    var sp: nat
    var spExpected: u16
    var sf: Frame
    var syscall: u16

    /** The modules on the initializer list, head first. */
    ghost var queue: seq<nat>
    /** The modules taken off the list, in order; each one's initializer,
        if it has one, is started right after. */
    ghost var initLog: seq<nat>
    /** How many times main has been started, counting a start the entry
        gate refuses. */
    ghost var mainStarts: nat

    ghost predicate Valid()
      reads this
    {
      ValidWith(initHead)
    }

    /** Valid, with the initializer list headed by `head`: during the walk
        in Execute the head lives in a local until a module is taken off. */
    ghost predicate ValidWith(head: u8)
      reads this
    {
      |mem| < U32 && VM_HEADER_SIZE <= heapUsed <= |mem| &&
      (stack != 0 ==> VM_HEADER_SIZE <= stack) &&
      stack + 4 * stackSize <= heapUsed && stackSize < U16 &&
      rp <= stackSize && sp <= stackSize &&
      (imported >= 1 ==> stack != 0) &&
      Tables(modules, created, imported, appName, head, queue, initLog) &&
      mainStarts <= 1 && (mainStarts == 1 ==> mainVisited)
    }

    /** The parts of the VM that only module import and execution change. */
    ghost function Program(): (seq<ModuleRec>, nat, nat, Name, u8, seq<nat>, seq<nat>, bool, nat)
      reads this
    {
      (modules, created, imported, appName, initHead, queue, initLog, mainVisited, mainStarts)
    }

    /** Everything resolving a module's imports leaves alone. */
    ghost function Kept(): (nat, Name, u8, seq<nat>, seq<nat>, bool, nat, Bytes,
                            (nat, nat, nat, nat, u16), Frame, u16, u8)
      reads this
    {
      (imported, appName, initHead, queue, initLog, mainVisited, mainStarts, mem,
       StackRegs(), sf, syscall, flags)
    }

    /** The stack registers. */
    ghost function StackRegs(): (nat, nat, nat, nat, u16)
      reads this
    {
      (stack, stackSize, rp, sp, spExpected)
    }

    /** `mango_initialize` (src/mango.c:276-307) over a host buffer of
        `|arena|` bytes at `address`: NULL for a null or misaligned address,
        a buffer smaller than the VM header, or one whose last byte's
        address overflows `uintptr_t`; otherwise a VM whose heap is the
        whole buffer with only the header in use, no stack and no modules. */
    static method Initialize(address: nat, arena: Bytes, flags: nat) returns (vm: Vm?)
      requires address < U64 && |arena| < U32
      ensures vm == null <==>
                address == 0 || address % 4 != 0 || |arena| < VM_HEADER_SIZE ||
                address + |arena| - 1 >= U64
      ensures vm != null ==>
                fresh(vm) && vm.Valid() &&
                vm.mem == seq(VM_HEADER_SIZE, _ => 0) + arena[VM_HEADER_SIZE..] &&
                vm.heapUsed == VM_HEADER_SIZE && vm.flags == flags % 256 && !vm.mainVisited &&
                vm.stack == 0 && vm.stackSize == 0 && vm.rp == 0 && vm.sp == 0 &&
                vm.imported == 0 && vm.created == 0 && vm.syscall == 0
    {
      if address == 0 || address % 4 != 0 || |arena| < VM_HEADER_SIZE {
        return null;
      }
      if address + (|arena| - 1) >= U64 {
        return null;
      }
      vm := new Vm.Cleared(arena, flags);
    }

    /** The VM header cleared and filled in over the buffer: the whole
        buffer is heap, of which only the header is used. */
    constructor Cleared(arena: Bytes, flags: nat)
      requires VM_HEADER_SIZE <= |arena| < U32
      ensures Valid()
      ensures mem == seq(VM_HEADER_SIZE, _ => 0) + arena[VM_HEADER_SIZE..]
      ensures heapUsed == VM_HEADER_SIZE && this.flags == flags % 256 && !mainVisited
      ensures stack == 0 && stackSize == 0 && rp == 0 && sp == 0 && spExpected == 0
      ensures imported == 0 && created == 0 && syscall == 0
    {
      mem := seq(VM_HEADER_SIZE, _ => 0) + arena[VM_HEADER_SIZE..];
      heapUsed := VM_HEADER_SIZE;
      this.flags := flags % 256;
      mainVisited := false;
      appName := seq(12, _ => 0);
      created, imported, initHead := 0, 0, 0;
      modules := [];
      stack, stackSize, rp, sp, spExpected := 0, 0, 0, 0, 0;
      sf := Frame(false, 0, 0, 0);
      syscall := 0;
      queue, initLog, mainStarts := [], [], 0;
    }

    // -------------------------------------------------------------------
    // Heap

    /** `mango_heap_alloc` (src/mango.c:319-355): the block `Alloc` grants,
        or NULL with nothing changed; on success the cursor moves to the
        block's end and, with the zero flag, the block is cleared. */
    method HeapAlloc(count: u32, size: u32, alignment: u32, zero: bool) returns (ref: nat)
      requires Valid()
      modifies this
      ensures Valid()
      ensures Alloc(old(heapUsed), |old(mem)|, count, size, alignment).None? ==>
                ref == 0 && unchanged(this)
      ensures Alloc(old(heapUsed), |old(mem)|, count, size, alignment).Some? ==>
                var b := Alloc(old(heapUsed), |old(mem)|, count, size, alignment).value;
                ref == b.offset && ref != 0 && heapUsed == b.End() &&
                mem == (if zero then ZeroFill(old(mem), b.offset, b.size) else old(mem)) &&
                Program() == old(Program()) && StackRegs() == old(StackRegs()) &&
                sf == old(sf) && syscall == old(syscall) && flags == old(flags)
    {
      var b := Alloc(heapUsed, |mem|, count, size, alignment);
      if b.None? {
        return 0;
      }
      heapUsed := b.value.End();
      if zero {
        mem := ZeroFill(mem, b.value.offset, b.value.size);
      }
      ref := b.value.offset;
    }

    /** `mango_heap_size` (src/mango.c:357-363). */
    function HeapSize(): (n: nat)
      reads this
      requires Valid()
      ensures n < U32 && VM_HEADER_SIZE <= n
      ensures n == |mem|
    {
      |mem|
    }

    /** `mango_heap_available` (src/mango.c:365-371): the bytes past the
        cursor, which is exactly the largest unaligned request that can
        still succeed. */
    function HeapAvailable(): (n: nat)
      reads this
      requires Valid()
      ensures forall k: u32 :: Alloc(heapUsed, |mem|, 1, k, 1).Some? <==> k <= n
    {
      |mem| - heapUsed
    }

    // -------------------------------------------------------------------
    // Stack

    /** `mango_stack_create` (src/mango.c:375-403): refuses a size that is
        too large or not whole cells and a second stack, fails when the heap
        cannot hold it, and otherwise creates an empty stack of `size / 4`
        cells whose available space is the whole request. */
    method StackCreate(size: u32) returns (r: Code)
      requires Valid()
      modifies this
      ensures Valid()
      ensures r == (if size > MAX_STACK_BYTES || size % 4 != 0 then Argument
                    else if old(stack) != 0 then InvalidOperation
                    else if Alloc(old(heapUsed), |old(mem)|, 1, size, 4).None? then OutOfMemory
                    else Success)
      ensures r != Success ==> unchanged(this)
      ensures r == Success ==>
                var b := Alloc(old(heapUsed), |old(mem)|, 1, size, 4).value;
                stack == b.offset && heapUsed == b.End() && mem == old(mem) &&
                stackSize == size / 4 && rp == 0 && sp == stackSize && spExpected == stackSize &&
                StackAvailable() == size &&
                Program() == old(Program()) && sf == old(sf) && syscall == old(syscall) &&
                flags == old(flags)
    {
      if size > MAX_STACK_BYTES || size % 4 != 0 {
        return Argument;
      }
      if stack != 0 {
        return InvalidOperation;
      }
      var ref := HeapAlloc(1, size, 4, false);
      if ref == 0 {
        return OutOfMemory;
      }
      var count := size / 4;
      stack := ref;
      stackSize := count;
      rp := 0;
      sp := count;
      spExpected := count;
      r := Success;
    }

    /** `mango_stack_alloc` (src/mango.c:405-431): NULL, with nothing
        changed, for a request that is too large, when there is no stack, or
        when the cells between `rp` and `sp` do not cover it; otherwise `sp`
        moves down by the cells taken and the block starts at the new `sp`. */
    method StackAlloc(size: u32, zero: bool) returns (ref: nat)
      requires Valid()
      modifies this
      ensures Valid()
      ensures ref != 0 <==>
                size <= MAX_STACK_BYTES && old(stack) != 0 && AllocSp(old(sp), old(rp), size).Some?
      ensures ref == 0 ==> unchanged(this)
      ensures ref != 0 ==>
                sp == AllocSp(old(sp), old(rp), size).value && ref == stack + 4 * sp &&
                ref + size <= old(heapUsed) <= |old(mem)| &&
                mem == (if zero then ZeroFill(old(mem), ref, size) else old(mem)) &&
                stack == old(stack) && stackSize == old(stackSize) && rp == old(rp) &&
                spExpected == old(spExpected) && heapUsed == old(heapUsed) &&
                Program() == old(Program()) && sf == old(sf) && syscall == old(syscall) &&
                flags == old(flags)
    {
      if size > MAX_STACK_BYTES || stack == 0 {
        return 0;
      }
      var count := CellCount(size);
      if sp - rp < count {
        return 0;
      }
      sp := sp - count;
      ref := stack + 4 * sp;
      if zero {
        mem := ZeroFill(mem, ref, size);
      }
    }

    /** `mango_stack_free` (src/mango.c:433-452): gives back the cells a
        request of `size` bytes took, failing with nothing changed when the
        request is too large, there is no stack, or fewer cells lie above
        `sp`. */
    method StackFree(size: u32) returns (r: Code)
      requires Valid()
      modifies this
      ensures Valid()
      ensures r == (if size > MAX_STACK_BYTES then Argument
                    else if old(stack) == 0 then InvalidOperation
                    else if FreeSp(old(sp), old(stackSize), size).None? then StackOverflow
                    else Success)
      ensures r != Success ==> unchanged(this)
      ensures r == Success ==>
                sp == FreeSp(old(sp), old(stackSize), size).value &&
                stack == old(stack) && stackSize == old(stackSize) && rp == old(rp) &&
                spExpected == old(spExpected) && mem == old(mem) && heapUsed == old(heapUsed) &&
                Program() == old(Program()) && sf == old(sf) && syscall == old(syscall) &&
                flags == old(flags)
    {
      if size > MAX_STACK_BYTES {
        return Argument;
      }
      if stack == 0 {
        return InvalidOperation;
      }
      var count := CellCount(size);
      if stackSize - sp < count {
        return StackOverflow;
      }
      sp := sp + count;
      r := Success;
    }

    /** `mango_stack_top` (src/mango.c:454-466): NULL when there is no stack
        or it is empty, otherwise the address of the cell at `sp`, which
        holds the value on top. */
    function StackTop(): (ref: nat)
      reads this
      requires Valid()
      ensures ref != 0 <==> stack != 0 && sp < stackSize
      ensures ref != 0 ==> ref + 4 <= heapUsed && Load(mem, ref, 4) == Cell(CoreState(), sp)
    {
      if stack == 0 || sp == stackSize then 0 else stack + 4 * sp
    }

    /** `mango_stack_size` (src/mango.c:468-474): the capacity in cells. */
    function StackSize(): (n: nat)
      reads this
      requires Valid()
      ensures n < U16 && stack + 4 * n <= heapUsed
    {
      stackSize
    }

    /** `mango_stack_available` (src/mango.c:476-485): 0 without a stack,
        otherwise the bytes between the cursors. */
    function StackAvailable(): (n: nat)
      reads this
      requires Valid()
      ensures stack == 0 ==> n == 0
      ensures stack != 0 && rp <= sp ==> n == 4 * (sp - rp)
    {
      if stack == 0 then 0 else Available(sp, rp)
    }

    // -------------------------------------------------------------------
    // Execution

    /** The state `_mango_execute` starts from (src/mango.c:1058-1067):
        the registers, with `ip` at offset `sf.ip` of the current module. */
    function CoreState(): (c: Core)
      reads this
      requires Valid()
      ensures WellFormed(c)
    {
      Core(mem, heapUsed, stack, stackSize, sp, rp, sf, sf.ip)
    }
 
    /** The registers, the arena and the heap cursor taken from d, with
        `ip` stored as the 16-bit offset of the saved frame. */
    method SetRegisters(d: Core)
      requires Valid() && Successor(CoreState(), d)
      modifies this
      ensures Valid()
      ensures Program() == old(Program()) && flags == old(flags)
      ensures stack == old(stack) && stackSize == old(stackSize)
      ensures spExpected == old(spExpected) && syscall == old(syscall)
      ensures mem == d.mem && heapUsed == d.heapUsed
      ensures sp == d.sp && rp == d.rp && sf == d.sf.(ip := Wrap(d.ip, W16))
    {
      mem, heapUsed := d.mem, d.heapUsed;
      sp, rp := d.sp, d.rp;
      sf := d.sf.(ip := Wrap(d.ip, W16));
    }

    /** The registers as a run leaves them (src/mango.c:2407-2418). */
    method WriteBack(h: Halted)
      requires Valid() && Successor(CoreState(), h.core)
      modifies this
      ensures Valid()
      ensures Program() == old(Program()) && flags == old(flags)
      ensures stack == old(stack) && stackSize == old(stackSize)
      ensures mem == h.core.mem && heapUsed == h.core.heapUsed
      ensures sp == h.core.sp && rp == h.core.rp && sf == h.core.sf.(ip := Wrap(h.core.ip, W16))
      ensures h.Finished? ==> spExpected as int == sp && syscall == 0
      ensures h.Suspended? ==> spExpected == h.spExpected && syscall == h.syscall
      ensures h.Stuck? || h.OutOfFuel? ==> spExpected == old(spExpected) && syscall == old(syscall)
    {
      SetRegisters(h.core);
      if h.Finished? {
        spExpected, syscall := sp, 0;
      } else if h.Suspended? {
        spExpected, syscall := h.spExpected, h.syscall;
      }
    }

    /** `_mango_execute` (src/mango.c:1058-1068, 2402-2419) with a budget
        of `fuel` instructions: the dispatch loop runs from the saved
        registers and writes them back on the way out, `ip` as a 16-bit
        offset. `done:` also records the stack depth the next call expects
        and clears the pending system call; SYSCALL's `yield:` has set both
        itself. */
    method Run(fuel: nat) returns (r: Status)
      requires Valid()
      modifies this
      ensures Valid()
      ensures Program() == old(Program()) && flags == old(flags)
      ensures stack == old(stack) && stackSize == old(stackSize)
      ensures var h := Exec(old(modules), old(CoreState()), fuel);
              r == StatusOf(h) &&
              mem == h.core.mem && heapUsed == h.core.heapUsed &&
              sp == h.core.sp && rp == h.core.rp &&
              sf == h.core.sf.(ip := Wrap(h.core.ip, W16)) &&
              (h.Finished? ==> spExpected as int == sp && syscall == 0) &&
              (h.Suspended? ==> spExpected == h.spExpected && syscall == h.syscall) &&
              (h.Stuck? || h.OutOfFuel? ==> spExpected == old(spExpected) && syscall == old(syscall))
    {
      var h := Dispatch(modules, CoreState(), fuel);
      WriteBack(h);
      r := StatusOf(h);
    }

    /** `_mango_set_entry_point` (src/mango.c:692-723): pushes a call to the
        function at `offset` of module m from the host. The trust gate is
        checked first, then that the stack holds the saved frame, the
        locals and the evaluation stack; on success the current frame is
        saved in cell `rp`, the locals are reserved below `sp`, and the new
        frame runs the function's code, which starts after its 4-byte
        descriptor. */
    method SetEntryPoint(m: nat, offset: nat) returns (r: Code)
      requires Valid() && m < |modules| && modules[m].image.Some?
      requires offset in modules[m].image.value.funcs
      modifies this
      ensures Valid()
      ensures var f := old(modules)[m].image.value.funcs[offset];
              r == EntryCode(old(sf).trusted, f, old(modules)[m].flags, old(sp), old(rp))
      ensures r != Success ==> unchanged(this)
      ensures r == Success ==>
                var f := old(modules)[m].image.value.funcs[offset];
                CoreState() ==
                  Enter(old(CoreState()),
                        EntryFrame(TrustGate(old(sf).trusted, f, old(modules)[m].flags).value,
                                   f, old(modules)[m].index, offset),
                        f.locCount) &&
                Program() == old(Program()) && spExpected == old(spExpected) &&
                syscall == old(syscall) && flags == old(flags)
    {
      var f := modules[m].image.value.funcs[offset];
      r := EntryCode(sf.trusted, f, modules[m].flags, sp, rp);
      if r == Success {
        Push(EntryFrame(TrustGate(sf.trusted, f, modules[m].flags).value, f, modules[m].index, offset),
             f.locCount);
      }
    }

    /** The registers after entering `entry` with `locCount` locals
        (src/mango.c:715-721). */
    method Push(entry: Frame, locCount: nat)
      requires Valid() && rp + 1 + locCount <= sp
      modifies this
      ensures Valid() && CoreState() == Enter(old(CoreState()), entry, locCount)
      ensures Program() == old(Program()) && spExpected == old(spExpected)
      ensures syscall == old(syscall) && flags == old(flags)
    {
      SetRegisters(Enter(CoreState(), entry, locCount));
    }

    /** The visit of the unvisited head of the initializer list during the
        walk in `mango_execute` (src/mango.c:751-776): the head is marked
        visited and its unvisited imports are spliced in front of it. */
    method VisitHead(head: u8) returns (head': u8)
      requires ValidWith(head) && 1 <= imported == created && head != INVALID_MODULE
      requires head as int < |modules| && modules[head].image.Some? && !modules[head].visited
      requires modules[head].imports.Some? || |modules[head].image.value.imports| == 0
      modifies this
      ensures ValidWith(head') && head' != INVALID_MODULE
      ensures Unvisited(modules, imported) < old(Unvisited(modules, imported))
      ensures initHead == old(initHead) && Walked() == old(Walked())
      ensures initLog == old(initLog) && Kept2() == old(Kept2())
      ensures |modules| == |old(modules)| && forall x :: 0 <= x < |modules| ==> Relinked(modules[x], old(modules)[x])
    {
      modules, queue, head' := WalkVisit(modules, created, imported, appName, head, queue, initLog);
    }

    /** Taking the visited head off the initializer list in
        `mango_execute` (src/mango.c:777-784): its successor becomes the
        head and the module joins the log. */
    method TakeHead(head: u8) returns (next: u8)
      requires ValidWith(head) && 1 <= imported == created && head != INVALID_MODULE
      requires head as int < |modules| && modules[head].visited
      modifies this
      ensures ValidWith(next) && |queue| < old(|queue|)
      ensures |modules| == |old(modules)| && forall x :: 0 <= x < |modules| ==> Relinked(modules[x], old(modules)[x])
      ensures Unvisited(modules, imported) == old(Unvisited(modules, imported))
      ensures Walked() == old(Walked())
      ensures next == old(modules)[head].initNext && queue == old(queue)[1..] && initLog == old(initLog) + [head as nat]
      ensures initHead == old(initHead) && Kept2() == old(Kept2())
    {
      modules, next, queue, initLog := WalkTake(modules, created, imported, appName, head, queue, initLog);
    }

    /** `vm->module_init_head = head` (src/mango.c:779). */
    method SetHead(head: u8)
      requires ValidWith(head)
      modifies this
      ensures Valid() && initHead == head
      ensures modules == old(modules) && queue == old(queue) && initLog == old(initLog)
      ensures Kept2() == old(Kept2())
    {
      initHead := head;
    }

    /** What Execute keeps track of across one step of the walk. */
    ghost function Walked(): (nat, nat, Name, bool, nat)
      reads this
    {
      (imported, created, appName, mainVisited, mainStarts)
    }

    /** Everything the walk over the initializer list leaves alone. */
    ghost function Kept2(): (nat, nat, Name, bool, nat, Bytes, nat, (nat, nat, nat, nat, u16), Frame, u16, u8)
      reads this
    {
      (imported, created, appName, mainVisited, mainStarts, mem, heapUsed, StackRegs(), sf, syscall, flags)
    }

    /** The module table with its initializer list and log. */
    ghost function Table(): (seq<ModuleRec>, nat, nat, Name, u8, seq<nat>, seq<nat>)
      reads this
    {
      (modules, created, imported, appName, initHead, queue, initLog)
    }

    /** Calling the function at `offset` of module m from the host and
        running it, as `mango_execute` does for an initializer
        (src/mango.c:787-796) and for main (src/mango.c:809-815). An
        offset that names no function of the image record is not
        followed; a refused entry returns its code with nothing changed;
        otherwise the status is that of running from the entered frame. */
    method Invoke(m: nat, offset: nat, fuel: nat) returns (r: Status)
      requires Valid() && m < |modules| && modules[m].image.Some?
      modifies this
      ensures Valid() && Program() == old(Program())
      ensures offset !in old(modules)[m].image.value.funcs ==> r == UndefinedBehaviour && unchanged(this)
      ensures offset in old(modules)[m].image.value.funcs ==>
                var f := old(modules)[m].image.value.funcs[offset];
                var code := EntryCode(old(sf).trusted, f, old(modules)[m].flags, old(sp), old(rp));
                (code != Success ==> r == Returned(code) && unchanged(this)) &&
                (code == Success ==>
                   r == StatusOf(Exec(old(modules),
                                      Enter(old(CoreState()),
                                            EntryFrame(TrustGate(old(sf).trusted, f, old(modules)[m].flags).value,
                                                       f, old(modules)[m].index, offset),
                                            f.locCount),
                                      fuel)))
    {
      if offset !in modules[m].image.value.funcs {
        return UndefinedBehaviour;
      }
      var code := SetEntryPoint(m, offset);
      if code != Success {
        return Returned(code);
      }
      r := Run(fuel);
    }

    /** The walk over the initializer list in `mango_execute`
        (src/mango.c:744-798), resumed from `initHead`. An unvisited head
        is visited; a visited head is taken off, its successor stored in
        `initHead`, and its initializer, if it has one, run to the end
        before the walk goes on. A failing initializer stops the walk with
        its status, the list as it then stands. When the walk completes,
        the list is empty and the modules taken off, the application's
        among them, are closed under imports. A module with imports but no
        import array has it read through reference 0, which lands in the
        VM header; the model stops there with `UndefinedBehaviour`. */
    method Initializers(fuel: nat) returns (r: Status)
      requires Valid() && 1 <= imported == created
      modifies this
      ensures Valid() && Walked() == old(Walked())
      ensures |modules| == |old(modules)| && forall x :: 0 <= x < |modules| ==> Relinked(modules[x], old(modules)[x])
      ensures r == Returned(Success) ==>
                queue == [] && initHead == INVALID_MODULE &&
                0 in initLog && Distinct(initLog) && ImportsClosed(modules, initLog)
      ensures DependenciesFirst(modules, initLog) && (Acyclic(modules) ==> ImportsBefore(modules, initLog))
    {
      var head := initHead;
      while head != INVALID_MODULE
        invariant ValidWith(head) && 1 <= imported == created && Walked() == old(Walked())
        invariant head == INVALID_MODULE ==> initHead == head
        invariant |modules| == |old(modules)| && forall x :: 0 <= x < |modules| ==> Relinked(modules[x], old(modules)[x])
        decreases Unvisited(modules, imported), |queue|
      {
        TablesHead(modules, created, imported, appName, head, queue, initLog);
        if !modules[head].visited {
          if modules[head].imports.None? && |modules[head].image.value.imports| != 0 {
            SetHead(head);
            InitOrder();
            return UndefinedBehaviour;
          }
          ghost var before := modules;
          head := VisitHead(head);
          RelinkedTrans(old(modules), before, modules);
        } else {
          var m := head;
          ghost var before := modules;
          head := TakeHead(m);
          RelinkedTrans(old(modules), before, modules);
          SetHead(head);
          if modules[m].image.value.initializer != 0 {
            r := Invoke(m as nat, modules[m].image.value.initializer as nat, fuel);
            if r != Returned(Success) {
              InitOrder();
              return;
            }
          }
        }
      }
      WalkComplete(modules, imported, initLog);
      InitOrder();
      r := Returned(Success);
    }

    /** The initializers taken off so far put each module's imports first,
        but for imports on a cycle; without cycles, every import's
        initializer is taken off before its importer's. */
    lemma InitOrder()
      requires Valid()
      ensures DependenciesFirst(modules, initLog) && (Acyclic(modules) ==> ImportsBefore(modules, initLog))
    {
      AcyclicImportsBefore(modules, initLog);
    }

    /** Starting main (src/mango.c:800-816): the first time the walk
        completes, the VISITED bit of the VM is set and main, if the
        application has one, is called and run; later calls only return
        success. So main starts at most once: `Valid` keeps the count at
        most 1, and at 0 until VISITED is set. A start is counted before
        the entry gate of `Invoke` runs, so a main the gate refuses counts
        as started. */
    method StartMain(fuel: nat) returns (r: Status)
      requires Valid() && 1 <= imported
      modifies this
      ensures Valid() && mainVisited && Table() == old(Table())
      ensures old(mainVisited) ==> r == Returned(Success) && unchanged(this)
      ensures !old(mainVisited) ==>
                var main := old(modules)[0].image.value.app.main;
                mainStarts == (if main == 0 then 0 else 1) &&
                (main == 0 ==> r == Returned(Success))
    {
      TablesHead0(modules, created, imported, appName, initHead, queue, initLog);
      if mainVisited {
        return Returned(Success);
      }
      mainVisited := true;
      var main := modules[0].image.value.app.main;
      if main == 0 {
        return Returned(Success);
      }
      mainStarts := mainStarts + 1;
      r := Invoke(0, main as nat, fuel);
    }

    /** `mango_execute` (src/mango.c:725-816) with a budget of `fuel`
        instructions for each run. It refuses a VM whose application is
        not imported or whose imports are still missing, and one whose
        stack depth is not the one the last run left; then it finishes the
        host's pending run, runs the initializers still due and starts
        main. A call that stopped early (a system call, a failure, the
        budget) leaves the state a later call resumes from. */
    method Execute(fuel: nat) returns (r: Status)
      requires Valid()
      modifies this
      ensures Valid() && imported == old(imported) && created == old(created) && appName == old(appName)
      ensures old(imported) == 0 || old(imported) != old(created) ==>
                r == Returned(InvalidOperation) && unchanged(this)
      ensures 1 <= old(imported) == old(created) && old(sp) != old(spExpected) as int ==>
                r == Returned(StackImbalance) && unchanged(this)
      ensures r == Returned(Success) ==>
                queue == [] && initHead == INVALID_MODULE && mainVisited &&
                0 in initLog && Distinct(initLog) && ImportsClosed(modules, initLog)
      ensures r == Returned(Success) && !old(mainVisited) ==>
                mainStarts == (if old(modules)[0].image.value.app.main == 0 then 0 else 1)
      ensures DependenciesFirst(modules, initLog) && (Acyclic(modules) ==> ImportsBefore(modules, initLog))
    {
      InitOrder();
      if imported == 0 || imported != created {
        return Returned(InvalidOperation);
      }
      if sp != spExpected as int {
        return Returned(StackImbalance);
      }
      r := Run(fuel);
      if r != Returned(Success) {
        return;
      }
      r := Initializers(fuel);
      if r != Returned(Success) {
        return;
      }
      r := StartMain(fuel);
    }

    // -------------------------------------------------------------------
    // Module import

    /** `_mango_initialize_module` (src/mango.c:524-545): a module with
        imports gets an import-index array from the heap, failing with
        nothing changed when the heap cannot hold it; entry k is the index
        import k registers under, so every entry stands for the name it
        resolves. A module without imports keeps the null array. */
    method InitializeModule(m: nat) returns (r: Code)
      requires Valid() && 1 <= imported && m < imported
      requires modules[m].imports.None? && !modules[m].visited
      requires created + |NewNames(modules, created, appName, modules[m].image.value.imports)| <= |modules|
      modifies this
      ensures Valid() && |modules| == |old(modules)|
      ensures var count := |old(modules)[m].image.value.imports|;
              r == (if count != 0 && Alloc(old(heapUsed), |old(mem)|, count, 1, 1).None? then OutOfMemory
                    else Success)
      ensures r == OutOfMemory || |old(modules)[m].image.value.imports| == 0 ==> unchanged(this)
      ensures r == Success && |old(modules)[m].image.value.imports| != 0 ==>
                var names := old(modules)[m].image.value.imports;
                modules[m] == old(modules)[m].(imports := modules[m].imports) &&
                modules[m].imports.Some? && Resolved(modules, created, appName, m) &&
                created == old(created) + |NewNames(old(modules), old(created), appName, names)| &&
                heapUsed == Alloc(old(heapUsed), |old(mem)|, |names|, 1, 1).value.End()
      ensures Kept() == old(Kept())
    {
      var names := modules[m].image.value.imports;
      if |names| == 0 {
        return Success;
      }
      var ref := HeapAlloc(|names|, 1, 1, false);
      if ref == 0 {
        return OutOfMemory;
      }
      AttachImports(m);
      r := Success;
    }

    /** Module m's import array filled in and attached
        (src/mango.c:536-541). */
    method AttachImports(m: nat)
      requires Valid() && 1 <= imported && m < imported
      requires modules[m].imports.None? && !modules[m].visited
      requires created + |NewNames(modules, created, appName, modules[m].image.value.imports)| <= |modules|
      modifies this
      ensures Valid() && |modules| == |old(modules)| && Kept() == old(Kept()) && heapUsed == old(heapUsed)
      ensures modules[m] == old(modules)[m].(imports := modules[m].imports)
      ensures modules[m].imports.Some? && Resolved(modules, created, appName, m)
      ensures created == old(created) + |NewNames(old(modules), old(created), appName,
                                                  old(modules)[m].image.value.imports)|
    {
      modules, created := Attach(modules, created, imported, appName, initHead, queue, initLog, m);
    }

    /** Room in the module table for the names an import of `img` under
        `name` registers: a startup image that passes its checks needs a
        slot for itself and one for each distinct name it imports other
        than its own; the image of the first missing module needs one more
        slot for each distinct name it imports that is neither the
        application's nor registered yet. An import that is refused before
        anything is registered needs nothing. Registering past the table
        overruns it in the source. */
    predicate Room(name: Name, img: Image)
      reads this
      requires Valid()
    {
      if imported == 0 then
        img.executable && img.app.features <= SUPPORTED_FEATURES && HaltAt(img) ==>
          1 + |Foreign(name, img.imports)| <= img.app.moduleCount as int
      else if imported < created && name == ModuleName(modules, imported) then
        created + |NewNames(modules, created, appName, img.imports)| <= |modules|
      else true
    }

    /** The application's module in slot 0 of a fresh table of
        `moduleCount` slots (src/mango.c:584-599), with the frame set to run
        its HALT. */
    method Install(name: Name, img: Image, size: u16, importFlags: ImportFlags)
      requires Valid() && imported == 0 && stack != 0 && 1 <= img.app.moduleCount as int
      modifies this
      ensures Valid()
      ensures imported == 1 && created == 1 && appName == name && |modules| == img.app.moduleCount as int
      ensures modules[0] == ModuleRec(Some(img), size, 0, importFlags, false, INVALID_MODULE, INVALID_MODULE,
                                      INVALID_MODULE, INVALID_MODULE, None)
      ensures queue == [0] && initLog == [] && initHead == 0
      ensures sf == Frame(false, 0, 0, img.app.halt)
      ensures mem == old(mem) && heapUsed == old(heapUsed) && StackRegs() == old(StackRegs())
      ensures mainVisited == old(mainVisited) && mainStarts == old(mainStarts)
      ensures syscall == old(syscall) && this.flags == old(this.flags)
    {
      var mods := StartTable(name, img, size, importFlags);
      appName, created, imported, modules := name, 1, 1, mods;
      queue, initLog, initHead := [0], [], 0;
      sf := Frame(false, 0, 0, img.app.halt);
    }

    /** The stack startup creates when the host has not made one
        (src/mango.c:568-574): `cells` cells, failing only when the heap
        cannot hold them. */
    method EnsureStack(cells: u16) returns (r: Code)
      requires Valid() && imported == 0
      modifies this
      ensures Valid() && Program() == old(Program()) && sf == old(sf) && flags == old(flags)
      ensures r == Success || r == OutOfMemory
      ensures r == OutOfMemory ==> unchanged(this)
      ensures r == Success ==> stack != 0
      ensures r == Success && old(stack) != 0 ==> unchanged(this)
      ensures r == Success && old(stack) == 0 ==> stackSize == cells as int && rp == 0 && sp == stackSize
    {
      if stack != 0 {
        return Success;
      }
      r := StackCreate(cells * 4);
    }

    /** `_mango_import_startup_module` (src/mango.c:547-602): the image
        must be executable, need only supported features and end in HALT.
        The stack is created if there is none, the module table of
        `moduleCount` zeroed slots is taken from the heap, the application's
        module fills slot 0, the frame is set to return to its HALT, and
        its imports are registered. A startup that fails in its checks
        changes nothing. */
    method ImportStartup(name: Name, img: Image, size: u16, importFlags: ImportFlags) returns (r: Code)
      requires Valid() && imported == 0 && Room(name, img)
      modifies this
      ensures Valid()
      ensures r in {Success, BadImageFormat, NotSupported, OutOfMemory}
      ensures !img.executable ==> r == BadImageFormat
      ensures img.executable && !(img.app.features <= SUPPORTED_FEATURES) ==> r == NotSupported
      ensures img.executable && img.app.features <= SUPPORTED_FEATURES && !HaltAt(img) ==> r == BadImageFormat
      ensures r in {BadImageFormat, NotSupported} ==> unchanged(this)
      ensures r == Success ==>
                imported == 1 && 1 <= created && appName == name &&
                modules[0].image == Some(img) && modules[0].imageSize == size && modules[0].flags == importFlags &&
                !modules[0].visited && |modules| == img.app.moduleCount as int &&
                queue == [0] && initLog == [] && initHead == 0 &&
                sf == Frame(false, 0, 0, img.app.halt) &&
                (old(stack) != 0 ==> StackRegs() == old(StackRegs())) &&
                (old(stack) == 0 ==> stack != 0 && stackSize == img.app.stackSize as int &&
                                     rp == 0 && sp == stackSize) &&
                mainVisited == old(mainVisited) && mainStarts == old(mainStarts)
      ensures r == Success ==>
                created == 1 + |Foreign(name, img.imports)| &&
                (|img.imports| != 0 ==> modules[0].imports.Some? && Resolved(modules, created, appName, 0))
      ensures r == OutOfMemory ==>
                (imported == 0 && Program() == old(Program()) && sf == old(sf) &&
                 (old(stack) != 0 || stack == 0 ==> unchanged(this))) ||
                (imported == 1 && created == 1 && appName == name && |img.imports| != 0 &&
                 modules[0].image == Some(img) && modules[0].imports.None? &&
                 queue == [0] && initLog == [] && initHead == 0 && sf == Frame(false, 0, 0, img.app.halt))
    {
      if !img.executable {
        return BadImageFormat;
      }
      if !(img.app.features <= SUPPORTED_FEATURES) {
        return NotSupported;
      }
      if !HaltAt(img) {
        return BadImageFormat;
      }
      r := EnsureStack(img.app.stackSize);
      if r != Success {
        return;
      }
      var table := HeapAlloc(img.app.moduleCount as int, 32, 4, true);
      if table == 0 {
        return OutOfMemory;
      }
      Install(name, img, size, importFlags);
      assert Names(modules, created) == {};
      assert |img.imports| == 0 ==> Foreign(name, img.imports) == {};
      r := InitializeModule(0);
    }

    /** `mango_module_missing` (src/mango.c:654-667): the name of the
        first registered module whose image has not been supplied, or
        none once every registered module is in. It is a name some
        supplied module imports, and not the application's. */
    function Missing(): (r: Option<Name>)
      reads this
      requires Valid()
      ensures r.None? <==> imported == created
      ensures r.Some? ==>
                r.value != appName &&
                exists j :: 0 <= j < imported && modules[j].image.Some? && r.value in modules[j].image.value.imports
    {
      if imported == created then None
      else
        assert modules[modules[imported].nameModule].image.Some?;
        Some(ModuleName(modules, imported))
    }

    /** `_mango_import_missing_module` (src/mango.c:604-627): the image
        for the first missing module, refused unless it comes under that
        module's name. The module becomes supplied, its links are cleared
        and its imports are registered. */
    method ImportMissing(name: Name, img: Image, size: u16, importFlags: ImportFlags) returns (r: Code)
      requires Valid() && 1 <= imported < created && Room(name, img)
      modifies this
      ensures Valid()
      ensures r in {Success, InvalidOperation, OutOfMemory}
      ensures r == InvalidOperation <==> old(Missing()) != Some(name)
      ensures r == InvalidOperation ==> unchanged(this)
      ensures r != InvalidOperation ==>
                imported == old(imported) + 1 && old(created) <= created && appName == old(appName) &&
                modules[old(imported)].image == Some(img) && modules[old(imported)].imageSize == size &&
                modules[old(imported)].flags == importFlags && !modules[old(imported)].visited &&
                queue == old(queue) && initLog == old(initLog) && initHead == old(initHead) &&
                mainVisited == old(mainVisited) && mainStarts == old(mainStarts) &&
                sf == old(sf) && StackRegs() == old(StackRegs())
      ensures r == Success && |img.imports| != 0 ==> modules[old(imported)].imports.Some?
      ensures r == Success ==>
                created == old(created) + |old(NewNames(modules, created, appName, img.imports))| &&
                (|img.imports| != 0 ==> Resolved(modules, created, appName, old(imported)))
      ensures r == OutOfMemory ==> created == old(created) && modules[old(imported)].imports.None?
    {
      var slot := imported;
      if name != ModuleName(modules, slot) {
        return InvalidOperation;
      }
      Supply(img, size, importFlags);
      r := InitializeModule(slot);
    }

    /** The first missing module's slot given its image and flags, with
        its links cleared (src/mango.c:617-624). */
    method Supply(img: Image, size: u16, importFlags: ImportFlags)
      requires Valid() && 1 <= imported < created
      modifies this
      ensures Valid() && imported == old(imported) + 1 && created == old(created)
      ensures modules == old(modules)[old(imported) := old(modules)[old(imported)].(
                           image := Some(img), imageSize := size, flags := importFlags,
                           initNext := INVALID_MODULE, initPrev := INVALID_MODULE)]
      ensures !modules[old(imported)].visited && modules[old(imported)].imports.None?
      ensures appName == old(appName) && initHead == old(initHead) && queue == old(queue)
      ensures initLog == old(initLog) && mainVisited == old(mainVisited) && mainStarts == old(mainStarts)
      ensures mem == old(mem) && heapUsed == old(heapUsed) && StackRegs() == old(StackRegs())
      ensures sf == old(sf) && syscall == old(syscall) && this.flags == old(this.flags)
      ensures Names(modules, created) == Names(old(modules), created)
    {
      TablesSupply(modules, created, imported, appName, initHead, queue, initLog, img, size, importFlags);
      modules, imported := Supplied(modules, imported, img, size, importFlags), imported + 1;
    }

    /** The checks of `mango_module_import` (src/mango.c:629-644) before
        the state is looked at, each with the result it gives: a null name
        or image, a size outside [MODULE_DEF_SIZE, 65535], the wrong magic
        or major version, and a host that has not asked to skip
        verification, in that order. */
    static function Refusal(name: Option<Name>, image: Option<Image>, size: u32, importFlags: ImportFlags)
      : (r: Option<Code>)
      ensures r.None? <==>
                name.Some? && image.Some? && MODULE_DEF_SIZE <= size < U16 &&
                image.value.magic == IMAGE_MAGIC && image.value.version == VERSION_MAJOR &&
                importFlags.skipVerification
      ensures r.Some? ==> r.value in {ArgumentNull, Argument, BadImageFormat, Verification}
      ensures name.None? || image.None? ==> r == Some(ArgumentNull)
    {
      if name.None? || image.None? then Some(ArgumentNull)
      else if size < MODULE_DEF_SIZE || size > 65535 then Some(Argument)
      else if image.value.magic != IMAGE_MAGIC || image.value.version != VERSION_MAJOR then Some(BadImageFormat)
      else if !importFlags.skipVerification then Some(Verification)
      else None
    }

    /** `mango_module_import` (src/mango.c:629-652): after the argument
        checks, the first image starts the application, each later one
        supplies the module `Missing` names, and once nothing is missing
        the call is refused. Every successful import supplies exactly one
        more module. */
    method ModuleImport(name: Option<Name>, image: Option<Image>, size: u32, importFlags: ImportFlags)
      returns (r: Code)
      requires Valid() && (Refusal(name, image, size, importFlags).None? ==> Room(name.value, image.value))
      modifies this
      ensures Valid()
      ensures Refusal(name, image, size, importFlags).Some? ==>
                r == Refusal(name, image, size, importFlags).value && unchanged(this)
      ensures Refusal(name, image, size, importFlags).None? && old(imported) != 0 && old(imported) == old(created) ==>
                r == InvalidOperation && unchanged(this)
      ensures Refusal(name, image, size, importFlags).None? && old(imported) != 0 && old(imported) != old(created) ==>
                (r == InvalidOperation <==> old(Missing()) != name)
      ensures r == Success ==>
                imported == old(imported) + 1 && old(created) <= created &&
                modules[old(imported)].image == image && modules[old(imported)].flags == importFlags
      ensures r == Success && old(imported) == 0 ==> appName == name.value
      ensures r == Success ==>
                name.Some? && image.Some? &&
                (|image.value.imports| != 0 ==>
                   modules[old(imported)].imports.Some? && Resolved(modules, created, appName, old(imported)))
      ensures r == Success && old(imported) == 0 ==>
                created == 1 + |Foreign(name.value, image.value.imports)| &&
                queue == [0] && initLog == [] && initHead == 0
      ensures r == Success && old(imported) != 0 ==>
                created == old(created) + |old(NewNames(modules, created, appName, image.value.imports))| &&
                appName == old(appName) && queue == old(queue) && initLog == old(initLog) &&
                initHead == old(initHead) && mainVisited == old(mainVisited) && mainStarts == old(mainStarts) &&
                sf == old(sf) && StackRegs() == old(StackRegs())
      ensures r == OutOfMemory && old(imported) == 0 ==>
                (imported == 0 && Program() == old(Program())) ||
                (imported == 1 && created == 1 && modules[0].imports.None?)
      ensures r == OutOfMemory && old(imported) != 0 ==>
                imported == old(imported) + 1 && created == old(created) && modules[old(imported)].imports.None?
    {
      var refused := Refusal(name, image, size, importFlags);
      if refused.Some? {
        return refused.value;
      }
      if imported == 0 {
        r := ImportStartup(name.value, image.value, size, importFlags);
      } else if imported != created {
        r := ImportMissing(name.value, image.value, size, importFlags);
      } else {
        r := InvalidOperation;
      }
    }
  }
}
