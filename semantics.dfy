/** What single instructions and runs of the interpreter mean, stated on
    the operand stack read as a sequence, top first. Each lemma is the
    partner of one instruction family's step function: it says what the
    stack looks like afterwards in terms of what it was before, the way
    the opcode comments of `_mango_execute` describe it. */
module Semantics {
  import opened Words
  import opened Results
  import opened Images
  import opened Frames
  import opened Alu
  import opened Machine
  import opened Registry
  import opened Interp
  import opened Memory
  import opened Heap

  /** The operand stack, top first: the cells from `sp` to the end of the
      stack array. */
  function Operands(c: Core): (s: seq<int>)
    requires WellFormed(c)
    ensures |s| == c.stackSize - c.sp
  {
    seq(c.stackSize - c.sp, j requires 0 <= j < c.stackSize - c.sp => Cell(c, c.sp + j))
  }

  lemma OperandAt(c: Core, j: int)
    requires WellFormed(c) && 0 <= j < c.stackSize - c.sp
    ensures Operands(c)[j] == Cell(c, c.sp + j)
  {
  }

  /** d's stack is `top` on what is left of c's stack once `drop` entries
      are gone, when d's cells say so. */
  lemma OperandsFrom(c: Core, d: Core, top: seq<int>, drop: nat)
    requires WellFormed(c) && WellFormed(d) && d.stackSize == c.stackSize
    requires c.sp + drop <= c.stackSize && d.sp + |top| == c.sp + drop
    requires forall j :: 0 <= j < |top| ==> Cell(d, d.sp + j) == top[j]
    requires forall k :: c.sp + drop <= k < c.stackSize ==> Cell(d, k) == Cell(c, k)
    ensures Operands(d) == top + Operands(c)[drop..]
  {
    var s, t := Operands(d), top + Operands(c)[drop..];
    forall j | 0 <= j < |s|
      ensures s[j] == t[j]
    {
      OperandAt(d, j);
      if j >= |top| {
        OperandAt(c, drop + j - |top|);
        assert t[j] == Operands(c)[drop + j - |top|];
      }
    }
  }

  /** Cells after one cell store, with the value already a cell pattern. */
  lemma CellAfter(c: Core, k: int, v: nat, j: int)
    requires WellFormed(c) && IsCell(c, k) && IsCell(c, j) && v < U32
    ensures Cell(SetCell(c, k, v), j) == if j == k then v else Cell(c, j)
  {
    CellSet(c, k, v, j);
  }

  /** The cells of c moved to other registers. */
  lemma CellsOf(c: Core, d: Core)
    requires WellFormed(c) && WellFormed(d) && d.mem == c.mem && d.stack == c.stack && d.stackSize == c.stackSize
    ensures forall k :: IsCell(c, k) ==> Cell(d, k) == Cell(c, k)
  {
    SameCells(c, d);
  }

  // ---------------------------------------------------------------------
  // Stack shuffles (src/mango.c:1090-1150)

  /** The dispatcher hands each shuffle to its family's step. */
  lemma StepShuffle(mods: seq<ModuleRec>, c: Core, i: Instr)
    requires WellFormed(c) && InModule(mods, c)
    ensures i.PopX32? || i.DupX32? || i.Over? ==> Step(mods, c, i) == ShuffleStep(c, i)
    ensures i.Swap? || i.Nip? ==> Step(mods, c, i) == PermuteStep(c, i)
    ensures i.Rot? || i.Tuck? ==> Step(mods, c, i) == RotateStep(c, i)
  {
  }

  /** POP_X32 drops the top value. */
  lemma PopEffect(c: Core)
    requires WellFormed(c) && 1 <= |Operands(c)|
    ensures ShuffleStep(c, PopX32).Continue?
    ensures var d := ShuffleStep(c, PopX32).next;
            d.ip == c.ip + 1 && d.sf == c.sf && Operands(d) == Operands(c)[1..]
  {
    var d := ShuffleStep(c, PopX32).next;
    CellsOf(c, d);
    OperandsFrom(c, d, [], 1);
  }

  /** DUP_X32 pushes a copy of the top value. */
  lemma DupEffect(c: Core)
    requires WellFormed(c) && 1 <= |Operands(c)| && 1 <= c.sp
    ensures ShuffleStep(c, DupX32).Continue?
    ensures var d := ShuffleStep(c, DupX32).next;
            d.ip == c.ip + 1 && d.sf == c.sf && Operands(d) == [Operands(c)[0]] + Operands(c)
  {
    var s := c.sp;
    var c1 := SetCell(c, s - 1, Cell(c, s));
    var d := ShuffleStep(c, DupX32).next;
    assert d == c1.(sp := s - 1, ip := c.ip + 1);
    CellsOf(c1, d);
    forall k | IsCell(c, k) ensures Cell(d, k) == if k == s - 1 then Cell(c, s) else Cell(c, k) {
      CellAfter(c, s - 1, Cell(c, s), k);
    }
    OperandsFrom(c, d, [Cell(c, s)], 0);
    OperandAt(c, 0);
  }

  /** OVER pushes a copy of the second value. */
  lemma OverEffect(c: Core)
    requires WellFormed(c) && 2 <= |Operands(c)| && 1 <= c.sp
    ensures ShuffleStep(c, Over).Continue?
    ensures var d := ShuffleStep(c, Over).next;
            d.ip == c.ip + 1 && d.sf == c.sf && Operands(d) == [Operands(c)[1]] + Operands(c)
  {
    var s := c.sp;
    var c1 := SetCell(c, s - 1, Cell(c, s + 1));
    var d := ShuffleStep(c, Over).next;
    assert d == c1.(sp := s - 1, ip := c.ip + 1);
    CellsOf(c1, d);
    forall k | IsCell(c, k) ensures Cell(d, k) == if k == s - 1 then Cell(c, s + 1) else Cell(c, k) {
      CellAfter(c, s - 1, Cell(c, s + 1), k);
    }
    OperandsFrom(c, d, [Cell(c, s + 1)], 0);
    OperandAt(c, 1);
  }

  /** SWAP exchanges the two top values. */
  lemma SwapEffect(c: Core)
    requires WellFormed(c) && 2 <= |Operands(c)|
    ensures PermuteStep(c, Swap).Continue?
    ensures var d := PermuteStep(c, Swap).next;
            d.ip == c.ip + 1 && d.sf == c.sf && d.sp == c.sp &&
            Operands(d) == [Operands(c)[1], Operands(c)[0]] + Operands(c)[2..]
  {
    var s := c.sp;
    var a, b := Cell(c, s), Cell(c, s + 1);
    var c1 := SetCell(c, s, b);
    var c2 := SetCell(c1, s + 1, a);
    var d := PermuteStep(c, Swap).next;
    assert d == c2.(ip := c.ip + 1);
    CellsOf(c2, d);
    forall k | IsCell(c, k)
      ensures Cell(d, k) == if k == s then b else if k == s + 1 then a else Cell(c, k)
    {
      CellAfter(c, s, b, k);
      CellAfter(c1, s + 1, a, k);
    }
    OperandsFrom(c, d, [b, a], 2);
    OperandAt(c, 0);
    OperandAt(c, 1);
  }

  /** SWAP twice leaves the stack as it was. */
  lemma SwapTwice(c: Core)
    requires WellFormed(c) && 2 <= |Operands(c)|
    ensures PermuteStep(c, Swap).Continue?
    ensures var d := PermuteStep(c, Swap).next;
            PermuteStep(d, Swap).Continue? &&
            Operands(PermuteStep(d, Swap).next) == Operands(c)
  {
    SwapEffect(c);
    var d := PermuteStep(c, Swap).next;
    SwapEffect(d);
    var o := Operands(c);
    assert o == [o[0], o[1]] + o[2..];
    assert Operands(d)[2..] == o[2..];
  }

  /** NIP drops the second value and keeps the top. */
  lemma NipEffect(c: Core)
    requires WellFormed(c) && 2 <= |Operands(c)|
    ensures PermuteStep(c, Nip).Continue?
    ensures var d := PermuteStep(c, Nip).next;
            d.ip == c.ip + 1 && d.sf == c.sf && Operands(d) == [Operands(c)[0]] + Operands(c)[2..]
  {
    var s := c.sp;
    var c1 := SetCell(c, s + 1, Cell(c, s));
    var d := PermuteStep(c, Nip).next;
    assert d == c1.(sp := s + 1, ip := c.ip + 1);
    CellsOf(c1, d);
    forall k | IsCell(c, k) ensures Cell(d, k) == if k == s + 1 then Cell(c, s) else Cell(c, k) {
      CellAfter(c, s + 1, Cell(c, s), k);
    }
    OperandsFrom(c, d, [Cell(c, s)], 2);
    OperandAt(c, 0);
  }

  /** ROT moves the top value under the next two. */
  lemma RotEffect(c: Core)
    requires WellFormed(c) && 3 <= |Operands(c)|
    ensures RotateStep(c, Rot).Continue?
    ensures var d := RotateStep(c, Rot).next;
            d.ip == c.ip + 1 && d.sf == c.sf &&
            Operands(d) == [Operands(c)[1], Operands(c)[2], Operands(c)[0]] + Operands(c)[3..]
  {
    var s := c.sp;
    var a, b, e := Cell(c, s), Cell(c, s + 1), Cell(c, s + 2);
    var c1 := SetCell(c, s, b);
    assert Cell(c1, s + 2) == e by {
      CellAfter(c, s, b, s + 2);
    }
    var c2 := SetCell(c1, s + 1, e);
    var c3 := SetCell(c2, s + 2, a);
    var d := RotateStep(c, Rot).next;
    assert d == c3.(ip := c.ip + 1);
    CellsOf(c3, d);
    forall k | IsCell(c, k)
      ensures Cell(d, k) == if k == s then b else if k == s + 1 then e else if k == s + 2 then a else Cell(c, k)
    {
      CellAfter(c, s, b, k);
      CellAfter(c1, s + 1, e, k);
      CellAfter(c2, s + 2, a, k);
    }
    OperandsFrom(c, d, [b, e, a], 3);
    OperandAt(c, 0);
    OperandAt(c, 1);
    OperandAt(c, 2);
  }

  /** TUCK copies the top value under the second. */
  lemma TuckEffect(c: Core)
    requires WellFormed(c) && 2 <= |Operands(c)| && 1 <= c.sp
    ensures RotateStep(c, Tuck).Continue?
    ensures var d := RotateStep(c, Tuck).next;
            d.ip == c.ip + 1 && d.sf == c.sf &&
            Operands(d) == [Operands(c)[0], Operands(c)[1], Operands(c)[0]] + Operands(c)[2..]
  {
    var s := c.sp;
    var a, b := Cell(c, s), Cell(c, s + 1);
    var c1 := SetCell(c, s - 1, a);
    assert Cell(c1, s + 1) == b by {
      CellAfter(c, s - 1, a, s + 1);
    }
    var c2 := SetCell(c1, s, b);
    assert Cell(c2, s - 1) == a by {
      CellAfter(c, s - 1, a, s - 1);
      CellAfter(c1, s, b, s - 1);
    }
    var c3 := SetCell(c2, s + 1, a);
    var d := RotateStep(c, Tuck).next;
    assert d == c3.(sp := s - 1, ip := c.ip + 1);
    CellsOf(c3, d);
    forall k | IsCell(c, k)
      ensures Cell(d, k) == if k == s - 1 then a else if k == s then b else if k == s + 1 then a else Cell(c, k)
    {
      CellAfter(c, s - 1, a, k);
      CellAfter(c1, s, b, k);
      CellAfter(c2, s + 1, a, k);
    }
    OperandsFrom(c, d, [a, b, a], 2);
    OperandAt(c, 0);
    OperandAt(c, 1);
  }

  // ---------------------------------------------------------------------
  // Locals (src/mango.c:1161-1211)

  /** LDLOC_X32 k pushes a copy of operand k, counted from the top before
      the push. */
  lemma LdlocEffect(c: Core, k: u8)
    requires WellFormed(c) && (k as int) < |Operands(c)| && 1 <= c.sp
    ensures LocalStep(c, LdlocX32(k)).Continue?
    ensures var d := LocalStep(c, LdlocX32(k)).next;
            d.ip == c.ip + 2 && d.sf == c.sf && Operands(d) == [Operands(c)[k]] + Operands(c)
  {
    var s := c.sp;
    var v := Cell(c, s + k as int);
    var c1 := SetCell(c, s - 1, v);
    var d := LocalStep(c, LdlocX32(k)).next;
    assert d == c1.(sp := s - 1, ip := c.ip + 2);
    CellsOf(c1, d);
    forall j | IsCell(c, j) ensures Cell(d, j) == if j == s - 1 then v else Cell(c, j) {
      CellAfter(c, s - 1, v, j);
    }
    OperandsFrom(c, d, [v], 0);
    OperandAt(c, k as int);
  }

  /** STLOC_X32 k pops the top value into operand k - 1 of what is left;
      with k = 0 the value lands in the cell it was popped from and is gone
      from the stack. */
  lemma StlocEffect(c: Core, k: u8)
    requires WellFormed(c) && (k as int) < |Operands(c)|
    ensures StoreLocalStep(c, StlocX32(k)).Continue?
    ensures var d := StoreLocalStep(c, StlocX32(k)).next;
            d.ip == c.ip + 2 && d.sf == c.sf &&
            Operands(d) == if k == 0 then Operands(c)[1..] else Operands(c)[1..][k - 1 := Operands(c)[0]]
  {
    var s := c.sp;
    var v := Cell(c, s);
    var c1 := SetCell(c, s + k as int, v);
    var d := StoreLocalStep(c, StlocX32(k)).next;
    assert d == c1.(sp := s + 1, ip := c.ip + 2);
    CellsOf(c1, d);
    var o := Operands(c);
    var t := if k == 0 then o[1..] else o[1..][k - 1 := o[0]];
    forall j | 0 <= j < |Operands(d)|
      ensures Operands(d)[j] == t[j]
    {
      OperandAt(d, j);
      CellAfter(c, s + k as int, v, s + 1 + j);
      OperandAt(c, 1 + j);
      OperandAt(c, 0);
    }
    assert Operands(d) == t;
  }

  /** A value stored with STLOC_X32 k (k >= 1) is what LDLOC_X32 k - 1
      pushes next: the two address the same local across the pop. */
  lemma StoreThenLoad(c: Core, k: u8)
    requires WellFormed(c) && 1 <= k && (k as int) < |Operands(c)|
    ensures StoreLocalStep(c, StlocX32(k)).Continue?
    ensures var d := StoreLocalStep(c, StlocX32(k)).next;
            LocalStep(d, LdlocX32(k - 1)).Continue? &&
            Operands(LocalStep(d, LdlocX32(k - 1)).next) == [Operands(c)[0]] + Operands(d)
  {
    StlocEffect(c, k);
    var d := StoreLocalStep(c, StlocX32(k)).next;
    LdlocEffect(d, k - 1);
  }

  // ---------------------------------------------------------------------
  // Integer arithmetic (src/mango.c:882-950)

  /** A 32-bit binary opcode replaces value1 (second) and value2 (top) by
      value1 op value2, or, for a division by zero, returns
      DIVIDE_BY_ZERO with the state untouched. */
  lemma Binary32Effect(c: Core, op: BinOp)
    requires WellFormed(c) && BinaryOk(c, W32, op)
    ensures |Operands(c)| >= 2
    ensures var r := BinaryStep(c, W32, op); var o := Operands(c);
            (r.Done? <==> op in {Div, DivUn, Rem, RemUn} && o[0] == 0) &&
            (r.Done? ==> r == Done(c, DivideByZero)) &&
            (r.Continue? ==> r.next.ip == c.ip + 1 && r.next.sf == c.sf &&
                             Operands(r.next) == [Alu.Binary(op, W32, o[1], o[0]).v] + o[2..])
  {
    var s := c.sp;
    OperandAt(c, 0);
    OperandAt(c, 1);
    var r := BinaryStep(c, W32, op);
    var x := Alu.Binary(op, W32, Cell(c, s + 1), Cell(c, s));
    if x.Value? {
      var c1 := SetCell(c, s + 1, x.v);
      var d := r.next;
      assert d == c1.(sp := s + 1, ip := c.ip + 1);
      CellsOf(c1, d);
      forall j | IsCell(c, j) ensures Cell(d, j) == if j == s + 1 then x.v else Cell(c, j) {
        CellAfter(c, s + 1, x.v, j);
      }
      OperandsFrom(c, d, [x.v], 2);
    }
  }

  /** The 64-bit binary opcodes: the pair under the top pair is value1, and
      the result pair replaces both. */
  lemma Binary64Effect(c: Core, op: BinOp)
    requires WellFormed(c) && BinaryOk(c, W64, op)
    ensures |Operands(c)| >= 4
    ensures var r := BinaryStep(c, W64, op); var a, b := Cell64(c, c.sp + 2), Cell64(c, c.sp);
            (r.Done? <==> op in {Div, DivUn, Rem, RemUn} && b == 0) &&
            (r.Done? ==> r == Done(c, DivideByZero)) &&
            (r.Continue? ==> r.next.ip == c.ip + 1 && r.next.sf == c.sf && r.next.sp == c.sp + 2 &&
                             Cell64(r.next, r.next.sp) == Alu.Binary(op, W64, a, b).v &&
                             Operands(r.next)[2..] == Operands(c)[4..])
  {
    var x := Alu.Binary(op, W64, Cell64(c, c.sp + 2), Cell64(c, c.sp));
    Binary64Outcome(c, op, x);
    if x.Value? {
      PairReplaced(c, x.v);
    }
  }

  /** The 64-bit binary step named by the ALU's result x. */
  lemma Binary64Outcome(c: Core, op: BinOp, x: Alu.Value)
    requires WellFormed(c) && BinaryOk(c, W64, op)
    requires x == Alu.Binary(op, W64, Cell64(c, c.sp + 2), Cell64(c, c.sp))
    ensures x.Fault? ==> BinaryStep(c, W64, op) == Done(c, DivideByZero)
    ensures x.Value? ==> 0 <= x.v < U64
    ensures x.Value? ==> BinaryStep(c, W64, op) == Continue(SetCell64(c, c.sp + 2, x.v).(sp := c.sp + 2, ip := c.ip + 1))
  {
  }

  /** The top two pairs replaced by the pair holding v. */
  lemma PairReplaced(c: Core, v: int)
    requires WellFormed(c) && Window(c, 0, 4) && 0 <= v < U64
    ensures var d := SetCell64(c, c.sp + 2, v).(sp := c.sp + 2, ip := c.ip + 1);
            WellFormed(d) && Cell64(d, d.sp) == v && Operands(d)[2..] == Operands(c)[4..]
  {
    var s := c.sp;
    var c1 := SetCell64(c, s + 2, v);
    var d := c1.(sp := s + 2, ip := c.ip + 1);
    Store64Read(c, s + 2, v);
    assert Cell(d, s + 2) == Cell(c1, s + 2) && Cell(d, s + 3) == Cell(c1, s + 3);
    forall j | s + 4 <= j < c.stackSize ensures Cell(d, j) == Cell(c, j) {
      assert Cell(d, j) == Cell(c1, j);
    }
    OperandsFrom(c, d, [Cell(d, s + 2), Cell(d, s + 3)], 4);
  }

  /** A pair stored as a 64-bit value reads back as it, and the cells
      outside the pair are kept. */
  lemma Store64Read(c: Core, k: int, v: int)
    requires WellFormed(c) && IsCell(c, k) && IsCell(c, k + 1) && 0 <= v < U64
    ensures Cell64(SetCell64(c, k, v), k) == v
    ensures forall j :: IsCell(c, j) && j != k && j != k + 1 ==> Cell(SetCell64(c, k, v), j) == Cell(c, j)
  {
    Cell64Set(c, k, v);
    forall j | IsCell(c, j) && j != k && j != k + 1
      ensures Cell(SetCell64(c, k, v), j) == Cell(c, j)
    {
      Cell64SetOther(c, k, v, j);
    }
  }

  /** CONV_I64_I32 and CONV_U64_I32 turn the top cell into a pair holding
      its sign- or zero-extension. */
  lemma WidenEffect(c: Core, signed: bool)
    requires WellFormed(c) && 1 <= |Operands(c)| && 1 <= c.sp
    ensures ConvertStep(c, ConvTo64(signed)).Continue?
    ensures var d := ConvertStep(c, ConvTo64(signed)).next;
            WellFormed(d) && d.sp == c.sp - 1 && d.ip == c.ip + 1 && d.sf == c.sf &&
            Cell64(d, d.sp) == Widen(signed, Operands(c)[0]) && Operands(d)[2..] == Operands(c)[1..]
  {
    OperandAt(c, 0);
    PairOverTop(c, Widen(signed, Cell(c, c.sp)));
  }

  /** The top cell replaced by a pair holding v. */
  lemma PairOverTop(c: Core, v: int)
    requires WellFormed(c) && Window(c, -1, 1) && 0 <= v < U64
    ensures var d := SetCell64(c, c.sp - 1, v).(sp := c.sp - 1, ip := c.ip + 1);
            WellFormed(d) && Cell64(d, d.sp) == v && Operands(d)[2..] == Operands(c)[1..]
  {
    var s := c.sp;
    var c1 := SetCell64(c, s - 1, v);
    var d := c1.(sp := s - 1, ip := c.ip + 1);
    Store64Read(c, s - 1, v);
    assert Cell(d, s - 1) == Cell(c1, s - 1) && Cell(d, s) == Cell(c1, s);
    forall j | s + 1 <= j < c.stackSize ensures Cell(d, j) == Cell(c, j) {
      assert Cell(d, j) == Cell(c1, j);
    }
    OperandsFrom(c, d, [Cell(d, s - 1), Cell(d, s)], 1);
  }

  /** CONV_I8_I64 .. CONV_U32_I64 turn the top pair into one cell holding
      it cast to the narrower type. */
  lemma NarrowEffect(c: Core, t: IntType)
    requires WellFormed(c) && Window(c, 0, 2)
    ensures ConvertStep(c, ConvFrom64(t)).Continue?
    ensures var d := ConvertStep(c, ConvFrom64(t)).next;
            d.sp == c.sp + 1 && d.ip == c.ip + 1 && d.sf == c.sf &&
            Operands(d) == [Narrow(t, Cell64(c, c.sp))] + Operands(c)[2..]
  {
    var s := c.sp;
    var v := Narrow(t, Cell64(c, s));
    var c1 := SetCell(c, s + 1, v);
    var d := ConvertStep(c, ConvFrom64(t)).next;
    assert d == c1.(sp := s + 1, ip := c.ip + 1);
    CellsOf(c1, d);
    forall j | IsCell(c, j) ensures Cell(d, j) == if j == s + 1 then v else Cell(c, j) {
      CellAfter(c, s + 1, v, j);
    }
    OperandsFrom(c, d, [v], 2);
  }

  /** CONV_I64_I32 or CONV_U64_I32, then CONV_I32_I64, leaves the operand
      stack as it was. */
  lemma WidenThenNarrow(c: Core, signed: bool)
    requires WellFormed(c) && 1 <= |Operands(c)| && 1 <= c.sp
    ensures ConvertStep(c, ConvTo64(signed)).Continue?
    ensures var d := ConvertStep(c, ConvTo64(signed)).next;
            WellFormed(d) && Window(d, 0, 2) && ConvertStep(d, ConvFrom64(Int32)).Continue? &&
            Operands(ConvertStep(d, ConvFrom64(Int32)).next) == Operands(c)
  {
    WidenEffect(c, signed);
    var d := ConvertStep(c, ConvTo64(signed)).next;
    NarrowEffect(d, Int32);
    WidenNarrow(signed, Operands(c)[0]);
    var o := Operands(c);
    assert o == [o[0]] + o[1..];
  }

  // ---------------------------------------------------------------------
  // Calls and returns (src/mango.c:1222-1301)

  /** RET, RET_X32 and RET_X64 leave the callee's `results` top values in
      place of its `pop` cells of arguments and locals, and resume the
      frame saved in the cell under `rp`. */
  lemma RetEffect(c: Core, results: nat)
    requires WellFormed(c) && results <= 2 && 1 <= c.rp <= c.sp && Window(c, 0, c.sf.pop + results)
    ensures RetStep(c, results).Continue?
    ensures var d := RetStep(c, results).next; var o := Operands(c);
            d.rp == c.rp - 1 && d.sf == DecodeFrame(Cell(c, c.rp - 1)) && d.ip == d.sf.ip &&
            Operands(d) == o[..results] + o[c.sf.pop as int + results..]
  {
    var s, p := c.sp, c.sf.pop as int;
    var d := RetStep(c, results).next;
    var o := Operands(c);
    forall j | 0 <= j < results ensures Cell(d, d.sp + j) == o[..results][j] {
      RetCell(c, results, s + p + j);
      OperandAt(c, j);
    }
    forall j | s + p + results <= j < c.stackSize ensures Cell(d, j) == Cell(c, j) {
      RetCell(c, results, j);
    }
    OperandsFrom(c, d, o[..results], p + results);
    RetCell(c, results, c.rp - 1);
    RetFrame(c, results);
  }

  /** The cells after RET: the results moved down over the `pop` cells,
      every other cell as it was. */
  lemma RetCell(c: Core, results: nat, j: int)
    requires WellFormed(c) && results <= 2 && 1 <= c.rp && Window(c, 0, c.sf.pop + results) && IsCell(c, j)
    ensures var s, p := c.sp, c.sf.pop as int;
            Cell(RetStep(c, results).next, j) ==
              if results >= 1 && j == s + p then Cell(c, s)
              else if results == 2 && j == s + p + 1 then Cell(c, s + 1)
              else Cell(c, j)
  {
    var s, p := c.sp, c.sf.pop as int;
    var c1 := if results == 2 then SetCell(c, s + p + 1, Cell(c, s + 1)) else c;
    var c2 := if results >= 1 then SetCell(c1, s + p, Cell(c1, s)) else c1;
    var d := RetStep(c, results).next;
    assert Cell(d, j) == Cell(c2, j);
    if results == 2 {
      CellAfter(c, s + p + 1, Cell(c, s + 1), j);
      CellAfter(c, s + p + 1, Cell(c, s + 1), s);
    }
    if results >= 1 {
      CellAfter(c1, s + p, Cell(c1, s), j);
    }
  }

  /** RET resumes the frame decoded from cell rp - 1 as it is after the
      results are moved. */
  lemma RetFrame(c: Core, results: nat)
    requires WellFormed(c) && results <= 2 && 1 <= c.rp && Window(c, 0, c.sf.pop + results)
    ensures RetStep(c, results).Continue?
    ensures var d := RetStep(c, results).next;
            d.sp == c.sp + c.sf.pop as int && d.rp == c.rp - 1 && d.sf == DecodeFrame(Cell(d, c.rp - 1)) && d.ip == d.sf.ip
  {
  }

  /** A call entered with Enter returns, through any of the RET opcodes,
      to the frame it left, provided the cell holding the saved frame is
      untouched when RET runs at the callee's depth. */
  lemma EnterThenRet(c: Core, entry: Frame, locCount: nat, e: Core, results: nat)
    requires WellFormed(c) && c.rp + 1 + locCount <= c.sp
    requires WellFormed(e) && e.stack == c.stack && e.stackSize == c.stackSize
    requires e.rp == c.rp + 1 && e.rp <= e.sp && results <= 2 && Window(e, 0, e.sf.pop + results)
    requires Cell(e, c.rp) == Cell(Enter(c, entry, locCount), c.rp)
    ensures RetStep(e, results).Continue?
    ensures var r := RetStep(e, results).next; r.rp == c.rp && r.sf == c.sf && r.ip == c.sf.ip
  {
    RetEffect(e, results);
  }

  /** CALL and CALLI check trust before room: a callee the trust gate
      refuses gives SECURITY_VIOLATION whatever the stack; an admitted one
      gives STACK_OVERFLOW exactly when fewer than 1 + locals + max-stack
      cells lie between rp and sp; otherwise the callee runs in its own
      module, with the trust granted and its locals reserved below sp. */
  lemma CallOrder(mods: seq<ModuleRec>, c: Core, slot: u8, target: int, indirect: bool)
    requires WellFormed(c) && InModule(mods, c) && CallDefined(mods, c, slot, target)
    requires indirect ==> IsCell(c, c.sp)
    ensures var m := mods[CalleeSlot(mods, c, slot).value]; var f := m.image.value.funcs[target];
            var g := TrustGate(c.sf.trusted, f, m.flags);
            var r := CallStep(mods, c, slot, target, indirect);
            (g.None? <==> r == Done(c, Security)) &&
            (g.Some? && c.sp - c.rp < 1 + f.locCount as int + f.maxStack as int <==> r == Done(c, StackOverflow)) &&
            (r.Done? || r.Continue?) &&
            (r.Continue? ==> r.next.sf.trusted == g.value && r.next.sf.moduleIndex == m.index &&
                             r.next.sf.pop as int == (f.argCount as int + f.locCount as int) % 128 &&
                             r.next.ip == target + FUNC_DEF_SIZE &&
                             r.next.sp == c.sp + (if indirect then 1 else 0) - f.locCount as int)
  {
    var m := mods[CalleeSlot(mods, c, slot).value];
    var f := m.image.value.funcs[target];
    assert Security != StackOverflow;
  }

  /** A CALL that is not a tail call saves the caller's frame, resuming
      after the CALL, in cell rp; a RET at the callee's depth with that cell
      intact comes back there with the caller's frame. */
  lemma CallThenRet(mods: seq<ModuleRec>, c: Core, slot: u8, target: int, e: Core, results: nat)
    requires WellFormed(c) && InModule(mods, c) && CallDefined(mods, c, slot, target)
    requires CallStep(mods, c, slot, target, false).Continue?
    requires !(c.sf.pop == 0 && AtRet(mods, c, c.ip + 4))
    requires WellFormed(e) && e.stack == c.stack && e.stackSize == c.stackSize
    requires e.rp == c.rp + 1 && e.rp <= e.sp && results <= 2 && Window(e, 0, e.sf.pop + results)
    requires IsCell(c, c.rp) && Cell(e, c.rp) == Cell(CallStep(mods, c, slot, target, false).next, c.rp)
    ensures CallStep(mods, c, slot, target, false).next.rp == c.rp + 1
    ensures RetStep(e, results).Continue?
    ensures var r := RetStep(e, results).next;
            r.rp == c.rp && r.sf == c.sf.(ip := Wrap(c.ip + 4, W16)) && r.ip == Wrap(c.ip + 4, W16)
  {
    var saved := c.sf.(ip := Wrap(c.ip + 4, W16));
    var v := EncodeFrame(saved);
    var c1 := SetCell(c, c.rp, v);
    var d := CallStep(mods, c, slot, target, false).next;
    assert d.mem == c1.mem && d.stack == c1.stack && d.stackSize == c1.stackSize;
    CellsOf(c1, d);
    CellSetSame(c, c.rp, v);
    DivModUnique(v, U32, 0, v);
    FrameRoundTrip(saved);
    RetEffect(e, results);
  }

  // ---------------------------------------------------------------------
  // Allocation (src/mango.c:1535-1547)

  /** NEWOBJ pushes a reference to a block of `size` zero bytes past the
      old heap cursor, with the cursor moved past it, or returns
      OUT_OF_MEMORY when the heap has no room. */
  lemma NewobjEffect(c: Core, size: u16)
    requires WellFormed(c) && Window(c, -1, 0)
    ensures var r := NewobjStep(c, size);
            (r.Done? <==> NewBlock(c, 1, size).None?) &&
            (r.Done? ==> r == Done(c, OutOfMemory)) &&
            (r.Continue? ==> var d := r.next; var ref := Cell(d, d.sp);
               d.sp == c.sp - 1 && d.sf == c.sf && c.heapUsed <= ref &&
               ref + size as int <= d.heapUsed <= |d.mem| &&
               Operands(d)[1..] == Operands(c) &&
               forall i :: ref <= i < ref + size as int ==> d.mem[i] == 0)
  {
    var r := NewobjStep(c, size);
    if r.Continue? {
      var b := NewBlock(c, 1, size).value;
      AllocPushed(c, b, c.ip + 3);
      assert r.next == SetCell(Allocated(c, b), c.sp - 1, b.offset).(sp := c.sp - 1, ip := c.ip + 3);
    }
  }

  /** Zero-filling a block past the heap cursor leaves the stack cells as
      they were. */
  lemma ArenaCellsKept(c: Core, b: Block, j: int)
    requires WellFormed(c) && c.heapUsed <= b.offset && b.End() <= |c.mem| && IsCell(c, j)
    ensures Cell(Allocated(c, b), j) == Cell(c, j)
  {
    var a := Allocated(c, b);
    var at := c.stack + 4 * j;
    forall i | at <= i < at + 4 ensures a.mem[i] == c.mem[i] {
    }
    Pow256Four();
    LoadSame(c.mem, a.mem, at, 4);
  }

  // ---------------------------------------------------------------------
  // Runs (src/mango.c:1068)

  /** A run that ends before the budget is used up ends the same way with
      any larger budget: the budget only cuts runs short. */
  lemma {:induction false} ExecMoreFuel(mods: seq<ModuleRec>, c: Core, n: nat, m: nat)
    requires WellFormed(c) && n <= m && !Exec(mods, c, n).OutOfFuel?
    ensures Exec(mods, c, m) == Exec(mods, c, n)
    decreases n
  {
    match Fetch(mods, c)
    case None =>
    case Some(i) =>
      var o := Step(mods, c, i);
      assert Exec(mods, c, n) == Resume(mods, c, o, n - 1);
      assert Exec(mods, c, m) == Resume(mods, c, o, m - 1);
      if o.Continue? {
        ExecMoreFuel(mods, o.next, n - 1, m - 1);
      }
  }

  // ---------------------------------------------------------------------
  // Constants, branches, unary and comparison opcodes, SYSCALL

  /** LDC_I32_M1 .. LDC_I32_8 push a cell that reads back, as `int32_t`,
      as the constant. */
  lemma LdcEffect(c: Core, k: SmallConst)
    requires WellFormed(c) && Window(c, -1, 0)
    ensures ConstStep(c, LdcI32(k)).Continue?
    ensures var d := ConstStep(c, LdcI32(k)).next;
            d.ip == c.ip + 1 && d.sf == c.sf && d.sp == c.sp - 1 &&
            I32At(d, d.sp) == k && Operands(d)[1..] == Operands(c)
  {
    Pushed(c, k, c.ip + 1);
    assert ConstStep(c, LdcI32(k)).next == SetCell(c, c.sp - 1, k).(sp := c.sp - 1, ip := c.ip + 1);
    SignedSmall(k);
  }

  /** LDC_I32_S pushes its operand byte sign-extended: the cell reads
      back, as `int32_t`, as the operand. */
  lemma LdcSEffect(c: Core, imm: i8)
    requires WellFormed(c) && Window(c, -1, 0)
    ensures ConstStep(c, LdcI32S(imm)).Continue?
    ensures var d := ConstStep(c, LdcI32S(imm)).next;
            d.ip == c.ip + 2 && d.sf == c.sf && d.sp == c.sp - 1 &&
            I32At(d, d.sp) == imm && Operands(d)[1..] == Operands(c)
  {
    Pushed(c, imm, c.ip + 2);
    assert ConstStep(c, LdcI32S(imm)).next == SetCell(c, c.sp - 1, imm).(sp := c.sp - 1, ip := c.ip + 2);
    SignedSmall(imm);
  }

  /** A small integer stored in a cell reads back as itself. */
  lemma SignedSmall(k: int)
    requires -0x80 <= k < 0x80
    ensures Signed(k % U32, W32) == k
  {
    if k < 0 {
      DivModUnique(k, U32, -1, k + U32);
    }
  }

  /** One cell pushed: the new top holds v reduced to 32 bits, the rest of
      the stack is as it was. */
  lemma Pushed(c: Core, v: int, ip: int)
    requires WellFormed(c) && Window(c, -1, 0)
    ensures var d := SetCell(c, c.sp - 1, v).(sp := c.sp - 1, ip := ip);
            WellFormed(d) && Cell(d, d.sp) == v % U32 && Operands(d)[1..] == Operands(c)
  {
    var s := c.sp;
    var c1 := SetCell(c, s - 1, v);
    var d := c1.(sp := s - 1, ip := ip);
    CellsOf(c1, d);
    CellSetSame(c, s - 1, v);
    forall j | s <= j < c.stackSize ensures Cell(d, j) == Cell(c, j) {
      CellSetOther(c, s - 1, v, j);
    }
    OperandsFrom(c, d, [Cell(d, s - 1)], 0);
  }

  /** BRTRUE_S and BRFALSE_S both pop the value they test, and exactly one
      of them jumps: BRTRUE_S when it is not zero, BRFALSE_S when it is. */
  lemma BranchPair(c: Core, off: i8)
    requires WellFormed(c) && Window(c, 0, 1)
    ensures BranchStep(c, BrtrueS(off)).Continue? && BranchStep(c, BrfalseS(off)).Continue?
    ensures var t, f := BranchStep(c, BrtrueS(off)).next, BranchStep(c, BrfalseS(off)).next;
            Operands(t) == Operands(c)[1..] && Operands(f) == Operands(c)[1..] &&
            t.sf == c.sf && f.sf == c.sf &&
            (Operands(c)[0] != 0 ==> t.ip == c.ip + 2 + off && f.ip == c.ip + 2) &&
            (Operands(c)[0] == 0 ==> t.ip == c.ip + 2 && f.ip == c.ip + 2 + off)
  {
    var t, f := BranchStep(c, BrtrueS(off)).next, BranchStep(c, BrfalseS(off)).next;
    CellsOf(c, t);
    CellsOf(c, f);
    OperandsFrom(c, t, [], 1);
    OperandsFrom(c, f, [], 1);
    OperandAt(c, 0);
  }

  /** NEG_I32 and NOT_I32 rewrite the top value in place. */
  lemma UnaryEffect(c: Core, op: UnOp)
    requires WellFormed(c) && Window(c, 0, 1)
    ensures UnaryStep(c, W32, op).Continue?
    ensures var d := UnaryStep(c, W32, op).next;
            d.sp == c.sp && d.ip == c.ip + 1 && d.sf == c.sf &&
            Operands(d) == [Alu.Unary(op, W32, Operands(c)[0])] + Operands(c)[1..]
  {
    var s := c.sp;
    var v := Alu.Unary(op, W32, Cell(c, s));
    var c1 := SetCell(c, s, v);
    var d := UnaryStep(c, W32, op).next;
    assert d == c1.(ip := c.ip + 1);
    CellsOf(c1, d);
    forall j | IsCell(c, j) ensures Cell(d, j) == if j == s then v else Cell(c, j) {
      CellAfter(c, s, v, j);
    }
    OperandsFrom(c, d, [v], 1);
    OperandAt(c, 0);
  }

  /** NEG_I32 twice, or NOT_I32 twice, leaves the operand stack as it was. */
  lemma UnaryTwice(c: Core, op: UnOp)
    requires WellFormed(c) && Window(c, 0, 1)
    ensures UnaryStep(c, W32, op).Continue?
    ensures var d := UnaryStep(c, W32, op).next;
            WellFormed(d) && Window(d, 0, 1) && UnaryStep(d, W32, op).Continue? &&
            Operands(UnaryStep(d, W32, op).next) == Operands(c)
  {
    UnaryEffect(c, op);
    var d := UnaryStep(c, W32, op).next;
    UnaryEffect(d, op);
    var o := Operands(c);
    UnaryInvolution(op, W32, o[0]);
    assert o == [o[0]] + o[1..];
  }

  /** The 32-bit comparisons replace value1 (second) and value2 (top) by
      the truth value of the comparison. */
  lemma CompareEffect(c: Core, cmp: Cmp)
    requires WellFormed(c) && Window(c, 0, 2)
    ensures CompareStep(c, W32, cmp).Continue?
    ensures var d := CompareStep(c, W32, cmp).next; var o := Operands(c);
            d.ip == c.ip + 1 && d.sf == c.sf &&
            Operands(d) == [Alu.Compare(cmp, W32, o[1], o[0])] + o[2..]
  {
    var s := c.sp;
    var v := Alu.Compare(cmp, W32, Cell(c, s + 1), Cell(c, s));
    var c1 := SetCell(c, s + 1, v);
    var d := CompareStep(c, W32, cmp).next;
    assert d == c1.(sp := s + 1, ip := c.ip + 1);
    CellsOf(c1, d);
    forall j | IsCell(c, j) ensures Cell(d, j) == if j == s + 1 then v else Cell(c, j) {
      CellAfter(c, s + 1, v, j);
    }
    OperandsFrom(c, d, [v], 2);
    OperandAt(c, 0);
    OperandAt(c, 1);
  }

  /** SYSCALL yields to the host exactly when the frame is in full trust,
      leaving the stack alone and recording the depth the host must leave
      it at; otherwise it returns SECURITY_VIOLATION. */
  lemma SyscallEffect(c: Core, adjustment: i8, id: u16)
    requires WellFormed(c)
    ensures var r := SyscallStep(c, adjustment, id);
            (r.Yield? <==> c.sf.trusted) && (!c.sf.trusted ==> r == Done(c, Security)) &&
            (r.Yield? ==> r.syscall == id && r.spExpected as int == (c.sp + adjustment) % U16 &&
                          r.core.ip == c.ip + 4 && Operands(r.core) == Operands(c))
  {
    var r := SyscallStep(c, adjustment, id);
    if r.Yield? {
      CellsOf(c, r.core);
      OperandsFrom(c, r.core, [], 0);
    }
  }

  /** LDC_X32 pushes its 32-bit operand. */
  lemma LdcX32Effect(c: Core, imm: u32)
    requires WellFormed(c) && Window(c, -1, 0)
    ensures ConstStep(c, LdcX32(imm)).Continue?
    ensures var d := ConstStep(c, LdcX32(imm)).next;
            d.ip == c.ip + 5 && d.sf == c.sf && d.sp == c.sp - 1 &&
            Operands(d) == [imm as int] + Operands(c)
  {
    Pushed(c, imm, c.ip + 5);
    var d := ConstStep(c, LdcX32(imm)).next;
    assert d == SetCell(c, c.sp - 1, imm).(sp := c.sp - 1, ip := c.ip + 5);
    DivModUnique(imm as int, U32, 0, imm as int);
    OperandAt(d, 0);
    assert Operands(d) == [Operands(d)[0]] + Operands(d)[1..];
  }

  /** LDFTN pushes the function token of the module slot and the offset
      the instruction names. */
  lemma LdftnEffect(c: Core, slot: u8, target: u16)
    requires WellFormed(c) && Window(c, -1, 0)
    ensures ConstStep(c, Ldftn(slot, target)).Continue?
    ensures var d := ConstStep(c, Ldftn(slot, target)).next;
            d.ip == c.ip + 4 && d.sf == c.sf && d.sp == c.sp - 1 && Operands(d)[1..] == Operands(c) &&
            Cell(d, d.sp) == EncodeToken(slot, target)
  {
    var t := EncodeToken(slot, target);
    assert ConstStep(c, Ldftn(slot, target)) == Continue(SetCell(c, c.sp - 1, t).(sp := c.sp - 1, ip := c.ip + 4));
    PushedPattern(c, t, c.ip + 4);
  }

  /** CALLI reads back, from the cell LDFTN pushed, the module slot and the
      offset the LDFTN named. */
  lemma LdftnCalli(c: Core, slot: u8, target: u16)
    requires WellFormed(c) && Window(c, -1, 0)
    ensures ConstStep(c, Ldftn(slot, target)).Continue?
    ensures var d := ConstStep(c, Ldftn(slot, target)).next;
            TokenSlot(Cell(d, d.sp)) == slot && TokenIp(Cell(d, d.sp)) == target
  {
    LdftnEffect(c, slot, target);
    TokenRoundTrip(slot, target);
  }

  /** A cell pattern pushed reads back unchanged. */
  lemma PushedPattern(c: Core, t: u32, ip: int)
    requires WellFormed(c) && Window(c, -1, 0)
    ensures var d := SetCell(c, c.sp - 1, t).(sp := c.sp - 1, ip := ip);
            WellFormed(d) && Cell(d, d.sp) == t && Operands(d)[1..] == Operands(c)
  {
    Pushed(c, t, ip);
    DivModUnique(t as int, U32, 0, t as int);
  }

  /** LDLOCA k pushes the arena address of operand k, counted before the
      push: a 4-byte load through it reads that operand, now operand
      k + 1. */
  lemma LdlocaEffect(c: Core, k: u8)
    requires WellFormed(c) && Window(c, -1, 0) && (k as int) < |Operands(c)|
    ensures LocalStep(c, Ldloca(k)).Continue?
    ensures var d := LocalStep(c, Ldloca(k)).next; var ref := Cell(d, d.sp);
            d.ip == c.ip + 2 && d.sf == c.sf && d.sp == c.sp - 1 && Operands(d)[1..] == Operands(c) &&
            ref == c.stack + 4 * (c.sp + k as int) && ref + 4 <= |d.mem| &&
            Load(d.mem, ref, 4) == Operands(d)[k as int + 1]
  {
    var a := c.stack + 4 * (c.sp + k as int);
    Pushed(c, a, c.ip + 2);
    var d := LocalStep(c, Ldloca(k)).next;
    assert d == SetCell(c, c.sp - 1, a).(sp := c.sp - 1, ip := c.ip + 2);
    DivModUnique(a, U32, 0, a);
    OperandAt(d, k as int + 1);
    Pow256Four();
  }

  /** LDFLDA returns NULL_REFERENCE for a null reference and otherwise
      replaces it by the field's address, in 32 bits. */
  lemma LdfldaEffect(c: Core, off: u16)
    requires WellFormed(c) && Window(c, 0, 1)
    ensures var r := LdfldaStep(c, off); var o := Operands(c);
            (r == Done(c, NullReference) <==> o[0] == 0) &&
            (r.Continue? ==> var d := r.next;
               d.ip == c.ip + 3 && d.sf == c.sf && d.sp == c.sp &&
               Operands(d) == [(o[0] + off as int) % U32] + o[1..])
  {
    var r := LdfldaStep(c, off);
    var s := c.sp;
    OperandAt(c, 0);
    if r.Continue? {
      var v := Cell(c, s) + off as int;
      var c1 := SetCell(c, s, v);
      var d := r.next;
      assert d == c1.(ip := c.ip + 3);
      CellsOf(c1, d);
      forall j | IsCell(c, j) ensures Cell(d, j) == if j == s then v % U32 else Cell(c, j) {
        CellSet(c, s, v, j);
      }
      OperandsFrom(c, d, [v % U32], 1);
    }
  }

  /** CONV_I8_I32 .. CONV_U16_I32 cast the top value in place. */
  lemma Conv32Effect(c: Core, t: SmallType)
    requires WellFormed(c) && Window(c, 0, 1)
    ensures ConvertStep(c, Conv32(t)).Continue?
    ensures var d := ConvertStep(c, Conv32(t)).next;
            d.sp == c.sp && d.ip == c.ip + 1 && d.sf == c.sf &&
            Operands(d) == [Narrow(t, Operands(c)[0])] + Operands(c)[1..]
  {
    var s := c.sp;
    var v := Narrow(t, Cell(c, s));
    var c1 := SetCell(c, s, v);
    var d := ConvertStep(c, Conv32(t)).next;
    assert d == c1.(ip := c.ip + 1);
    CellsOf(c1, d);
    forall j | IsCell(c, j) ensures Cell(d, j) == if j == s then v else Cell(c, j) {
      CellAfter(c, s, v, j);
    }
    OperandsFrom(c, d, [v], 1);
    OperandAt(c, 0);
  }

  /** SHL_I32, SHR_I32 and SHR_I32_UN replace the value under the amount by
      that value shifted by the amount, which C requires to be in
      [0, 32). */
  lemma ShiftEffect(c: Core, op: ShiftOp)
    requires WellFormed(c) && ShiftOk(c, W32)
    ensures ShiftStep(c, W32, op).Continue?
    ensures var d := ShiftStep(c, W32, op).next; var o := Operands(c); var n := I32At(c, c.sp);
            d.ip == c.ip + 1 && d.sf == c.sf && 0 <= n < 32 &&
            Operands(d) == [Alu.Shift(op, W32, o[1], n)] + o[2..]
  {
    var s := c.sp;
    var v := Alu.Shift(op, W32, Cell(c, s + 1), I32At(c, s));
    var c1 := SetCell(c, s + 1, v);
    var d := ShiftStep(c, W32, op).next;
    assert d == c1.(sp := s + 1, ip := c.ip + 1);
    CellsOf(c1, d);
    forall j | IsCell(c, j) ensures Cell(d, j) == if j == s + 1 then v else Cell(c, j) {
      CellAfter(c, s + 1, v, j);
    }
    OperandsFrom(c, d, [v], 2);
    OperandAt(c, 1);
  }

  // ---------------------------------------------------------------------
  // Fields (src/mango.c:1609-1695)

  /** A field written with STFLD_X8, STFLD_X16 or STFLD_X32 reads back
      through LDFLD of the same size: a state over the arena the store
      left, with the same reference on top, loads the stored value cast to
      the load's type. */
  lemma FieldRoundTrip(c: Core, w: StoreWidth, off: u16, t: IntType, e: Core)
    requires WellFormed(c) && w != S64 && t.Bytes() == w.Bytes()
    requires StfldOk(c, w, off) && Cell(c, c.sp + 1) != 0
    requires StfldStep(c, w, off).Continue?
    requires WellFormed(e) && e.mem == StfldStep(c, w, off).next.mem
    requires Window(e, 0, 1) && Cell(e, e.sp) == Cell(c, c.sp + 1)
    ensures LdfldOk(e, Int(t), off) && LdfldStep(e, Int(t), off).Continue?
    ensures Operands(LdfldStep(e, Int(t), off).next) == [Narrow(t, Operands(c)[0])] + Operands(e)[1..]
  {
    var ref, v := Cell(c, c.sp + 1), Cell(c, c.sp);
    var a, b := ref + off as int, w.Bytes();
    assert e.mem == Store(c.mem, a, b, v);
    LoadStore(c.mem, a, b, v);
    NarrowLow(t, v);
    var x := Narrow(t, Load(e.mem, a, b));
    assert x == Narrow(t, v);
    var e1 := SetCell(e, e.sp, x);
    var d := LdfldStep(e, Int(t), off).next;
    assert d == e1.(ip := e.ip + 3);
    CellsOf(e1, d);
    forall j | IsCell(e, j) ensures Cell(d, j) == if j == e.sp then x else Cell(e, j) {
      CellAfter(e, e.sp, x, j);
    }
    OperandsFrom(e, d, [x], 1);
    OperandAt(c, 0);
  }

  /** A cast only sees the bytes of its type. */
  lemma NarrowLow(t: IntType, v: nat)
    ensures Narrow(t, v % Pow256(t.Bytes())) == Narrow(t, v)
  {
    var m := t.Width().Modulus();
    assert Pow256(t.Bytes()) == m by {
      Pow256Four();
    }
    assert (v % m) % m == v % m;
  }

  // ---------------------------------------------------------------------
  // Arrays and slices (src/mango.c:1549-1601, 1710-1818)

  /** A block allocated past the heap cursor, with its reference pushed. */
  lemma AllocPushed(c: Core, b: Block, ip: int)
    requires WellFormed(c) && Window(c, -1, 0) && c.heapUsed <= b.offset && b.End() <= |c.mem|
    ensures var d := SetCell(Allocated(c, b), c.sp - 1, b.offset).(sp := c.sp - 1, ip := ip);
            WellFormed(d) && Cell(d, d.sp) == b.offset && d.heapUsed == b.End() &&
            Operands(d)[1..] == Operands(c) &&
            forall i :: b.offset <= i < b.End() ==> d.mem[i] == 0
  {
    var a := Allocated(c, b);
    var s := c.sp;
    var a1 := SetCell(a, s - 1, b.offset);
    var d := a1.(sp := s - 1, ip := ip);
    CellsOf(a1, d);
    CellSetSame(a, s - 1, b.offset);
    DivModUnique(b.offset, U32, 0, b.offset);
    forall j | IsCell(c, j) && j >= s ensures Cell(d, j) == Cell(c, j) {
      CellSetOther(a, s - 1, b.offset, j);
      ArenaCellsKept(c, b, j);
    }
    OperandsFrom(c, d, [b.offset], 0);
    forall i | b.offset <= i < b.End() ensures d.mem[i] == 0 {
      SetCellOutside(a, s - 1, b.offset, i);
    }
  }

  /** NEWARR refuses a negative count with ARGUMENT before it allocates,
      returns OUT_OF_MEMORY when the heap cannot hold `count * size` bytes,
      and otherwise pushes a reference to a zeroed block of that many bytes
      past the old cursor over the count, which stays as the length. */
  lemma NewarrEffect(c: Core, size: u16)
    requires WellFormed(c) && NewarrOk(c, size)
    ensures var r := NewarrStep(c, size); var count := I32At(c, c.sp);
            (r == Done(c, Argument) <==> count < 0) &&
            (r == Done(c, OutOfMemory) <==> 0 <= count && NewBlock(c, count, size).None?) &&
            (r.Continue? ==> var d := r.next; var ref := Cell(d, d.sp);
               d.sp == c.sp - 1 && d.ip == c.ip + 3 && d.sf == c.sf && c.heapUsed <= ref &&
               ref + count * size as int <= d.heapUsed <= |d.mem| &&
               Operands(d)[1..] == Operands(c) &&
               forall i :: ref <= i < ref + count * size as int ==> d.mem[i] == 0)
  {
    var r := NewarrStep(c, size);
    if r.Continue? {
      var count := I32At(c, c.sp);
      var b := NewBlock(c, count, size).value;
      AllocPushed(c, b, c.ip + 3);
      assert r.next == SetCell(Allocated(c, b), c.sp - 1, b.offset).(sp := c.sp - 1, ip := c.ip + 3);
    }
  }

  /** A cell read as `int32_t` that is not negative is its own pattern. */
  lemma NonNegative(c: Core, k: int)
    requires WellFormed(c) && IsCell(c, k) && 0 <= I32At(c, k)
    ensures I32At(c, k) == Cell(c, k)
  {
  }

  /** The reference and length cells of a slice at k and k + 1 rewritten,
      with the cells above k dropped from the stack. */
  lemma SliceCells(c: Core, k: int, start: nat, length: nat, ip: int)
    requires WellFormed(c) && c.sp <= k && k + 2 <= c.stackSize && length < U32
    ensures var d := SetCell(SetCell(c, k, Cell(c, k) + start), k + 1, length).(sp := k, ip := ip);
            WellFormed(d) && d.sf == c.sf &&
            Operands(d) == [(Cell(c, k) + start) % U32, length] + Operands(c)[k - c.sp + 2..]
  {
    var v := Cell(c, k) + start;
    var c1 := SetCell(c, k, v);
    var c2 := SetCell(c1, k + 1, length);
    var d := c2.(sp := k, ip := ip);
    CellsOf(c2, d);
    forall j | IsCell(c, j) && j >= k
      ensures Cell(d, j) == if j == k then v % U32 else if j == k + 1 then length else Cell(c, j)
    {
      CellSet(c, k, v, j);
      CellAfter(c1, k + 1, length, j);
    }
    OperandsFrom(c, d, [v % U32, length], k - c.sp + 2);
  }

  /** SLICE1 checks the start against the length before the reference
      against null; then the slice loses its first `start` bytes: the
      reference moves on by `start`, whatever the element size, and the
      length drops by `start`. */
  lemma Slice1Effect(c: Core)
    requires WellFormed(c) && Window(c, 0, 3)
    ensures var r := Slice1Step(c); var o := Operands(c);
            var start, length := I32At(c, c.sp), I32At(c, c.sp + 2);
            (r == Done(c, Argument) <==> start < 0 || length < start) &&
            (r == Done(c, NullReference) <==> 0 <= start <= length && o[1] == 0) &&
            (r.Continue? ==> var d := r.next;
               d.ip == c.ip + 1 && d.sf == c.sf &&
               Operands(d) == [(o[1] + start) % U32, length - start] + o[3..])
  {
    var r := Slice1Step(c);
    var s := c.sp;
    OperandAt(c, 1);
    if r.Continue? {
      var start, length := I32At(c, s), I32At(c, s + 2);
      assert r.next == SetCell(SetCell(c, s + 1, Cell(c, s + 1) + start), s + 2, length - start).(sp := s + 1, ip := c.ip + 1);
      NonNegative(c, s + 2);
      SliceCells(c, s + 1, start, length - start, c.ip + 1);
    }
  }

  /** SLICE2 checks the start and then the new length against the old
      length, both before the null check; then the reference moves on by
      `start` bytes and the new length replaces the old. */
  lemma Slice2Effect(c: Core)
    requires WellFormed(c) && Window(c, 0, 4)
    ensures var r := Slice2Step(c); var o := Operands(c);
            var sub, start, length := I32At(c, c.sp), I32At(c, c.sp + 1), I32At(c, c.sp + 3);
            var ok := 0 <= start <= length && 0 <= sub <= length - start;
            (r == Done(c, Argument) <==> !ok) &&
            (r == Done(c, NullReference) <==> ok && o[2] == 0) &&
            (r.Continue? ==> var d := r.next;
               d.ip == c.ip + 1 && d.sf == c.sf &&
               Operands(d) == [(o[2] + start) % U32, sub] + o[4..])
  {
    var r := Slice2Step(c);
    var s := c.sp;
    OperandAt(c, 2);
    if r.Continue? {
      var sub, start := I32At(c, s), I32At(c, s + 1);
      NonNegative(c, s);
      SliceCells(c, s + 2, start, sub, c.ip + 1);
      assert r.next == SetCell(SetCell(c, s + 2, Cell(c, s + 2) + start), s + 3, sub).(sp := s + 2, ip := c.ip + 1);
    }
  }

  /** LDELEM_I8 .. LDELEM_X32 check the index against the length before the
      reference against null, and then replace the index, the reference
      and the length by element `index`, cast to the load's type. */
  lemma LdelemEffect(c: Core, t: IntType)
    requires WellFormed(c) && LdelemOk(c, Int(t))
    ensures var r := LdelemStep(c, Int(t)); var o := Operands(c);
            var index, length, ref := I32At(c, c.sp), I32At(c, c.sp + 2), o[1];
            (r == Done(c, IndexOutOfRange) <==> !InBounds(index, length)) &&
            (r == Done(c, NullReference) <==> InBounds(index, length) && ref == 0) &&
            (r.Continue? <==> InBounds(index, length) && ref != 0) &&
            (r.Continue? ==> var d := r.next;
               d.ip == c.ip + 1 && d.sf == c.sf && d.heapUsed == c.heapUsed &&
               MemOk(c, ElementAt(ref, index, t.Bytes()), t.Bytes()) &&
               Operands(d) == [Narrow(t, Load(c.mem, ElementAt(ref, index, t.Bytes()), t.Bytes()))] + o[3..])
  {
    var r := LdelemStep(c, Int(t));
    var s := c.sp;
    OperandAt(c, 1);
    if r.Continue? {
      var a := ElementAt(Cell(c, s + 1), I32At(c, s), t.Bytes());
      var x := Narrow(t, Load(c.mem, a, t.Bytes()));
      var c1 := SetCell(c, s + 2, x);
      var d := r.next;
      assert d == c1.(sp := s + 2, ip := c.ip + 1);
      CellsOf(c1, d);
      forall k | IsCell(c, k) && k >= s + 2
        ensures Cell(d, k) == if k == s + 2 then x else Cell(c, k)
      {
        CellAfter(c, s + 2, x, k);
      }
      OperandsFrom(c, d, [x], 3);
    }
  }

  /** LDELEMA makes the same checks in the same order, and then replaces
      the three cells by the element's address: the reference plus index
      times the element size, in 32 bits. */
  lemma LdelemaEffect(c: Core, size: u16)
    requires WellFormed(c) && Window(c, 0, 3)
    ensures var r := LdelemaStep(c, size); var o := Operands(c);
            var index, length, ref := I32At(c, c.sp), I32At(c, c.sp + 2), o[1];
            (r == Done(c, IndexOutOfRange) <==> !InBounds(index, length)) &&
            (r == Done(c, NullReference) <==> InBounds(index, length) && ref == 0) &&
            (r.Continue? <==> InBounds(index, length) && ref != 0) &&
            (r.Continue? ==> var d := r.next;
               d.ip == c.ip + 3 && d.sf == c.sf &&
               Operands(d) == [ElementAt(ref, index, size as int) % U32] + o[3..])
  {
    var r := LdelemaStep(c, size);
    var s := c.sp;
    OperandAt(c, 1);
    if r.Continue? {
      var x := ElementAt(Cell(c, s + 1), I32At(c, s), size as int);
      var c1 := SetCell(c, s + 2, x);
      var d := r.next;
      assert d == c1.(sp := s + 2, ip := c.ip + 3);
      CellsOf(c1, d);
      forall k | IsCell(c, k) && k >= s + 2
        ensures Cell(d, k) == if k == s + 2 then x % U32 else Cell(c, k)
      {
        CellSet(c, s + 2, x, k);
      }
      OperandsFrom(c, d, [x % U32], 3);
    }
  }

  /** STELEM_X8 .. STELEM_X32 make the same checks on the index under the
      value; then element `index` holds the value's low bytes, every
      other byte of the arena is as it was, and the four cells are gone. */
  lemma StelemEffect(c: Core, w: StoreWidth)
    requires WellFormed(c) && w != S64 && StelemOk(c, w)
    ensures var r := StelemStep(c, w);
            var index, length, ref := I32At(c, c.sp + 1), I32At(c, c.sp + 3), Cell(c, c.sp + 2);
            var a, n := ElementAt(ref, index, w.Bytes()), w.Bytes();
            (r == Done(c, IndexOutOfRange) <==> !InBounds(index, length)) &&
            (r == Done(c, NullReference) <==> InBounds(index, length) && ref == 0) &&
            (r.Continue? <==> InBounds(index, length) && ref != 0) &&
            (r.Continue? ==> var d := r.next;
               d.sp == c.sp + 4 && d.ip == c.ip + 1 && d.sf == c.sf && d.heapUsed == c.heapUsed &&
               MemOk(c, a, n) && Load(d.mem, a, n) == Cell(c, c.sp) % Pow256(n) &&
               forall i :: 0 <= i < |c.mem| && (i < a || a + n <= i) ==> d.mem[i] == c.mem[i])
  {
    var r := StelemStep(c, w);
    if r.Continue? {
      var a, n := ElementAt(Cell(c, c.sp + 2), I32At(c, c.sp + 1), w.Bytes()), w.Bytes();
      assert r.next.mem == Store(c.mem, a, n, Cell(c, c.sp));
      LoadStore(c.mem, a, n, Cell(c, c.sp));
      forall i | 0 <= i < |c.mem| && (i < a || a + n <= i) ensures r.next.mem[i] == c.mem[i] {
        StoreOutside(c.mem, a, n, Cell(c, c.sp), i);
      }
    }
  }
}
