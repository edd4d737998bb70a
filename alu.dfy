/** The integer operations of the i32 and i64 opcode families, on the
    unsigned bit patterns that the stack cells hold. Each operation says
    which inputs C leaves undefined (`Defined*`) and what it computes on
    the others; the lemmas below state what those results mean. */
module Alu {
  import opened Words
  import opened Images
  import opened Results

  /** A result pattern, or the fault the opcode returns instead. */
  datatype Value = Value(v: int) | Fault(code: Code)

  predicate InWidth(x: int, w: Width) {
    0 <= x < w.Modulus()
  }

  /** The smallest signed value of the width, as a bit pattern. */
  function MinPattern(w: Width): int {
    w.Modulus() / 2
  }

  /** Signed `MIN / -1` and `MIN % -1` overflow, which C leaves undefined. */
  predicate DefinedBinary(op: BinOp, w: Width, a: int, b: int)
    requires InWidth(a, w) && InWidth(b, w)
  {
    (op == Div || op == Rem) ==> !(a == MinPattern(w) && b == w.Modulus() - 1)
  }

  /** `value1 op value2` with value1 = `a` (second from the top) and
      value2 = `b` (the top): `BINARY1F`/`BINARY2F` for ADD, SUB and MUL,
      which keep the wrapped result and drop the overflow flag
      (src/mango.c:890-896); `BINARY1D`/`BINARY2D` for the divisions, which
      fault on a zero divisor first (src/mango.c:898-907, 927-937); and the
      plain bitwise operators. */
  function Binary(op: BinOp, w: OpWidth, a: int, b: int): (r: Value)
    requires InWidth(a, w) && InWidth(b, w) && DefinedBinary(op, w, a, b)
    ensures r.Fault? <==> (op in {Div, DivUn, Rem, RemUn} && b == 0)
    ensures r.Fault? ==> r.code == DivideByZero
    ensures r.Value? ==> InWidth(r.v, w)
  {
    match op
    case Add => Value(Wrap(a + b, w))
    case Sub => Value(Wrap(a - b, w))
    case Mul => Value(Wrap(a * b, w))
    case Div => if b == 0 then Fault(DivideByZero) else Value(Wrap(CDiv(Signed(a, w), Signed(b, w)), w))
    case DivUn => if b == 0 then Fault(DivideByZero) else Value(a / b)
    case Rem => if b == 0 then Fault(DivideByZero) else Value(Wrap(CRem(Signed(a, w), Signed(b, w)), w))
    case RemUn => if b == 0 then Fault(DivideByZero) else Value(a % b)
    case And => Value(Words.And(a, b, w))
    case Or => Value(Words.Or(a, b, w))
    case Xor => Value(Words.Xor(a, b, w))
  }

  /** The shift amount is the top cell read as `int32_t`; a negative amount
      or one not below the width is undefined in C. */
  predicate DefinedShift(w: Width, amount: int) {
    0 <= amount < (if w == W64 then 64 else 32)
  }

  /** `SHIFT1`/`SHIFT2` (src/mango.c:954-969): SHL on the unsigned view,
      SHR on the signed view, SHR_UN on the unsigned view. */
  function Shift(op: ShiftOp, w: Width, v: int, amount: nat): (r: int)
    requires InWidth(v, w)
    ensures InWidth(r, w)
  {
    match op
    case Shl => Words.Shl(v, amount, w)
    case Shr => Wrap(Words.Shr(Signed(v, w), amount), w)
    case ShrUn => Wrap(Words.Shr(v, amount), w)
  }

  /** NEG (`0 - v`, wrapped) and NOT (`~v`). */
  function Unary(op: UnOp, w: Width, v: int): (r: int)
    requires InWidth(v, w)
    ensures InWidth(r, w)
  {
    match op
    case Neg => Wrap(0 - v, w)
    case Not => Words.Not(v, w)
  }

  /** `COMPARE1`/`COMPARE2`: the `_UN` forms and CNE compare the unsigned
      views, the others the signed views; the result is the C truth value. */
  function Compare(cmp: Cmp, w: Width, a: int, b: int): (r: int)
    requires InWidth(a, w) && InWidth(b, w)
    ensures r == 0 || r == 1
  {
    var sa, sb := Signed(a, w), Signed(b, w);
    var t := match cmp
      case Ceq => sa == sb
      case Cne => a != b
      case Cgt => sa > sb
      case CgtUn => a > b
      case Cge => sa >= sb
      case CgeUn => a >= b
      case Clt => sa < sb
      case CltUn => a < b
      case Cle => sa <= sb
      case CleUn => a <= b;
    if t then 1 else 0
  }

  /** `(cast)v` into a narrower C type, then widened back into a 32-bit
      cell: a signed type sign-extends, an unsigned one zero-extends. */
  function Narrow(t: IntType, v: int): (r: int)
    requires v >= 0
    ensures InWidth(r, W32)
  {
    var low := Wrap(v, t.Width());
    if t.IsSigned() then Wrap(Signed(low, t.Width()), W32) else low
  }

  /** CONV_I64_I32 sign-extends a cell to 64 bits, CONV_U64_I32 zero-extends it. */
  function Widen(signed: bool, v: int): (r: int)
    requires InWidth(v, W32)
    ensures InWidth(r, W64)
  {
    if signed then Wrap(Signed(v, W32), W64) else v
  }

  // ---------------------------------------------------------------------
  // What the results mean.

  /** ADD, SUB and MUL give the exact result whenever it fits the width and
      otherwise the exact result minus a multiple of 2^n, in range. */
  lemma {:induction false} WrapAround(op: BinOp, w: OpWidth, a: int, b: int)
    requires InWidth(a, w) && InWidth(b, w) && op in {Add, Sub, Mul}
    ensures var exact := if op == Add then a + b else if op == Sub then a - b else a * b;
            var r := Binary(op, w, a, b).v;
            (InWidth(exact, w) ==> r == exact) &&
            (exists k: int :: r == exact - k * w.Modulus())
  {
    var exact := if op == Add then a + b else if op == Sub then a - b else a * b;
    assert Binary(op, w, a, b).v == Wrap(exact, w);
    WrapWitness(exact, w);
  }

  /** Wrapping subtracts the multiple of the modulus that floor division
      names. */
  lemma WrapWitness(x: int, w: Width)
    ensures Wrap(x, w) == x - (x / w.Modulus()) * w.Modulus()
  {
  }

  /** Addition wraps exactly once on overflow. */
  lemma {:induction false} AddOverflow(w: OpWidth, a: int, b: int)
    requires InWidth(a, w) && InWidth(b, w)
    ensures Binary(Add, w, a, b).v == if a + b < w.Modulus() then a + b else a + b - w.Modulus()
  {
    var m := w.Modulus();
    if a + b >= m {
      DivModUnique(a + b, m, 1, a + b - m);
    }
  }

  /** C's truncating division and remainder: the quotient and remainder
      recombine to the dividend, the remainder is smaller than the divisor,
      and it is zero or has the sign of the dividend. */
  lemma {:induction false} TruncatedDivision(a: int, b: int)
    requires b != 0
    ensures a == b * CDiv(a, b) + CRem(a, b)
    ensures Abs(CRem(a, b)) < Abs(b)
    ensures CRem(a, b) == 0 || (CRem(a, b) < 0 <==> a < 0)
    ensures Abs(CDiv(a, b)) * Abs(b) <= Abs(a)
  {
    var q, r0 := Abs(a) / Abs(b), Abs(a) % Abs(b);
    RemMagnitude(a, b);
    assert Abs(CDiv(a, b)) == q;
    assert q * Abs(b) == Abs(a) - r0;
  }

  /** The remainder's magnitude is the remainder of the magnitudes, and it
      takes the dividend's sign. */
  lemma RemMagnitude(a: int, b: int)
    requires b != 0
    ensures CRem(a, b) == if a < 0 then -(Abs(a) % Abs(b)) else Abs(a) % Abs(b)
  {
    var q, r0 := Abs(a) / Abs(b), Abs(a) % Abs(b);
    var B := Abs(b);
    assert Abs(a) == B * q + r0;
    var p := B * q;
    if b > 0 {
      assert b * CDiv(a, b) == (if a < 0 then -p else p) by {
        MulSign(B, q);
      }
    } else {
      assert b == -B;
      assert b * CDiv(a, b) == (if a < 0 then -p else p) by {
        MulSign(B, q);
      }
    }
  }

  lemma MulSign(x: int, y: int)
    ensures (-x) * y == -(x * y) && x * (-y) == -(x * y) && (-x) * (-y) == x * y
  {
  }

  /** Outside `MIN / -1` the signed quotient fits the width, so DIV's
      result read as signed is exactly C's truncated quotient. */
  lemma {:induction false} SignedDivisionExact(w: OpWidth, a: int, b: int)
    requires InWidth(a, w) && InWidth(b, w) && b != 0 && DefinedBinary(Div, w, a, b)
    ensures Signed(Binary(Div, w, a, b).v, w) == CDiv(Signed(a, w), Signed(b, w))
  {
    var m := w.Modulus();
    var sa, sb := Signed(a, w), Signed(b, w);
    var q := CDiv(sa, sb);
    TruncatedDivision(sa, sb);
    assert Abs(q) <= Abs(sa) by {
      MulMonotone(Abs(q), Abs(sb));
    }
    assert Abs(sa) <= m / 2;
    if q == m / 2 {
      // only MIN / -1 reaches +2^(n-1)
      assert Abs(sa) == m / 2;
      if Abs(sb) >= 2 {
        MulMonotone2(Abs(q), Abs(sb));
        assert false;
      }
      assert false;
    }
    assert -(m / 2) <= q < m / 2;
    if q < 0 {
      assert Wrap(q, w) == q + m by {
        DivModUnique(q + m - m, m, -1, q + m);
      }
    }
  }

  lemma MulMonotone(x: nat, y: nat)
    requires y >= 1
    ensures x <= x * y
  {
    assert x * y == x + x * (y - 1);
  }

  lemma MulMonotone2(x: nat, y: nat)
    requires y >= 2
    ensures 2 * x <= x * y
  {
    assert x * y == 2 * x + x * (y - 2);
  }

  /** Narrowing keeps every value that the narrower type can hold: a cell
      whose signed (or unsigned) value is in the target type's range is
      unchanged by the conversion. */
  lemma {:induction false} NarrowKeepsFitting(t: IntType, v: int)
    requires InWidth(v, W32)
    requires if t.IsSigned() then -(t.Width().Modulus() / 2) <= Signed(v, W32) < t.Width().Modulus() / 2
             else v < t.Width().Modulus()
    ensures Narrow(t, v) == v
  {
    var n := t.Width().Modulus();
    if t.IsSigned() {
      var s := Signed(v, W32);
      if s >= 0 {
        assert v == s;
      } else {
        assert v == s + U32;
        DivModUnique(v, n, v / n, v % n);
        assert Wrap(v, t.Width()) == s + n by {
          assert U32 % n == 0 by {
            match t.Width()
            case W8 => assert U32 == n * 0x100_0000;
            case W16 => assert U32 == n * 0x1_0000;
            case W32 => assert U32 == n * 1;
          }
          DivModUnique(v, n, (U32 - n) / n + s / n + 1, s % n);
          DivModUnique(s + n, n, 0, s + n);
          WrapShift(s, n, U32);
        }
        assert Signed(s + n, t.Width()) == s;
      }
    }
  }

  /** Adding a multiple of n to x leaves x mod n unchanged. */
  lemma WrapShift(s: int, n: int, m: int)
    requires n > 0 && m % n == 0
    ensures (s + m) % n == s % n
  {
    var k := m / n;
    assert m == n * k;
    DivModUnique(s + m, n, s / n + k, s % n);
  }

  /** Widening a cell to 64 bits and narrowing it back (CONV_I64_I32 or
      CONV_U64_I32, then CONV_I32_I64) gives the cell back. */
  lemma {:induction false} WidenNarrow(signed: bool, v: int)
    requires InWidth(v, W32)
    ensures Narrow(Int32, Widen(signed, v)) == v
  {
    if signed {
      var s := Signed(v, W32);
      if s < 0 {
        assert Widen(true, v) == s + U64 by {
          DivModUnique(s + U64 - U64, U64, -1, s + U64);
        }
        assert Wrap(s + U64, W32) == v by {
          assert U64 == U32 * U32;
          DivModUnique(s + U64, U32, U32 - 1, v);
        }
      }
    }
    WrapSigned(v, W32);
  }

  /** CEQ and CNE are each other's negation, though one compares the signed
      views and the other the unsigned ones. */
  lemma {:induction false} EqualityViewsAgree(w: Width, a: int, b: int)
    requires InWidth(a, w) && InWidth(b, w)
    ensures Compare(Ceq, w, a, b) == 1 - Compare(Cne, w, a, b)
  {
    if Signed(a, w) == Signed(b, w) {
      WrapSigned(a, w);
      WrapSigned(b, w);
    }
  }

  /** A logical right shift is division by 2^k; shifting it back left
      clears exactly the k low bits. */
  lemma {:induction false} ShiftRoundTrip(w: Width, v: int, k: nat)
    requires InWidth(v, w)
    ensures Shift(Shl, w, Shift(ShrUn, w, v, k), k) == v - v % Pow2(k)
  {
    var p := Pow2(k);
    FloorMultiple(v, p);
    assert Shift(ShrUn, w, v, k) == v / p;
  }

  /** A left shift by k within the width loses the k top bits: shifting
      back right gives the value modulo 2^(n - k). */
  lemma {:induction false} ShiftLeftRoundTrip(w: Width, v: int, k: nat)
    requires InWidth(v, w) && k <= w.Bits()
    ensures Shift(ShrUn, w, Shift(Shl, w, v, k), k) == v % Pow2(w.Bits() - k)
  {
    var p, h := Pow2(k), Pow2(w.Bits() - k);
    ModulusBits(w);
    Pow2Add(k, w.Bits() - k);
    ShiftOutTop(v, p, h);
    assert Shift(Shl, w, v, k) == p * (v % h);
    DivModUnique(p * (v % h), p, v % h, 0);
  }

  /** (v * p) mod (p * h) is p * (v mod h). */
  lemma ShiftOutTop(v: nat, p: nat, h: nat)
    requires p >= 1 && h >= 1
    ensures (v * p) % (p * h) == p * (v % h)
  {
    var q, r := v / h, v % h;
    assert v * p == (p * h) * q + p * r by {
      assert v == h * q + r;
      assert v * p == (h * q + r) * p == (p * h) * q + p * r;
    }
    assert p * r < p * h by {
      assert p * h - p * r == p * (h - r);
      MulMonotone(p, h - r);
    }
    DivModUnique(v * p, p * h, q, p * r);
  }

  /** An arithmetic right shift is floor division of the signed value by
      2^k (Dafny's `/` rounds down for a positive divisor). */
  lemma {:induction false} ShiftRightFloors(w: Width, v: int, k: nat)
    requires InWidth(v, w)
    ensures Signed(Shift(Shr, w, v, k), w) == Signed(v, w) / Pow2(k)
  {
    var s, p := Signed(v, w), Pow2(k);
    FloorDivBounds(s, p);
    SignedWrap(s / p, w);
  }

  /** Floor division by a positive number moves a value toward zero, or
      to -1 from below. */
  lemma FloorDivBounds(s: int, p: int)
    requires p >= 1
    ensures s >= 0 ==> 0 <= s / p <= s
    ensures s < 0 ==> s <= s / p < 0
  {
    if s >= 0 {
      FloorMultiple(s, p);
    } else {
      var q, r := s / p, s % p;
      assert s == p * q + r;
      if q < 0 {
        MulSign(p, -q);
        NegFloor(p, -q, r);
      }
    }
  }

  lemma NegFloor(p: int, m: int, r: int)
    requires p >= 1 && m >= 1 && 0 <= r < p
    ensures r - p * m <= -m
  {
    MulMonotone(p - 1, m);
    assert p * m == (p - 1) * m + m;
  }

  /** A value in the signed range is stored as a pattern whose signed
      reading is that value. */
  lemma SignedWrap(x: int, w: Width)
    requires -(w.Modulus() / 2) <= x < w.Modulus() / 2
    ensures Signed(Wrap(x, w), w) == x
  {
    if x < 0 {
      DivModUnique(x, w.Modulus(), -1, x + w.Modulus());
    }
  }

  /** The signed comparisons are the unsigned ones on patterns whose sign
      bit is flipped: adding 2^(n-1) moves the signed range onto the
      unsigned one in order. */
  lemma {:induction false} SignedOrderBiased(w: Width, a: int, b: int)
    requires InWidth(a, w) && InWidth(b, w)
    ensures Compare(Clt, w, a, b) == Compare(CltUn, w, Wrap(a + MinPattern(w), w), Wrap(b + MinPattern(w), w))
    ensures Compare(Cle, w, a, b) == Compare(CleUn, w, Wrap(a + MinPattern(w), w), Wrap(b + MinPattern(w), w))
  {
    Biased(w, a);
    Biased(w, b);
  }

  /** The pattern with its sign bit flipped is the signed value plus 2^(n-1). */
  lemma Biased(w: Width, a: int)
    requires InWidth(a, w)
    ensures Wrap(a + MinPattern(w), w) == Signed(a, w) + MinPattern(w)
  {
    var m := w.Modulus();
    if a >= m / 2 {
      DivModUnique(a + m / 2, m, 1, a - m / 2);
    }
  }

  /** What each comparison tests: the signed forms order the signed views,
      the `_UN` forms order the patterns, and each form is the negation or
      the mirror image of another. */
  lemma CompareMeaning(w: Width, a: int, b: int)
    requires InWidth(a, w) && InWidth(b, w)
    ensures Compare(Clt, w, a, b) == 1 <==> Signed(a, w) < Signed(b, w)
    ensures Compare(CltUn, w, a, b) == 1 <==> a < b
    ensures Compare(Cge, w, a, b) == 1 - Compare(Clt, w, a, b)
    ensures Compare(CgeUn, w, a, b) == 1 - Compare(CltUn, w, a, b)
    ensures Compare(Cle, w, a, b) == 1 - Compare(Cgt, w, a, b)
    ensures Compare(CleUn, w, a, b) == 1 - Compare(CgtUn, w, a, b)
    ensures Compare(Cgt, w, a, b) == Compare(Clt, w, b, a)
    ensures Compare(CgtUn, w, a, b) == Compare(CltUn, w, b, a)
  {
  }

  /** Sign extension keeps the signed value; zero extension keeps the
      unsigned value, which the 64-bit signed view reads unchanged. */
  lemma {:induction false} WidenKeepsValue(v: int)
    requires InWidth(v, W32)
    ensures Signed(Widen(true, v), W64) == Signed(v, W32)
    ensures Widen(false, v) == v && Signed(Widen(false, v), W64) == v
  {
    SignedWrap(Signed(v, W32), W64);
  }

  /** The largest multiple of p not above v is v less its remainder. */
  lemma FloorMultiple(v: nat, p: nat)
    requires p >= 1
    ensures v / p <= v && (v / p) * p == v - v % p && 0 <= (v / p) * p <= v
  {
    MulMonotone(v / p, p);
  }

  /** NEG and NOT each undo themselves: negating twice, or complementing
      twice, gives the value back. */
  lemma {:induction false} UnaryInvolution(op: UnOp, w: Width, v: int)
    requires InWidth(v, w)
    ensures Unary(op, w, Unary(op, w, v)) == v
  {
    var m := w.Modulus();
    if op == Neg && v != 0 {
      assert Unary(Neg, w, v) == m - v by {
        DivModUnique(0 - v, m, -1, m - v);
      }
      assert Unary(Neg, w, m - v) == v by {
        DivModUnique(0 - (m - v), m, -1, v);
      }
    }
  }
}
