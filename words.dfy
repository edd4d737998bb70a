/** Fixed-width machine integers as the C code sees them: unsigned ranges,
    two's-complement views, wrap-around, C's truncating division and the
    shift and bitwise operators. */
module Words {

  const U8: int := 0x100
  const U16: int := 0x1_0000
  const U32: int := 0x1_0000_0000
  const U64: int := 0x1_0000_0000_0000_0000

  type u8 = x: int | 0 <= x < 0x100
  type u16 = x: int | 0 <= x < 0x1_0000
  type u32 = x: int | 0 <= x < 0x1_0000_0000
  type u64 = x: int | 0 <= x < 0x1_0000_0000_0000_0000
  type i8 = x: int | -0x80 <= x < 0x80
  type i16 = x: int | -0x8000 <= x < 0x8000
  type i32 = x: int | -0x8000_0000 <= x < 0x8000_0000
  type i64 = x: int | -0x8000_0000_0000_0000 <= x < 0x8000_0000_0000_0000

  /** The widths of the integer types the opcodes read and write. */
  datatype Width = W8 | W16 | W32 | W64 {
    function Modulus(): (m: int)
      ensures m >= 0x100 && m % 2 == 0
    {
      match this
      case W8 => U8
      case W16 => U16
      case W32 => U32
      case W64 => U64
    }

    /** The number of bits. */
    function Bits(): nat {
      match this
      case W8 => 8
      case W16 => 16
      case W32 => 32
      case W64 => 64
    }
  }

  /** Reduction modulo 2^n: what a store into an n-bit unsigned location
      does to an out-of-range value. */
  function Wrap(x: int, w: Width): (r: int)
    ensures 0 <= r < w.Modulus()
    ensures 0 <= x < w.Modulus() ==> r == x
  {
    x % w.Modulus()
  }

  /** The two's-complement reading of an unsigned bit pattern. */
  function Signed(u: int, w: Width): (s: int)
    requires 0 <= u < w.Modulus()
    ensures -(w.Modulus() / 2) <= s < w.Modulus() / 2
  {
    if u < w.Modulus() / 2 then u else u - w.Modulus()
  }

  /** Reading a pattern as signed and storing it back gives the pattern. */
  lemma {:induction false} WrapSigned(u: int, w: Width)
    requires 0 <= u < w.Modulus()
    ensures Wrap(Signed(u, w), w) == u
  {
    if u >= w.Modulus() / 2 {
      assert Signed(u, w) + w.Modulus() == u;
    }
  }

  function Abs(x: int): nat {
    if x < 0 then -x else x
  }

  /** C division: the quotient is truncated toward zero. */
  function CDiv(a: int, b: int): int
    requires b != 0
  {
    var q := Abs(a) / Abs(b);
    if (a < 0) == (b < 0) then q else -q
  }

  /** C remainder: `a % b` has the sign of `a`. */
  function CRem(a: int, b: int): int
    requires b != 0
  {
    a - b * CDiv(a, b)
  }

  function Pow2(k: nat): (r: nat)
    ensures r >= 1
  {
    if k == 0 then 1 else 2 * Pow2(k - 1)
  }

  lemma {:induction false} Pow2Add(a: nat, b: nat)
    ensures Pow2(a + b) == Pow2(a) * Pow2(b)
  {
    if a > 0 {
      Pow2Add(a - 1, b);
    }
  }

  /** The modulus of a width is 2 to the number of its bits. */
  lemma ModulusBits(w: Width)
    ensures w.Modulus() == Pow2(w.Bits())
  {
    assert Pow2(4) == 16;
    Pow2Add(4, 4);
    Pow2Add(8, 8);
    Pow2Add(16, 16);
    Pow2Add(32, 32);
  }

  /** Bit i of a value: its coefficient of 2^i. */
  function Bit(v: nat, i: nat): (b: nat)
    ensures b < 2
  {
    (v / Pow2(i)) % 2
  }

  /** `v << k` on an unsigned value: bits shifted out of the width are lost. */
  function Shl(v: int, k: nat, w: Width): int {
    Wrap(v * Pow2(k), w)
  }

  /** `v >> k`; on a signed value the compilers the source supports shift
      arithmetically, which is floor division by 2^k. */
  function Shr(v: int, k: nat): int {
    v / Pow2(k)
  }

  function And(a: int, b: int, w: Width): (r: int)
    requires w == W32 || w == W64
    requires 0 <= a < w.Modulus() && 0 <= b < w.Modulus()
    ensures 0 <= r < w.Modulus()
  {
    if w.W64? then ((a as bv64) & (b as bv64)) as int
    else ((a as bv32) & (b as bv32)) as int
  }

  function Or(a: int, b: int, w: Width): (r: int)
    requires w == W32 || w == W64
    requires 0 <= a < w.Modulus() && 0 <= b < w.Modulus()
    ensures 0 <= r < w.Modulus()
  {
    if w.W64? then ((a as bv64) | (b as bv64)) as int
    else ((a as bv32) | (b as bv32)) as int
  }

  function Xor(a: int, b: int, w: Width): (r: int)
    requires w == W32 || w == W64
    requires 0 <= a < w.Modulus() && 0 <= b < w.Modulus()
    ensures 0 <= r < w.Modulus()
  {
    if w.W64? then ((a as bv64) ^ (b as bv64)) as int
    else ((a as bv32) ^ (b as bv32)) as int
  }

  /** `~v` on an n-bit unsigned value, computed as `2^n - 1 - v`;
      NotFlipsBits shows that this flips each of the n bits. */
  function Not(a: int, w: Width): (r: int)
    requires 0 <= a < w.Modulus()
    ensures 0 <= r < w.Modulus()
  {
    w.Modulus() - 1 - a
  }

  /** `~v` flips every bit of the width and no bit above it is set. */
  lemma NotFlipsBits(a: int, w: Width)
    requires 0 <= a < w.Modulus()
    ensures forall i :: 0 <= i < w.Bits() ==> Bit(Not(a, w), i) == 1 - Bit(a, i)
  {
    ModulusBits(w);
    forall i | 0 <= i < w.Bits() ensures Bit(Not(a, w), i) == 1 - Bit(a, i) {
      ComplementBit(w.Bits(), a, i);
    }
  }

  /** Bit i (below n) of 2^n - 1 - a is the opposite of bit i of a. */
  lemma ComplementBit(n: nat, a: nat, i: nat)
    requires i < n && a < Pow2(n)
    ensures Bit(Pow2(n) - 1 - a, i) == 1 - Bit(a, i)
  {
    var p, h, g := Pow2(i), Pow2(n - i), Pow2(n - i - 1);
    Pow2Add(i, n - i);
    ComplementQuotient(Pow2(n), p, h, a);
    var qa := a / p;
    var t, b := qa / 2, qa % 2;
    DivModUnique(h - 1 - qa, 2, g - t - 1, 1 - b);
  }

  /** Complementing below P == p * h complements the quotient by p below h. */
  lemma ComplementQuotient(P: int, p: int, h: int, a: int)
    requires p >= 1 && P == p * h && 0 <= a < P
    ensures (P - 1 - a) / p == h - 1 - a / p
  {
    var qa, ra := a / p, a % p;
    assert p * h - p * qa - p == p * (h - 1 - qa);
    DivModUnique(P - 1 - a, p, h - 1 - qa, p - 1 - ra);
  }

  /** Euclidean division is determined by its quotient and remainder. */
  lemma DivModUnique(v: int, d: int, q: int, r: int)
    requires d > 0 && 0 <= r < d && v == d * q + r
    ensures v / d == q && v % d == r
  {
    var q', r' := v / d, v % d;
    assert d * (q - q') == r' - r;
    if q > q' {
      MulAtLeast(d, q - q');
    } else if q < q' {
      MulAtLeast(d, q' - q);
    }
  }

  lemma MulAtLeast(d: int, k: int)
    requires d > 0 && k >= 1
    ensures d * k >= d
  {
  }
}
