/** The arena as bytes. All multi-byte values are little-endian: the source
    refuses to build on any other byte order (src/mango.c:92-94). */
module Memory {
  import opened Words

  type Bytes = seq<u8>

  function Pow256(n: nat): (r: nat)
    ensures r >= 1
  {
    if n == 0 then 1 else 256 * Pow256(n - 1)
  }

  /** The n-byte little-endian unsigned value stored at address a. */
  function Load(m: Bytes, a: nat, n: nat): (v: nat)
    requires a + n <= |m|
    ensures v < Pow256(n)
    decreases n, a
  {
    if n == 0 then 0 else m[a] + 256 * Load(m, a + 1, n - 1)
  }

  /** Store the low n bytes of v at address a, least significant first. */
  function Store(m: Bytes, a: nat, n: nat, v: int): (m': Bytes)
    requires a + n <= |m|
    ensures |m'| == |m|
    decreases n, a
  {
    if n == 0 then m else Store(m[a := v % 256], a + 1, n - 1, v / 256)
  }

  /** A store writes only the bytes [a, a + n). */
  lemma {:induction false} StoreOutside(m: Bytes, a: nat, n: nat, v: int, i: nat)
    requires a + n <= |m| && i < |m|
    requires i < a || a + n <= i
    ensures Store(m, a, n, v)[i] == m[i]
    decreases n
  {
    if n > 0 {
      StoreOutside(m[a := v % 256], a + 1, n - 1, v / 256, i);
    }
  }

  /** A load sees only the bytes [a, a + n). */
  lemma {:induction false} LoadSame(m: Bytes, m': Bytes, a: nat, n: nat)
    requires a + n <= |m| && a + n <= |m'|
    requires forall i :: a <= i < a + n ==> m[i] == m'[i]
    ensures Load(m, a, n) == Load(m', a, n)
    decreases n
  {
    if n > 0 {
      LoadSame(m, m', a + 1, n - 1);
    }
  }

  /** Loading back what was stored gives the stored value reduced to n bytes. */
  lemma {:induction false} LoadStore(m: Bytes, a: nat, n: nat, v: int)
    requires a + n <= |m|
    ensures Load(Store(m, a, n, v), a, n) == v % Pow256(n)
    decreases n
  {
    if n > 0 {
      var m1 := m[a := v % 256];
      var m' := Store(m1, a + 1, n - 1, v / 256);
      LoadStore(m1, a + 1, n - 1, v / 256);
      StoreOutside(m1, a + 1, n - 1, v / 256, a);
      assert m'[a] == v % 256;
      assert Load(m', a, n) == v % 256 + 256 * ((v / 256) % Pow256(n - 1));
      DigitSplit(v, Pow256(n - 1));
    }
  }

  /** v mod 256k is its low byte plus 256 times (v / 256) mod k. */
  lemma DigitSplit(v: int, k: int)
    requires k >= 1
    ensures v % (256 * k) == v % 256 + 256 * ((v / 256) % k)
  {
    var q := v / 256;
    var r := v % 256;
    assert v == 256 * q + r;
    var q2 := q / k;
    var r2 := q % k;
    assert q == k * q2 + r2;
    assert v == (256 * k) * q2 + (256 * r2 + r);
    assert 0 <= 256 * r2 + r < 256 * k;
    DivModUnique(v, 256 * k, q2, 256 * r2 + r);
  }

  /** Set the n bytes [a, a + n) to zero, as `memset(block, 0, n)` does. */
  function ZeroFill(m: Bytes, a: nat, n: nat): (m': Bytes)
    requires a + n <= |m|
    ensures |m'| == |m|
    ensures forall i :: 0 <= i < |m| ==> m'[i] == if a <= i < a + n then 0 else m[i]
  {
    m[..a] + seq(n, _ => 0) + m[a + n..]
  }
}
