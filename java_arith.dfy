/**
  Java's fixed-width arithmetic in `openAddressItem`: `nHash * nHash` is an
  `int` product (wraps at 32 bits), adding it to the `long` digest wraps at 64
  bits, the cast to `int` keeps the low 32 bits, and `& ((1 << bits) - 1)`
  keeps the low `bits` bits.  All of that only disturbs bits above the mask,
  so the slot is exactly (h + n*n) mod 2^bits.
 */
module JavaArith {
  import opened FilterSpec

  const TWO_31: int := 0x8000_0000
  const TWO_63: int := 0x8000_0000_0000_0000

  /** Two's-complement wrap-around of an unbounded integer to a Java `int`. */
  function ToInt(x: int): (r: int)
    ensures -TWO_31 <= r < TWO_31
  {
    (x + TWO_31) % (2 * TWO_31) - TWO_31
  }

  /** Two's-complement wrap-around of an unbounded integer to a Java `long`. */
  function ToLong(x: int): (r: int)
    ensures MIN_LONG <= r <= MAX_LONG
  {
    (x + TWO_63) % (2 * TWO_63) - TWO_63
  }

  /**
    `(int) (hash + nHash * nHash) & ((1 << bits) - 1)` as Java evaluates it.
    For `bits <= 30` the mask is a non-negative `int`, and `&` with it is the
    Euclidean remainder modulo 2^bits of the two's-complement value.
   */
  function JavaOpenAddressItem(hash: Long, nHash: int, bits: nat): int
    requires bits <= 30
  {
    ToInt(ToLong(hash + ToInt(nHash * nHash))) % Pow2(bits)
  }

  lemma MulDistributes(m: int, a: int, b: int)
    ensures m * (a - b) == m * a - m * b
  {
  }

  lemma MulAtLeast(m: int, z: int)
    requires m > 0 && z >= 1
    ensures m * z >= m
  {
  }

  /** Euclidean division is unique: a quotient and a remainder in [0, m) determine `y % m`. */
  lemma ModUnique(y: int, m: int, c: int, e: int)
    requires m > 0 && 0 <= e < m && y == m * c + e
    ensures y % m == e
  {
    var c', e' := y / m, y % m;
    assert y == m * c' + e';
    MulDistributes(m, c, c');
    assert m * (c - c') == e' - e;
    if c - c' >= 1 {
      MulAtLeast(m, c - c');
    } else if c' - c >= 1 {
      MulAtLeast(m, c' - c);
      MulDistributes(m, c', c);
    }
  }

  /** Adding a multiple of m*d does not change a remainder modulo m. */
  lemma ModIgnoresMultiple(x: int, q: int, m: int, d: int)
    requires m > 0 && d > 0
    ensures (x + q * (m * d)) % m == x % m
  {
    var a := x / m;
    assert x == m * a + x % m;
    assert q * (m * d) == m * (q * d);
    assert m * a + m * (q * d) == m * (a + q * d);
    ModUnique(x + q * (m * d), m, a + q * d, x % m);
  }

  lemma Pow2Split(bits: nat, k: nat)
    requires bits <= k
    ensures Pow2(k) == Pow2(bits) * Pow2(k - bits)
    decreases k
  {
    if bits < k {
      Pow2Split(bits, k - 1);
    }
  }

  lemma Pow2Of32()
    ensures Pow2(32) == 2 * TWO_31
  {
    assert Pow2(2) == 4;
    assert Pow2(4) == 16;
    assert Pow2(8) == 256 by { Pow2Split(4, 8); }
    assert Pow2(16) == 0x1_0000 by { Pow2Split(8, 16); }
    Pow2Split(16, 32);
  }

  /** Wrapping to an `int` keeps the remainder modulo any m that divides 2^32. */
  lemma ToIntKeepsLowBits(a: int, x: int, m: int, d: int)
    requires m > 0 && d > 0 && m * d == 2 * TWO_31
    ensures (a + ToInt(x)) % m == (a + x) % m
  {
    var q := (x + TWO_31) / (2 * TWO_31);
    assert x + TWO_31 == (2 * TWO_31) * q + (x + TWO_31) % (2 * TWO_31);
    assert a + x == (a + ToInt(x)) + q * (m * d);
    ModIgnoresMultiple(a + ToInt(x), q, m, d);
  }

  /** Wrapping to a `long` keeps the remainder modulo any m that divides 2^64. */
  lemma ToLongKeepsLowBits(x: int, m: int, d: int)
    requires m > 0 && d > 0 && m * d == 2 * TWO_63
    ensures ToLong(x) % m == x % m
  {
    var q := (x + TWO_63) / (2 * TWO_63);
    assert x + TWO_63 == (2 * TWO_63) * q + (x + TWO_63) % (2 * TWO_63);
    assert x == ToLong(x) + q * (m * d);
    ModIgnoresMultiple(ToLong(x), q, m, d);
  }

  /** A table of 2^bits slots divides both 2^32 and 2^64. */
  lemma MaskDividesWordSizes(bits: nat)
    requires bits <= 30
    ensures Pow2(bits) * Pow2(32 - bits) == 2 * TWO_31
    ensures Pow2(bits) * (Pow2(32 - bits) * (2 * TWO_31)) == 2 * TWO_63
  {
    Pow2Split(bits, 32);
    Pow2Of32();
    MulAssociates(Pow2(bits), Pow2(32 - bits), 2 * TWO_31);
  }

  lemma MulAssociates(a: int, b: int, c: int)
    ensures a * (b * c) == (a * b) * c
  {
  }

  /** The Java slot computation is the probe of the model, for every table of at most 2^30 slots. */
  lemma JavaProbeIsProbe(hash: Long, nHash: nat, bits: nat)
    requires bits <= 30
    ensures JavaOpenAddressItem(hash, nHash, bits) == Probe(hash, nHash, Pow2(bits))
  {
    var m, d := Pow2(bits), Pow2(32 - bits);
    MaskDividesWordSizes(bits);
    var nn := nHash * nHash;
    var sum := hash + ToInt(nn);
    ToIntKeepsLowBits(0, ToLong(sum), m, d);
    ToLongKeepsLowBits(sum, m, d * (2 * TWO_31));
    ToIntKeepsLowBits(hash, nn, m, d);
  }
}
