/**
 * Java `long` arithmetic as the layout code uses it: the 64-bit two's complement range,
 * subtraction that wraps around, and bitwise `&`. Powers of two are defined here too,
 * once by halving and once by exponent, so that the bit trick of the layout code can be
 * compared with both.
 */
module JavaLong {

  const MIN_VALUE: int := -0x8000_0000_0000_0000
  const MAX_VALUE: int := 0x7FFF_FFFF_FFFF_FFFF
  const MODULUS: int := 0x1_0000_0000_0000_0000

  /** The values of a Java `long`. */
  type Long = x: int | MIN_VALUE <= x <= MAX_VALUE

  /** The 64-bit pattern of `v`, read as an unsigned number. */
  function Unsigned(v: Long): (u: nat)
    ensures u < MODULUS
    ensures (u - v) % MODULUS == 0
  {
    if v < 0 then v + MODULUS else v
  }

  /** Reduces an exact result into the `long` range, as the JVM's 64-bit arithmetic does. */
  function Wrap(x: int): (r: Long)
    ensures (r - x) % MODULUS == 0
    ensures MIN_VALUE <= x <= MAX_VALUE ==> r == x
  {
    (x - MIN_VALUE) % MODULUS + MIN_VALUE
  }

  /** Java `a - b` on longs. */
  function Sub(a: Long, b: Long): (r: Long)
    ensures (r - (a - b)) % MODULUS == 0
    ensures MIN_VALUE <= a - b <= MAX_VALUE ==> r == a - b
  {
    Wrap(a - b)
  }

  /** Bitwise AND of two non-negative numbers, one binary digit at a time. */
  function AndBits(a: nat, b: nat): (r: nat)
    ensures r <= a && r <= b
    decreases a
  {
    if a == 0 || b == 0 then 0
    else 2 * AndBits(a / 2, b / 2) + (if a % 2 == 1 && b % 2 == 1 then 1 else 0)
  }

  /**
   * Java `a & b` on longs, reported through its unsigned bit pattern: the layout code only
   * compares the result with `0L`, and a pattern is zero exactly when the long is.
   */
  function AndUnsigned(a: Long, b: Long): (r: nat)
    ensures r <= Unsigned(a) && r <= Unsigned(b)
    ensures a == 0 || b == 0 ==> r == 0
  {
    AndBits(Unsigned(a), Unsigned(b))
  }

  /** 2 to the power k. */
  function Pow2(k: nat): (r: nat)
    ensures r >= 1
  {
    if k == 0 then 1 else 2 * Pow2(k - 1)
  }

  /** n is a power of two: 1, or an even number whose half is a power of two. */
  predicate IsPowerOfTwo(n: int)
    decreases if n < 0 then 0 else n
  {
    n == 1 || (n >= 2 && n % 2 == 0 && IsPowerOfTwo(n / 2))
  }

  /** Every 2^k passes the halving definition. */
  lemma {:induction false} Pow2IsPowerOfTwo(k: nat)
    ensures IsPowerOfTwo(Pow2(k))
  {
    if k > 0 {
      Pow2IsPowerOfTwo(k - 1);
      assert Pow2(k) / 2 == Pow2(k - 1);
    }
  }

  /** Every number that passes the halving definition is some 2^k. */
  lemma {:induction false} PowerOfTwoHasExponent(n: int) returns (k: nat)
    requires IsPowerOfTwo(n)
    ensures Pow2(k) == n
    decreases if n < 0 then 0 else n
  {
    if n == 1 {
      k := 0;
    } else {
      var h := PowerOfTwoHasExponent(n / 2);
      k := h + 1;
    }
  }

  /** Distinct powers of two are at least a factor two apart. */
  lemma {:induction false} PowerOfTwoGap(n: int, m: int)
    requires IsPowerOfTwo(n) && IsPowerOfTwo(m) && n < m
    ensures 2 * n <= m
    decreases if n < 0 then 0 else n
  {
    if n != 1 {
      PowerOfTwoGap(n / 2, m / 2);
    }
  }

  /** A power of two of at least 8 is a multiple of 8, and its eighth is a power of two. */
  lemma PowerOfTwoEighth(n: int)
    requires IsPowerOfTwo(n) && n >= 8
    ensures n % 8 == 0 && IsPowerOfTwo(n / 8)
  {
    var h := n / 2;
    assert IsPowerOfTwo(h) && h >= 4 && n == 2 * h;
    var q := h / 2;
    assert IsPowerOfTwo(q) && q >= 2 && h == 2 * q;
    var e := q / 2;
    assert IsPowerOfTwo(e) && q == 2 * e;
    assert n == 8 * e;
  }

  /** Eight times a power of two is a power of two. */
  lemma PowerOfTwoTimesEight(n: int)
    requires IsPowerOfTwo(n)
    ensures IsPowerOfTwo(8 * n)
  {
    assert IsPowerOfTwo(2 * n);
    assert (4 * n) / 2 == 2 * n;
    assert IsPowerOfTwo(4 * n);
    assert (8 * n) / 2 == 4 * n;
  }

  /** Exponents add up when powers of two multiply. */
  lemma {:induction false} Pow2Add(a: nat, b: nat)
    ensures Pow2(a + b) == Pow2(a) * Pow2(b)
  {
    if a > 0 {
      Pow2Add(a - 1, b);
    }
  }

  /** 2^63, the bit pattern of Long.MIN_VALUE. */
  lemma Pow2SixtyThree()
    ensures Pow2(63) == -MIN_VALUE
  {
    assert Pow2(9) == 512;
    Pow2Add(9, 9);
    Pow2Add(18, 18);
    Pow2Add(36, 18);
    Pow2Add(54, 9);
  }

  /** ANDing a number with itself gives it back. */
  lemma {:induction false} AndBitsSelf(a: nat)
    ensures AndBits(a, a) == a
  {
    if a != 0 {
      AndBitsSelf(a / 2);
    }
  }

  /** For positive x, `x & (x - 1)` is zero exactly when x is a power of two. */
  lemma {:induction false} AndPredecessorIsZero(x: nat)
    requires x >= 1
    ensures AndBits(x, x - 1) == 0 <==> IsPowerOfTwo(x)
  {
    if x == 1 {
    } else if x % 2 == 1 {
      // the same higher digits, one of them nonzero, survive the AND
      assert (x - 1) / 2 == x / 2;
      AndBitsSelf(x / 2);
      assert AndBits(x, x - 1) == 2 * (x / 2);
    } else {
      assert (x - 1) / 2 == x / 2 - 1;
      assert AndBits(x, x - 1) == 2 * AndBits(x / 2, x / 2 - 1);
      AndPredecessorIsZero(x / 2);
    }
  }

  /** The wrapped predecessor of a nonzero long has the predecessor bit pattern. */
  lemma PredecessorPattern(v: Long)
    requires v != 0
    ensures Unsigned(Sub(v, 1)) == Unsigned(v) - 1
  {
    if v == MIN_VALUE {
      assert Sub(v, 1) == MAX_VALUE;
    }
  }

  /**
   * The test `(v & (v - 1)) == 0L` on a Java long holds exactly for zero, for
   * Long.MIN_VALUE (whose pattern is the single top bit) and for the positive powers of two.
   */
  lemma BitTrickCharacterisation(v: Long)
    ensures AndUnsigned(v, Sub(v, 1)) == 0 <==> v == 0 || v == MIN_VALUE || IsPowerOfTwo(v)
  {
    if v == 0 {
      assert Unsigned(v) == 0;
    } else {
      PredecessorPattern(v);
      AndPredecessorIsZero(Unsigned(v));
      if v < 0 && v != MIN_VALUE && IsPowerOfTwo(Unsigned(v)) {
        // the pattern lies strictly between 2^63 and 2^64: no power of two does
        Pow2IsPowerOfTwo(63);
        Pow2SixtyThree();
        PowerOfTwoGap(Pow2(63), Unsigned(v));
        assert false;
      }
      if v == MIN_VALUE {
        Pow2IsPowerOfTwo(63);
        Pow2SixtyThree();
      }
    }
  }
}
