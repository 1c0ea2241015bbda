/** Unsigned 32-bit counter arithmetic, as C performs it on `unsigned`, and the
    facts about powers of two that let a mask `size - 1` stand for a remainder
    modulo `size`.
 */
module Modular {

  /** Number of values of a 32-bit unsigned integer. */
  const MODULUS: int := 0x1_0000_0000

  /** Half the counter range: two cursors further apart than this look closer
      the other way round. */
  const HALF_MODULUS: int := 0x8000_0000

  /** The C `unsigned` every cursor, size and mask is declared with. */
  type uint32 = x: int | 0 <= x < MODULUS

  type byte = x: int | 0 <= x < 256

  /** The value an `unsigned` variable holds after being assigned the exact
      integer `x`: C unsigned arithmetic wraps modulo 2^32. */
  function Wrap(x: int): (r: uint32)
    ensures 0 <= x < MODULUS ==> r == x
    ensures MODULUS <= x < 2 * MODULUS ==> r == x - MODULUS
    ensures -MODULUS <= x < 0 ==> r == x + MODULUS
  {
    x % MODULUS
  }

  /** Unsigned subtraction `a - b`: how far `b` has to step forward to reach `a`. */
  function Sub(a: uint32, b: uint32): (r: uint32)
    ensures Wrap(b + r) == a
  {
    Wrap(a - b)
  }

  /** A positive power of two: what the C test `n > 0 && !(n & (n - 1))`
      accepts (`PowerOfTwoIffNoCommonBits`). */
  predicate IsPowerOfTwo(n: int)
    decreases if n > 0 then n else 0
  {
    n == 1 || (n > 1 && n % 2 == 0 && IsPowerOfTwo(n / 2))
  }

  /** Euclidean division has one quotient and one remainder. */
  lemma ModUnique(x: int, m: int, q: int, r: int)
    requires m > 0 && 0 <= r < m && x == q * m + r
    ensures x % m == r && x / m == q
  {
    var q0, r0 := x / m, x % m;
    assert x == q0 * m + r0;
    assert (q - q0) * m == r0 - r;
    if q > q0 {
      MulAtLeast(q - q0, m);
    } else if q < q0 {
      MulAtLeast(q0 - q, m);
    }
  }

  lemma MulAtLeast(a: int, m: int)
    requires a >= 1 && m > 0
    ensures a * m >= m
  {
    assert a * m == (a - 1) * m + m;
    assert (a - 1) * m >= 0;
  }

  /** Adding a multiple of `m` does not change the remainder modulo `m`. */
  lemma ModAddMultiple(x: int, k: int, m: int)
    requires m > 0
    ensures (x + k * m) % m == x % m
  {
    assert x == (x / m) * m + x % m;
    assert x + k * m == (x / m + k) * m + x % m;
    ModUnique(x + k * m, m, x / m + k, x % m);
  }

  /** A smaller power of two divides a larger one. */
  lemma {:induction false} PowerOfTwoDivides(n: int, m: int)
    requires IsPowerOfTwo(n) && IsPowerOfTwo(m) && n <= m
    ensures m % n == 0 && m == (m / n) * n
    decreases m
  {
    if n == 1 {
      ModUnique(m, 1, m, 0);
    } else {
      assert m != 1;
      PowerOfTwoDivides(n / 2, m / 2);
      var q := (m / 2) / (n / 2);
      assert m / 2 == q * (n / 2);
      assert m == q * n;
      ModUnique(m, n, q, 0);
    }
  }

  lemma DoubleIsPowerOfTwo(n: int)
    requires IsPowerOfTwo(n)
    ensures IsPowerOfTwo(2 * n)
  {
    assert (2 * n) / 2 == n;
  }

  /** Sixteen times a power of two is one. */
  lemma SixteenfoldIsPowerOfTwo(n: int)
    requires IsPowerOfTwo(n)
    ensures IsPowerOfTwo(16 * n)
  {
    DoubleIsPowerOfTwo(n);
    DoubleIsPowerOfTwo(2 * n);
    DoubleIsPowerOfTwo(4 * n);
    DoubleIsPowerOfTwo(8 * n);
  }

  lemma ModulusIsPowerOfTwo()
    ensures IsPowerOfTwo(MODULUS)
  {
    SixteenfoldIsPowerOfTwo(1);
    SixteenfoldIsPowerOfTwo(0x10);
    SixteenfoldIsPowerOfTwo(0x100);
    SixteenfoldIsPowerOfTwo(0x1000);
    SixteenfoldIsPowerOfTwo(0x1_0000);
    SixteenfoldIsPowerOfTwo(0x10_0000);
    SixteenfoldIsPowerOfTwo(0x100_0000);
    SixteenfoldIsPowerOfTwo(0x1000_0000);
  }

  /** Reducing modulo a multiple of `n` first does not change the remainder modulo `n`. */
  lemma RemainderOfRemainder(x: int, m: int, q: int, n: int)
    requires q > 0 && n > 0 && m == q * n
    ensures (x % m) % n == x % n
  {
    var k := x / m;
    assert x == k * m + x % m;
    assert k * m == (k * q) * n;
    ModAddMultiple(x % m, k * q, n);
  }

  /** 2^32 is a whole number of times any 32-bit power of two. */
  lemma ModulusIsMultiple(n: int)
    requires IsPowerOfTwo(n) && n <= MODULUS
    ensures MODULUS / n > 0 && MODULUS == (MODULUS / n) * n
  {
    ModulusIsPowerOfTwo();
    PowerOfTwoDivides(n, MODULUS);
  }

  /** Every 32-bit power of two divides 2^32, so the wrap-around of a cursor
      never disturbs its offset modulo the capacity. */
  lemma WrapKeepsRemainder(x: int, n: int)
    requires IsPowerOfTwo(n) && n <= MODULUS
    ensures Wrap(x) % n == x % n
  {
    ModulusIsMultiple(n);
    RemainderOfRemainder(x, MODULUS, MODULUS / n, n);
  }

  /** Bitwise AND of two non-negative integers, bit by bit from the lowest. */
  function And(x: nat, y: nat): (r: nat)
    ensures r <= x && r <= y
  {
    if x == 0 || y == 0 then 0
    else 2 * And(x / 2, y / 2) + (if x % 2 == 1 && y % 2 == 1 then 1 else 0)
  }

  /** For a power of two `n`, `x & (n - 1)` keeps the low bits of `x`: its
      remainder modulo `n`. */
  lemma {:induction false} AndLowBits(x: nat, n: int)
    requires IsPowerOfTwo(n)
    ensures And(x, n - 1) == x % n
    decreases n
  {
    if n == 1 || x == 0 {
      return;
    }
    var h := n / 2;
    AndLowBits(x / 2, h);
    assert (n - 1) / 2 == h - 1 && (n - 1) % 2 == 1;
    assert And(x, n - 1) == 2 * ((x / 2) % h) + x % 2;
    HalveRemainder(x, h);
  }

  /** The remainder modulo `2h` from the remainder of the half modulo `h` and
      the lowest bit. */
  lemma HalveRemainder(x: nat, h: int)
    requires h > 0
    ensures x % (2 * h) == 2 * ((x / 2) % h) + x % 2
  {
    var q, r := (x / 2) / h, (x / 2) % h;
    assert x / 2 == q * h + r;
    assert x == 2 * (x / 2) + x % 2;
    assert 2 * (q * h) == q * (2 * h);
    ModUnique(x, 2 * h, q, 2 * r + x % 2);
  }

  /** A number shares all its bits with itself. */
  lemma {:induction false} AndSelf(x: nat)
    ensures And(x, x) == x
  {
    if x > 0 {
      AndSelf(x / 2);
    }
  }

  /** The C test `n > 0 && !(n & (n - 1))` accepts exactly the powers of two. */
  lemma {:induction false} PowerOfTwoIffNoCommonBits(n: nat)
    requires n > 0
    ensures IsPowerOfTwo(n) <==> And(n, n - 1) == 0
    decreases n
  {
    if n == 1 {
      return;
    }
    assert (n - 1) / 2 == if n % 2 == 0 then n / 2 - 1 else n / 2;
    if n % 2 == 0 {
      PowerOfTwoIffNoCommonBits(n / 2);
      assert And(n, n - 1) == 2 * And(n / 2, n / 2 - 1);
    } else {
      AndSelf(n / 2);
      assert And(n, n - 1) == 2 * And(n / 2, n / 2);
    }
  }

  /** Moving `b` forward by at most its distance to `a` shortens that distance
      by as much. */
  lemma SubAdvance(a: uint32, b: uint32, n: int)
    requires 0 <= n <= Sub(a, b)
    ensures Sub(a, Wrap(b + n)) == Sub(a, b) - n
  {
  }

  /** Moving `a` forward by `n` lengthens its distance from `b` by as much,
      while that stays inside the range. */
  lemma SubGrow(a: uint32, b: uint32, n: int)
    requires 0 <= n && Sub(a, b) + n < MODULUS
    ensures Sub(Wrap(a + n), b) == Sub(a, b) + n
  {
  }
}
