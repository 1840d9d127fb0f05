/** Bitwise AND on naturals and its meaning for masks of the form 2^k - 1:
    the arithmetic behind a power-of-two ring buffer. */
module Bits {

  /** x & y, computed bit by bit from the least significant end. */
  function BitAnd(x: nat, y: nat): (r: nat)
    ensures r <= x && r <= y
  {
    if x == 0 || y == 0 then 0
    else 2 * BitAnd(x / 2, y / 2) + (if x % 2 == 1 && y % 2 == 1 then 1 else 0)
  }

  /** n is 2^k for some k >= 0. */
  predicate IsPow2(n: nat)
  {
    n == 1 || (n >= 2 && n % 2 == 0 && IsPow2(n / 2))
  }

  /** A nonzero multiple of d is at least d away from 0. */
  lemma MultipleAway(d: nat, e: int)
    ensures e >= 1 ==> d * e >= d
    ensures e <= -1 ==> d * e + d <= 0
  {
    if e >= 1 {
      assert d * e == d * (e - 1) + d;
      assert d * (e - 1) >= 0;
    } else if e <= -1 {
      assert d * e == d * (e + 1) - d;
      assert d * (e + 1) <= 0;
    }
  }

  /** The remainder is determined by any decomposition x == d * s + r with
      r below d. */
  lemma ModUnique(x: nat, d: nat, s: nat, r: nat)
    requires r < d && x == d * s + r
    ensures x % d == r
  {
    var q, m := x / d, x % d;
    assert x == d * q + m;
    assert d * (q - s) == d * q - d * s;
    MultipleAway(d, q - s);
  }

  /** Masking with 2m - 1 keeps the lowest bit and masks the rest with m - 1. */
  lemma BitAndOddMask(x: nat, m: nat)
    requires m >= 1
    ensures BitAnd(x, 2 * m - 1) == 2 * BitAnd(x / 2, m - 1) + x % 2
  {
    assert (2 * m - 1) / 2 == m - 1 && (2 * m - 1) % 2 == 1;
  }

  /** The remainder modulo 2m in terms of the remainder of x / 2 modulo m. */
  lemma ModDouble(x: nat, m: nat)
    requires m >= 1
    ensures x % (2 * m) == 2 * ((x / 2) % m) + x % 2
  {
    var q, r := x / 2, x % 2;
    var s, t := q / m, q % m;
    assert q == m * s + t;
    assert x == 2 * q + r;
    assert 2 * (m * s) == (2 * m) * s;
    assert x == (2 * m) * s + (2 * t + r);
    ModUnique(x, 2 * m, s, 2 * t + r);
  }

  /** For a power of two n, x & (n - 1) is x reduced modulo n: masking
      wraps an index around a ring of n slots. */
  lemma {:induction false} MaskIsMod(x: nat, n: nat)
    requires IsPow2(n)
    ensures BitAnd(x, n - 1) == x % n
    decreases n
  {
    if n > 1 {
      var m := n / 2;
      MaskIsMod(x / 2, m);
      BitAndOddMask(x, m);
      ModDouble(x, m);
    }
  }

  /** Every bit of a survives masking with itself. */
  lemma {:induction false} BitAndSelf(a: nat)
    ensures BitAnd(a, a) == a
  {
    if a > 0 {
      BitAndSelf(a / 2);
    }
  }

  /** The test n & (n - 1) == 0 recognises exactly the powers of two among
      the positive numbers. */
  lemma {:induction false} PowerOfTwoTest(n: nat)
    requires n >= 1
    ensures BitAnd(n, n - 1) == 0 <==> IsPow2(n)
    decreases n
  {
    if IsPow2(n) {
      MaskIsMod(n, n);
    } else if n % 2 == 1 {
      BitAndSelf(n / 2);
    } else {
      PowerOfTwoTest(n / 2);
    }
  }
}
