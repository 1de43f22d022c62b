/** Mathematical primality, the reference that trial division is proved against. */
module Primality {

  /** n is prime: at least 2 and no divisor strictly between 1 and n. */
  ghost predicate IsPrimeMath(n: int) {
    n >= 2 && forall d :: 2 <= d < n ==> n % d != 0
  }

  /** An odd number has no even divisor: n - n % d would be even, so n % d is odd. */
  lemma OddHasNoEvenDivisor(n: int, d: int)
    requires n % 2 == 1 && d >= 2 && d % 2 == 0
    ensures n % d != 0
  {
    var q, r := n / d, n % d;
    assert n == d * q + r;
    var h := d / 2;
    assert d * q == 2 * (h * q);
    assert r % 2 == 1;
  }

  /**
   * An odd n >= 3 has no divisor d with n/2 <= d < n: with n == d * q, a
   * quotient q <= 1 leaves n <= d, q == 2 makes n even, and q >= 3 makes n
   * at least 3 * d > n.
   */
  lemma NoDivisorInUpperHalf(n: int, d: int)
    requires n >= 3 && n % 2 == 1
    requires d >= 2 && n / 2 <= d < n
    ensures n % d != 0
  {
    var q, r := n / d, n % d;
    assert n == d * q + r && 0 <= r < d;
    if r == 0 {
      if q <= 1 {
        ProductNonnegative(d, 1 - q);
      } else if q >= 3 {
        ProductNonnegative(d, q - 3);
      }
    }
  }

  /** The product of two non-negative numbers is non-negative. */
  lemma ProductNonnegative(a: int, b: int)
    ensures a >= 0 && b >= 0 ==> a * b >= 0
  {
  }

  /** A prime above 2 is odd: 2 would divide it otherwise. */
  lemma PrimeIsOdd(n: int)
    requires IsPrimeMath(n) && n >= 3
    ensures n % 2 == 1
  {
    assert n % 2 != 0;
  }

  /** Two odd numbers in increasing order are at least 2 apart. */
  lemma OddGap(n: int, m: int)
    requires n % 2 == 1 && m % 2 == 1 && n < m
    ensures n + 2 <= m
  {
  }

  /** No d with lo <= d < hi divides n, checked one d at a time. */
  predicate NoDivisorIn(n: int, lo: int, hi: int)
    requires lo >= 2
    decreases hi - lo
  {
    lo >= hi || (n % lo != 0 && NoDivisorIn(n, lo + 1, hi))
  }

  /** The one-at-a-time check covers every d in [lo, hi). */
  lemma {:induction false} NoDivisorInCovers(n: int, lo: int, hi: int)
    requires lo >= 2 && NoDivisorIn(n, lo, hi)
    ensures forall d :: lo <= d < hi ==> n % d != 0
    decreases hi - lo
  {
    if lo < hi {
      NoDivisorInCovers(n, lo + 1, hi);
    }
  }

  /**
   * A number n >= 2 with no divisor in [2, k), where k * k > n, is prime: a
   * divisor d >= k would leave the cofactor n / d, also a divisor, in [2, k).
   */
  lemma PrimeByCheck(n: int, k: int)
    requires n >= 2 && k >= 2 && k * k > n && NoDivisorIn(n, 2, k)
    ensures IsPrimeMath(n)
  {
    NoDivisorInCovers(n, 2, k);
    forall d | k <= d < n
      ensures n % d != 0
    {
      if n % d == 0 {
        CofactorBelow(n, k, d);
      }
    }
  }

  /** The cofactor of a divisor d >= k of n < k * k is a divisor in [2, k). */
  lemma CofactorBelow(n: int, k: int, d: int)
    requires 2 <= k <= d < n && k * k > n && n % d == 0
    ensures 2 <= n / d < k && n % (n / d) == 0
  {
    var q := n / d;
    assert n == d * q;
    if q >= k {
      ProductGrows(k, d, q);
      ProductGrows(k, q, k);
      assert false;
    }
    if q <= 1 {
      ProductGrows(q, 1, d);
      assert false;
    }
    MultipleMod(q, d);
  }

  /** Multiplying by c >= 0 keeps the order of a <= b. */
  lemma ProductGrows(a: int, b: int, c: int)
    requires a <= b && c >= 0
    ensures a * c <= b * c
  {
    ProductNonnegative(b - a, c);
  }

  /** A multiple of a > 0 leaves no remainder on division by a. */
  lemma MultipleMod(a: int, b: int)
    requires a > 0
    ensures (a * b) % a == 0
  {
    var m := a * b;
    var t := b - m / a;
    assert a * t == m % a;
    if t >= 1 {
      ProductGrows(1, t, a);
    } else if t <= -1 {
      ProductGrows(t, -1, a);
    }
  }
}
