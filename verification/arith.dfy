/** Facts about Euclidean remainder used by the hash and primality proofs. */
module Arith {

  /** The quotient and remainder of x by m are the unique q and r with x == m*q + r and 0 <= r < m. */
  lemma ModUnique(x: int, m: int, q: int, r: int)
    requires m > 0 && 0 <= r < m && x == m * q + r
    ensures x % m == r && x / m == q
  {
    var q', r' := x / m, x % m;
    assert x == m * q' + r';
    assert m * (q - q') == r' - r;
    MulAwayFromZero(m, q - q');
  }

  /** A nonzero multiple of a positive m is at least m away from zero. */
  lemma MulAwayFromZero(m: int, d: int)
    requires m > 0
    ensures d >= 1 ==> m * d >= m
    ensures d <= -1 ==> m * d <= -m
  {
  }

  /** Adding a multiple of m does not change the remainder. */
  lemma ModShift(x: int, m: int, k: int)
    requires m > 0
    ensures (x + m * k) % m == x % m
  {
    var q, r := x / m, x % m;
    assert x + m * k == m * (q + k) + r;
    ModUnique(x + m * k, m, q + k, r);
  }

  /** Reducing the left summand first does not change the remainder of a sum. */
  lemma ModAddLeft(a: int, b: int, m: int)
    requires m > 0
    ensures (a % m + b) % m == (a + b) % m
  {
    var q := a / m;
    assert a + b == (a % m + b) + m * q;
    ModShift(a % m + b, m, q);
  }

  /** (a mod m + t * (b mod m)) mod m == (a + t*b) mod m: the step of a rolling hash. */
  lemma ModSumProduct(a: int, t: int, b: int, m: int)
    requires m > 0
    ensures (a % m + t * (b % m)) % m == (a + t * b) % m
  {
    ModAddLeft(a, t * (b % m), m);
    var q := b / m;
    assert b == m * q + b % m;
    assert t * b == t * (b % m) + m * (t * q);
    ModShift(a + t * (b % m), m, t * q);
  }

  /** Products of nonnegative factors grow with each factor. */
  lemma MulLe(a: int, b: int, c: int, e: int)
    requires 0 <= a <= b && 0 <= c
    ensures c <= e ==> a * c <= b * e
  {
  }

  /** For positive s, the integer quotient c / s is at least 1 exactly when c >= s. */
  lemma QuotientAtLeastOne(c: nat, s: nat)
    requires s > 0
    ensures c / s >= 1 <==> c >= s
  {
    if c < s {
      ModUnique(c, s, 0, c);
    } else {
      var q, r := (c - s) / s, (c - s) % s;
      ModUnique(c, s, q + 1, r);
    }
  }
}
