/**
 * The two numeric helpers of the table: the 6k±1 primality test and the
 * upward scan for the next prime, which together choose every new capacity.
 */
module Primes {
  import opened Arith

  /** d divides n exactly (d is nonzero). */
  predicate Divides(d: nat, n: nat) {
    d != 0 && n % d == 0
  }

  /** n is prime: at least 2, and no d with 1 < d < n divides it. */
  ghost predicate Prime(n: nat) {
    n >= 2 && forall d :: 1 < d < n ==> !Divides(d, n)
  }

  /** r is the smallest prime strictly greater than n. */
  ghost predicate IsNextPrime(n: nat, r: nat) {
    n < r && Prime(r) && forall q :: n < q < r ==> !Prime(q)
  }

  lemma DividesTransitive(a: nat, b: nat, c: nat)
    requires Divides(a, b) && Divides(b, c)
    ensures Divides(a, c)
  {
    var k, l := b / a, c / b;
    assert b == a * k;
    assert c == b * l;
    assert c == a * (k * l);
    ModUnique(c, a, k * l, 0);
  }

  lemma DividesSelf(n: nat)
    requires n > 0
    ensures Divides(n, n)
  {
    ModUnique(n, n, 1, 0);
  }

  /**
   * When no d with 1 < d < i divides n and i*i exceeds n, n is prime:
   * a divisor d >= i would leave a cofactor n/d that is below i.
   */
  lemma NoSmallDivisorMeansPrime(n: nat, i: nat)
    requires n >= 2 && n < i * i
    requires forall d :: 1 < d < i ==> !Divides(d, n)
    ensures Prime(n)
  {
    forall d | 1 < d < n
      ensures !Divides(d, n)
    {
      if i <= d && Divides(d, n) {
        CofactorBelow(n, d, i);
        assert false;
      }
    }
  }

  /** The cofactor of a divisor d >= i of n < i*i is a divisor of n between 1 and i. */
  lemma CofactorBelow(n: nat, d: nat, i: nat)
    requires 1 < d < n && Divides(d, n) && i <= d && n < i * i
    ensures 1 < n / d < i && Divides(n / d, n)
  {
    var k := n / d;
    assert n == d * k;
    MulLe(i, d, i, k);
    ModUnique(n, k, d, 0);
  }

  /**
   * Beside 2 and 3, only i and i+2 need testing in each block [i, i+6) with
   * i = 6q + 5: the other four numbers are multiples of 2 or of 3.
   */
  lemma NoDivisorInWheel(n: nat, i: nat, q: nat)
    requires i == 6 * q + 5
    requires !Divides(2, n) && !Divides(3, n)
    requires !Divides(i, n) && !Divides(i + 2, n)
    ensures forall d :: i <= d < i + 6 ==> !Divides(d, n)
  {
    ModUnique(i + 1, 2, 3 * q + 3, 0);
    ModUnique(i + 3, 2, 3 * q + 4, 0);
    ModUnique(i + 5, 2, 3 * q + 5, 0);
    ModUnique(i + 4, 3, 2 * q + 3, 0);
    forall d | i <= d < i + 6
      ensures !Divides(d, n)
    {
      if d != i && d != i + 2 && Divides(d, n) {
        if d == i + 4 {
          DividesTransitive(3, d, n);
        } else {
          DividesTransitive(2, d, n);
        }
        assert false;
      }
    }
  }

  /** A divisor i or i + 2 found with 5 <= i and i*i <= n is a proper divisor, so n is not prime. */
  lemma WheelDivisorFound(n: nat, i: nat)
    requires 5 <= i && i * i <= n
    requires n % i == 0 || n % (i + 2) == 0
    ensures !Prime(n)
  {
    MulLe(3, i, i, i);
    assert i + 2 < n;
    assert Divides(i, n) || Divides(i + 2, n);
  }

  /** isPrime: trial division by 2, 3 and then by i and i+2 for i = 5, 11, 17, ... while i*i <= n. */
  method IsPrime(n: nat) returns (b: bool)
    ensures b == Prime(n)
  {
    if n <= 1 {
      return false;
    }
    if n <= 3 {
      NoSmallDivisorMeansPrime(n, 2);
      return true;
    }
    if n % 2 == 0 || n % 3 == 0 {
      assert Divides(2, n) || Divides(3, n);
      return false;
    }
    assert !Divides(2, n) && !Divides(3, n);
    var i := 5;
    ghost var q := 0;
    while i * i <= n
      invariant i == 6 * q + 5
      invariant forall d :: 1 < d < i ==> !Divides(d, n)
    {
      if n % i == 0 || n % (i + 2) == 0 {
        WheelDivisorFound(n, i);
        return false;
      }
      assert !Divides(i, n) && !Divides(i + 2, n);
      NoDivisorInWheel(n, i, q);
      i, q := i + 6, q + 1;
    }
    NoSmallDivisorMeansPrime(n, i);
    return true;
  }

  function Factorial(n: nat): (r: nat)
    ensures r >= 1
  {
    if n == 0 then 1 else n * Factorial(n - 1)
  }

  lemma {:induction false} FactorialDivisible(n: nat, d: nat)
    requires 1 <= d <= n
    ensures Divides(d, Factorial(n))
  {
    ModUnique(Factorial(n), n, Factorial(n - 1), 0);
    if d < n {
      FactorialDivisible(n - 1, d);
      ModUnique(Factorial(n), Factorial(n - 1), n, 0);
      DividesTransitive(d, Factorial(n - 1), Factorial(n));
    }
  }

  /** Every m >= 2 has a prime divisor (its smallest divisor above 1). */
  lemma {:induction false} HasPrimeDivisor(m: nat)
    requires m >= 2
    ensures exists p :: Prime(p) && Divides(p, m)
    decreases m
  {
    if Prime(m) {
      DividesSelf(m);
    } else {
      var d: nat :| 1 < d < m && Divides(d, m);
      HasPrimeDivisor(d);
      var p: nat :| Prime(p) && Divides(p, d);
      DividesTransitive(p, d, m);
    }
  }

  /**
   * There is a prime above every n (Euclid): a prime divisor of n! + 1 cannot
   * be at most n, since it would then divide both n! and n! + 1.
   */
  lemma PrimeAbove(n: nat)
    ensures exists p :: n < p && Prime(p)
  {
    var e := Factorial(n) + 1;
    HasPrimeDivisor(e);
    var p: nat :| Prime(p) && Divides(p, e);
    if p <= n {
      FactorialDivisible(n, p);
      ModUnique(e, p, Factorial(n) / p, 1);
      assert false;
    }
  }

  /** getNextPrime: 2 for n <= 1, otherwise the first prime found scanning upward from n + 1. */
  method GetNextPrime(n: nat) returns (prime: nat)
    ensures n <= 1 ==> prime == 2
    ensures IsNextPrime(n, prime)
  {
    if n <= 1 {
      return 2;
    }
    PrimeAbove(n);
    ghost var w :| n < w && Prime(w);
    prime := n;
    var found := false;
    while !found
      invariant n <= prime <= w
      invariant forall q :: n < q < prime ==> !Prime(q)
      invariant found ==> n < prime && Prime(prime)
      invariant !found ==> prime < w && (n < prime ==> !Prime(prime))
      decreases w - prime
    {
      prime := prime + 1;
      found := IsPrime(prime);
    }
  }

  /** 13, the initial capacity, is prime. */
  lemma ThirteenIsPrime()
    ensures Prime(13)
  {
    assert !Divides(2, 13) && !Divides(3, 13);
    NoSmallDivisorMeansPrime(13, 4);
  }

  /** The next prime after 13 is 17: the first growth of a table takes it from 13 to 17 slots. */
  lemma NextPrimeAfterThirteen(r: nat)
    requires IsNextPrime(13, r)
    ensures r == 17
  {
    assert !Divides(2, 17) && !Divides(3, 17) && !Divides(4, 17);
    NoSmallDivisorMeansPrime(17, 5);
    assert Divides(2, 14) && Divides(3, 15) && Divides(2, 16);
    assert !Prime(14) && !Prime(15) && !Prime(16);
  }
}
