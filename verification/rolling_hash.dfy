/**
 * The table's string hash: a polynomial rolling hash with base 31 taken
 * modulo 1 000 000 007, where character c contributes (c - 'a' + 1) * 31^i
 * at position i.
 */
module RollingHash {
  import opened Arith

  const Base: nat := 31
  const Modulus: nat := 1_000_000_007

  /**
   * Keys whose hash the model defines: every character is at least 'a' and
   * fits in one byte (a C++ char), so each term c - 'a' + 1 lies in 1..31.
   */
  predicate HashableKey(key: string) {
    forall i :: 0 <= i < |key| ==> 'a' <= key[i] && key[i] as int < 128
  }

  /** The weight of one character: c - 'a' + 1. */
  function Term(c: char): nat
    requires 'a' <= c
  {
    c as int - 'a' as int + 1
  }

  function Pow(b: nat, e: nat): nat {
    if e == 0 then 1 else b * Pow(b, e - 1)
  }

  /** The exact polynomial: the sum over positions i of Term(key[i]) * Base^i. */
  function PowerSum(key: string): nat
    requires HashableKey(key)
  {
    if key == [] then 0
    else PowerSum(key[..|key| - 1]) + Term(key[|key| - 1]) * Pow(Base, |key| - 1)
  }

  /** hash(key): the polynomial reduced modulo 1 000 000 007. */
  function HashSpec(key: string): (h: nat)
    requires HashableKey(key)
    ensures h < Modulus
    ensures key == [] ==> h == 0
  {
    PowerSum(key) % Modulus
  }

  /**
   * The rolling step: appending c at position |key| adds Term(c) times the
   * reduced power Base^|key| mod Modulus, and reduces again.
   */
  lemma HashRollingStep(key: string, c: char)
    requires HashableKey(key) && 'a' <= c && c as int < 128
    ensures HashableKey(key + [c])
    ensures HashSpec(key + [c]) == (HashSpec(key) + Term(c) * (Pow(Base, |key|) % Modulus)) % Modulus
  {
    var s := key + [c];
    assert s[..|s| - 1] == key && s[|s| - 1] == c;
    assert PowerSum(s) == PowerSum(key) + Term(c) * Pow(Base, |key|);
    ModSumProduct(PowerSum(key), Term(c), Pow(Base, |key|), Modulus);
  }

  /** The power kept by the loop: Base^(i+1) mod Modulus from Base^i mod Modulus. */
  lemma PowStep(i: nat)
    ensures (Pow(Base, i) % Modulus) * Base % Modulus == Pow(Base, i + 1) % Modulus
  {
    ModSumProduct(0, Base, Pow(Base, i), Modulus);
  }

  /**
   * hash: the loop keeps the running hash and the running power Base^i, both
   * reduced modulo Modulus, and returns the reduced polynomial.
   */
  method Hash(key: string) returns (h: nat)
    requires HashableKey(key)
    ensures h == HashSpec(key)
  {
    var pPow: nat := 1;
    h := 0;
    var i := 0;
    while i < |key|
      invariant 0 <= i <= |key|
      invariant h == HashSpec(key[..i])
      invariant pPow == Pow(Base, i) % Modulus
    {
      assert key[..i + 1] == key[..i] + [key[i]];
      HashRollingStep(key[..i], key[i]);
      PowStep(i);
      h := (h + Term(key[i]) * pPow) % Modulus;
      pPow := (pPow * Base) % Modulus;
      i := i + 1;
    }
    assert key[..i] == key;
  }
}
