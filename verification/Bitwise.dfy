/** Bit lengths and bitwise `or` of non-negative integers. */
module Bitwise {
  import opened Limbs

  /** `2^k`, known to be a divisor. */
  function P(k: nat): (p: nat)
    ensures 0 < p && p == Pow(2, k)
  {
    PowPositive(2, k);
    Pow(2, k)
  }

  /** The number of bits up to the highest one set. */
  function BitLength(n: nat): nat {
    if n == 0 then 0 else 1 + BitLength(n / 2)
  }

  lemma {:induction false} BitLengthBounds(n: nat)
    ensures n < Pow(2, BitLength(n))
    ensures if n == 0 then BitLength(n) == 0 else 0 < BitLength(n) && Pow(2, BitLength(n) - 1) <= n
  {
    if n > 1 {
      BitLengthBounds(n / 2);
    }
  }

  lemma BitLengthUnique(n: nat, b: nat)
    requires n < Pow(2, b) && (b > 0 ==> Pow(2, b - 1) <= n)
    ensures b == BitLength(n)
  {
    hide Pow, BitLength;
    BitLengthBounds(n);
    var k := BitLength(n);
    if b < k {
      PowPositive(2, b);
      PowMono(2, b, k - 1);
    } else if k < b {
      PowMono(2, k, b - 1);
    }
  }

  lemma BitLengthMono(n: nat, m: nat)
    requires n <= m
    ensures BitLength(n) <= BitLength(m)
  {
    hide Pow, BitLength;
    BitLengthBounds(n);
    BitLengthBounds(m);
    if BitLength(m) < BitLength(n) {
      PowMono(2, BitLength(m), BitLength(n) - 1);
    }
  }

  function Or(a: nat, b: nat): nat
    decreases a + b
  {
    if a == 0 && b == 0 then 0 else (if a % 2 == 1 || b % 2 == 1 then 1 else 0) + 2 * Or(a / 2, b / 2)
  }

  lemma {:induction false} OrSwapped(a: nat, b: nat)
    ensures Or(a, b) == Or(b, a)
    decreases a + b
  {
    if a != 0 || b != 0 {
      OrSwapped(a / 2, b / 2);
    }
  }

  lemma {:induction false} OrZero(b: nat)
    ensures Or(0, b) == b
  {
    if b > 0 {
      OrZero(b / 2);
    }
  }

  /** Numbers with no common bit are joined by adding them. */
  lemma {:induction false} OrDisjoint(a: nat, b: nat, k: nat)
    requires a < Pow(2, k)
    ensures Or(a, b * Pow(2, k)) == a + b * Pow(2, k)
    decreases k
  {
    if k == 0 {
      OrZero(b);
    } else {
      var half := b * Pow(2, k - 1);
      assert b * Pow(2, k) == 2 * half by { Assoc(b, 2, Pow(2, k - 1)); }
      OrDisjoint(a / 2, b, k - 1);
    }
  }
}
