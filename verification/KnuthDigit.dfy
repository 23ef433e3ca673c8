/** Step D3 of Knuth's Algorithm D (The Art of Computer Programming, volume 2, section 4.3.1): the
    guess of one quotient digit from the two leading words of the divisor. */
module KnuthDigit {
  import opened Limbs

  /** `x` has the leading words `u2, u1, u0` above `p` and `v` has `v1, v0`, normalised; the quotient
      is one digit. */
  ghost predicate Leading(p: nat, x: nat, u2: nat, u1: nat, u0: nat, v: nat, v1: nat, v0: nat) {
    && 0 < p
    && u2 < B && u1 < B && u0 < B && v1 < B && v0 < B && B <= 2 * v1
    && ((u2 * B + u1) * B + u0) * p <= x < ((u2 * B + u1) * B + u0 + 1) * p
    && (v1 * B + v0) * p <= v < (v1 * B + v0 + 1) * p
    && x < B * v
  }

  /** `guess` is the digit or one more: never low, and at most one too high. */
  ghost predicate GoodGuess(x: nat, v: nat, guess: nat) {
    guess < B && x < (guess + 1) * v && guess * v < x + v
  }

  lemma ScaleBelow(x: nat, xt: nat, p: nat, guess: nat, vt: nat, v: nat)
    requires x < xt * p && xt <= guess * vt && vt * p <= v
    ensures x < guess * v
  {
    calc {
      xt * p;
    <= { MulMono(xt, guess * vt, p); }
      (guess * vt) * p;
    == { Assoc(guess, vt, p); }
      guess * (vt * p);
    <= { MulMono(vt * p, v, guess); }
      guess * v;
    }
  }

  lemma ScaleAbove(x: nat, xt: nat, p: nat, guess: nat, vt: nat, v: nat, low: nat)
    requires xt * p <= x && guess * vt <= xt && v == vt * p + low && low < p
    ensures guess * v <= x + guess * p && (0 < guess ==> guess * v < x + guess * p)
  {
    calc {
      guess * v;
    == { Distribute(guess, vt * p, low); Assoc(guess, vt, p); }
      (guess * vt) * p + guess * low;
    <= { MulMono(guess * vt, xt, p); }
      x + guess * low;
    }
    if 0 < guess {
      MulStrict(low, p, guess);
    }
  }

  /** The exact quotient of the leading three words by the leading two is a good guess. */
  lemma LeadingQuotient(p: nat, x: nat, xt: nat, v: nat, vt: nat, guess: nat)
    requires 0 < p && 0 < vt && guess == xt / vt && guess < B <= vt
    requires xt * p <= x < (xt + 1) * p && vt * p <= v < (vt + 1) * p
    ensures GoodGuess(x, v, guess)
  {
    assert xt == guess * vt + xt % vt;
    assert (guess + 1) * vt == guess * vt + vt;
    ScaleBelow(x, xt + 1, p, guess + 1, vt, v);
    Distribute(p, vt, 1);
    ScaleAbove(x, xt, p, guess, vt, v, v - vt * p);
    MulMono(guess, vt, p);
    MulStrict(0, vt, p);
  }

  /** The saturated guess `B - 1`, taken when the leading words are equal. */
  lemma Saturated(p: nat, x: nat, top: nat, u0: nat, v: nat, v1: nat, v0: nat)
    requires 0 < p && B <= 2 * v1 && v1 < B && v0 < B && v1 * B <= top
    requires (top * B + u0) * p <= x && (v1 * B + v0) * p <= v < (v1 * B + v0 + 1) * p
    requires x < B * v
    ensures GoodGuess(x, v, B - 1)
  {
    var vt := v1 * B + v0;
    assert (B - 1) * v < x + v by {
      assert (B - 2) * (vt + 1) <= top * B + u0;
      MulMono((B - 2) * (vt + 1), top * B + u0, p);
      MulStrict(v, (vt + 1) * p, B - 2);
    }
  }

  /** `split_u128` of a product, compared with two words. */
  lemma TwoWords(n: nat, hi: nat, lo: nat)
    requires lo < B
    ensures n <= B * hi + lo <==> n / B < hi || (n / B == hi && n % B <= lo)
  {
  }

  lemma TopProduct(top: nat, guess: nat, v1: nat, v0: nat, rest: nat)
    requires guess * v1 + rest == top
    ensures guess * (v1 * B + v0) + B * rest == B * top + guess * v0
  {
    Distribute(guess, v1 * B, v0);
  }

  lemma FirstGuess(top: nat, u0: nat, v1: nat, v0: nat, guess: nat, rest: nat)
    requires guess * v1 + rest == top && rest < v1 && u0 < B
    ensures top * B + u0 < (guess + 1) * (v1 * B + v0)
  {
    TopProduct(top, guess, v1, v0, rest);
    Distribute(v1 * B + v0, guess, 1);
  }

  /** When the two-word test fails, the next lower guess is still not low. */
  lemma LowerGuess(top: nat, u0: nat, v1: nat, v0: nat, guess: nat, rest: nat)
    requires guess * v1 + rest == top && guess * v0 > B * rest + u0
    ensures 0 < guess && (guess - 1) * v1 + (rest + v1) == top
    ensures top * B + u0 < guess * (v1 * B + v0)
  {
    TopProduct(top, guess, v1, v0, rest);
    Distribute(v1, guess - 1, 1);
  }

  /** When it holds, the guess is the quotient of three words by two. */
  lemma KeepGuess(top: nat, u0: nat, v1: nat, v0: nat, guess: nat, rest: nat)
    requires guess * v1 + rest == top && guess * v0 <= B * rest + u0 && 0 < v1
    requires top * B + u0 < (guess + 1) * (v1 * B + v0)
    ensures guess == (top * B + u0) / (v1 * B + v0)
  {
    var xt, vt := top * B + u0, v1 * B + v0;
    TopProduct(top, guess, v1, v0, rest);
    Distribute(vt, guess, 1);
    DivUnique(xt, vt, guess, xt - guess * vt);
  }

  /** The two-word test, repeated until it holds or the remainder no longer fits a word. */
  method RefineGuess(top: nat, u0: nat, v1: nat, v0: nat, first: nat, firstRest: nat) returns (guess: nat)
    requires first < B && firstRest < B && first * v1 + firstRest == top && 0 < v1 && u0 < B && v0 < B
    requires top * B + u0 < (first + 1) * (v1 * B + v0)
    ensures guess == (top * B + u0) / (v1 * B + v0)
  {
    guess := first;
    var rest := firstRest;
    while true
      invariant guess < B && rest < B && guess * v1 + rest == top
      invariant top * B + u0 < (guess + 1) * (v1 * B + v0)
      decreases B - rest
    {
      var product := guess * v0;
      TwoWords(product, rest, u0);
      if product / B < rest || (product / B == rest && product % B <= u0) {
        break;
      }
      LowerGuess(top, u0, v1, v0, guess, rest);
      guess, rest := guess - 1, rest + v1;
      if B <= rest {
        MulMono(guess, B, v0);
        break;
      }
    }
    KeepGuess(top, u0, v1, v0, guess, rest);
  }

  lemma FirstFits(u2: nat, u1: nat, v1: nat)
    requires u2 < v1 && u1 < B
    ensures var top := u2 * B + u1; top / v1 < B && (top / v1) * v1 + top % v1 == top && top % v1 < v1
  {
    MulMono(u2 + 1, v1, B);
    Distribute(B, u2, 1);
    QuotientFits(u2 * B + u1, v1);
  }

  /** The guess of the source: two words by one, then the two-word test, or the largest word when the
      leading words are equal.  The test makes it the quotient of three words by two. */
  method GuessDigit(u2: nat, u1: nat, u0: nat, v1: nat, v0: nat) returns (guess: nat)
    requires u1 < B && u0 < B && v1 < B && v0 < B && B <= 2 * v1
    ensures u2 < v1 ==> guess == ((u2 * B + u1) * B + u0) / (v1 * B + v0)
    ensures v1 <= u2 ==> guess == B - 1
  {
    if u2 < v1 {
      var top := u2 * B + u1;
      var first, rest := top / v1, top % v1;
      FirstFits(u2, u1, v1);
      FirstGuess(top, u0, v1, v0, first, rest);
      guess := RefineGuess(top, u0, v1, v0, first, rest);
    } else {
      guess := B - 1;
    }
  }

  /** So the guess is never low and at most one too high, in both branches. */
  lemma GuessIsGood(p: nat, x: nat, u2: nat, u1: nat, u0: nat, v: nat, v1: nat, v0: nat, guess: nat)
    requires Leading(p, x, u2, u1, u0, v, v1, v0)
    requires u2 < v1 ==> guess == ((u2 * B + u1) * B + u0) / (v1 * B + v0)
    requires v1 <= u2 ==> guess == B - 1
    ensures GoodGuess(x, v, guess)
  {
    var xt, vt := (u2 * B + u1) * B + u0, v1 * B + v0;
    if u2 < v1 {
      assert xt == guess * vt + xt % vt;
      if B <= guess {
        MulMono(B, guess, vt);
      }
      LeadingQuotient(p, x, xt, v, vt, guess);
    } else {
      Saturated(p, x, u2 * B + u1, u0, v, v1, v0);
    }
  }
}
