/** `integer_sqrt` of the big integers, by Newton's method. */
module UintSqrt {
  import opened Limbs
  import opened Bitwise
  import opened UintShift
  import opened UintDivMod
  import opened UintMul
  import opened UintPow

  lemma Square(a: int, b: int)
    ensures (a + b) * (a + b) == a * a + 2 * (a * b) + b * b
  {
  }

  lemma SquareMono(a: nat, b: nat)
    requires a <= b
    ensures a * a <= b * b
  {
    MulMono(a, b, a);
    MulMono(a, b, b);
  }

  /** The mean of two numbers is at least their geometric mean. */
  lemma MeanBound(x: nat, y: nat)
    ensures 4 * (x * y) <= (x + y) * (x + y)
  {
    Square(x, y);
    var d := x - y;
    Square(x, 0 - y);
    assert d * d >= 0;
  }

  /** A step from any `x` stays above the root. */
  lemma NewtonAbove(n: nat, x: nat, q: nat, next: nat)
    requires n < (q + 1) * x && next == (x + q) / 2
    ensures n < (next + 1) * (next + 1)
  {
    MeanBound(x, q + 1);
    SquareMono(x + (q + 1), 2 * (next + 1));
    var t := next + 1;
    assert (2 * t) * (2 * t) == 4 * (t * t);
    assert x * (q + 1) == (q + 1) * x;
  }

  /** A step that does not descend started at the root. */
  lemma NewtonStops(n: nat, x: nat, q: nat)
    requires q * x <= n && x <= (x + q) / 2
    ensures x * x <= n
  {
    MulMono(x, q, x);
  }

  /** The quotient is at most two above a number at or above the root. */
  lemma QuotientBound(n: nat, x: nat, q: nat)
    requires 0 < x && q * x <= n < (x + 1) * (x + 1)
    ensures q <= x + 2
  {
    Square(x, 1);
    if x + 3 <= q {
      MulMono(x + 3, q, x);
      Distribute(x, x, 3);
    }
  }

  lemma SumFits(h: nat, x: nat, q: nat)
    requires 4 <= h && x <= h && q <= x + 2
    ensures x + q < h * h
  {
    MulMono(4, h, h);
  }

  /** The first guess is a power of two above the root, and at most half the bits. */
  lemma FirstEstimate(n: nat, words: nat, shift: nat)
    requires 0 < words && 0 < n < BPow(words) && shift == (BitLength(n) + 1) / 2
    ensures var x, h := Pow(2, shift), Pow(2, 32 * words);
      && 0 < x <= h && n < x * x && h * h == BPow(words) && 4 <= h && x < BPow(words)
  {
    hide Pow, BPow, BitLength;
    BitLengthBounds(n);
    var b := BitLength(n);
    WholeWords(words);
    if 64 * words < b { PowMono(2, 64 * words, b - 1); }
    PowAdd(2, shift, shift);
    PowMono(2, b, shift + shift);
    PowAdd(2, 32 * words, 32 * words);
    PowMono(2, shift, 32 * words);
    PowPositive(2, shift);
    PowMono(2, 2, 32 * words);
    SmallPowers(2);
    MulMono(2, Pow(2, 32 * words), Pow(2, 32 * words));
  }

  /** `integer_sqrt`: the largest number whose square is not above `n`, for every `n`. */
  method IntegerSqrt(n: seq<nat>) returns (s: seq<nat>)
    requires Fits(n) && n != []
    ensures |s| == |n| && Fits(s)
    ensures Val(s) * Val(s) <= Val(n) < (Val(s) + 1) * (Val(s) + 1)
  {
    hide Val, BPow, Pow, BitLength;
    var one := One(|n|);
    OneValue(|n|);
    var large := Less(one, n);
    if !large {
      return n;
    }
    var bits := Bits(n);
    var shift := (bits + 1) / 2;
    ValBound(n);
    FirstEstimate(Val(n), |n|, shift);
    ghost var h := Pow(2, 32 * |n|);
    s := ShiftLeft(one, shift);
    DivZero(Pow(2, shift), BPow(|n|));
    SquareMono(Val(s), Val(s) + 1);
    while true
      invariant |s| == |n| && Fits(s) && 0 < Val(s) <= h
      invariant Val(n) < (Val(s) + 1) * (Val(s) + 1)
      decreases Val(s)
    {
      var q, r := DivMod(n, s);
      QuotientParts(Val(n), Val(s), Val(q));
      QuotientBound(Val(n), Val(s), Val(q));
      SumFits(h, Val(s), Val(q));
      var sum, overflow := OverflowingAdd(s, q);
      assert !overflow;
      PowersOfTwo();
      var x := ShiftRight(sum, 1);
      NewtonAbove(Val(n), Val(s), Val(q), Val(x));
      var less := Less(x, s);
      if !less {
        NewtonStops(Val(n), Val(s), Val(q));
        return;
      }
      s := x;
    }
  }

  lemma QuotientParts(n: nat, d: nat, q: nat)
    requires 0 < d && q == n / d
    ensures q * d <= n < (q + 1) * d
  {
    Distribute(d, q, 1);
  }

  /** There is only one such number. */
  lemma RootIsUnique(n: nat, s: nat, t: nat)
    requires s * s <= n < (s + 1) * (s + 1) && t * t <= n < (t + 1) * (t + 1)
    ensures s == t
  {
    if s < t { SquareMono(s + 1, t); }
    if t < s { SquareMono(t + 1, s); }
  }
}
