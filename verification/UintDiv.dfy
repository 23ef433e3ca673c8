/** The main loop of Knuth's Algorithm D: each round guesses a digit, multiplies and subtracts, and adds
    back when the guess was one too high. */
module UintDiv {
  import opened Limbs
  import opened KnuthDigit
  import opened UintWords

  // ---------------------------------------------------------------- one digit

  /** The divisor of Algorithm D: `n` words, normalised so that the top bit of the highest is set. */
  ghost predicate Divisor(v: seq<nat>, n: nat) {
    2 <= n <= |v| && Fits(v) && AllZero(v[n..]) && B <= 2 * v[n - 1]
  }

  lemma LeadingFromShift(k: nat, x: nat, u2: nat, u1: nat, u0: nat, v: nat, v1: nat, v0: nat)
    requires u2 < B && u1 < B && u0 < B && v1 < B && v0 < B && B <= 2 * v1 && x < B * v
    requires Shift((u2 * B + u1) * B + u0, k) <= x < Shift((u2 * B + u1) * B + u0 + 1, k)
    requires Shift(v1 * B + v0, k) <= v < Shift(v1 * B + v0 + 1, k)
    ensures Leading(BPow(k), x, u2, u1, u0, v, v1, v0)
  {
    hide Shift, BPow;
    ShiftIsMul((u2 * B + u1) * B + u0, k);
    ShiftIsMul((u2 * B + u1) * B + u0 + 1, k);
    ShiftIsMul(v1 * B + v0, k);
    ShiftIsMul(v1 * B + v0 + 1, k);
  }

  /** The three leading words of the dividend and the two of the divisor. */
  lemma LeadingWords(x: seq<nat>, v: seq<nat>, n: nat)
    requires Divisor(v, n) && |x| == n + 1 && Fits(x) && Val(x[1..]) < Val(v[..n])
    ensures Leading(BPow(n - 2), Val(x), x[n], x[n - 1], x[n - 2], Val(v[..n]), v[n - 1], v[n - 2])
  {
    hide Val, Shift, BPow;
    var d := v[..n];
    var k := n - 2;
    ValTop(x, k);
    ValTop(d, k);
    assert x[k..] == [x[n - 2], x[n - 1], x[n]] && d[k..] == [v[n - 2], v[n - 1]];
    ThreeWords(x[n - 2], x[n - 1], x[n]);
    TwoWordsValue(v[n - 2], v[n - 1]);
    ValHead(x);
    LeadingFromShift(k, Val(x), x[n], x[n - 1], x[n - 2], Val(d), v[n - 1], v[n - 2]);
  }

  lemma TwoWordsValue(a: nat, b: nat)
    ensures Val([a, b]) == b * B + a
  {
    assert [a, b][1..] == [b];
    assert Val([b]) == b + B * Val([b][1..]) == b;
  }

  lemma ThreeWords(a: nat, b: nat, c: nat)
    ensures Val([a, b, c]) == (c * B + b) * B + a
  {
    assert [a, b, c][1..] == [b, c];
    TwoWordsValue(b, c);
  }

  /** The product of the divisor and a digit fits one word more than the divisor. */
  lemma ProductFits(v: seq<nat>, n: nat, digit: nat, r: seq<nat>)
    requires Divisor(v, n) && digit < B && |r| == |v| + 1 && Fits(r) && Val(r) == Val(v) * digit
    ensures Val(r[..n + 1]) == Val(v[..n]) * digit && Fits(r[..n + 1])
  {
    hide Val, Shift, BPow;
    ValZeroTail(v, n);
    assert Val(r) < BPow(n + 1) by {
      ValBound(v[..n]);
      BPowNext(n);
      ProductBelow(Val(v[..n]), BPow(n), digit);
    }
    ValPrefix(r, n + 1);
  }

  /** Without a borrow the guess was the digit. */
  lemma DigitKept(x: seq<nat>, d: seq<nat>, product: seq<nat>, guess: nat)
    requires Fits(x) && Fits(d) && Fits(product) && |x| == |product| == |d| + 1
    requires GoodGuess(Val(x), Val(d), guess) && Val(product) == Val(d) * guess
    requires !Borrow(x, product, false)
    ensures var y := SubWords(x, product, false);
      && Val(y[..|d|]) + guess * Val(d) == Val(x) && Val(y[..|d|]) < Val(d) && y[|d|] == 0
  {
    hide Val, Shift, BPow, SubWords, Borrow;
    var y := SubWords(x, product, false);
    SubWordsValue(x, product, false);
    Distribute(Val(d), guess, 1);
    ValBound(d);
    ValPrefix(y, |d|);
    assert y[|d|] == y[|d|..][0];
  }

  /** With a borrow it was one more, and adding the divisor back overflows exactly once. */
  lemma DigitLowered(x: seq<nat>, d: seq<nat>, product: seq<nat>, guess: nat)
    requires Fits(x) && Fits(d) && Fits(product) && |x| == |product| == |d| + 1
    requires GoodGuess(Val(x), Val(d), guess) && Val(product) == Val(d) * guess
    requires Borrow(x, product, false)
    ensures var y := SubWords(x, product, false);
      && 0 < guess && |y| == |x| && Fits(y) && y[|d|] + Bit(Carry(y[..|d|], d, false)) == B
      && Val(AddWords(y[..|d|], d, false)) + (guess - 1) * Val(d) == Val(x)
      && Val(AddWords(y[..|d|], d, false)) < Val(d)
  {
    hide Val, Shift, BPow, SubWords, Borrow, AddWords, Carry;
    var n, y := |d|, SubWords(x, product, false);
    SubWordsValue(x, product, false);
    ValBound(y);
    Distribute(Val(d), guess - 1, 1);
    var rest := Val(x) + Val(d) - guess * Val(d);
    assert Val(y) + Val(d) == rest + BPow(n + 1) && 0 <= rest < Val(d);
    ValBound(d);
    AddBack(y, d, rest);
  }

  lemma AddBack(y: seq<nat>, d: seq<nat>, rest: nat)
    requires |y| == |d| + 1 && Fits(y) && Fits(d)
    requires Val(y) + Val(d) == rest + BPow(|d| + 1) && rest < BPow(|d|)
    ensures y[|d|] + Bit(Carry(y[..|d|], d, false)) == B
    ensures Val(AddWords(y[..|d|], d, false)) == rest
  {
    hide Val, Shift, AddWords, Carry, BPow;
    var n := |d|;
    var z, c := AddWords(y[..n], d, false), Carry(y[..n], d, false);
    AddWordsValue(y[..n], d, false);
    ValBound(z);
    assert y == y[..n] + [y[n]];
    ValSnoc(y[..n], y[n]);
    BPowNext(n);
    TopOverflows(n, y[n], Bit(c), Val(z), rest);
  }

  lemma TopOverflows(n: nat, top: nat, c: nat, low: nat, rest: nat)
    requires top < B && c <= 1 && low < BPow(n) && rest < BPow(n)
    requires low + Shift(top, n) + (if c == 1 then BPow(n) else 0) == rest + B * BPow(n)
    ensures top + c == B && low == rest
  {
    ShiftIsMul(top, n);
    var p := BPow(n);
    hide Shift, BPow;
    assert (top + c) * p == top * p + c * p;
    if top + c < B {
      MulMono(top + c, B - 1, p);
    }
  }

  /** Step D3: the guess from the leading words. */
  method EstimateDigit(u: array<nat>, j: nat, v: seq<nat>, n: nat) returns (guess: nat)
    requires Divisor(v, n) && j + n < u.Length && Fits(u[..]) && Val(u[j + 1..j + n + 1]) < Val(v[..n])
    ensures GoodGuess(Val(u[j..j + n + 1]), Val(v[..n]), guess) && guess < B
  {
    hide Val, Shift, BPow, Leading, GoodGuess;
    ghost var x, d := u[j..j + n + 1], v[..n];
    assert x[1..] == u[j + 1..j + n + 1];
    LeadingWords(x, v, n);
    guess := GuessDigit(u[j + n], u[j + n - 1], u[j + n - 2], v[n - 1], v[n - 2]);
    GuessIsGood(BPow(n - 2), Val(x), x[n], x[n - 1], x[n - 2], Val(d), v[n - 1], v[n - 2], guess);
    GoodGuessFits(Val(x), Val(d), guess);
  }

  /** Steps D4 and D6: replaces `u[j..j + n + 1]` by its remainder and returns the digit. */
  method DivDigit(u: array<nat>, j: nat, v: seq<nat>, n: nat) returns (digit: nat)
    requires Divisor(v, n) && j + n < u.Length && Fits(u[..]) && Val(u[j + 1..j + n + 1]) < Val(v[..n])
    modifies u
    ensures Fits(u[..]) && digit < B
    ensures forall k :: 0 <= k < u.Length && !(j <= k <= j + n) ==> u[k] == old(u[k])
    ensures Val(u[j..j + n]) + digit * Val(v[..n]) == Val(old(u[j..j + n + 1]))
    ensures Val(u[j..j + n]) < Val(v[..n]) && u[j + n] == 0
  {
    hide Val, Shift, BPow, SubWords, Borrow, AddWords, Carry, GoodGuess;
    ghost var x, d := u[j..j + n + 1], v[..n];
    var guess := EstimateDigit(u, j, v, n);
    var product := FullMulWord(v, guess);
    ProductFits(v, n, guess, product);
    var borrow := SubSlice(u, j, product[..n + 1]);
    SubWordsValue(x, product[..n + 1], false);
    ghost var y := u[j..j + n + 1];
    digit := guess;
    assert y[..n] == u[j..j + n];
    if borrow {
      DigitLowered(x, d, product[..n + 1], guess);
      digit := guess - 1;
      AddWordsValue(y[..n], d, false);
      var carry := AddSlice(u, j, v[..n]);
      u[j + n] := (u[j + n] + Bit(carry)) % B;
    } else {
      DigitKept(x, d, product[..n + 1], guess);
    }
  }

  lemma GoodGuessFits(x: nat, v: nat, guess: nat)
    requires GoodGuess(x, v, guess)
    ensures guess < B
  {
  }

  // ---------------------------------------------------------------- all digits

  lemma RemainderLoss(u: seq<nat>, u': seq<nat>, j: nat, n: nat, loss: nat)
    requires |u| == |u'| && j + n < |u| && u[..j] == u'[..j] && u[j + n + 1..] == u'[j + n + 1..] && u'[j + n] == 0
    requires Val(u'[j..j + n]) + loss == Val(u[j..j + n + 1])
    ensures Val(u) == Val(u') + Shift(loss, j)
  {
    hide Val, Shift;
    var k := j + n + 1;
    assert Val(u'[j..k]) + loss == Val(u[j..k]) by {
      assert u'[j..k] == u'[j..j + n] + [0];
      ValSnoc(u'[j..j + n], 0);
      ShiftMono(0, 0, n);
    }
    ValSlice(u, u', j, k);
    ShiftSame(Val(u[j..k]) - Val(u'[j..k]), loss, j);
  }

  lemma QuotientGain(q: seq<nat>, j: nat, digit: nat)
    requires j < |q| && q[j] == 0
    ensures Val(q[j := digit]) == Val(q) + Shift(digit, j)
  {
    hide Val, Shift;
    var q' := q[j := digit];
    ValSlice(q', q, j, j + 1);
    assert q'[j..j + 1] == [digit] && q[j..j + 1] == [0];
    OneWord(digit);
    OneWord(0);
  }

  /** One round, seen on the whole numbers: what the remainder loses is what the quotient gains. */
  lemma RoundValue(u: seq<nat>, u': seq<nat>, q: seq<nat>, j: nat, n: nat, v: nat, digit: nat)
    requires |u| == |u'| && j + n < |u| && u[..j] == u'[..j] && u[j + n + 1..] == u'[j + n + 1..] && u'[j + n] == 0
    requires Val(u'[j..j + n]) + digit * v == Val(u[j..j + n + 1])
    requires j < |q| && q[j] == 0
    ensures Val(u') + v * Val(q[j := digit]) == Val(u) + v * Val(q)
  {
    hide Val, Shift;
    RemainderLoss(u, u', j, n, v * digit);
    QuotientGain(q, j, digit);
    ShiftMul(v, digit, j);
    Distribute(v, Val(q), Shift(digit, j));
  }

  lemma OneWord(a: nat)
    ensures Val([a]) == a
  {
    assert Val([a]) == a + B * Val([a][1..]);
  }

  /** Steps D2 to D7: divides the number in `u` by the `n` words of `v`, leaving the remainder. */
  method DivDigits(u: array<nat>, v: seq<nat>, n: nat, m: nat, words: nat) returns (q: array<nat>)
    requires Divisor(v, n) && u.Length == words + 1 && n + m <= words && Fits(u[..])
    requires Val(u[m + 1..m + n + 1]) < Val(v[..n]) && AllZero(u[m + n + 1..])
    modifies u
    ensures fresh(q) && q.Length == words && Fits(q[..]) && Fits(u[..])
    ensures Val(u[..]) + Val(v[..n]) * Val(q[..]) == old(Val(u[..]))
    ensures Val(u[..]) < Val(v[..n])
  {
    hide Val, Shift, BPow;
    q := new nat[words](_ => 0);
    ghost var d := Val(v[..n]);
    ValZero(q[..]);
    var j: nat := m + 1;
    assert forall k :: m + n + 1 <= k < u.Length ==> u[k] == u[m + n + 1..][k - (m + n + 1)];
    while j > 0
      invariant j <= m + 1 && Fits(q[..]) && Fits(u[..])
      invariant Val(u[..]) + d * Val(q[..]) == old(Val(u[..]))
      invariant Val(u[j..j + n]) < d
      invariant forall k :: j + n <= k < u.Length ==> u[k] == 0
      invariant forall k :: 0 <= k < j && k < words ==> q[k] == 0
    {
      j := j - 1;
      ghost var u0, q0 := u[..], q[..];
      var digit := DivDigit(u, j, v, n);
      q[j] := digit;
      assert q[..] == q0[j := digit];
      RoundValue(u0, u[..], q0, j, n, d, digit);
    }
    ValZeroTail(u[..], n);
    assert u[..][..n] == u[0..n];
  }
}
