/** Powers of the big integers by repeated squaring: `overflowing_pow`, and `pow`, which reduces an odd
    exponent by clearing the wrong bit. */
module UintPow {
  import opened Common
  import opened Limbs
  import opened UintShift
  import opened UintDiv
  import opened UintDivMod
  import opened UintMul

  // ---------------------------------------------------------------- arithmetic of powers

  lemma {:induction false} PowOfSquare(x: nat, k: nat)
    ensures Pow(x * x, k) == Pow(x, 2 * k)
  {
    if k > 0 {
      PowOfSquare(x, k - 1);
      assert Pow(x, 2 * k) == x * Pow(x, 2 * k - 1) == x * (x * Pow(x, 2 * (k - 1)));
      Assoc(x, x, Pow(x, 2 * (k - 1)));
    }
  }

  lemma SmallPowers(x: nat)
    ensures Pow(x, 0) == 1 && Pow(x, 1) == x && Pow(x, 2) == x * x
  {
    assert Pow(x, 1) == x * Pow(x, 0);
    assert Pow(x, 2) == x * Pow(x, 1);
  }

  lemma {:induction false} PowOfZeroOne(k: nat)
    requires 0 < k
    ensures Pow(0, k) == 0 && Pow(1, k) == 1
  {
    if k > 1 {
      PowOfZeroOne(k - 1);
    }
  }

  lemma {:induction false} PowBaseMono(a: nat, b: nat, k: nat)
    requires a <= b
    ensures Pow(a, k) <= Pow(b, k)
  {
    if k > 0 {
      PowBaseMono(a, b, k - 1);
      MulMono(a, b, Pow(a, k - 1));
      MulMono(Pow(a, k - 1), Pow(b, k - 1), b);
    }
  }

  lemma {:induction false} PowExceeds(k: nat)
    ensures k < Pow(2, k)
  {
    if k > 0 {
      PowExceeds(k - 1);
    }
  }

  /** Squaring the base and halving an even exponent. */
  lemma EvenStep(x: nat, y: nat, n: nat, goal: nat)
    requires n % 2 == 0 && Pow(x, n) * y == goal
    ensures Pow(x * x, n / 2) * y == goal
  {
    hide Pow;
    PowOfSquare(x, n / 2);
  }

  /** Moving one factor out, squaring the base and halving an odd exponent. */
  lemma OddStep(x: nat, y: nat, n: nat, goal: nat)
    requires n % 2 == 1 && Pow(x, n) * y == goal
    ensures Pow(x * x, n / 2) * (x * y) == goal
  {
    hide Pow;
    var k := n / 2;
    PowOfSquare(x, k);
    PowAdd(x, 2 * k, 1);
    SmallPowers(x);
    Assoc(Pow(x, 2 * k), x, y);
  }

  /** A product that occurs in a power cannot exceed it. */
  lemma FactorsBelow(x: nat, y: nat, n: nat, goal: nat)
    requires 1 <= n && Pow(x, n) * y == goal && (x == 0 || 0 < y)
    ensures x * y <= goal && (2 <= n ==> x * x <= goal)
  {
    hide Pow;
    if x > 0 {
      SmallPowers(x);
      PowMono(x, 1, n);
      MulMono(x, Pow(x, n), y);
      if 2 <= n {
        PowMono(x, 2, n);
        MulMono(1, y, Pow(x, n));
      }
    }
  }

  lemma MulModulo(x: nat, y: nat, m: nat)
    requires 0 < m
    ensures ((x % m) * (y % m)) % m == (x * y) % m
  {
    MulCongruent(x, y, x / m, y / m, x % m, y % m, m);
  }

  lemma MulCongruent(x: nat, y: nat, p: nat, q: nat, a: nat, b: nat, m: nat)
    requires 0 < m && x == p * m + a && y == q * m + b
    ensures (a * b) % m == (x * y) % m
  {
    Expand(p, q, a, b, m, y);
    DivOfSum(a * b, p * y + a * q, m);
  }

  lemma Expand(p: nat, q: nat, a: nat, b: nat, m: nat, y: nat)
    requires y == q * m + b
    ensures (p * m + a) * y == a * b + (p * y + a * q) * m
  {
    assert (p * m + a) * y == (p * m) * y + a * y;
    assert a * y == a * (q * m) + a * b;
    assert (p * y + a * q) * m == (p * y) * m + (a * q) * m;
    Assoc(a, q, m);
    Assoc(p, m, y);
    Assoc(p, y, m);
  }

  // ---------------------------------------------------------------- words

  function One(n: nat): (r: seq<nat>)
    requires 0 < n
    ensures |r| == n && Fits(r)
  {
    [1] + seq(n - 1, _ => 0)
  }

  lemma OneValue(n: nat)
    requires 0 < n
    ensures Val(One(n)) == 1 && 1 < BPow(n)
  {
    hide Val, BPow;
    AppendZeros([1], n - 1);
    OneWord(1);
    BPowMono(1, n);
    WholeWords(1);
    PowersOfTwo();
  }

  predicate IsEven(x: seq<nat>)
    requires x != []
  {
    x[0] % 2 == 0
  }

  lemma Parity(x: seq<nat>)
    requires x != []
    ensures IsEven(x) <==> Val(x) % 2 == 0
  {
    hide Val;
    ValHead(x);
  }

  // ---------------------------------------------------------------- overflowing_pow

  /** The state of the squaring loop: `x` and `y` hold `X` and `Y` cut to the width, `overflow` is set
      only when the power cannot fit, and clear only while nothing has been cut. */
  ghost predicate Squaring(m: nat, x: nat, y: nat, n: nat, overflow: bool, X: nat, Y: nat, goal: nat) {
    && 0 < m && 1 <= n && x == X % m && y == Y % m
    && Pow(X, n) * Y == goal && (X == 0 || 0 < Y)
    && (overflow ==> m <= goal)
    && (!overflow ==> X < m && Y < m)
  }

  lemma SquareEven(m: nat, x: nat, y: nat, n: nat, overflow: bool, X: nat, Y: nat, goal: nat, over1: bool)
    requires Squaring(m, x, y, n, overflow, X, Y, goal) && 1 < n && n % 2 == 0 && over1 == (m <= x * x)
    ensures Squaring(m, (x * x) % m, y, n / 2, overflow || over1, X * X, Y, goal)
  {
    hide Pow;
    EvenStep(X, Y, n, goal);
    FactorsBelow(X, Y, n, goal);
    MulModulo(X, X, m);
    if !overflow { DivZero(X, m); }
  }

  lemma SquareOdd(m: nat, x: nat, y: nat, n: nat, overflow: bool, X: nat, Y: nat, goal: nat, over1: bool, over2: bool)
    requires Squaring(m, x, y, n, overflow, X, Y, goal) && 1 < n && n % 2 == 1
    requires over1 == (m <= x * y) && over2 == (m <= x * x)
    ensures Squaring(m, (x * x) % m, (x * y) % m, n / 2, overflow || over1 || over2, X * X, X * Y, goal)
  {
    hide Pow;
    OddStep(X, Y, n, goal);
    FactorsBelow(X, Y, n, goal);
    MulModulo(X, X, m);
    MulModulo(X, Y, m);
    if X > 0 { MulStrict(0, X, Y); }
    if !overflow {
      DivZero(X, m);
      DivZero(Y, m);
    }
  }

  lemma SquareLast(m: nat, x: nat, y: nat, overflow: bool, X: nat, Y: nat, goal: nat, over1: bool)
    requires Squaring(m, x, y, 1, overflow, X, Y, goal) && over1 == (m <= x * y)
    ensures (x * y) % m == goal % m && ((overflow || over1) <==> m <= goal)
  {
    hide Pow;
    SmallPowers(X);
    MulModulo(X, Y, m);
    if !overflow {
      DivZero(X, m);
      DivZero(Y, m);
    }
  }

  /** `n - 1` for an odd number, shifted right by one. */
  method HalveOdd(n: seq<nat>) returns (r: seq<nat>)
    requires Fits(n) && n != [] && Val(n) % 2 == 1
    ensures |r| == |n| && Fits(r) && Val(r) == Val(n) / 2
  {
    hide Val, BPow, Pow;
    OneValue(|n|);
    var less, borrow := OverflowingSub(n, One(|n|));
    ValBound(less);
    assert !borrow;
    PowersOfTwo();
    r := ShiftRight(less, 1);
  }

  /** `overflowing_pow`: the power cut to the width, flagged exactly when it does not fit. */
  method OverflowingPow(base: seq<nat>, expon: seq<nat>, skip: bool) returns (r: seq<nat>, overflow: bool)
    requires Fits(base) && Fits(expon) && |base| == |expon| > 0
    ensures |r| == |base| && Fits(r) && Val(r) == Pow(Val(base), Val(expon)) % BPow(|base|)
    ensures overflow <==> BPow(|base|) <= Pow(Val(base), Val(expon))
  {
    hide Val, BPow, Pow, Squaring;
    var one := One(|base|);
    OneValue(|base|);
    ghost var m, goal := BPow(|base|), Pow(Val(base), Val(expon));
    var isZero := AllZeroWords(expon);
    if isZero {
      SmallPowers(Val(base));
      DivZero(1, m);
      return one, false;
    }
    var y, n, x := one, expon, base;
    overflow := false;
    ghost var X, Y := Val(base), 1;
    SquaringStarts(base, expon, m, goal);
    var more := Less(one, n);
    while more
      invariant |x| == |y| == |n| == |base| && Fits(x) && Fits(y) && Fits(n)
      invariant Squaring(m, Val(x), Val(y), Val(n), overflow, X, Y, goal)
      invariant more == (1 < Val(n))
      decreases Val(n)
    {
      Parity(n);
      PowersOfTwo();
      var overflow1: bool, overflow2: bool;
      if IsEven(n) {
        ghost var x0 := Val(x);
        x, overflow1 := OverflowingMul(x, x, skip);
        SquareEven(m, x0, Val(y), Val(n), overflow, X, Y, goal, overflow1);
        overflow := overflow || overflow1;
        X := X * X;
        n := ShiftRight(n, 1);
      } else {
        ghost var x0, y0 := Val(x), Val(y);
        y, overflow1 := OverflowingMul(x, y, skip);
        x, overflow2 := OverflowingMul(x, x, skip);
        SquareOdd(m, x0, y0, Val(n), overflow, X, Y, goal, overflow1, overflow2);
        overflow := overflow || overflow1 || overflow2;
        X, Y := X * X, X * Y;
        n := HalveOdd(n);
      }
      more := Less(one, n);
    }
    ghost var x0, y0, over0 := Val(x), Val(y), overflow;
    var over1;
    r, over1 := OverflowingMul(x, y, skip);
    overflow := overflow || over1;
    SquaringPositive(m, x0, y0, Val(n), over0, X, Y, goal);
    SquareLast(m, x0, y0, over0, X, Y, goal, over1);
  }

  lemma SquaringPositive(m: nat, x: nat, y: nat, n: nat, overflow: bool, X: nat, Y: nat, goal: nat)
    requires Squaring(m, x, y, n, overflow, X, Y, goal)
    ensures 1 <= n && 0 < m
  {
  }

  lemma SquaringStarts(base: seq<nat>, expon: seq<nat>, m: nat, goal: nat)
    requires Fits(base) && m == BPow(|base|) && 1 < m && goal == Pow(Val(base), Val(expon)) && 0 < Val(expon)
    ensures Squaring(m, Val(base), 1, Val(expon), false, Val(base), 1, goal)
  {
    hide Val, BPow, Pow;
    ValBound(base);
    DivZero(Val(base), m);
    DivZero(1, m);
  }

  /** `is_zero`. */
  method AllZeroWords(x: seq<nat>) returns (zero: bool)
    ensures zero == (Val(x) == 0)
  {
    hide Val;
    ValZero(x);
    for i := 0 to |x|
      invariant forall k :: 0 <= k < i ==> x[k] == 0
    {
      if x[i] != 0 {
        return false;
      }
    }
    return true;
  }

  // ---------------------------------------------------------------- pow

  /** The value of the highest bit of an `n`-word number. */
  function TopBit(n: nat): (t: nat)
    requires 0 < n
    ensures 0 < t
  {
    PowPositive(2, 64 * n - 1);
    Pow(2, 64 * n - 1)
  }

  /** The exponent `pow` really raises to: an odd exponent loses its highest bit instead of its lowest. */
  function PowExponent(e: nat, top: nat): nat
    requires 0 < top
  {
    if e % 2 == 0 || e < top then e else if e - top <= 1 then 3 else e - top
  }

  /** What `pow` is documented to do with a result: panic, here `None`, when it does not fit. */
  function Outcome(v: nat, m: nat): Option<nat> {
    if v < m then Some(v) else None
  }

  const HALF: nat := 0x8000_0000_0000_0000

  /** Clearing the highest bit of the highest word. */
  lemma ClearTop(n: seq<nat>)
    requires Fits(n) && n != []
    ensures var k := |n| - 1; var c := n[k := n[k] % HALF]; Fits(c) && Val(c) == Val(n) % TopBit(|n|)
  {
    hide Val, BPow, Pow, Shift;
    var k := |n| - 1;
    var w, low := n[k], n[..k];
    var c := n[k := w % HALF];
    assert n == low + [w] && c == low + [w % HALF];
    ValSnoc(low, w);
    ValSnoc(low, w % HALF);
    ShiftIsMul(w, k);
    ShiftIsMul(w % HALF, k);
    ValBound(low);
    WholeWords(k);
    PowAdd(2, 63, 64 * k);
    HalfWord(64);
    SmallPowers(2);
    CutTop(Val(low), w, HALF, BPow(k));
  }

  lemma CutTop(low: nat, w: nat, h: nat, p: nat)
    requires low < p && 0 < h && w < B
    ensures 0 < h * p && w % h < B && (low + w * p) % (h * p) == low + (w % h) * p
  {
    MulStrict(0, h, p);
    var q, r := w / h, w % h;
    assert w == q * h + r;
    MulStrict(r, h, p);
    assert low + w * p == q * (h * p) + (low + r * p) by {
      Distribute(p, q * h, r);
      Assoc(q, h, p);
    }
    DivUnique(low + w * p, h * p, q, low + r * p);
  }

  /** The exponent still to be raised to when the loop of `pow` holds `n`. */
  function Remaining(n: nat, top: nat): nat
    requires 0 < top
  {
    if n <= 1 then 1 else PowExponent(n, top)
  }

  lemma RemainingStep(n: nat, top: nat)
    requires 1 < n < 2 * top && top % 2 == 0
    ensures 2 <= Remaining(n, top)
    ensures n % 2 == 0 ==> Remaining(n, top) == 2 * Remaining(n / 2, top)
    ensures n % 2 == 1 ==> Remaining(n, top) == 2 * Remaining((n % top) / 2, top) + 1
    ensures n / 2 < n && (n % top) / 2 < n
  {
    if n < top { DivZero(n, top); } else { DivUnique(n, top, 1, n - top); }
  }

  lemma TopBitIsHalf(n: nat)
    requires 0 < n
    ensures BPow(n) == 2 * TopBit(n) && TopBit(n) % 2 == 0 && 2 <= TopBit(n)
  {
    hide BPow;
    WholeWords(n);
    assert Pow(2, 64 * n) == 2 * Pow(2, 64 * n - 1) && Pow(2, 64 * n - 1) == 2 * Pow(2, 64 * n - 2);
    PowPositive(2, 64 * n - 2);
  }

  /** The step meant to take one from an odd exponent and halve it. */
  method HalveWithoutTop(n: seq<nat>) returns (r: seq<nat>)
    requires Fits(n) && n != []
    ensures |r| == |n| && Fits(r) && Val(r) == (Val(n) % TopBit(|n|)) / 2
  {
    hide Val, TopBit, Pow;
    ClearTop(n);
    PowersOfTwo();
    r := ShiftRight(n[|n| - 1 := n[|n| - 1] % HALF], 1);
  }

  /** `pow`, for every base and exponent: the power to `PowExponent`, and a panic when that does not
      fit. */
  method Power(base: seq<nat>, expon: seq<nat>, skip: bool) returns (r: Option<seq<nat>>)
    requires Fits(base) && Fits(expon) && |base| == |expon| > 0
    ensures var v := Pow(Val(base), PowExponent(Val(expon), TopBit(|base|)));
      match r
      case None => BPow(|base|) <= v
      case Some(p) => |p| == |base| && Fits(p) && Val(p) == v
  {
    hide Val, BPow, Pow, PowExponent, Remaining, TopBit;
    var one := One(|base|);
    OneValue(|base|);
    ghost var m, top := BPow(|base|), TopBit(|base|);
    ghost var goal := Pow(Val(base), PowExponent(Val(expon), top));
    TopBitIsHalf(|base|);
    var isZero := AllZeroWords(expon);
    PowerStarts(Val(base), Val(expon), top);
    if isZero {
      return Some(one);
    }
    var y, n, x := one, expon, base;
    var more := Less(one, n);
    while more
      invariant |x| == |y| == |n| == |base| && Fits(x) && Fits(y) && Fits(n)
      invariant Pow(Val(x), Remaining(Val(n), top)) * Val(y) == goal && (Val(x) == 0 || 0 < Val(y))
      invariant more == (1 < Val(n))
      decreases Val(n)
    {
      Parity(n);
      PowersOfTwo();
      ValBound(n);
      RemainingStep(Val(n), top);
      PowerStep(m, Val(x), Val(y), Remaining(Val(n), top), goal);
      var overflow: bool, overflow': bool;
      if IsEven(n) {
        x, overflow := OverflowingMul(x, x, skip);
        if overflow { return None; }
        n := ShiftRight(n, 1);
      } else {
        y, overflow := OverflowingMul(x, y, skip);
        if overflow { return None; }
        x, overflow' := OverflowingMul(x, x, skip);
        if overflow' { return None; }
        n := HalveWithoutTop(n);
      }
      more := Less(one, n);
    }
    RemainingLast(Val(n), top);
    SmallPowers(Val(x));
    var p, overflow := OverflowingMul(x, y, skip);
    if overflow { return None; }
    DivZero(Val(x) * Val(y), m);
    return Some(p);
  }

  lemma PowerStarts(base: nat, e: nat, top: nat)
    requires 2 <= top
    ensures e == 0 ==> Pow(base, PowExponent(e, top)) == 1
    ensures e > 0 ==> Pow(base, Remaining(e, top)) * 1 == Pow(base, PowExponent(e, top))
  {
  }

  lemma RemainingLast(n: nat, top: nat)
    requires n <= 1 && 0 < top
    ensures Remaining(n, top) == 1
  {
  }

  lemma PowerStep(m: nat, x: nat, y: nat, k: nat, goal: nat)
    requires 2 <= k && Pow(x, k) * y == goal && (x == 0 || 0 < y)
    ensures x * x <= goal && x * y <= goal && (x == 0 || 0 < x * y)
    ensures k % 2 == 0 ==> Pow(x * x, k / 2) * y == goal
    ensures k % 2 == 1 ==> Pow(x * x, k / 2) * (x * y) == goal
    ensures x * x < m ==> (x * x) % m == x * x
    ensures x * y < m ==> (x * y) % m == x * y
  {
    hide Pow;
    FactorsBelow(x, y, k, goal);
    if k % 2 == 0 { EvenStep(x, y, k, goal); } else { OddStep(x, y, k, goal); }
    if x > 0 { MulStrict(0, x, y); }
    if x * x < m { DivZero(x * x, m); }
    if x * y < m { DivZero(x * y, m); }
  }

  /** `pow` does what it is documented to, unless a base above one is raised to an odd exponent with the
      highest bit set and the power it really computes fits. */
  lemma PowIsExactIff(x: nat, e: nat, n: nat)
    requires 0 < n
    ensures var m, k := BPow(n), PowExponent(e, TopBit(n));
      Outcome(Pow(x, k), m) == Outcome(Pow(x, e), m)
      <==> !(e % 2 == 1 && TopBit(n) <= e && 2 <= x && Pow(x, k) < m)
  {
    hide Pow, BPow, TopBit;
    TopBitIsHalf(n);
    if e % 2 == 1 && TopBit(n) <= e {
      if x <= 1 {
        PowOfZeroOne(e);
        PowOfZeroOne(PowExponent(e, TopBit(n)));
      } else {
        TooLarge(x, e, n);
      }
    }
  }

  /** On the exponent alone: `pow` does so for every base unless the exponent is odd with the highest bit
      set and two to the exponent it really uses fits. */
  lemma PowIsExactForAllIff(e: nat, n: nat)
    requires 0 < n
    ensures var m, k := BPow(n), PowExponent(e, TopBit(n));
      (forall x: nat :: Outcome(Pow(x, k), m) == Outcome(Pow(x, e), m))
      <==> !(e % 2 == 1 && TopBit(n) <= e && k < 64 * n)
  {
    hide Pow, BPow, TopBit, PowExponent;
    var m, k := BPow(n), PowExponent(e, TopBit(n));
    WholeWords(n);
    if e % 2 == 1 && TopBit(n) <= e && k < 64 * n {
      PowBelow(k, 64 * n);
      PowIsExactIff(2, e, n);
    } else {
      forall x: nat ensures Outcome(Pow(x, k), m) == Outcome(Pow(x, e), m) {
        PowIsExactIff(x, e, n);
        if 2 <= x && 64 * n <= k {
          PowMono(2, 64 * n, k);
          PowBaseMono(2, x, k);
        }
      }
    }
  }

  lemma PowBelow(j: nat, k: nat)
    requires j < k
    ensures Pow(2, j) < Pow(2, k)
  {
    hide Pow;
    PowMono(2, j + 1, k);
    PowDouble(j);
  }

  lemma PowDouble(j: nat)
    ensures Pow(2, j) < 2 * Pow(2, j) == Pow(2, j + 1)
  {
    PowPositive(2, j);
  }

  lemma TooLarge(x: nat, e: nat, n: nat)
    requires 0 < n && 2 <= x && TopBit(n) <= e
    ensures BPow(n) <= Pow(x, e)
  {
    hide Pow, BPow;
    PowExceeds(64 * n - 1);
    WholeWords(n);
    PowMono(2, 64 * n, e);
    PowBaseMono(2, x, e);
  }

  /** In 256 bits `2^(2^255 + 1)` comes out as 8. */
  lemma PowGivesEight()
    ensures var e := TopBit(4) + 1;
      && Outcome(Pow(2, PowExponent(e, TopBit(4))), BPow(4)) == Some(8)
      && Outcome(Pow(2, e), BPow(4)) == None
  {
    hide BPow, TopBit;
    TopBitIsHalf(4);
    TooLarge(2, TopBit(4) + 1, 4);
    BPowMono(1, 4);
    WholeWords(1);
    PowersOfTwo();
    assert Pow(2, 3) == 2 * Pow(2, 2) == 2 * (2 * Pow(2, 1));
  }
}
