/** Left and right shifts of the big integers: whole words first, then the bits across words. */
module UintShift {
  import opened Limbs

  // ---------------------------------------------------------------- powers of two

  lemma PowersOfTwo()
    ensures Pow(2, 0) == 1 && Pow(2, 1) == 2 && Pow(2, 64) == B
  {
    assert Pow(2, 4) == 16;
    PowAdd(2, 4, 4);
    PowAdd(2, 8, 8);
    PowAdd(2, 16, 16);
    PowAdd(2, 32, 32);
  }

  lemma WordSplit(s: nat)
    requires s <= 64
    ensures Pow(2, s) * Pow(2, 64 - s) == B && 0 < Pow(2, s) <= B && 0 < Pow(2, 64 - s) <= B
  {
    PowersOfTwo();
    PowAdd(2, s, 64 - s);
    PowPositive(2, s);
    PowPositive(2, 64 - s);
    PowMono(2, s, 64);
    PowMono(2, 64 - s, 64);
  }

  lemma {:induction false} WholeWords(w: nat)
    ensures Pow(2, 64 * w) == BPow(w)
  {
    PowersOfTwo();
    if w > 0 {
      WholeWords(w - 1);
      PowAdd(2, 64, 64 * (w - 1));
      BPowNext(w - 1);
    }
  }

  lemma ShiftAmount(shift: nat)
    ensures Pow(2, shift) == BPow(shift / 64) * Pow(2, shift % 64)
  {
    WholeWords(shift / 64);
    PowAdd(2, 64 * (shift / 64), shift % 64);
  }

  /** A word shifted left, as the product with `2^s` cut to the word. */
  function WordShl(w: nat, s: nat): nat {
    (w * Pow(2, s)) % B
  }

  /** A word shifted right. */
  function WordShr(w: nat, s: nat): nat {
    PowPositive(2, s);
    w / Pow(2, s)
  }

  lemma DivDiv(n: nat, a: nat, b: nat)
    requires 0 < a && 0 < b
    ensures 0 < a * b && (n / a) / b == n / (a * b)
  {
    MulStrict(0, a, b);
    NestedQuotient(n, a, b, n / a, n % a, (n / a) / b, (n / a) % b);
  }

  lemma NestedQuotient(n: nat, a: nat, b: nat, q: nat, r: nat, q': nat, r': nat)
    requires 0 < a && 0 < b && n == q * a + r && r < a && q == q' * b + r' && r' < b
    ensures 0 < a * b && n / (a * b) == q'
  {
    MulStrict(r', b, a);
    var rest := r' * a + r;
    assert n == q' * (a * b) + rest by {
      Distribute(a, q' * b, r');
      Assoc(q', b, a);
    }
    DivUnique(n, a * b, q', rest);
  }

  // ---------------------------------------------------------------- right

  /** One word moved down, with the bits of the word `above` on top. */
  function ShrWord(y: nat, above: nat, d: nat, e: nat): nat
    requires 0 < d
  {
    y / d + (above * e) % B
  }

  /** The words of `y` moved down by `s` bits. */
  function ShrBits(y: seq<nat>, s: nat): (r: seq<nat>)
    requires s < 64
    ensures |r| == |y|
  {
    PowPositive(2, s);
    seq(|y|, k requires 0 <= k < |y| =>
      ShrWord(y[k], if s > 0 && k + 1 < |y| then y[k + 1] else 0, Pow(2, s), Pow(2, 64 - s)))
  }

  lemma ShrHead(y: seq<nat>, s: nat)
    requires s < 64 && y != []
    ensures 0 < Pow(2, s)
    ensures ShrBits(y, s)[0] == ShrWord(y[0], if s > 0 && 1 < |y| then y[1] else 0, Pow(2, s), Pow(2, 64 - s))
    ensures ShrBits(y, s)[1..] == ShrBits(y[1..], s)
  {
    hide ShrWord, Pow;
    PowPositive(2, s);
  }

  lemma ScaledRemainder(d: nat, e: nat, q: nat, m: nat, r: nat)
    requires d * e == B && r == d * q + m
    ensures e * m + B * q == e * r
  {
    Distribute(e, d * q, m);
    Assoc(e, d, q);
  }

  lemma WholeWordsAbove(d: nat, e: nat, y: nat, rest: nat)
    requires d * e == B && 0 < d
    ensures (y + B * rest) / d == y / d + e * rest && (y + B * rest) % d == y % d
  {
    assert B * rest == (e * rest) * d by { Assoc(d, e, rest); }
    DivOfSum(y, e * rest, d);
  }

  /** The bits that come down from the next word. */
  lemma BitsFromAbove(d: nat, e: nat, y1: nat, rest: nat, r: nat)
    requires d * e == B && 0 < d && 0 < e && r == y1 + B * rest
    ensures (y1 * e) % B + B * (r / d) == e * r
  {
    DivCancel(y1, d, e);
    WholeWordsAbove(d, e, y1, rest);
    var q, m := r / d, r % d;
    DivisionIs(r, d, q, m);
    ScaledRemainder(d, e, q, m, r);
  }

  lemma DivisionIs(r: nat, d: nat, q: nat, m: nat)
    requires 0 < d && q == r / d && m == r % d
    ensures r == d * q + m
  {
  }

  lemma ShrOneWord(d: nat, e: nat, y0: nat, r: nat)
    requires d * e == B && 0 < d
    ensures (y0 + B * r) / d == y0 / d + e * r
  {
    assert B * r == (e * r) * d by { Assoc(d, e, r); }
    DivOfSum(y0, e * r, d);
  }

  lemma ShrFits(d: nat, e: nat, y0: nat, y1: nat)
    requires d * e == B && 0 < d && 0 < e && y0 < B
    ensures y0 / d + (y1 * e) % B < B && y0 / d < e
  {
    DivCancel(y1, d, e);
    assert y0 == (y0 / d) * d + y0 % d;
    if e <= y0 / d {
      MulMono(e, y0 / d, d);
    }
    MulMono(y1 % d, d - 1, e);
    Distribute(e, d, -1);
  }

  lemma ShrNothing(y: seq<nat>)
    requires Fits(y)
    ensures ShrBits(y, 0) == y
  {
    assert Pow(2, 0) == 1;
    assert forall k :: 0 <= k < |y| ==> ShrWord(y[k], 0, 1, Pow(2, 64)) == y[k];
  }

  lemma ConsFits(s: seq<nat>)
    requires s != [] && s[0] < B && Fits(s[1..])
    ensures Fits(s)
  {
    assert forall k :: 0 < k < |s| ==> s[k] == s[1..][k - 1];
  }

  lemma {:induction false} ShrBitsValue(y: seq<nat>, s: nat)
    requires Fits(y) && s < 64
    ensures 0 < Pow(2, s) && Fits(ShrBits(y, s)) && Val(ShrBits(y, s)) == Val(y) / Pow(2, s)
  {
    hide Pow, Val, ShrBits;
    WordSplit(s);
    var d, e := Pow(2, s), Pow(2, 64 - s);
    var r := ShrBits(y, s);
    if s == 0 {
      PowersOfTwo();
      ShrNothing(y);
    } else if y == [] {
      ValZero(y);
      DivOfSum(0, 0, d);
    } else {
      ShrBitsValue(y[1..], s);
      ShrHead(y, s);
      ValHead(y);
      ValHead(r);
      var above, rest := if 1 < |y| then y[1] else 0, Val(y[1..]);
      ShrOneWord(d, e, y[0], rest);
      ShrFits(d, e, y[0], above);
      ConsFits(r);
      if 1 < |y| {
        ValHead(y[1..]);
        BitsFromAbove(d, e, above, Val(y[1..][1..]), rest);
      } else {
        ValZero(y[1..]);
        BitsFromAbove(d, e, 0, 0, 0);
      }
    }
  }

  lemma DropWords(x: seq<nat>, w: nat)
    requires Fits(x) && w <= |x|
    ensures Val(x[w..]) == Val(x) / BPow(w)
  {
    hide Val, BPow;
    ValSplit(x, w);
    ValBound(x[..w]);
    ShiftIsMul(Val(x[w..]), w);
    DivUnique(Val(x), BPow(w), Val(x[w..]), Val(x[..w]));
  }

  lemma DivZero(n: nat, d: nat)
    requires n < d
    ensures n / d == 0 && n % d == n
  {
    DivUnique(n, d, 0, n);
  }

  lemma AppendZeros(s: seq<nat>, w: nat)
    ensures Val(s + seq(w, _ => 0)) == Val(s)
  {
    var z: seq<nat> := seq(w, _ => 0);
    ValConcat(s, z);
    ValZero(z);
    ShiftMono(0, 0, |s|);
  }

  /** What the two loops of `Shr` leave in each word. */
  ghost predicate ShrShape(x: seq<nat>, w: nat, s: nat, r: seq<nat>)
    requires |r| == |x| && s < 64
  {
    forall k :: 0 <= k < |r| ==>
      r[k] == (if k < |x| - w then WordShr(x[k + w], s) else 0)
              + (if s > 0 && k < |x| - w - 1 then WordShl(x[k + w + 1], 64 - s) else 0)
  }

  lemma ShrAssemble(x: seq<nat>, w: nat, s: nat, r: seq<nat>)
    requires Fits(x) && w <= |x| == |r| && s < 64 && ShrShape(x, w, s, r)
    ensures r == ShrBits(x[w..], s) + seq(w, _ => 0)
  {
    hide Pow;
  }

  lemma ShrResult(x: seq<nat>, shift: nat, r: seq<nat>)
    requires Fits(x) && |r| == |x| && ShrShape(x, shift / 64, shift % 64, r)
    ensures Fits(r) && 0 < Pow(2, shift) && Val(r) == Val(x) / Pow(2, shift)
  {
    var w, s := shift / 64, shift % 64;
    if |x| < w { assert AllZero(r); }
    hide Val, Pow, BPow, ShrBits, ShrShape;
    PowPositive(2, shift);
    PowPositive(2, s);
    ShiftAmount(shift);
    if w <= |x| {
      ShrAssemble(x, w, s, r);
      ShrBitsValue(x[w..], s);
      AppendZeros(ShrBits(x[w..], s), w);
      DropWords(x, w);
      DivDiv(Val(x), BPow(w), Pow(2, s));
    } else {
      ValZero(r);
      TooFar(x, w, s);
    }
  }

  /** `Shr`: the quotient by a power of two. */
  method ShiftRight(x: seq<nat>, shift: nat) returns (r: seq<nat>)
    requires Fits(x)
    ensures |r| == |x| && Fits(r) && 0 < Pow(2, shift) && Val(r) == Val(x) / Pow(2, shift)
  {
    hide Val, Pow, WordShl, WordShr;
    var n := |x|;
    var w, s := shift / 64, shift % 64;
    var ret := new nat[n](_ => 0);
    for i := w to if w < n then n else w
      invariant forall k :: 0 <= k < n ==> ret[k] == if k < i - w then WordShr(x[k + w], s) else 0
    {
      ret[i - w] := WordShr(x[i], s);
    }
    if s > 0 {
      for i := w + 1 to if w < n then n else w + 1
        invariant forall k :: 0 <= k < n ==>
          ret[k] == (if k < n - w then WordShr(x[k + w], s) else 0)
                    + (if k < i - w - 1 then WordShl(x[k + w + 1], 64 - s) else 0)
      {
        ret[i - w - 1] := ret[i - w - 1] + WordShl(x[i], 64 - s);
      }
    }
    r := ret[..];
    ShrResult(x, shift, r);
  }

  lemma TooFar(x: seq<nat>, w: nat, s: nat)
    requires Fits(x) && |x| <= w
    ensures 0 < BPow(w) * Pow(2, s) && Val(x) / (BPow(w) * Pow(2, s)) == 0
  {
    hide Val, Pow, BPow;
    ValBound(x);
    WholeWords(|x|);
    WholeWords(w);
    PowMono(2, 64 * |x|, 64 * w);
    PowPositive(2, s);
    MulMono(1, Pow(2, s), BPow(w));
    DivZero(Val(x), BPow(w) * Pow(2, s));
  }

  // ---------------------------------------------------------------- left

  /** One word moved up, with `c` from the word below. */
  function ShlWord(y: nat, d: nat, c: nat): nat {
    (y * d) % B + c
  }

  /** The words of `y` moved up by `s` bits, with `c` below the lowest word. */
  function ShlBits(y: seq<nat>, s: nat, c: nat): (r: seq<nat>)
    requires s < 64
    ensures |r| == |y|
  {
    PowPositive(2, 64 - s);
    seq(|y|, k requires 0 <= k < |y| => ShlWord(y[k], Pow(2, s), if k == 0 then c else y[k - 1] / Pow(2, 64 - s)))
  }

  lemma ShlHead(y: seq<nat>, s: nat, c: nat)
    requires s < 64 && y != []
    ensures 0 < Pow(2, 64 - s)
    ensures ShlBits(y, s, c)[0] == ShlWord(y[0], Pow(2, s), c)
    ensures ShlBits(y, s, c)[1..] == ShlBits(y[1..], s, y[0] / Pow(2, 64 - s))
  {
    hide ShlWord, Pow;
    PowPositive(2, 64 - s);
  }

  lemma ShlOneWord(d: nat, e: nat, y0: nat, c: nat)
    requires d * e == B && 0 < d && 0 < e && y0 < B && c < d
    ensures (y0 * d) % B + c < B && y0 / e < d
    ensures y0 * d + c == ((y0 * d) % B + c) + B * (y0 / e)
  {
    DivCancel(y0, e, d);
    assert y0 == (y0 / e) * e + y0 % e;
    if d <= y0 / e {
      MulMono(d, y0 / e, e);
    }
    MulMono(y0 % e, e - 1, d);
    Distribute(d, e, -1);
  }

  lemma ModHead(low: nat, m: nat, k: nat)
    requires low < B
    ensures (low + B * m) % BPow(k + 1) == low + B * (m % BPow(k))
  {
    hide BPow;
    BPowNext(k);
    var p := BPow(k);
    var q, r := m / p, m % p;
    assert m == q * p + r;
    assert low + B * m == q * (B * p) + (low + B * r) by { Assoc(q, B, p); }
    DivUnique(low + B * m, B * p, q, low + B * r);
  }

  lemma {:induction false} ShlBitsValue(y: seq<nat>, s: nat, c: nat)
    requires Fits(y) && s < 64 && c < Pow(2, s)
    ensures Fits(ShlBits(y, s, c)) && Val(ShlBits(y, s, c)) == (Val(y) * Pow(2, s) + c) % BPow(|y|)
  {
    hide Pow, BPow, Val, ShlBits;
    WordSplit(s);
    var d, e := Pow(2, s), Pow(2, 64 - s);
    var r := ShlBits(y, s, c);
    if y == [] {
      NoShift();
      ValZero(r);
    } else {
      ShlOneWord(d, e, y[0], c);
      ShlBitsValue(y[1..], s, y[0] / e);
      ShlHead(y, s, c);
      ValHead(y);
      ValHead(r);
      ConsFits(r);
      ShlCombine(y[0], Val(y[1..]), d, c, r[0], y[0] / e, Val(r[1..]), |y|);
    }
  }

  lemma ShlCombine(y0: nat, rest: nat, d: nat, c: nat, low: nat, high: nat, tail: nat, n: nat)
    requires 0 < n && low < B && y0 * d + c == low + B * high && tail == (rest * d + high) % BPow(n - 1)
    ensures low + B * tail == ((y0 + B * rest) * d + c) % BPow(n)
  {
    hide BPow;
    ModHead(low, rest * d + high, n - 1);
    Distribute(d, y0, B * rest);
  }

  lemma NoShift()
    ensures BPow(0) == 1
  {
  }

  lemma LeftWords(x: seq<nat>, w: nat, d: nat)
    requires w <= |x|
    ensures Shift((Val(x[..|x| - w]) * d) % BPow(|x| - w), w) == (Val(x) * (BPow(w) * d)) % BPow(|x|)
  {
    hide Val, BPow, Shift;
    var k := |x| - w;
    var low, high, p := Val(x[..k]), Val(x[k..]), BPow(k);
    ValSplit(x, k);
    ShiftIsMul(high, k);
    assert Val(x) * d == low * d + (high * d) * p by {
      Distribute(d, low, high * p);
      Assoc(d, high, p);
    }
    DivOfSum(low * d, high * d, p);
    DivCancel(Val(x) * d, p, BPow(w));
    ShiftIsMul((low * d) % p, w);
    assert BPow(w) * p == BPow(|x|) by {
      WholeWords(w);
      WholeWords(k);
      WholeWords(|x|);
      PowAdd(2, 64 * w, 64 * k);
    }
    assert BPow(w) * (Val(x) * d) == Val(x) * (BPow(w) * d) by {
      Assoc(BPow(w), Val(x), d);
      Assoc(Val(x), BPow(w), d);
    }
  }

  lemma PrependZeros(s: seq<nat>, w: nat)
    ensures Val(seq(w, _ => 0) + s) == Shift(Val(s), w)
  {
    var z: seq<nat> := seq(w, _ => 0);
    ValConcat(z, s);
    ValZero(z);
  }

  /** What the two loops of `Shl` leave in each word. */
  ghost predicate ShlShape(x: seq<nat>, w: nat, s: nat, r: seq<nat>)
    requires |r| == |x| && s < 64
  {
    forall k :: 0 <= k < |r| ==>
      r[k] == (if w <= k then WordShl(x[k - w], s) else 0)
              + (if s > 0 && w < k then WordShr(x[k - 1 - w], 64 - s) else 0)
  }

  lemma ShlAssemble(x: seq<nat>, w: nat, s: nat, r: seq<nat>)
    requires Fits(x) && w <= |x| == |r| && s < 64 && ShlShape(x, w, s, r)
    ensures r == seq(w, _ => 0) + ShlBits(x[..|x| - w], s, 0)
  {
    hide Pow;
    if s == 0 {
      PowersOfTwo();
      forall k | 0 <= k < |x| ensures x[k] / Pow(2, 64) == 0 { DivZero(x[k], B); }
    }
  }

  /** `Shl`: the product with a power of two, cut to the width. */
  method ShiftLeft(x: seq<nat>, shift: nat) returns (r: seq<nat>)
    requires Fits(x)
    ensures |r| == |x| && Fits(r) && Val(r) == (Val(x) * Pow(2, shift)) % BPow(|x|)
  {
    hide Val, Pow, BPow, Shift, WordShl, WordShr;
    var n := |x|;
    var w, s := shift / 64, shift % 64;
    var ret := new nat[n](_ => 0);
    for i := w to if w < n then n else w
      invariant forall k :: 0 <= k < n ==> ret[k] == if w <= k < i then WordShl(x[k - w], s) else 0
    {
      ret[i] := WordShl(x[i - w], s);
    }
    if s > 0 {
      for i := w + 1 to if w < n then n else w + 1
        invariant forall k :: 0 <= k < n ==>
          ret[k] == (if w <= k then WordShl(x[k - w], s) else 0)
                    + (if w < k < i then WordShr(x[k - 1 - w], 64 - s) else 0)
      {
        ret[i] := ret[i] + WordShr(x[i - 1 - w], 64 - s);
      }
    }
    r := ret[..];
    ShlResult(x, shift, r);
  }

  lemma ShlResult(x: seq<nat>, shift: nat, r: seq<nat>)
    requires Fits(x) && |r| == |x| && ShlShape(x, shift / 64, shift % 64, r)
    ensures Fits(r) && Val(r) == (Val(x) * Pow(2, shift)) % BPow(|x|)
  {
    var w, s := shift / 64, shift % 64;
    if |x| < w { assert AllZero(r); }
    hide Val, Pow, BPow, Shift, ShlBits, ShlShape;
    ShiftAmount(shift);
    if w <= |x| {
      ShlAssemble(x, w, s, r);
      var y := x[..|x| - w];
      PowPositive(2, s);
      ShlBitsValue(y, s, 0);
      PrependZeros(ShlBits(y, s, 0), w);
      LeftWords(x, w, Pow(2, s));
    } else {
      ValZero(r);
      AllShiftedOut(x, w, Pow(2, s));
    }
  }

  lemma AllShiftedOut(x: seq<nat>, w: nat, d: nat)
    requires |x| <= w
    ensures (Val(x) * (BPow(w) * d)) % BPow(|x|) == 0
  {
    hide Val, BPow, Shift;
    var p := BPow(|x|);
    assert BPow(w) == p * BPow(w - |x|) by {
      WholeWords(w);
      WholeWords(|x|);
      WholeWords(w - |x|);
      PowAdd(2, 64 * |x|, 64 * (w - |x|));
    }
    var k := Val(x) * (BPow(w - |x|) * d);
    assert Val(x) * (BPow(w) * d) == k * p by {
      Assoc(p, BPow(w - |x|), d);
      Assoc(p, Val(x), BPow(w - |x|) * d);
      Assoc(Val(x), p, BPow(w - |x|) * d);
    }
    DivOfSum(0, k, p);
  }
}
