/** `div_mod` of the big integers: division by one word, Knuth's Algorithm D, and the choice between
    them. */
module UintDivMod {
  import opened Limbs
  import opened Bitwise
  import opened UintShift
  import opened UintDiv

  // ---------------------------------------------------------------- bits and words

  /** The zero bits above the highest one set, of a 64-bit word. */
  function LeadingZeros(w: nat): (z: nat)
    requires w < B
    ensures z <= 64 && z == 64 - BitLength(w)
  {
    WordBits(w);
    64 - BitLength(w)
  }

  lemma WordBits(w: nat)
    requires w < B
    ensures BitLength(w) <= 64
  {
    hide Pow, BitLength;
    PowersOfTwo();
    BitLengthBounds(w);
    if 64 < BitLength(w) {
      PowMono(2, 64, BitLength(w) - 1);
    }
  }

  /** The bits of a number whose highest nonzero word is `x[k]`. */
  lemma BitsAt(x: seq<nat>, k: nat)
    requires k < |x| && Fits(x) && AllZero(x[k + 1..]) && 0 < x[k]
    ensures BitLength(Val(x)) == 64 * k + BitLength(x[k])
  {
    hide Pow, BitLength, Val, BPow, Shift;
    var b := BitLength(x[k]);
    BitLengthBounds(x[k]);
    ValZeroTail(x, k + 1);
    var y := x[..k + 1];
    ValTop(y, k);
    assert y[k..] == [x[k]];
    OneWord(x[k]);
    WholeWords(k);
    PowAdd(2, 64 * k, b - 1);
    PowAdd(2, 64 * k, b);
    ShiftIsMul(x[k], k);
    ShiftIsMul(x[k] + 1, k);
    MulMono(Pow(2, b - 1), x[k], BPow(k));
    MulMono(x[k] + 1, Pow(2, b), BPow(k));
    BitLengthUnique(Val(x), 64 * k + b);
  }

  /** `bits`. */
  method Bits(x: seq<nat>) returns (b: nat)
    requires Fits(x) && x != []
    ensures b == BitLength(Val(x)) && b <= 64 * |x|
  {
    hide Pow, BitLength, Val, BPow, Shift;
    var n := |x|;
    for i := 1 to n
      invariant AllZero(x[n - i + 1..])
    {
      if x[n - i] > 0 {
        BitsAt(x, n - i);
        WordBits(x[n - i]);
        return 64 * (n - i + 1) - LeadingZeros(x[n - i]);
      }
      assert x[n - i..] == [0] + x[n - i + 1..];
    }
    WordBits(x[0]);
    if x[0] > 0 {
      BitsAt(x, 0);
    } else {
      assert x == [0] + x[1..];
      ValZero(x);
      BitLengthBounds(0);
    }
    return 64 - LeadingZeros(x[0]);
  }

  /** `words`: the least number of words for a nonzero number of that many bits. */
  function Words(bits: nat): nat
    requires bits > 0
  {
    1 + (bits - 1) / 64
  }

  lemma WordsOfBits(x: seq<nat>)
    requires Fits(x) && 0 < Val(x)
    ensures 0 < BitLength(Val(x))
    ensures var n := Words(BitLength(Val(x)));
      n <= |x| && AllZero(x[n..]) && 0 < x[n - 1] && BPow(n - 1) <= Val(x) < BPow(n)
  {
    hide Pow, BitLength, Val, BPow, Shift;
    var b := BitLength(Val(x));
    BitLengthBounds(Val(x));
    var n := Words(b);
    PowMono(2, b, 64 * n);
    PowMono(2, 64 * (n - 1), b - 1);
    WholeWords(n);
    WholeWords(n - 1);
    ValBound(x);
    if n > |x| {
      WholeWords(|x|);
      PowMono(2, 64 * |x|, 64 * (n - 1));
    }
    ValPrefix(x, n);
    TopWord(x[..n]);
  }

  lemma TopWord(x: seq<nat>)
    requires x != [] && Fits(x) && BPow(|x| - 1) <= Val(x)
    ensures 0 < x[|x| - 1]
  {
    hide Val, BPow, Shift;
    var k := |x| - 1;
    ValBound(x[..k]);
    assert x == x[..k] + [x[k]];
    ValSnoc(x[..k], x[k]);
    ShiftMono(0, x[k], k);
  }

  // ---------------------------------------------------------------- wide shifts

  lemma LowBits(x: seq<nat>, s: nat)
    requires Fits(x) && x != [] && s < 64
    ensures 0 < Pow(2, 64 - s)
    ensures (x[0] * Pow(2, s)) % B + B * (Val(x) / Pow(2, 64 - s)) == Val(x) * Pow(2, s)
  {
    hide Pow, Val;
    WordSplit(s);
    ValHead(x);
    BitsFromAbove(Pow(2, 64 - s), Pow(2, s), x[0], Val(x[1..]), Val(x));
  }

  /** `full_shl`: the whole product with a power of two below one word. */
  method FullShl(x: seq<nat>, s: nat) returns (u: array<nat>)
    requires Fits(x) && x != [] && s < 64
    ensures fresh(u) && u.Length == |x| + 1 && Fits(u[..]) && Val(u[..]) == Val(x) * Pow(2, s)
  {
    hide Pow, Val;
    LowBits(x, s);
    var high := ShiftRight(x, 64 - s);
    var words := [(x[0] * Pow(2, s)) % B] + high;
    u := new nat[|x| + 1](i requires 0 <= i < |words| => words[i]);
    assert u[..] == words && words[1..] == high;
    ConsFits(words);
    ValHead(words);
  }

  lemma FullShrResult(u: seq<nat>, s: nat, r: seq<nat>)
    requires Fits(u) && |u| == |r| + 1 && s < 64
    requires forall k :: 0 <= k < |r| ==> r[k] == WordShr(u[k], s) + (if s > 0 then WordShl(u[k + 1], 64 - s) else 0)
    ensures Fits(r) && 0 < Pow(2, s) && Val(r) == (Val(u) / Pow(2, s)) % BPow(|r|)
  {
    hide Pow, Val, Shift, BPow;
    var n := |r|;
    var all := ShrBits(u, s);
    assert all[..n] == r by {
      hide ShrBits;
      forall k | 0 <= k < n ensures all[k] == r[k] { ShrAt(u, s, k); }
    }
    ShrBitsValue(u, s);
    ValSplit(all, n);
    ValBound(r);
    ShiftIsMul(Val(all[n..]), n);
    DivUnique(Val(all), BPow(n), Val(all[n..]), Val(r));
  }

  lemma ShrAt(u: seq<nat>, s: nat, k: nat)
    requires s < 64 && k + 1 < |u|
    ensures ShrBits(u, s)[k] == WordShr(u[k], s) + (if s > 0 then WordShl(u[k + 1], 64 - s) else 0)
  {
    hide Pow;
  }

  lemma CutProduct(w: nat, d: nat, e: nat)
    requires d * e == B && 0 < d && 0 < e
    ensures (w * e) % B == (w % d) * e
  {
    DivCancel(w, d, e);
  }

  lemma JoinBits(u0: nat, u1: nat, s: nat)
    requires u0 < B && 0 < s < 64
    ensures Or(WordShr(u0, s), WordShl(u1, 64 - s)) == WordShr(u0, s) + WordShl(u1, 64 - s)
  {
    hide Pow, Or;
    WordSplit(s);
    var d, e := Pow(2, s), Pow(2, 64 - s);
    ShrFits(d, e, u0, u1);
    CutProduct(u1, d, e);
    OrDisjoint(u0 / d, u1 % d, 64 - s);
  }

  /** `full_shr`: the quotient by a power of two below one word, without the words above. */
  method FullShr(u: seq<nat>, s: nat) returns (r: seq<nat>)
    requires Fits(u) && u != [] && s < 64
    ensures |r| == |u| - 1 && Fits(r) && 0 < Pow(2, s) && Val(r) == (Val(u) / Pow(2, s)) % BPow(|r|)
  {
    hide Pow, Val, BPow, Or, WordShl, WordShr;
    var n := |u| - 1;
    var res := new nat[n](_ => 0);
    for i := 0 to n
      invariant forall k :: 0 <= k < i ==> res[k] == WordShr(u[k], s)
    {
      res[i] := WordShr(u[i], s);
    }
    if s > 0 {
      for i := 1 to n + 1
        invariant forall k :: 0 <= k < i - 1 ==> res[k] == WordShr(u[k], s) + WordShl(u[k + 1], 64 - s)
        invariant forall k :: i - 1 <= k < n ==> res[k] == WordShr(u[k], s)
      {
        JoinBits(u[i - 1], u[i], s);
        res[i - 1] := Or(res[i - 1], WordShl(u[i], 64 - s));
      }
    }
    r := res[..];
    FullShrResult(u, s, r);
  }

  // ---------------------------------------------------------------- Algorithm D

  /** Step D1 on the divisor: shifted by the leading zeros of its highest word it keeps its words. */
  lemma Normalised(v: seq<nat>, n: nat, s: nat, w: seq<nat>)
    requires 2 <= n <= |v| == |w| && Fits(v) && Fits(w) && AllZero(v[n..]) && 0 < v[n - 1]
    requires s == LeadingZeros(v[n - 1]) && Val(w) == (Val(v) * Pow(2, s)) % BPow(|v|)
    ensures s < 64 && Divisor(w, n) && Val(w[..n]) == Val(v) * Pow(2, s)
  {
    hide Pow, Val, BPow, Shift, BitLength;
    BitLengthBounds(v[n - 1]);
    NormalisedFits(v, n, s);
    BPowMono(n, |v|);
    DivZero(Val(v) * Pow(2, s), BPow(|v|));
    ValPrefix(w, n);
    NormalisedTop(v, n, s, w);
  }

  lemma NormalisedFits(v: seq<nat>, n: nat, s: nat)
    requires 2 <= n <= |v| && Fits(v) && AllZero(v[n..]) && s == LeadingZeros(v[n - 1])
    ensures Val(v) * Pow(2, s) < BPow(n)
  {
    hide Pow, Val, BPow, Shift, BitLength;
    WordSplit(s);
    BitLengthBounds(v[n - 1]);
    TopWordBounds(v, n);
    BPowNext(n - 1);
    ScaledBelowWidth(Val(v), v[n - 1], Pow(2, 64 - s), Pow(2, s), BPow(n - 1));
  }

  lemma NormalisedTop(v: seq<nat>, n: nat, s: nat, w: seq<nat>)
    requires 2 <= n <= |v| == |w| && Fits(v) && Fits(w) && AllZero(v[n..]) && AllZero(w[n..]) && 0 < v[n - 1]
    requires s == LeadingZeros(v[n - 1]) && Val(w) == Val(v) * Pow(2, s)
    ensures B <= 2 * w[n - 1]
  {
    hide Pow, Val, BPow, Shift, BitLength;
    var b := BitLength(v[n - 1]);
    BitLengthBounds(v[n - 1]);
    HalfWord(b);
    TopWordBounds(v, n);
    TopWordBounds(w, n);
    ScaledAboveHalf(Val(v), v[n - 1], Pow(2, b - 1), Pow(2, s), w[n - 1], BPow(n - 1));
  }

  lemma TopWordBounds(x: seq<nat>, n: nat)
    requires 0 < n <= |x| && Fits(x) && AllZero(x[n..])
    ensures x[n - 1] * BPow(n - 1) <= Val(x) < (x[n - 1] + 1) * BPow(n - 1)
    ensures Val(x) == Val(x[..n])
  {
    hide Val, BPow, Shift;
    ValZeroTail(x, n);
    var y := x[..n];
    ValTop(y, n - 1);
    assert y[n - 1..] == [x[n - 1]];
    OneWord(x[n - 1]);
    ShiftIsMul(x[n - 1], n - 1);
    ShiftIsMul(x[n - 1] + 1, n - 1);
  }

  lemma ScaledBelowWidth(val: nat, top: nat, e: nat, d: nat, p: nat)
    requires top < e && e * d == B && 0 < d && val < (top + 1) * p
    ensures val * d < B * p
  {
    MulMono(top + 1, e, p);
    MulStrict(val, e * p, d);
    Assoc(d, e, p);
  }

  lemma ScaledAboveHalf(val: nat, top: nat, h: nat, d: nat, top': nat, p: nat)
    requires h <= top && top * p <= val && val * d < (top' + 1) * p
    ensures h * d <= top'
  {
    MulMono(h, top, p);
    MulMono(h * p, val, d);
    Assoc(d, h, p);
    if top' < h * d {
      MulMono(top' + 1, h * d, p);
    }
  }

  lemma BPowMono(i: nat, j: nat)
    requires i <= j
    ensures BPow(i) <= BPow(j)
  {
    hide Pow, BPow;
    WholeWords(i);
    WholeWords(j);
    PowMono(2, 64 * i, 64 * j);
  }

  lemma HalfWord(b: nat)
    requires 0 < b <= 64
    ensures 2 * (Pow(2, b - 1) * Pow(2, 64 - b)) == B
  {
    WordSplit(b);
    Assoc(2, Pow(2, b - 1), Pow(2, 64 - b));
  }

  /** Step D1 on the dividend: its top `n` words start below the divisor. */
  lemma DividendBelow(x: seq<nat>, n: nat, m: nat, d: nat, v: nat, u: seq<nat>)
    requires 0 < n && n + m <= |x| && Fits(x) && AllZero(x[n + m..]) && |u| == |x| + 1 && Fits(u)
    requires Val(u) == Val(x) * d && 0 < d < B && BPow(n - 1) * d <= v
    ensures Val(u[m + 1..m + n + 1]) < v && AllZero(u[m + n + 1..])
  {
    hide Val, BPow, Shift;
    var k := n + m;
    ValZeroTail(x, k);
    ValBound(x[..k]);
    MulStrict(Val(x), BPow(k), d);
    BPowNext(k);
    MulMono(d, B, BPow(k));
    ValPrefix(u, k + 1);
    var y := u[..k + 1];
    ValTop(y, m + 1);
    assert y[m + 1..] == u[m + 1..m + n + 1];
    TopPart(Val(y[m + 1..]), d, n, m);
  }

  lemma TopPart(top: nat, d: nat, n: nat, m: nat)
    requires 0 < n && Shift(top, m + 1) < BPow(n + m) * d
    ensures top < BPow(n - 1) * d
  {
    hide Shift;
    ShiftShift(1, n - 1, m + 1);
    ShiftMul(d, Shift(1, n - 1), m + 1);
    ShiftMono(top, d * Shift(1, n - 1), m + 1);
  }

  /** Steps D1 and D8 undone: scaling both numbers scales the remainder and keeps the quotient. */
  lemma Unscale(x: nat, v: nat, d: nat, q: nat, r: nat)
    requires 0 < d && r + (v * d) * q == x * d && r < v * d
    ensures x == q * v + r / d && r / d < v
  {
    assert (v * d) * q == (v * q) * d by { Assoc(q, v, d); }
    assert v * q <= x by {
      if x < v * q { MulStrict(x, v * q, d); }
    }
    var rest := x - v * q;
    assert r == rest * d by { Distribute(d, rest, v * q); }
    DivUnique(r, d, rest, 0);
    if v <= rest { MulMono(v, rest, d); }
  }

  /** `div_mod_knuth`. */
  method DivModKnuth(x: seq<nat>, v: seq<nat>, n: nat, m: nat) returns (q: seq<nat>, r: seq<nat>)
    requires Fits(x) && Fits(v) && |x| == |v| && 2 <= n && n + m <= |x|
    requires AllZero(v[n..]) && 0 < v[n - 1] && AllZero(x[n + m..])
    ensures |q| == |r| == |x| && Fits(q) && Fits(r)
    ensures Val(x) == Val(q) * Val(v) + Val(r) && Val(r) < Val(v)
  {
    hide Val, BPow, Shift, Pow, BitLength;
    var s := LeadingZeros(v[n - 1]);
    var w := ShiftLeft(v, s);
    Normalised(v, n, s, w);
    var u := FullShl(x, s);
    ghost var d := Pow(2, s);
    ShiftBounds(v, n, s);
    DividendBelow(x, n, m, d, Val(w[..n]), u[..]);
    assert Val(u[m + 1..m + n + 1]) < Val(w[..n]) by {
      assert u[..][m + 1..m + n + 1] == u[m + 1..m + n + 1];
    }
    assert AllZero(u[m + n + 1..]) by { assert u[..][m + n + 1..] == u[m + n + 1..]; }
    var quotient := DivDigits(u, w, n, m, |x|);
    q := quotient[..];
    r := FullShr(u[..], s);
    Unscale(Val(x), Val(v), d, Val(q), Val(u[..]));
    ValBound(v);
    DivZero(Val(u[..]) / d, BPow(|x|));
  }

  lemma ShiftBounds(v: seq<nat>, n: nat, s: nat)
    requires 2 <= n <= |v| && Fits(v) && AllZero(v[n..]) && 0 < v[n - 1] && s < 64
    ensures 0 < Pow(2, s) < B && BPow(n - 1) * Pow(2, s) <= Val(v) * Pow(2, s)
  {
    hide Val, BPow, Shift, Pow;
    WordSplit(s);
    PowersOfTwo();
    PowMono(2, 1, 64 - s);
    if B <= Pow(2, s) { MulMono(2, Pow(2, 64 - s), Pow(2, s)); }
    TopWordBounds(v, n);
    MulMono(1, v[n - 1], BPow(n - 1));
    MulMono(BPow(n - 1), Val(v), Pow(2, s));
  }

  // ---------------------------------------------------------------- one word

  /** `div_mod_word`: two words by one. */
  function DivModWord(hi: nat, lo: nat, y: nat): (r: (nat, nat))
    requires hi < y < B && lo < B
    ensures hi * B + lo == r.0 * y + r.1 && r.0 < B && r.1 < y
  {
    var x := hi * B + lo;
    QuotientFits(x, y);
    (x / y, x % y)
  }

  /** One word of the dividend more, given the quotient and remainder of the words above. */
  lemma SmallStep(word: nat, above: nat, q: nat, rem: nat, y: nat)
    requires above == q * y + rem && rem < y < B && word < B
    ensures var r := DivModWord(rem, word, y); word + B * above == (r.0 + B * q) * y + r.1
  {
    var r := DivModWord(rem, word, y);
    Assoc(B, q, y);
    Distribute(y, r.0, B * q);
  }

  /** `div_mod_small`: by one word, from the highest word down, in place. */
  method DivModSmall(x: seq<nat>, y: nat) returns (q: seq<nat>, r: seq<nat>)
    requires Fits(x) && x != [] && 0 < y < B
    ensures |q| == |r| == |x| && Fits(q) && Fits(r)
    ensures Val(x) == Val(q) * y + Val(r) && Val(r) < y
  {
    hide Val, DivModWord;
    var n := |x|;
    var a := new nat[n](i requires 0 <= i < n => x[i]);
    var rem: nat, i: nat := 0, n;
    NoWordsLeft(x);
    assert a[n..] == [];
    while i > 0
      invariant i <= n && rem < y
      invariant forall k :: 0 <= k < i ==> a[k] == x[k]
      invariant Fits(a[i..])
      invariant Val(x[i..]) == Val(a[i..]) * y + rem
    {
      i := i - 1;
      ghost var above := a[i + 1..];
      var step := DivModWord(rem, a[i], y);
      SmallStep(x[i], Val(x[i + 1..]), Val(above), rem, y);
      a[i] := step.0;
      rem := step.1;
      assert a[i..] == [step.0] + above;
      assert a[i..][1..] == above && x[i..][1..] == x[i + 1..];
      ConsFits(a[i..]);
      ValHead(a[i..]);
      ValHead(x[i..]);
    }
    q := a[..];
    r := [rem] + seq(n - 1, _ => 0);
    assert x[0..] == x && a[0..] == q;
    AppendZeros([rem], n - 1);
    OneWord(rem);
  }

  lemma NoWordsLeft(x: seq<nat>)
    ensures x[|x|..] == [] && Val([]) == 0
  {
  }

  // ---------------------------------------------------------------- div_mod

  lemma OneWordNumber(x: seq<nat>)
    requires Fits(x) && x != [] && BitLength(Val(x)) <= 64
    ensures Val(x) == x[0]
  {
    hide Val, BPow, Shift, Pow, BitLength;
    BitLengthBounds(Val(x));
    PowMono(2, BitLength(Val(x)), 64);
    WholeWords(1);
    ValPrefix(x, 1);
    assert x[..1] == [x[0]];
    OneWord(x[0]);
  }

  lemma FewerBits(a: nat, b: nat)
    requires BitLength(a) < BitLength(b)
    ensures a < b
  {
    hide BitLength;
    if b <= a { BitLengthMono(b, a); }
  }

  /** `div_mod`: the exact quotient and remainder, for every dividend and every nonzero divisor.
      A zero divisor makes the original panic. */
  method DivMod(x: seq<nat>, y: seq<nat>) returns (q: seq<nat>, r: seq<nat>)
    requires Fits(x) && Fits(y) && |x| == |y| > 0 && Val(y) > 0
    ensures |q| == |r| == |x| && Fits(q) && Fits(r)
    ensures Val(q) == Val(x) / Val(y) && Val(r) == Val(x) % Val(y)
  {
    hide Val, BPow, Shift, Pow, BitLength;
    var myBits := Bits(x);
    var yourBits := Bits(y);
    WordsOfBits(y);
    if myBits < yourBits {
      FewerBits(Val(x), Val(y));
      q, r := seq(|x|, _ => 0), x;
      ValZero(q);
      DivZero(Val(x), Val(y));
      return;
    }
    if yourBits <= 64 {
      OneWordNumber(y);
      q, r := DivModSmall(x, y[0]);
    } else {
      BitLengthBounds(0);
      WordsOfBits(x);
      var n := Words(yourBits);
      var m := Words(myBits) - n;
      q, r := DivModKnuth(x, y, n, m);
    }
    DivUnique(Val(x), Val(y), Val(q), Val(r));
  }
}
