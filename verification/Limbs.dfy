/** Numbers as little-endian sequences of words, and the arithmetic facts the word loops rest on. */
module Limbs {

  /** One more than the largest 64-bit word. */
  const B: nat := 0x1_0000_0000_0000_0000

  function Pow(b: nat, k: nat): nat {
    if k == 0 then 1 else b * Pow(b, k - 1)
  }

  /** `n` moved up by `k` words. */
  function Shift(n: int, k: nat): int {
    if k == 0 then n else B * Shift(n, k - 1)
  }

  /** `B` to the power `k`. */
  function BPow(k: nat): (p: nat)
    ensures 0 < p
  {
    ShiftMono(0, 1, k);
    Shift(1, k)
  }

  /** The number that the words `s` stand for. */
  function Val(s: seq<nat>): nat {
    if s == [] then 0 else s[0] + B * Val(s[1..])
  }

  ghost predicate Fits(s: seq<nat>) {
    forall i :: 0 <= i < |s| ==> s[i] < B
  }

  ghost predicate AllZero(s: seq<nat>) {
    forall i :: 0 <= i < |s| ==> s[i] == 0
  }

  // ---------------------------------------------------------------- products and quotients

  lemma Distribute(a: int, x: int, y: int)
    ensures a * (x + y) == a * x + a * y
  {
  }

  lemma Assoc(a: int, x: int, y: int)
    ensures a * (x * y) == (a * x) * y
  {
  }

  lemma MulMono(a: nat, b: nat, c: nat)
    requires a <= b
    ensures a * c <= b * c && c * a <= c * b
  {
  }

  lemma MulStrict(a: nat, b: nat, c: nat)
    requires a < b && 0 < c
    ensures a * c < b * c && a * c + c <= b * c
  {
    MulMono(a + 1, b, c);
  }

  /** Quotient and remainder are the only pair with these bounds. */
  lemma DivUnique(n: nat, d: nat, q: nat, r: nat)
    requires 0 < d && n == q * d + r && r < d
    ensures n / d == q && n % d == r
  {
    var q', r' := n / d, n % d;
    assert n == q' * d + r';
    if q < q' {
      MulStrict(q, q', d);
    } else if q' < q {
      MulStrict(q', q, d);
    }
  }

  lemma DivOfSum(a: nat, k: nat, d: nat)
    requires 0 < d
    ensures (a + k * d) / d == a / d + k && (a + k * d) % d == a % d
  {
    assert a + k * d == (a / d + k) * d + a % d;
    DivUnique(a + k * d, d, a / d + k, a % d);
  }

  lemma DivMono(a: nat, b: nat, d: nat)
    requires a <= b && 0 < d
    ensures a / d <= b / d
  {
    assert b == (b / d) * d + b % d && a == (a / d) * d + a % d;
    if b / d < a / d {
      MulStrict(b / d, a / d, d);
    }
  }

  /** A factor common to both sides cancels. */
  lemma QuotientFits(x: nat, y: nat)
    requires 0 < y && x < y * B
    ensures x / y < B
  {
    DivMono(x, y * B - 1, y);
    DivUnique(y * B - 1, y, B - 1, y - 1);
  }

  lemma DivCancel(a: nat, d: nat, c: nat)
    requires 0 < d && 0 < c
    ensures 0 < c * d && (c * a) / (c * d) == a / d && (c * a) % (c * d) == c * (a % d)
  {
    var q, r := a / d, a % d;
    assert a == q * d + r;
    assert c * a == q * (c * d) + c * r by {
      Distribute(c, q * d, r);
      Assoc(c, q, d);
      Assoc(q, c, d);
    }
    MulStrict(r, d, c);
    assert 0 < c * d;
    DivUnique(c * a, c * d, q, c * r);
  }

  // ---------------------------------------------------------------- powers

  lemma {:induction false} PowPositive(b: nat, k: nat)
    requires 0 < b
    ensures 0 < Pow(b, k)
  {
    if k > 0 {
      PowPositive(b, k - 1);
      MulStrict(0, b, Pow(b, k - 1));
    }
  }

  lemma {:induction false} PowAdd(b: nat, i: nat, j: nat)
    ensures Pow(b, i + j) == Pow(b, i) * Pow(b, j)
    decreases i
  {
    if i > 0 {
      PowAdd(b, i - 1, j);
      Assoc(b, Pow(b, i - 1), Pow(b, j));
    }
  }

  lemma {:induction false} PowMono(b: nat, i: nat, j: nat)
    requires 0 < b && i <= j
    ensures Pow(b, i) <= Pow(b, j)
  {
    PowAdd(b, i, j - i);
    PowPositive(b, j - i);
    MulMono(1, Pow(b, j - i), Pow(b, i));
  }

  // ---------------------------------------------------------------- moving up by words

  lemma {:induction false} ShiftAdd(x: int, y: int, k: nat)
    ensures Shift(x + y, k) == Shift(x, k) + Shift(y, k)
  {
    if k > 0 {
      ShiftAdd(x, y, k - 1);
    }
  }

  lemma {:induction false} ShiftSub(x: int, y: int, k: nat)
    ensures Shift(x - y, k) == Shift(x, k) - Shift(y, k)
  {
    if k > 0 {
      ShiftSub(x, y, k - 1);
    }
  }

  lemma ShiftSame(x: int, y: int, k: nat)
    requires x == y
    ensures Shift(x, k) == Shift(y, k)
  {
  }

  lemma BPowNext(k: nat)
    ensures BPow(k + 1) == B * BPow(k)
  {
  }

  lemma ProductBelow(a: nat, p: nat, w: nat)
    requires a < p && w < B
    ensures a * w < B * p
  {
    MulMono(w, B, a);
  }

  lemma {:induction false} ShiftMono(x: int, y: int, k: nat)
    ensures x <= y <==> Shift(x, k) <= Shift(y, k)
    ensures x < y <==> Shift(x, k) < Shift(y, k)
    ensures Shift(0, k) == 0
  {
    if k > 0 {
      ShiftMono(x, y, k - 1);
    }
  }

  lemma {:induction false} ShiftShift(x: int, i: nat, j: nat)
    ensures Shift(Shift(x, i), j) == Shift(x, i + j)
    decreases j
  {
    if j > 0 {
      ShiftShift(x, i, j - 1);
    }
  }

  lemma {:induction false} ShiftMul(x: int, y: int, k: nat)
    ensures Shift(x * y, k) == x * Shift(y, k)
  {
    if k > 0 {
      ShiftMul(x, y, k - 1);
      Assoc(x, B, Shift(y, k - 1));
    }
  }

  lemma ShiftIsMul(x: int, k: nat)
    ensures Shift(x, k) == x * BPow(k)
  {
    ShiftMul(x, 1, k);
  }

  // ---------------------------------------------------------------- words

  lemma {:induction false} ValBound(s: seq<nat>)
    requires Fits(s)
    ensures Val(s) < BPow(|s|)
  {
    if s != [] {
      ValBound(s[1..]);
    }
  }

  lemma ValHead(s: seq<nat>)
    requires s != []
    ensures Val(s) == s[0] + B * Val(s[1..])
  {
  }

  lemma {:induction false} ValConcat(a: seq<nat>, c: seq<nat>)
    ensures Val(a + c) == Val(a) + Shift(Val(c), |a|)
  {
    if a == [] {
      assert a + c == c;
    } else {
      assert (a + c)[1..] == a[1..] + c;
      ValConcat(a[1..], c);
    }
  }

  lemma ValSplit(s: seq<nat>, i: nat)
    requires i <= |s|
    ensures Val(s) == Val(s[..i]) + Shift(Val(s[i..]), i)
  {
    assert s == s[..i] + s[i..];
    ValConcat(s[..i], s[i..]);
  }

  lemma {:induction false} ValZero(s: seq<nat>)
    ensures AllZero(s) <==> Val(s) == 0
  {
    if s != [] {
      ValZero(s[1..]);
      assert forall i :: 0 < i < |s| ==> s[i] == s[1..][i - 1];
    }
  }

  /** The words below the top of a number, and its top word. */
  lemma ValSnoc(s: seq<nat>, x: nat)
    ensures Val(s + [x]) == Val(s) + Shift(x, |s|)
  {
    ValConcat(s, [x]);
  }

  lemma ValThree(s: seq<nat>, i: nat, k: nat)
    requires i <= k <= |s|
    ensures Val(s) == Val(s[..i]) + Shift(Val(s[i..k]), i) + Shift(Val(s[k..]), k)
  {
    hide Val, Shift;
    assert s == s[..k] + s[k..] && s[..k] == s[..i] + s[i..k];
    ValConcat(s[..k], s[k..]);
    ValConcat(s[..i], s[i..k]);
  }

  /** Numbers that differ only in the words from `i` to `k`. */
  lemma ValSlice(s: seq<nat>, t: seq<nat>, i: nat, k: nat)
    requires |s| == |t| && i <= k <= |s| && s[..i] == t[..i] && s[k..] == t[k..]
    ensures Val(s) - Val(t) == Shift(Val(s[i..k]) - Val(t[i..k]), i)
  {
    hide Val, Shift;
    ValThree(s, i, k);
    ValThree(t, i, k);
    ShiftSub(Val(s[i..k]), Val(t[i..k]), i);
  }

  /** A number below `B^k` has nothing but zeros from word `k` up. */
  lemma ValPrefix(s: seq<nat>, k: nat)
    requires k <= |s| && Val(s) < BPow(k)
    ensures AllZero(s[k..]) && Val(s[..k]) == Val(s)
  {
    ValSplit(s, k);
    ShiftMono(Val(s[k..]), 1, k);
    ShiftMono(0, 1, k);
    ValZero(s[k..]);
  }

  lemma ValZeroTail(s: seq<nat>, k: nat)
    requires k <= |s| && AllZero(s[k..])
    ensures Val(s) == Val(s[..k])
  {
    ValSplit(s, k);
    ValZero(s[k..]);
    ShiftMono(0, 0, k);
  }

  /** The leading words bound a number from both sides. */
  lemma ValTop(s: seq<nat>, k: nat)
    requires k <= |s| && Fits(s)
    ensures Shift(Val(s[k..]), k) <= Val(s) < Shift(Val(s[k..]) + 1, k)
  {
    hide Val, Shift;
    ValSplit(s, k);
    ValBound(s[..k]);
    ShiftAdd(Val(s[k..]), 1, k);
  }
}
