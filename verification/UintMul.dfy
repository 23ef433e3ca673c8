/** Addition, subtraction, comparison and full multiplication of the big integers. */
module UintMul {
  import opened Limbs
  import opened UintWords
  import opened UintDiv

  // ---------------------------------------------------------------- addition and subtraction

  /** `u64::overflowing_add`. */
  function OverflowingAddWord(x: nat, y: nat): (r: Step)
    requires x < B && y < B
    ensures r.word < B && r.word + B * Bit(r.carry) == x + y
  {
    if x + y < B then Step(x + y, false) else Step(x + y - B, true)
  }

  /** `u64::overflowing_sub`. */
  function OverflowingSubWord(x: nat, y: nat): (r: Step)
    requires x < B && y < B
    ensures r.word < B && r.word + y == x + B * Bit(r.carry)
  {
    if y <= x then Step(x - y, false) else Step(x + B - y, true)
  }

  /** `overflowing_add`: the sum cut to the width, and whether anything was cut. */
  method OverflowingAdd(a: seq<nat>, b: seq<nat>) returns (r: seq<nat>, overflow: bool)
    requires Fits(a) && Fits(b) && |a| == |b|
    ensures |r| == |a| && Fits(r)
    ensures Val(r) + (if overflow then BPow(|a|) else 0) == Val(a) + Val(b)
  {
    hide Val, BPow, AddWords, Carry, AddWord;
    r := [];
    var carry: nat := 0;
    for i := 0 to |a|
      invariant carry <= 1
      invariant AddWords(a, b, false) == r + AddWords(a[i..], b[i..], carry == 1)
      invariant Carry(a, b, false) == Carry(a[i..], b[i..], carry == 1)
    {
      AddStep(a, b, i, carry == 1, r);
      if carry != 0 {
        var one := OverflowingAddWord(a[i], b[i]);
        var two := OverflowingAddWord(one.word, carry);
        r, carry := r + [two.word], Bit(one.carry) + Bit(two.carry);
      } else {
        var one := OverflowingAddWord(a[i], b[i]);
        r, carry := r + [one.word], Bit(one.carry);
      }
    }
    assert a[|a|..] == [] && b[|a|..] == [];
    NoWords(carry == 1);
    assert r + [] == r;
    AddWordsValue(a, b, false);
    overflow := carry > 0;
  }

  /** `overflowing_sub`: the difference, with a borrow of the whole width when it is negative. */
  method OverflowingSub(a: seq<nat>, b: seq<nat>) returns (r: seq<nat>, overflow: bool)
    requires Fits(a) && Fits(b) && |a| == |b|
    ensures |r| == |a| && Fits(r)
    ensures Val(r) + Val(b) == Val(a) + (if overflow then BPow(|a|) else 0)
  {
    hide Val, BPow, SubWords, Borrow, SubWord;
    r := [];
    var carry: nat := 0;
    for i := 0 to |a|
      invariant carry <= 1
      invariant SubWords(a, b, false) == r + SubWords(a[i..], b[i..], carry == 1)
      invariant Borrow(a, b, false) == Borrow(a[i..], b[i..], carry == 1)
    {
      SubStep(a, b, i, carry == 1, r);
      if carry != 0 {
        var one := OverflowingSubWord(a[i], b[i]);
        var two := OverflowingSubWord(one.word, carry);
        r, carry := r + [two.word], Bit(one.carry) + Bit(two.carry);
      } else {
        var one := OverflowingSubWord(a[i], b[i]);
        r, carry := r + [one.word], Bit(one.carry);
      }
    }
    assert a[|a|..] == [] && b[|a|..] == [];
    NoWords(carry == 1);
    assert r + [] == r;
    SubWordsValue(a, b, false);
    overflow := carry > 0;
  }

  // ---------------------------------------------------------------- order

  lemma OrderAt(a: seq<nat>, b: seq<nat>, k: nat)
    requires Fits(a) && Fits(b) && k < |a| == |b| && a[k + 1..] == b[k + 1..] && a[k] < b[k]
    ensures Val(a) < Val(b)
  {
    hide Val, BPow, Shift;
    ValTop(a, k);
    ValTop(b, k);
    assert a[k..] == [a[k]] + a[k + 1..] && b[k..] == [b[k]] + b[k + 1..];
    ValHead(a[k..]);
    ValHead(b[k..]);
    assert a[k..][1..] == a[k + 1..] && b[k..][1..] == b[k + 1..];
    ShiftMono(Val(a[k..]) + 1, Val(b[k..]), k);
  }

  /** `cmp`: the words from the highest down decide. */
  method Less(a: seq<nat>, b: seq<nat>) returns (less: bool)
    requires Fits(a) && Fits(b) && |a| == |b|
    ensures less == (Val(a) < Val(b))
  {
    hide Val, Fits;
    var i: nat := |a|;
    while i > 0
      invariant i <= |a|
      invariant a[i..] == b[i..]
    {
      i := i - 1;
      if a[i] < b[i] {
        OrderAt(a, b, i);
        return true;
      } else if b[i] < a[i] {
        OrderAt(b, a, i);
        return false;
      }
      assert a[i..] == [a[i]] + a[i + 1..] && b[i..] == [b[i]] + b[i + 1..];
    }
    assert a[0..] == a && b[0..] == b;
    return false;
  }

  // ---------------------------------------------------------------- full multiplication

  /** The two words a product went into, and the one-bit carry out of the higher. */
  datatype Placed = Placed(low: nat, high: nat, carry: nat)

  /** One step of a row: a product, two words already there, and a carry of one bit into the higher.
      At most one of the two additions to the higher word overflows. */
  function PlaceProduct(a: nat, b: nat, x0: nat, x1: nat, carry: nat): (r: Placed)
    requires a < B && b < B && x0 < B && x1 < B && carry <= 1
    ensures r.low < B && r.high < B && r.carry <= 1
    ensures r.low + B * r.high + B * B * r.carry == a * b + x0 + B * (x1 + carry)
  {
    HighBelow(a, b);
    var p := a * b;
    var low := OverflowingAddWord(p % B, x0);
    var high0 := OverflowingAddWord(p / B + Bit(low.carry), carry);
    var high1 := OverflowingAddWord(high0.word, x1);
    Placed(low.word, high1.word, Bit(high0.carry || high1.carry))
  }

  lemma HighBelow(a: nat, b: nat)
    requires a < B && b < B
    ensures (a * b) / B <= B - 2
  {
    MulMono(a, B - 1, b);
    MulMono(b, B - 1, B - 1);
  }

  /** Replacing two words changes the number by what they changed. */
  lemma TwoWordsChanged(s: seq<nat>, k: nat, y0: nat, y1: nat)
    requires k + 1 < |s|
    ensures Val(s[k := y0][k + 1 := y1]) == Val(s) + Shift(y0 + B * y1 - s[k] - B * s[k + 1], k)
  {
    hide Val, Shift;
    var t := s[k := y0][k + 1 := y1];
    ValSlice(t, s, k, k + 2);
    assert t[k..k + 2] == [y0, y1] && s[k..k + 2] == [s[k], s[k + 1]];
    TwoWordsValue(y0, y1);
    TwoWordsValue(s[k], s[k + 1]);
  }

  lemma Move(x: int, k: nat)
    ensures Shift(x, k + 1) == Shift(B * x, k) && Shift(x, k + 2) == Shift(B * B * x, k)
  {
    ShiftShift(x, 1, k);
    ShiftShift(x, 2, k);
    assert Shift(x, 2) == B * Shift(x, 1) == B * (B * Shift(x, 0));
  }

  lemma RowGain(me: seq<nat>, j: nat, b: nat, i: nat)
    requires j < |me|
    ensures Shift(Val(me[..j + 1]) * b, i) == Shift(Val(me[..j]) * b, i) + Shift(me[j] * b, i + j)
  {
    hide Val, Shift;
    var low := Val(me[..j]);
    assert me[..j + 1] == me[..j] + [me[j]];
    ValSnoc(me[..j], me[j]);
    Distribute(b, low, Shift(me[j], j));
    ShiftMul(b, me[j], j);
    ShiftSame((low + Shift(me[j], j)) * b, low * b + Shift(me[j] * b, j), i);
    ShiftAdd(low * b, Shift(me[j] * b, j), i);
    ShiftShift(me[j] * b, j, i);
  }

  /** The change of two words, with the carry taken in and the carry given out. */
  lemma CarryMoved(k: nat, change: int, gain: int, carry: int, carry': int)
    requires change + B * B * carry' == gain + B * carry
    ensures Shift(change, k) + Shift(carry', k + 2) == Shift(gain, k) + Shift(carry, k + 1)
  {
    hide Shift;
    Move(carry, k);
    Move(carry', k);
    ShiftAdd(change, B * B * carry', k);
    ShiftAdd(gain, B * carry, k);
    ShiftSame(change + B * B * carry', gain + B * carry, k);
  }

  /** What a row has added after `j` products, with the carry still to be placed. */
  lemma RowStep(me: seq<nat>, j: nat, b: nat, i: nat, s: seq<nat>, carry: nat, y0: nat, y1: nat, carry': nat, sum: int)
    requires j < |me| && i + j + 1 < |s|
    requires y0 + B * y1 + B * B * carry' == me[j] * b + s[i + j] + B * (s[i + j + 1] + carry)
    requires Val(s) + Shift(carry, i + j + 1) == sum + Shift(Val(me[..j]) * b, i)
    ensures var t := s[i + j := y0][i + j + 1 := y1];
      Val(t) + Shift(carry', i + j + 2) == sum + Shift(Val(me[..j + 1]) * b, i)
  {
    hide Val, Shift;
    var k := i + j;
    TwoWordsChanged(s, k, y0, y1);
    CarryMoved(k, y0 + B * y1 - s[k] - B * s[k + 1], me[j] * b, carry, carry');
    RowGain(me, j, b, i);
  }

  /** The inner loop: adds `me * b`, moved up by `i` words, to `ret`. `skip` is the test that leaves
      out zero words in the eight-word type. */
  method AddRow(ret: array<nat>, me: seq<nat>, b: nat, i: nat, skip: bool) returns (carry: nat)
    requires Fits(me) && b < B && i + |me| < ret.Length && Fits(ret[..])
    modifies ret
    ensures Fits(ret[..]) && carry <= 1
    ensures Val(ret[..]) + Shift(carry, i + |me| + 1) == old(Val(ret[..])) + Shift(Val(me) * b, i)
  {
    hide Val, Shift, BPow, PlaceProduct;
    carry := 0;
    ghost var sum := Val(ret[..]);
    RowStart(me, b, i);
    for j := 0 to |me|
      invariant Fits(ret[..]) && carry <= 1
      invariant Val(ret[..]) + Shift(carry, i + j + 1) == sum + Shift(Val(me[..j]) * b, i)
    {
      ghost var before: seq<nat>, carried := ret[..], carry;
      var k := i + j;
      if !skip || me[j] != 0 || carry != 0 {
        var placed := PlaceProduct(me[j], b, ret[k], ret[k + 1], carry);
        ret[k], ret[k + 1], carry := placed.low, placed.high, placed.carry;
      }
      assert ret[..] == before[k := ret[k]][k + 1 := ret[k + 1]];
      RowStep(me, j, b, i, before, carried, ret[k], ret[k + 1], carry, sum);
    }
    assert me[..|me|] == me;
  }

  lemma RowStart(me: seq<nat>, b: nat, i: nat)
    ensures Shift(0, i + 1) == 0 && Shift(Val(me[..0]) * b, i) == 0
  {
    ShiftMono(0, 0, i + 1);
    ShiftMono(0, 0, i);
  }

  /** After a row the sum so far fits below the place of its carry, so the dropped carry is zero. */
  lemma RowCarryIsZero(me: seq<nat>, you: seq<nat>, i: nat, total: nat, carry: nat)
    requires Fits(me) && Fits(you) && i < |you|
    requires total + Shift(carry, i + |me| + 1) == Val(me) * Val(you[..i]) + Shift(Val(me) * you[i], i)
    ensures carry == 0 && total == Val(me) * Val(you[..i + 1])
  {
    hide Val, Shift, BPow;
    var k := i + |me| + 1;
    assert you[..i + 1] == you[..i] + [you[i]];
    ValSnoc(you[..i], you[i]);
    ShiftMul(Val(me), you[i], i);
    Distribute(Val(me), Val(you[..i]), Shift(you[i], i));
    ValBound(me);
    ValBound(you[..i + 1]);
    ProductBound(Val(me), |me|, Val(you[..i + 1]), i + 1);
    ShiftMono(carry, 1, k);
    ShiftMono(0, carry, k);
    BPowShift(k);
  }

  lemma BPowShift(k: nat)
    ensures BPow(k) == Shift(1, k)
  {
  }

  lemma ProductBound(a: nat, i: nat, b: nat, j: nat)
    requires a < BPow(i) && b < BPow(j)
    ensures a * b < BPow(i + j)
  {
    hide Shift, BPow;
    BPowShift(i + j);
    BPowShift(i);
    BPowShift(j);
    ShiftShift(1, i, j);
    ShiftIsMul(BPow(i), j);
    MulMono(a, BPow(i), b);
    MulStrict(b, BPow(j), BPow(i));
  }

  /** `uint_full_mul_reg`: the whole product, in twice the words. */
  method FullMul(me: seq<nat>, you: seq<nat>, skip: bool) returns (r: seq<nat>)
    requires Fits(me) && Fits(you) && |me| == |you|
    ensures |r| == 2 * |me| && Fits(r) && Val(r) == Val(me) * Val(you)
  {
    hide Val, Shift, BPow;
    var n := |me|;
    var ret := new nat[2 * n](_ => 0);
    ValZero(ret[..]);
    assert you[..0] == [];
    ValZero([]);
    for i := 0 to n
      invariant Fits(ret[..]) && Val(ret[..]) == Val(me) * Val(you[..i])
    {
      var carry := AddRow(ret, me, you[i], i, skip);
      RowCarryIsZero(me, you, i, Val(ret[..]), carry);
      assert carry == 0;
    }
    assert you[..n] == you;
    r := ret[..];
  }

  /** `overflowing_mul`: the product cut to the width, flagged exactly when it does not fit. */
  method OverflowingMul(a: seq<nat>, b: seq<nat>, skip: bool) returns (r: seq<nat>, overflow: bool)
    requires Fits(a) && Fits(b) && |a| == |b|
    ensures |r| == |a| && Fits(r) && Val(r) == (Val(a) * Val(b)) % BPow(|a|)
    ensures overflow <==> BPow(|a|) <= Val(a) * Val(b)
  {
    hide Val, Shift, BPow;
    var n := |a|;
    var all := FullMul(a, b, skip);
    r, overflow := all[..n], false;
    ValSplit(all, n);
    ValBound(r);
    ShiftIsMul(Val(all[n..]), n);
    DivUnique(Val(all), BPow(n), Val(all[n..]), Val(r));
    ValZero(all[n..]);
    ShiftMono(1, Val(all[n..]), n);
    ShiftMono(0, Val(all[n..]), n);
    BPowShift(n);
    for i := n to 2 * n
      invariant forall k :: n <= k < i ==> all[k] == 0
    {
      if all[i] != 0 {
        assert all[n..][i - n] != 0;
        return r, true;
      }
    }
  }
}
