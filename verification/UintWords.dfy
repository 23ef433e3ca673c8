/** Word-by-word addition, subtraction and multiplication by one word: the slice helpers of the big
    integers, as functions from the least significant word up and as the in-place loops of the source. */
module UintWords {
  import opened Limbs

  /** One word and the carry or borrow out of it. */
  datatype Step = Step(word: nat, carry: bool)

  function Bit(c: bool): nat { if c then 1 else 0 }

  /** `binop_carry` with subtraction. */
  function SubWord(a: nat, b: nat, c: bool): (r: Step)
    requires a < B && b < B
    ensures r.word < B && r.word + b + Bit(c) == a + B * Bit(r.carry)
  {
    var res1 := if b + Bit(c) < B then b + Bit(c) else b + Bit(c) - B;
    var overflow1 := b + Bit(c) >= B;
    if res1 <= a then Step(a - res1, overflow1) else Step(a + B - res1, true)
  }

  /** `binop_carry` with addition. */
  function AddWord(a: nat, b: nat, c: bool): (r: Step)
    requires a < B && b < B
    ensures r.word < B && r.word + B * Bit(r.carry) == a + b + Bit(c)
  {
    var res1 := if b + Bit(c) < B then b + Bit(c) else b + Bit(c) - B;
    var overflow1 := b + Bit(c) >= B;
    if a + res1 < B then Step(a + res1, overflow1) else Step(a + res1 - B, true)
  }

  /** The words of `a - b - c`, and the borrow out of them. */
  ghost function SubWords(a: seq<nat>, b: seq<nat>, c: bool): (r: seq<nat>)
    requires Fits(a) && Fits(b) && |a| == |b|
    ensures |r| == |a|
  {
    if a == [] then [] else [SubWord(a[0], b[0], c).word] + SubWords(a[1..], b[1..], SubWord(a[0], b[0], c).carry)
  }

  ghost function Borrow(a: seq<nat>, b: seq<nat>, c: bool): bool
    requires Fits(a) && Fits(b) && |a| == |b|
  {
    if a == [] then c else Borrow(a[1..], b[1..], SubWord(a[0], b[0], c).carry)
  }

  /** The words of `a + b + c`, and the carry out of them. */
  ghost function AddWords(a: seq<nat>, b: seq<nat>, c: bool): (r: seq<nat>)
    requires Fits(a) && Fits(b) && |a| == |b|
    ensures |r| == |a|
  {
    if a == [] then [] else [AddWord(a[0], b[0], c).word] + AddWords(a[1..], b[1..], AddWord(a[0], b[0], c).carry)
  }

  ghost function Carry(a: seq<nat>, b: seq<nat>, c: bool): bool
    requires Fits(a) && Fits(b) && |a| == |b|
  {
    if a == [] then c else Carry(a[1..], b[1..], AddWord(a[0], b[0], c).carry)
  }

  lemma {:induction false} SubWordsValue(a: seq<nat>, b: seq<nat>, c: bool)
    requires Fits(a) && Fits(b) && |a| == |b|
    ensures Fits(SubWords(a, b, c))
    ensures Val(SubWords(a, b, c)) + Val(b) + Bit(c) == Val(a) + if Borrow(a, b, c) then BPow(|a|) else 0
  {
    if a != [] {
      SubWordsValue(a[1..], b[1..], SubWord(a[0], b[0], c).carry);
      assert SubWords(a, b, c)[1..] == SubWords(a[1..], b[1..], SubWord(a[0], b[0], c).carry);
    }
  }

  lemma {:induction false} AddWordsValue(a: seq<nat>, b: seq<nat>, c: bool)
    requires Fits(a) && Fits(b) && |a| == |b|
    ensures Fits(AddWords(a, b, c))
    ensures Val(AddWords(a, b, c)) + (if Carry(a, b, c) then BPow(|a|) else 0) == Val(a) + Val(b) + Bit(c)
  {
    if a != [] {
      AddWordsValue(a[1..], b[1..], AddWord(a[0], b[0], c).carry);
      assert AddWords(a, b, c)[1..] == AddWords(a[1..], b[1..], AddWord(a[0], b[0], c).carry);
    }
  }

  lemma SubStep(a: seq<nat>, b: seq<nat>, i: nat, c: bool, done: seq<nat>)
    requires Fits(a) && Fits(b) && |a| == |b| && i < |a|
    ensures var s := SubWord(a[i], b[i], c);
      && done + SubWords(a[i..], b[i..], c) == done + [s.word] + SubWords(a[i + 1..], b[i + 1..], s.carry)
      && Borrow(a[i..], b[i..], c) == Borrow(a[i + 1..], b[i + 1..], s.carry)
  {
    assert a[i..][1..] == a[i + 1..] && b[i..][1..] == b[i + 1..];
  }

  lemma AddStep(a: seq<nat>, b: seq<nat>, i: nat, c: bool, done: seq<nat>)
    requires Fits(a) && Fits(b) && |a| == |b| && i < |a|
    ensures var s := AddWord(a[i], b[i], c);
      && done + AddWords(a[i..], b[i..], c) == done + [s.word] + AddWords(a[i + 1..], b[i + 1..], s.carry)
      && Carry(a[i..], b[i..], c) == Carry(a[i + 1..], b[i + 1..], s.carry)
  {
    assert a[i..][1..] == a[i + 1..] && b[i..][1..] == b[i + 1..];
  }

  lemma NoWords(c: bool)
    ensures SubWords([], [], c) == [] && Borrow([], [], c) == c
    ensures AddWords([], [], c) == [] && Carry([], [], c) == c
  {
  }

  /** `sub_slice` on `u[lo..]`: stops at the end of `b`. */
  method SubSlice(u: array<nat>, lo: nat, b: seq<nat>) returns (borrow: bool)
    requires lo + |b| <= u.Length && Fits(u[..]) && Fits(b)
    modifies u
    ensures forall k :: 0 <= k < u.Length && !(lo <= k < lo + |b|) ==> u[k] == old(u[k])
    ensures Fits(old(u[lo..lo + |b|]))
    ensures u[lo..lo + |b|] == SubWords(old(u[lo..lo + |b|]), b, false)
    ensures borrow == Borrow(old(u[lo..lo + |b|]), b, false)
  {
    hide SubWords, Borrow, SubWord;
    ghost var a := u[lo..lo + |b|];
    borrow := false;
    for i := 0 to |b|
      invariant forall k :: 0 <= k < u.Length && !(lo <= k < lo + i) ==> u[k] == old(u[k])
      invariant SubWords(a, b, false) == u[lo..lo + i] + SubWords(a[i..], b[i..], borrow)
      invariant Borrow(a, b, false) == Borrow(a[i..], b[i..], borrow)
    {
      SubStep(a, b, i, borrow, u[lo..lo + i]);
      assert u[lo + i] == a[i];
      ghost var done := u[lo..lo + i];
      var s := SubWord(u[lo + i], b[i], borrow);
      u[lo + i], borrow := s.word, s.carry;
      assert u[lo..lo + i + 1] == done + [s.word];
    }
    assert a[|b|..] == [] && b[|b|..] == [];
    NoWords(borrow);
  }

  /** `add_slice` on `u[lo..]` */
  method AddSlice(u: array<nat>, lo: nat, b: seq<nat>) returns (carry: bool)
    requires lo + |b| <= u.Length && Fits(u[..]) && Fits(b)
    modifies u
    ensures forall k :: 0 <= k < u.Length && !(lo <= k < lo + |b|) ==> u[k] == old(u[k])
    ensures Fits(old(u[lo..lo + |b|]))
    ensures u[lo..lo + |b|] == AddWords(old(u[lo..lo + |b|]), b, false)
    ensures carry == Carry(old(u[lo..lo + |b|]), b, false)
  {
    hide AddWords, Carry, AddWord;
    ghost var a := u[lo..lo + |b|];
    carry := false;
    for i := 0 to |b|
      invariant forall k :: 0 <= k < u.Length && !(lo <= k < lo + i) ==> u[k] == old(u[k])
      invariant AddWords(a, b, false) == u[lo..lo + i] + AddWords(a[i..], b[i..], carry)
      invariant Carry(a, b, false) == Carry(a[i..], b[i..], carry)
    {
      AddStep(a, b, i, carry, u[lo..lo + i]);
      assert u[lo + i] == a[i];
      ghost var done := u[lo..lo + i];
      var s := AddWord(u[lo + i], b[i], carry);
      u[lo + i], carry := s.word, s.carry;
      assert u[lo..lo + i + 1] == done + [s.word];
    }
    assert a[|b|..] == [] && b[|b|..] == [];
    NoWords(carry);
  }

  // ---------------------------------------------------------------- multiplication by one word

  lemma MulWordFits(x: nat, w: nat, carry: nat)
    requires x < B && w < B && carry < B
    ensures (x * w + carry) / B < B
  {
    MulMono(x, B - 1, w);
  }

  lemma MulCombine(x: nat, y: nat, w: nat, carry: nat, n: nat, rest: nat)
    requires n == x * w + carry && rest == y * w + n / B
    ensures n % B + B * rest == (x + B * y) * w + carry
  {
    Distribute(w, x, B * y);
  }

  /** The words of `a * w + carry`, one more than `a`. */
  ghost function MulWords(a: seq<nat>, w: nat, carry: nat): seq<nat> {
    if a == [] then [carry]
    else
      var n := a[0] * w + carry;
      [n % B] + MulWords(a[1..], w, n / B)
  }

  lemma {:induction false} MulWordsValue(a: seq<nat>, w: nat, carry: nat)
    requires Fits(a) && w < B && carry < B
    ensures |MulWords(a, w, carry)| == |a| + 1 && Fits(MulWords(a, w, carry))
    ensures Val(MulWords(a, w, carry)) == Val(a) * w + carry
  {
    if a == [] {
      assert Val([carry]) == carry + B * Val([]);
    } else {
      var n := a[0] * w + carry;
      MulWordFits(a[0], w, carry);
      MulWordsValue(a[1..], w, n / B);
      var rest := MulWords(a[1..], w, n / B);
      assert ([n % B] + rest)[1..] == rest;
      MulCombine(a[0], Val(a[1..]), w, carry, n, Val(rest));
    }
  }

  /** `full_mul_u64`, which is `overflowing_mul_u64` with its carry on top. */
  method FullMulWord(a: seq<nat>, w: nat) returns (r: seq<nat>)
    requires Fits(a) && w < B
    ensures |r| == |a| + 1 && Fits(r) && Val(r) == Val(a) * w
  {
    r := [];
    var carry: nat := 0;
    for i := 0 to |a|
      invariant MulWords(a, w, 0) == r + MulWords(a[i..], w, carry)
    {
      assert a[i..][1..] == a[i + 1..];
      var n: nat := a[i] * w + carry;
      assert r + ([n % B] + MulWords(a[i + 1..], w, n / B)) == r + [n % B] + MulWords(a[i + 1..], w, n / B);
      r, carry := r + [n % B], n / B;
    }
    assert a[|a|..] == [];
    r := r + [carry];
    MulWordsValue(a, w, 0);
  }
}
