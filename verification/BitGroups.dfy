/** Bit strings, most significant bit first, and their cutting into groups of a fixed width. */
module BitGroups {
  import opened Limbs
  import opened Bitwise
  import opened UintShift

  /** The number a bit string stands for. */
  function Number(bits: seq<bool>): nat {
    if bits == [] then 0
    else 2 * Number(bits[..|bits| - 1]) + (if bits[|bits| - 1] then 1 else 0)
  }

  /** The lowest `w` bits of a number. */
  function Bits(v: nat, w: nat): (r: seq<bool>)
    ensures |r| == w
  {
    if w == 0 then [] else Bits(v / 2, w - 1) + [v % 2 == 1]
  }

  function NoBits(n: nat): (r: seq<bool>)
    ensures |r| == n
  {
    seq(n, _ => false)
  }

  lemma {:induction false} NumberOfBits(v: nat, w: nat)
    requires v < Pow(2, w)
    ensures Number(Bits(v, w)) == v
  {
    if w > 0 {
      NumberOfBits(v / 2, w - 1);
      assert Bits(v, w)[..w - 1] == Bits(v / 2, w - 1);
    }
  }

  lemma {:induction false} BitsOfNumber(bits: seq<bool>)
    ensures Bits(Number(bits), |bits|) == bits && Number(bits) < Pow(2, |bits|)
  {
    if bits != [] {
      BitsOfNumber(bits[..|bits| - 1]);
    }
  }

  lemma {:induction false} NumberConcat(a: seq<bool>, b: seq<bool>)
    ensures Number(a + b) == Number(a) * Pow(2, |b|) + Number(b)
    decreases |b|
  {
    if b == [] {
      assert a + b == a;
    } else {
      var k := |b| - 1;
      assert (a + b)[..|a + b| - 1] == a + b[..k];
      NumberConcat(a, b[..k]);
      Assoc(2, Number(a), Pow(2, k));
      Assoc(Number(a), 2, Pow(2, k));
    }
  }

  lemma {:induction false} NumberOfNoBits(n: nat)
    ensures Number(NoBits(n)) == 0
  {
    if n > 0 {
      NumberOfNoBits(n - 1);
      assert NoBits(n)[..n - 1] == NoBits(n - 1);
    }
  }

  /** A prefix and a suffix of a bit string, as quotient and remainder. */
  lemma NumberSplit(bits: seq<bool>, k: nat)
    requires k <= |bits|
    ensures var p := Pow(2, |bits| - k);
      && 0 < p && Number(bits[..k]) == Number(bits) / p && Number(bits[k..]) == Number(bits) % p
  {
    hide Number, Pow;
    var p := Pow(2, |bits| - k);
    assert bits == bits[..k] + bits[k..];
    NumberConcat(bits[..k], bits[k..]);
    BitsOfNumber(bits[k..]);
    DivUnique(Number(bits), p, Number(bits[..k]), Number(bits[k..]));
  }

  // ---------------------------------------------------------------- regrouping

  predicate AllBelow(vs: seq<nat>, w: nat) {
    forall i :: 0 <= i < |vs| ==> vs[i] < Pow(2, w)
  }

  /** The bits of the values, one after the other. */
  function Flat(vs: seq<nat>, w: nat): (r: seq<bool>)
    ensures |r| == w * |vs|
  {
    if vs == [] then []
    else
      FlatLength(w, |vs|);
      Flat(vs[..|vs| - 1], w) + Bits(vs[|vs| - 1], w)
  }

  lemma FlatLength(w: nat, n: nat)
    requires 0 < n
    ensures w * n == w * (n - 1) + w
  {
  }

  lemma FlatSnoc(vs: seq<nat>, v: nat, w: nat)
    ensures Flat(vs + [v], w) == Flat(vs, w) + Bits(v, w)
  {
    assert (vs + [v])[..|vs|] == vs;
  }

  lemma FlatNone(w: nat)
    ensures Flat([], w) == []
  {
  }

  lemma {:induction false} FlatCons(v: nat, vs: seq<nat>, w: nat)
    ensures Flat([v] + vs, w) == Bits(v, w) + Flat(vs, w)
  {
    hide Flat, Bits;
    if vs == [] {
      assert [v] + vs == [] + [v];
      FlatSnoc([], v, w);
      FlatNone(w);
    } else {
      var k := |vs| - 1;
      assert [v] + vs == ([v] + vs[..k]) + [vs[k]];
      FlatSnoc([v] + vs[..k], vs[k], w);
      FlatCons(v, vs[..k], w);
      assert vs == vs[..k] + [vs[k]];
      FlatSnoc(vs[..k], vs[k], w);
    }
  }

  /** The whole groups of `w` bits. */
  function Group(bits: seq<bool>, w: nat): seq<nat>
    requires 0 < w
    decreases |bits|
  {
    if |bits| < w then [] else [Number(bits[..w])] + Group(bits[w..], w)
  }

  /** Bits cut at a multiple of `w`. */
  ghost predicate Whole(bits: seq<bool>, w: nat)
    requires 0 < w
  {
    |bits| % w == 0
  }

  lemma WholeStep(n: nat, w: nat)
    requires 0 < w
    ensures (n + w) % w == n % w && (n < w && n % w == 0 ==> n == 0)
  {
    DivOfSum(n, 1, w);
    if n < w { DivZero(n, w); }
  }

  /** A further group, or further bits that make none, after whole groups. */
  lemma {:induction false} GroupMore(bits: seq<bool>, more: seq<bool>, w: nat)
    requires 0 < w && Whole(bits, w)
    ensures Group(bits + more, w) == Group(bits, w) + Group(more, w)
    decreases |bits|
  {
    hide Number;
    if bits == [] {
      assert bits + more == more;
    } else {
      WholeStep(|bits|, w);
      WholeStep(|bits| - w, w);
      assert (bits + more)[..w] == bits[..w] && (bits + more)[w..] == bits[w..] + more;
      GroupMore(bits[w..], more, w);
    }
  }

  lemma GroupOne(g: seq<bool>, w: nat)
    requires 0 < w
    ensures |g| == w ==> Group(g, w) == [Number(g)]
    ensures |g| < w ==> Group(g, w) == []
  {
    if |g| == w {
      assert g[..w] == g && g[w..] == [];
    }
  }

  lemma WholeAndGroup(bits: seq<bool>, g: seq<bool>, w: nat)
    requires 0 < w && Whole(bits, w) && |g| == w
    ensures Whole(bits + g, w) && Group(bits + g, w) == Group(bits, w) + [Number(g)]
  {
    WholeStep(|bits|, w);
    GroupMore(bits, g, w);
    GroupOne(g, w);
  }

  /** Grouping at the width they came from gives the values back. */
  lemma {:induction false} GroupOfFlat(vs: seq<nat>, w: nat)
    requires 0 < w && AllBelow(vs, w)
    ensures Whole(Flat(vs, w), w) && Group(Flat(vs, w), w) == vs
  {
    hide Number, Bits;
    if vs != [] {
      var k := |vs| - 1;
      GroupOfFlat(vs[..k], w);
      WholeAndGroup(Flat(vs[..k], w), Bits(vs[k], w), w);
      NumberOfBits(vs[k], w);
      assert vs == vs[..k] + [vs[k]];
    }
  }

  /** Whole groups hold exactly the bits they were cut from. */
  lemma {:induction false} FlatOfGroup(bits: seq<bool>, w: nat)
    requires 0 < w && Whole(bits, w)
    ensures Flat(Group(bits, w), w) == bits && AllBelow(Group(bits, w), w)
    decreases |bits|
  {
    hide Number, Bits;
    if |bits| >= w {
      WholeStep(|bits| - w, w);
      FlatOfGroup(bits[w..], w);
      var v := Number(bits[..w]);
      BitsOfNumber(bits[..w]);
      FlatCons(v, Group(bits[w..], w), w);
      assert bits == bits[..w] + bits[w..];
    } else {
      WholeStep(|bits|, w);
    }
  }

  // ---------------------------------------------------------------- what is left over

  /** The bits after the last whole group. */
  function Rest(bits: seq<bool>, w: nat): (r: seq<bool>)
    requires 0 < w
    ensures |r| < w
  {
    bits[|bits| - |bits| % w..]
  }

  /** The last group filled up with zero bits, if it is not whole. */
  function Filled(rest: seq<bool>, w: nat): seq<nat>
    requires |rest| < w
  {
    if rest == [] then [] else [Number(rest + NoBits(w - |rest|))]
  }

  lemma RestIs(done: seq<bool>, pending: seq<bool>, w: nat)
    requires 0 < w && Whole(done, w) && |pending| < w
    ensures Rest(done + pending, w) == pending && Group(done + pending, w) == Group(done, w)
  {
    hide Group, Rest;
    AfterWhole(|done|, |done| / w, |pending|, w);
    RestAt(done + pending, w, |pending|);
    GroupMore(done, pending, w);
    GroupOne(pending, w);
  }

  lemma RestAt(bits: seq<bool>, w: nat, k: nat)
    requires 0 < w && k <= |bits| && |bits| % w == k
    ensures Rest(bits, w) == bits[|bits| - k..]
  {
  }

  lemma AfterWhole(n: nat, q: nat, k: nat, w: nat)
    requires 0 < w && n % w == 0 && q == n / w && k < w
    ensures (n + k) % w == k
  {
    DivUnique(n + k, w, q, k);
  }

  /** Filled up, the groups hold the bits and at most `w - 1` zeros. */
  lemma FlatOfFilled(bits: seq<bool>, w: nat)
    requires 0 < w
    ensures var groups := Group(bits, w) + Filled(Rest(bits, w), w);
      && AllBelow(groups, w)
      && exists k: nat :: k < w && Flat(groups, w) == bits + NoBits(k)
  {
    hide Number, Bits, Group, Flat;
    var whole, rest := bits[..|bits| - |bits| % w], Rest(bits, w);
    assert bits == whole + rest;
    WholePart(|bits|, w);
    RestIs(whole, rest, w);
    FlatOfGroup(whole, w);
    if rest == [] {
      assert bits == bits + NoBits(0);
      assert Group(bits, w) + Filled(rest, w) == Group(whole, w);
    } else {
      var k := w - |rest|;
      var last := rest + NoBits(k);
      BitsOfNumber(last);
      FlatSnoc(Group(whole, w), Number(last), w);
      assert whole + last == bits + NoBits(k);
    }
  }

  lemma WholePart(n: nat, w: nat)
    requires 0 < w
    ensures (n - n % w) % w == 0
  {
    DivUnique(n - n % w, w, n / w, 0);
  }

  // ---------------------------------------------------------------- bits at the top of a word

  /** A word of `width` bits with the given bits at its top and zeros below. */
  ghost predicate AtTop(word: nat, bits: seq<bool>, width: nat) {
    |bits| <= width && word == Number(bits) * P(width - |bits|)
  }

  /** Further bits joined below those at the top. */
  lemma TopMore(word: nat, bits: seq<bool>, width: nat, v: nat, w: nat)
    requires AtTop(word, bits, width) && v < P(w) && |bits| + w <= width
    ensures AtTop(Or(word, v * P(width - |bits| - w)), bits + Bits(v, w), width)
  {
    hide Pow, Number, Bits, Or;
    var k := width - |bits| - w;
    var n := Number(bits);
    NumberConcat(bits, Bits(v, w));
    NumberOfBits(v, w);
    PowAdd(2, w, k);
    Assoc(n, P(w), P(k));
    MulStrict(v, P(w), P(k));
    OrDisjoint(v * P(k), n, w + k);
    OrSwapped(word, v * P(k));
    Distribute(P(k), n * P(w), v);
  }

  /** The first `k` bits read off the top and shifted out. */
  lemma TopLess(word: nat, bits: seq<bool>, width: nat, k: nat)
    requires AtTop(word, bits, width) && k <= |bits|
    ensures word / P(width - k) == Number(bits[..k])
    ensures AtTop((word * P(k)) % P(width), bits[k..], width)
  {
    hide Pow, Number;
    var n := |bits|;
    var high, low := Number(bits[..k]), Number(bits[k..]);
    assert bits == bits[..k] + bits[k..];
    NumberConcat(bits[..k], bits[k..]);
    BitsOfNumber(bits[k..]);
    PowAdd(2, n - k, width - n);
    PowAdd(2, width - n, k);
    PowAdd(2, width - k, k);
    TopParts(high, low, P(n - k), P(width - n), P(k), word);
  }

  lemma TopParts(high: nat, low: nat, a: nat, p: nat, e: nat, word: nat)
    requires 0 < a && 0 < p && 0 < e && low < a && word == (high * a + low) * p
    ensures 0 < a * p && 0 < (a * p) * e && word / (a * p) == high && (word * e) % ((a * p) * e) == low * (p * e)
  {
    MulStrict(0, a, p);
    MulStrict(0, a * p, e);
    MulStrict(low, a, p);
    assert word == high * (a * p) + low * p by {
      Distribute(p, high * a, low);
      Assoc(high, a, p);
    }
    DivUnique(word, a * p, high, low * p);
    assert word * e == high * ((a * p) * e) + (low * p) * e by {
      Distribute(e, high * (a * p), low * p);
      Assoc(high, a * p, e);
    }
    MulStrict(low * p, a * p, e);
    DivUnique(word * e, (a * p) * e, high, (low * p) * e);
    Assoc(low, p, e);
  }
}
