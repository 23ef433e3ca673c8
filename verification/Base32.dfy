/** Conversion between groups of bits: `convert_bits`, and the streaming `write_base32`. */
module Base32 {
  import opened Common
  import opened Limbs
  import opened Bitwise
  import opened BitGroups

  datatype Error = InvalidData(value: nat) | InvalidPadding

  // ---------------------------------------------------------------- what the conversion means

  /** The values regrouped, with the last group filled up, or refused when what is left over is as much
      as a value or not zero. */
  function Regrouped(data: seq<nat>, from: nat, to: nat, pad: bool): Result<seq<nat>, Error>
    requires 0 < to
  {
    var bits := Flat(data, from);
    var rest := Rest(bits, to);
    if pad then Ok(Group(bits, to) + Filled(rest, to))
    else if |rest| >= from || Number(rest) != 0 then Err(InvalidPadding)
    else Ok(Group(bits, to))
  }

  /** The first value too large for its width. */
  function FirstTooLarge(data: seq<nat>, from: nat): Option<nat> {
    if data == [] then None
    else if data[0] >= Pow(2, from) then Some(data[0])
    else FirstTooLarge(data[1..], from)
  }

  function ConvertedBits(data: seq<nat>, from: nat, to: nat, pad: bool): Result<seq<nat>, Error>
    requires 0 < to
  {
    match FirstTooLarge(data, from)
    case Some(v) => Err(InvalidData(v))
    case None => Regrouped(data, from, to, pad)
  }

  lemma {:induction false} TooLargeIff(data: seq<nat>, from: nat)
    ensures FirstTooLarge(data, from).None? <==> AllBelow(data, from)
  {
    if data != [] {
      TooLargeIff(data[1..], from);
      assert data == [data[0]] + data[1..];
    }
  }

  lemma {:induction false} FirstAt(data: seq<nat>, from: nat, i: nat)
    requires i < |data| && AllBelow(data[..i], from) && data[i] >= Pow(2, from)
    ensures FirstTooLarge(data, from) == Some(data[i])
  {
    if i > 0 {
      assert data[0] == data[..i][0];
      assert data[1..][..i - 1] == data[..i][1..];
      FirstAt(data[1..], from, i - 1);
    }
  }

  // ---------------------------------------------------------------- convert_bits

  /** The accumulator holds the pending bits in its lowest bits; what is above them does not matter. */
  ghost predicate Holds(acc: nat, pending: seq<bool>) {
    acc < U32 && Number(pending) == acc % P(|pending|)
  }

  lemma CutTwice(x: nat, a: nat, c: nat)
    requires 0 < a && 0 < c
    ensures 0 < c * a && (x % (c * a)) % a == x % a
  {
    MulStrict(0, c, a);
    CutParts(x, a, c, x / (c * a), x % (c * a));
  }

  lemma CutParts(x: nat, a: nat, c: nat, q: nat, r: nat)
    requires 0 < a && x == q * (c * a) + r
    ensures r % a == x % a
  {
    Assoc(q, c, a);
    DivOfSum(r, q * c, a);
  }

  lemma WidthOf32()
    ensures Pow(2, 32) == U32
  {
    assert Pow(2, 4) == 2 * Pow(2, 3) == 4 * Pow(2, 2) == 8 * Pow(2, 1);
    PowAdd(2, 4, 4);
    PowAdd(2, 8, 8);
    PowAdd(2, 16, 16);
  }

  lemma CutTo32(x: nat, k: nat)
    requires k <= 32
    ensures (x % U32) % P(k) == x % P(k)
  {
    hide Pow;
    WidthOf32();
    PowAdd(2, 32 - k, k);
    CutTwice(x, P(k), P(32 - k));
  }

  /** Taking a value in. */
  lemma HoldsMore(acc: nat, pending: seq<bool>, v: nat, from: nat)
    requires Holds(acc, pending) && v < P(from) && |pending| + from <= 32
    ensures Holds(Or((acc * P(from)) % U32, v), pending + Bits(v, from))
  {
    hide Pow, Number, Bits, Or;
    var next := acc * P(from) + v;
    ShiftedOr(acc, v, from);
    NumberConcat(pending, Bits(v, from));
    NumberOfBits(v, from);
    CutTo32(next, |pending| + from);
    PowAdd(2, |pending|, from);
    CutAppended(acc, P(|pending|), P(from), v);
  }

  lemma CutAppended(acc: nat, p: nat, f: nat, v: nat)
    requires 0 < p && 0 < f && v < f
    ensures 0 < p * f && (acc * f + v) % (p * f) == (acc % p) * f + v
  {
    MulStrict(0, p, f);
    var q, r := acc / p, acc % p;
    assert acc == q * p + r;
    assert acc * f + v == q * (p * f) + (r * f + v) by {
      Distribute(f, q * p, r);
      Assoc(q, p, f);
    }
    MulMono(r + 1, p, f);
    Distribute(f, r, 1);
    DivUnique(acc * f + v, p * f, q, r * f + v);
  }

  /** The shifted accumulator has zeros where the value goes, and none of it leaves 32 bits. */
  lemma ShiftedOr(acc: nat, v: nat, from: nat)
    requires v < P(from) && from <= 32
    ensures Or((acc * P(from)) % U32, v) == (acc * P(from) + v) % U32
  {
    hide Pow, Or;
    WidthOf32();
    PowAdd(2, 32 - from, from);
    var f, g := P(from), P(32 - from);
    CutAppended(acc, g, f, 0);
    CutAppended(acc, g, f, v);
    OrDisjoint(v, acc % g, from);
    OrSwapped((acc % g) * f, v);
  }

  /** Giving a group out. */
  lemma HoldsLess(acc: nat, pending: seq<bool>, to: nat)
    requires Holds(acc, pending) && to <= |pending|
    ensures Number(pending[..to]) == (acc / P(|pending| - to)) % P(to) && Holds(acc, pending[to..])
  {
    hide Pow, Number;
    var k := |pending| - to;
    NumberSplit(pending, to);
    PowAdd(2, to, k);
    CutTwice(acc, P(k), P(to));
    QuotientOfCut(acc, P(to), P(k));
  }

  lemma QuotientOfCut(x: nat, a: nat, b: nat)
    requires 0 < a && 0 < b
    ensures 0 < a * b && (x % (a * b)) / b == (x / b) % a
  {
    MulStrict(0, a, b);
    var q, r := x / b, x % b;
    assert x == q * b + r;
    var q', r' := q / a, q % a;
    assert q == q' * a + r';
    assert x == q' * (a * b) + (r' * b + r) by {
      Distribute(b, q' * a, r');
      Assoc(q', a, b);
    }
    MulMono(r' + 1, a, b);
    Distribute(b, r', 1);
    DivUnique(x, a * b, q', r' * b + r);
    DivUnique(r' * b + r, b, r', r);
  }

  /** The last group, filled up. */
  lemma LastGroup(acc: nat, pending: seq<bool>, to: nat)
    requires Holds(acc, pending) && |pending| < to <= 32
    ensures ((acc * P(to - |pending|)) % U32) % P(to) == Number(pending + NoBits(to - |pending|))
    ensures Number(pending + NoBits(to - |pending|)) == 0 <==> Number(pending) == 0
  {
    hide Pow, Number;
    var k := to - |pending|;
    NumberConcat(pending, NoBits(k));
    NumberOfNoBits(k);
    CutTo32(acc * P(k), to);
    PowAdd(2, |pending|, k);
    CutAppended(acc, P(|pending|), P(k), 0);
    if Number(pending) > 0 { MulStrict(0, Number(pending), P(k)); }
  }

  /** The inner loop: gives out whole groups while there are enough bits. */
  method EmitGroups(acc: nat, have: nat, to: nat, into: seq<nat>, ghost before: seq<bool>, ghost held: seq<bool>)
    returns (bits: nat, ret: seq<nat>, ghost done: seq<bool>, ghost pending: seq<bool>)
    requires 0 < to && |held| == have && Holds(acc, held) && Whole(before, to) && into == Group(before, to)
    ensures before + held == done + pending && |pending| == bits < to
    ensures Whole(done, to) && ret == Group(done, to) && Holds(acc, pending)
  {
    hide Pow, Number, Group, Holds, Whole;
    bits, ret, done, pending := have, into, before, held;
    while bits >= to
      invariant before + held == done + pending && |pending| == bits
      invariant Whole(done, to) && ret == Group(done, to) && Holds(acc, pending)
    {
      HoldsLess(acc, pending, to);
      WholeAndGroup(done, pending[..to], to);
      assert done + pending == (done + pending[..to]) + pending[to..];
      bits := bits - to;
      ret := ret + [(acc / P(bits)) % P(to)];
      done, pending := done + pending[..to], pending[to..];
    }
  }

  /** `convert_bits`: panics, in the original, for widths outside 1 to 8. */
  method ConvertBits(data: seq<nat>, from: nat, to: nat, pad: bool) returns (r: Result<seq<nat>, Error>)
    requires 1 <= from <= 8 && 1 <= to <= 8 && forall i :: 0 <= i < |data| ==> data[i] < 256
    ensures r == ConvertedBits(data, from, to, pad)
  {
    hide Pow, Number, Bits, Flat, Group, Or, Holds, FirstTooLarge, AllBelow, Rest, Whole, Regrouped;
    var acc: nat, bits: nat, ret: seq<nat> := 0, 0, [];
    ghost var done: seq<bool>, pending: seq<bool> := [], [];
    NothingYet(data, from, to);
    for i := 0 to |data|
      invariant AllBelow(data[..i], from)
      invariant Flat(data[..i], from) == done + pending && |pending| == bits < to
      invariant Whole(done, to) && ret == Group(done, to) && Holds(acc, pending)
    {
      var v := data[i];
      if v >= P(from) {
        FirstAt(data, from, i);
        return Err(InvalidData(v));
      }
      OneMoreValue(data, i, from, done, pending);
      HoldsMore(acc, pending, v, from);
      acc := Or((acc * P(from)) % U32, v);
      bits := bits + from;
      bits, ret, done, pending := EmitGroups(acc, bits, to, ret, done, pending + Bits(v, from));
    }
    assert data[..|data|] == data;
    TooLargeIff(data, from);
    r := Finish(data, from, to, pad, acc, bits, ret, done, pending);
  }

  /** What is left over at the end. */
  method Finish(ghost data: seq<nat>, from: nat, to: nat, pad: bool, acc: nat, bits: nat, into: seq<nat>,
                ghost done: seq<bool>, ghost pending: seq<bool>)
    returns (r: Result<seq<nat>, Error>)
    requires to <= 8 && Flat(data, from) == done + pending && |pending| == bits < to
    requires Whole(done, to) && into == Group(done, to) && Holds(acc, pending)
    ensures r == Regrouped(data, from, to, pad)
  {
    hide Pow, Number, Flat, Group, Holds, Rest, Whole;
    RestIs(done, pending, to);
    LastGroup(acc, pending, to);
    var last := ((acc * P(to - bits)) % U32) % P(to);
    if pad {
      if bits > 0 {
        return Ok(into + [last]);
      }
      assert into + [] == into;
    } else if bits >= from || last != 0 {
      return Err(InvalidPadding);
    }
    return Ok(into);
  }

  lemma NothingYet(data: seq<nat>, from: nat, to: nat)
    requires 0 < to
    ensures Flat(data[..0], from) == [] && Whole([], to) && Group([], to) == [] && Holds(0, [])
    ensures AllBelow(data[..0], from)
  {
  }

  lemma OneMoreValue(data: seq<nat>, i: nat, from: nat, done: seq<bool>, pending: seq<bool>)
    requires i < |data| && AllBelow(data[..i], from) && data[i] < Pow(2, from) && Flat(data[..i], from) == done + pending
    ensures AllBelow(data[..i + 1], from) && Flat(data[..i + 1], from) == done + (pending + Bits(data[i], from))
  {
    hide Bits, Flat, Pow;
    assert data[..i + 1] == data[..i] + [data[i]];
    FlatSnoc(data[..i], data[i], from);
    assert done + pending + Bits(data[i], from) == done + (pending + Bits(data[i], from));
  }

  // ---------------------------------------------------------------- round trip

  /** Converting groups of eight bits to groups of five and back gives the bytes. */
  lemma BackToBytes(bytes: seq<nat>)
    requires AllBelow(bytes, 8)
    ensures ConvertedBits(bytes, 8, 5, true).Ok?
    ensures ConvertedBits(ConvertedBits(bytes, 8, 5, true).value, 5, 8, false) == Ok(bytes)
  {
    hide Number, Bits, Group, Flat, Filled, AllBelow, FirstTooLarge, Rest;
    var bits := Flat(bytes, 8);
    TooLargeIff(bytes, 8);
    FlatOfFilled(bits, 5);
    var groups := Group(bits, 5) + Filled(Rest(bits, 5), 5);
    TooLargeIff(groups, 5);
    var k: nat :| k < 5 && Flat(groups, 5) == bits + NoBits(k);
    GroupOfFlat(bytes, 8);
    RestIs(bits, NoBits(k), 8);
    NumberOfNoBits(k);
  }

  lemma ZeroBits(rest: seq<bool>)
    requires Number(rest) == 0
    ensures rest == NoBits(|rest|)
  {
    hide Number, Bits;
    BitsOfNumber(rest);
    BitsOfNumber(NoBits(|rest|));
    NumberOfNoBits(|rest|);
  }

  lemma SameRemainder(n: nat, j: nat, k: nat, w: nat)
    requires 0 < w && j < w && k < w && (n + j) % w == 0 && (n + k) % w == 0
    ensures j == k
  {
    var q, r := (n + j) / w, (n + k) / w;
    if j < k {
      DivUnique(n + k, w, q, k - j);
    } else if k < j {
      DivUnique(n + j, w, r, j - k);
    }
  }

  /** What is accepted without padding was made with it: values of any two widths, converted and then
      converted back with the last group filled up, are the same again. */
  lemma UnpaddedIsCanonical(data: seq<nat>, from: nat, to: nat)
    requires 0 < from && 0 < to && ConvertedBits(data, from, to, false).Ok?
    ensures var out := ConvertedBits(data, from, to, false).value;
      AllBelow(out, to) && ConvertedBits(out, to, from, true) == Ok(data)
  {
    hide Number, Bits, Group, Flat, Filled, AllBelow, FirstTooLarge, Rest;
    TooLargeIff(data, from);
    var bits, rest := Flat(data, from), Rest(Flat(data, from), to);
    var whole := WholePrefix(bits, to);
    RestIs(whole, rest, to);
    FlatOfGroup(whole, to);
    TooLargeIff(Group(whole, to), to);
    ZeroBits(rest);
    FlatOfFilled(whole, from);
    var groups := Group(whole, from) + Filled(Rest(whole, from), from);
    var k: nat :| k < from && Flat(groups, from) == whole + NoBits(k);
    GroupOfFlat(groups, from);
    GroupOfFlat(data, from);
    SameRemainder(|whole|, k, |rest|, from);
  }

  lemma WholePrefix(bits: seq<bool>, w: nat) returns (whole: seq<bool>)
    requires 0 < w
    ensures Whole(whole, w) && bits == whole + Rest(bits, w)
  {
    WholePart(|bits|, w);
    whole := bits[..|bits| - |bits| % w];
  }

  /** `convert_bits(5, 8, false)` accepts exactly what `convert_bits(8, 5, true)` makes of some bytes, and
      gives those. */
  lemma AcceptedIff(symbols: seq<nat>, bytes: seq<nat>)
    ensures ConvertedBits(symbols, 5, 8, false) == Ok(bytes)
      <==> AllBelow(bytes, 8) && ConvertedBits(bytes, 8, 5, true) == Ok(symbols)
  {
    hide ConvertedBits, AllBelow;
    if ConvertedBits(symbols, 5, 8, false) == Ok(bytes) {
      UnpaddedIsCanonical(symbols, 5, 8);
    }
    if AllBelow(bytes, 8) && ConvertedBits(bytes, 8, 5, true) == Ok(symbols) {
      BackToBytes(bytes);
    }
  }

  /** It refuses the first value too large for its width. */
  lemma RefusedValue(data: seq<nat>, from: nat, to: nat, pad: bool, v: nat)
    requires 0 < to
    ensures ConvertedBits(data, from, to, pad) == Err(InvalidData(v))
      <==> exists i :: 0 <= i < |data| && data[i] == v && v >= Pow(2, from) && AllBelow(data[..i], from)
  {
    hide Pow, AllBelow, Regrouped;
    NotRefused(data, from, to, pad, v);
    if i :| 0 <= i < |data| && data[i] == v && v >= Pow(2, from) && AllBelow(data[..i], from) {
      FirstAt(data, from, i);
    }
    if FirstTooLarge(data, from) == Some(v) {
      var i := FoundAt(data, from);
    }
  }

  lemma NotRefused(data: seq<nat>, from: nat, to: nat, pad: bool, v: nat)
    requires 0 < to
    ensures Regrouped(data, from, to, pad) != Err(InvalidData(v))
  {
  }

  lemma {:induction false} FoundAt(data: seq<nat>, from: nat) returns (i: nat)
    requires FirstTooLarge(data, from).Some?
    ensures i < |data| && data[i] == FirstTooLarge(data, from).value >= Pow(2, from) && AllBelow(data[..i], from)
  {
    hide Pow;
    if data[0] >= Pow(2, from) {
      i := 0;
    } else {
      var j := FoundAt(data[1..], from);
      i := j + 1;
      assert data[..i] == [data[0]] + data[1..][..j];
    }
  }

  // ---------------------------------------------------------------- write_base32

  lemma WidthOf8()
    ensures Pow(2, 8) == 256 && Pow(2, 3) == 8 && Pow(2, 5) == 32
  {
    assert Pow(2, 5) == 2 * Pow(2, 4) == 4 * Pow(2, 3) == 8 * Pow(2, 2) == 16 * Pow(2, 1);
    PowAdd(2, 5, 3);
  }

  /** Five pending bits given out from the buffer. */
  lemma BufferedLess(buffer: nat, pending: seq<bool>)
    requires AtTop(buffer, pending, 8) && 5 <= |pending|
    ensures buffer / 8 == Number(pending[..5]) && AtTop((buffer * 32) % 256, pending[5..], 8)
  {
    hide Pow, Number;
    WidthOf8();
    TopLess(buffer, pending, 8, 5);
  }

  lemma EighthOf(n: nat, e: nat, buffer: nat)
    requires buffer == n * (e * 8)
    ensures buffer / 8 == n * e
  {
    Assoc(n, e, 8);
    DivUnique(buffer, 8, n * e, 0);
  }

  /** The first bits of a byte and the others, as numbers. */
  lemma ByteSplit(b: nat, k: nat)
    requires b < 256 && 1 <= k <= 5
    ensures var bits := Bits(b, 8);
      && Number(bits[..k]) == b / P(8 - k) && b / P(8 - k) < P(k)
      && Number(bits[k..]) * P(k) == (b * P(k)) % 256
  {
    hide Pow, Number, Bits;
    WidthOf8();
    var bits := Bits(b, 8);
    NumberOfBits(b, 8);
    NumberSplit(bits, k);
    BitsOfNumber(bits[..k]);
    PowAdd(2, 8 - k, k);
    CutAppended(b, P(8 - k), P(k), 0);
  }

  /** At most four pending bits joined with the highest bits of a byte. */
  lemma BufferedByte(buffer: nat, pending: seq<bool>, b: nat)
    requires AtTop(buffer, pending, 8) && |pending| <= 4 && b < 256
    ensures var n := |pending|; var all := pending + Bits(b, 8);
      && Or(buffer / 8, b / P(3 + n)) == Number(all[..5])
      && AtTop((b * P(5 - n)) % 256, all[5..], 8)
  {
    hide Pow, Number, Bits, Or;
    var k := 5 - |pending|;
    var bits := Bits(b, 8);
    var all := pending + bits;
    ByteSplit(b, k);
    assert all[..5] == pending + bits[..k] && all[5..] == bits[k..];
    NumberConcat(pending, bits[..k]);
    WidthOf8();
    PowAdd(2, k, 3);
    EighthOf(Number(pending), P(k), buffer);
    OrDisjoint(b / P(8 - k), Number(pending), k);
    OrSwapped(buffer / 8, b / P(8 - k));
  }

  /** `write_base32` */
  method WriteBase32(bytes: seq<nat>) returns (r: seq<nat>)
    requires AllBelow(bytes, 8)
    ensures ConvertedBits(bytes, 8, 5, true) == Ok(r)
  {
    hide Pow, Number, Bits, Flat, Group, Or, AtTop, FirstTooLarge, AllBelow, Rest, Whole, Regrouped;
    var bufferBits: nat, buffer: nat := 0, 0;
    r := [];
    ghost var done: seq<bool>, pending: seq<bool> := [], [];
    StartBuffer(bytes);
    for i := 0 to |bytes|
      invariant Flat(bytes[..i], 8) == done + pending && |pending| == bufferBits <= 7
      invariant Whole(done, 5) && r == Group(done, 5) && AtTop(buffer, pending, 8)
    {
      var b := bytes[i];
      if bufferBits >= 5 {
        BufferedLess(buffer, pending);
        done, pending := GiveOut(done, pending);
        r := r + [buffer / 8];
        buffer, bufferBits := (buffer * 32) % 256, bufferBits - 5;
      }
      ByteBelow(bytes, i);
      NextByte(bytes, i, done, pending);
      BufferedByte(buffer, pending, b);
      done, pending := GiveOut(done, pending + Bits(b, 8));
      r := r + [Or(buffer / 8, b / P(3 + bufferBits))];
      buffer, bufferBits := (b * P(5 - bufferBits)) % 256, bufferBits + 3;
    }
    assert bytes[..|bytes|] == bytes;
    if bufferBits >= 5 {
      BufferedLess(buffer, pending);
      done, pending := GiveOut(done, pending);
      r := r + [buffer / 8];
      buffer, bufferBits := (buffer * 32) % 256, bufferBits - 5;
    }
    LastBuffered(bytes, buffer, done, pending);
    if bufferBits != 0 {
      r := r + [buffer / 8];
    } else {
      assert r + [] == r;
    }
  }

  lemma ByteBelow(bytes: seq<nat>, i: nat)
    requires i < |bytes| && AllBelow(bytes, 8)
    ensures bytes[i] < 256
  {
    hide Pow;
    WidthOf8();
  }

  /** The first five pending bits become a group. */
  lemma GiveOut(done: seq<bool>, pending: seq<bool>) returns (done': seq<bool>, pending': seq<bool>)
    requires Whole(done, 5) && 5 <= |pending|
    ensures done' + pending' == done + pending && pending' == pending[5..]
    ensures Whole(done', 5) && Group(done', 5) == Group(done, 5) + [Number(pending[..5])]
  {
    hide Group, Number;
    WholeAndGroup(done, pending[..5], 5);
    done', pending' := done + pending[..5], pending[5..];
  }

  lemma StartBuffer(bytes: seq<nat>)
    ensures Flat(bytes[..0], 8) == [] && Whole([], 5) && Group([], 5) == [] && AtTop(0, [], 8)
  {
  }

  lemma NextByte(bytes: seq<nat>, i: nat, done: seq<bool>, pending: seq<bool>)
    requires i < |bytes| && Flat(bytes[..i], 8) == done + pending
    ensures Flat(bytes[..i + 1], 8) == done + (pending + Bits(bytes[i], 8))
  {
    hide Bits, Flat;
    assert bytes[..i + 1] == bytes[..i] + [bytes[i]];
    FlatSnoc(bytes[..i], bytes[i], 8);
    assert done + pending + Bits(bytes[i], 8) == done + (pending + Bits(bytes[i], 8));
  }

  lemma LastBuffered(bytes: seq<nat>, buffer: nat, done: seq<bool>, pending: seq<bool>)
    requires AllBelow(bytes, 8) && Flat(bytes, 8) == done + pending && |pending| < 5
    requires Whole(done, 5) && AtTop(buffer, pending, 8)
    ensures ConvertedBits(bytes, 8, 5, true) == Ok(Group(done, 5) + (if pending == [] then [] else [buffer / 8]))
  {
    hide Pow, Number, Flat, Group, AllBelow, FirstTooLarge, Rest;
    TooLargeIff(bytes, 8);
    RestIs(done, pending, 5);
    var k := 5 - |pending|;
    NumberConcat(pending, NoBits(k));
    NumberOfNoBits(k);
    WidthOf8();
    PowAdd(2, k, 3);
    Assoc(Number(pending), P(k), 8);
    DivUnique(buffer, 8, Number(pending) * P(k), 0);
  }
}
