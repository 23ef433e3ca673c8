/** Bech32 and Bech32m strings: the checksum as a linear code, encoding, decoding, and what the
    checksum detects. */
module Bech32 {
  import opened Common

  type Symbol = bv5

  datatype Variant = Bech32 | Bech32m

  datatype Error =
    | MissingSeparator
    | InvalidChecksum
    | InvalidLength
    | InvalidChar(c: char)
    | MixedCase

  // ---------------------------------------------------------------- the checksum step

  const GEN0: bv32 := 0x3b6a_57b2
  const GEN1: bv32 := 0x2650_8e6d
  const GEN2: bv32 := 0x1ea1_19fa
  const GEN3: bv32 := 0x3d42_33dd
  const GEN4: bv32 := 0x2a14_62b3

  function Xor(a: bv32, b: bv32): bv32 {
    a ^ b
  }

  /** One generator coefficient, taken in when its bit of `b` is set. */
  function Tap(b: bv32, bit: bv32, gen: bv32): bv32 {
    if b & bit != 0 then gen else 0
  }

  /** What the five highest bits of the state feed back. */
  function Mixed(b: bv32): bv32 {
    Xor(Xor(Xor(Xor(Tap(b, 1, GEN0), Tap(b, 2, GEN1)), Tap(b, 4, GEN2)), Tap(b, 8, GEN3)), Tap(b, 16, GEN4))
  }

  /** The other bits moved up, over the new symbol. */
  function Moved(chk: bv32, v: Symbol): bv32 {
    Xor((chk & 0x01ff_ffff) << 5, v as bv32)
  }

  /** `polymod_step` */
  function Step(chk: bv32, v: Symbol): bv32 {
    Xor(Moved(chk, v), Mixed(chk >> 25))
  }

  /** A state of the checksum: thirty bits. */
  predicate State(chk: bv32) {
    chk < 0x4000_0000
  }

  lemma StepKeepsState(chk: bv32, v: Symbol)
    requires State(chk)
    ensures State(Step(chk, v))
  {
  }

  lemma XorIs(a: bv32, b: bv32)
    ensures Xor(a, b) == a ^ b
  {
  }

  lemma XorWithNothing(a: bv32)
    ensures Xor(a, 0) == a && Xor(0, a) == a && Xor(a, a) == 0
  {
  }

  lemma RawSwap(a: bv32, b: bv32, c: bv32, d: bv32)
    ensures (a ^ b) ^ (c ^ d) == (a ^ c) ^ (b ^ d)
  {
  }

  lemma FourXors(a: bv32, b: bv32, c: bv32, d: bv32)
    ensures Xor(Xor(a, b), Xor(c, d)) == (a ^ b) ^ (c ^ d)
  {
  }

  lemma XorSwap(a: bv32, b: bv32, c: bv32, d: bv32)
    ensures Xor(Xor(a, b), Xor(c, d)) == Xor(Xor(a, c), Xor(b, d))
  {
    hide Xor;
    FourXors(a, b, c, d);
    FourXors(a, c, b, d);
    RawSwap(a, b, c, d);
  }

  lemma TapIsLinear(a: bv32, b: bv32, bit: bv32, gen: bv32)
    requires bit == 1 || bit == 2 || bit == 4 || bit == 8 || bit == 16
    ensures Tap(Xor(a, b), bit, gen) == Xor(Tap(a, bit, gen), Tap(b, bit, gen))
  {
    hide Xor;
    BitIsLinear(a, b, bit);
    XorWithNothing(gen);
    XorWithNothing(0);
  }

  lemma BitIsLinear(a: bv32, b: bv32, bit: bv32)
    requires bit == 1 || bit == 2 || bit == 4 || bit == 8 || bit == 16
    ensures Xor(a, b) & bit != 0 <==> (a & bit != 0) != (b & bit != 0)
  {
  }

  lemma MixedIsLinear(a: bv32, b: bv32)
    ensures Mixed(Xor(a, b)) == Xor(Mixed(a), Mixed(b))
  {
    hide Tap, Xor;
    TapIsLinear(a, b, 1, GEN0);
    TapIsLinear(a, b, 2, GEN1);
    TapIsLinear(a, b, 4, GEN2);
    TapIsLinear(a, b, 8, GEN3);
    TapIsLinear(a, b, 16, GEN4);
    var a0, a1, a2, a3, a4 := Tap(a, 1, GEN0), Tap(a, 2, GEN1), Tap(a, 4, GEN2), Tap(a, 8, GEN3), Tap(a, 16, GEN4);
    var b0, b1, b2, b3, b4 := Tap(b, 1, GEN0), Tap(b, 2, GEN1), Tap(b, 4, GEN2), Tap(b, 8, GEN3), Tap(b, 16, GEN4);
    XorSwap(a0, b0, a1, b1);
    XorSwap(Xor(a0, a1), Xor(b0, b1), a2, b2);
    XorSwap(Xor(Xor(a0, a1), a2), Xor(Xor(b0, b1), b2), a3, b3);
    XorSwap(Xor(Xor(Xor(a0, a1), a2), a3), Xor(Xor(Xor(b0, b1), b2), b3), a4, b4);
  }

  lemma MovedIsLinear(a: bv32, b: bv32, v: Symbol, w: Symbol)
    ensures Moved(Xor(a, b), v ^ w) == Xor(Moved(a, v), Moved(b, w))
  {
    assert (v ^ w) as bv32 == Xor(v as bv32, w as bv32);
    assert (Xor(a, b) & 0x01ff_ffff) << 5 == Xor((a & 0x01ff_ffff) << 5, (b & 0x01ff_ffff) << 5);
    hide Xor;
    XorSwap((a & 0x01ff_ffff) << 5, (b & 0x01ff_ffff) << 5, v as bv32, w as bv32);
  }

  /** The step is linear. */
  lemma StepIsLinear(a: bv32, b: bv32, v: Symbol, w: Symbol)
    ensures Step(Xor(a, b), v ^ w) == Xor(Step(a, v), Step(b, w))
  {
    hide Moved, Mixed, Xor;
    MovedIsLinear(a, b, v, w);
    MixedIsLinear(a >> 25, b >> 25);
    HighIsLinear(a, b);
    XorSwap(Moved(a, v), Moved(b, w), Mixed(a >> 25), Mixed(b >> 25));
  }

  lemma HighIsLinear(a: bv32, b: bv32)
    ensures Xor(a, b) >> 25 == Xor(a >> 25, b >> 25)
  {
  }

  /** No feedback leaves the lowest five bits alone. */
  lemma FeedbackIsSeen(b: bv32)
    requires b < 32 && Mixed(b) & 31 == 0
    ensures b == 0
  {
  }

  lemma KernelIsZero(x: bv32)
    requires State(x) && Step(x, 0) == 0
    ensures x == 0
  {
    hide Mixed, Xor;
    var moved, mixed := (x & 0x01ff_ffff) << 5, Mixed(x >> 25);
    XorWithNothing(moved);
    XorIs(moved, mixed);
    EqualIfXorIsZero(moved, mixed);
    LowBitsAreFree(x);
    FeedbackIsSeen(x >> 25);
    NoFeedback();
    NothingLeft(x);
  }

  lemma EqualIfXorIsZero(a: bv32, b: bv32)
    requires a ^ b == 0
    ensures a == b
  {
  }

  lemma LowBitsAreFree(x: bv32)
    ensures ((x & 0x01ff_ffff) << 5) & 31 == 0 && (State(x) ==> x >> 25 < 32)
  {
  }

  lemma NothingLeft(x: bv32)
    requires State(x) && x >> 25 == 0 && (x & 0x01ff_ffff) << 5 == 0
    ensures x == 0
  {
  }

  lemma NoFeedback()
    ensures Mixed(0) == 0
  {
  }

  /** Distinct states stay distinct under the same symbol. */
  lemma StepIsInjective(a: bv32, b: bv32, v: Symbol)
    requires State(a) && State(b) && Step(a, v) == Step(b, v)
    ensures a == b
  {
    hide Step, Xor;
    StepIsLinear(a, b, v, v);
    assert v ^ v == 0;
    XorWithNothing(Step(a, v));
    XorIs(a, b);
    assert State(a ^ b);
    KernelIsZero(Xor(a, b));
    EqualIfXorIsZero(a, b);
  }

  /** Without its highest five bits a state only moves up. */
  lemma StepMovesUp(chk: bv32, v: Symbol)
    requires chk < 0x0200_0000
    ensures Step(chk, v) == Xor(chk << 5, v as bv32)
  {
    hide Mixed, Xor;
    HighIsClear(chk);
    NoFeedback();
    XorWithNothing(Moved(chk, v));
  }

  lemma HighIsClear(chk: bv32)
    requires chk < 0x0200_0000
    ensures chk >> 25 == 0 && chk & 0x01ff_ffff == chk
  {
  }

  // ---------------------------------------------------------------- runs of steps

  /** The state after a run of symbols. */
  function Run(chk: bv32, values: seq<Symbol>): bv32
    decreases |values|
  {
    if values == [] then chk else Run(Step(chk, values[0]), values[1..])
  }

  /** `polymod`, as the loop. */
  method Polymod(values: seq<Symbol>) returns (chk: bv32)
    ensures chk == Run(1, values)
  {
    hide Step;
    chk := 1;
    for i := 0 to |values|
      invariant Run(1, values) == Run(chk, values[i..])
    {
      assert values[i..][1..] == values[i + 1..];
      chk := Step(chk, values[i]);
    }
  }

  lemma {:induction false} RunConcat(chk: bv32, a: seq<Symbol>, b: seq<Symbol>)
    ensures Run(chk, a + b) == Run(Run(chk, a), b)
    decreases |a|
  {
    hide Step;
    if a == [] {
      assert a + b == b;
    } else {
      assert (a + b)[1..] == a[1..] + b;
      RunConcat(Step(chk, a[0]), a[1..], b);
    }
  }

  lemma {:induction false} RunKeepsState(chk: bv32, values: seq<Symbol>)
    requires State(chk)
    ensures State(Run(chk, values))
    decreases |values|
  {
    hide Step, State;
    if values != [] {
      StepKeepsState(chk, values[0]);
      RunKeepsState(Step(chk, values[0]), values[1..]);
    }
  }

  ghost function XorAll(v: seq<Symbol>, w: seq<Symbol>): (r: seq<Symbol>)
    requires |v| == |w|
  {
    seq(|v|, i requires 0 <= i < |v| => v[i] ^ w[i])
  }

  lemma {:induction false} RunIsLinear(a: bv32, b: bv32, v: seq<Symbol>, w: seq<Symbol>)
    requires |v| == |w|
    ensures Run(Xor(a, b), XorAll(v, w)) == Xor(Run(a, v), Run(b, w))
    decreases |v|
  {
    hide Step, Xor;
    if v != [] {
      StepIsLinear(a, b, v[0], w[0]);
      RunIsLinear(Step(a, v[0]), Step(b, w[0]), v[1..], w[1..]);
      assert XorAll(v, w)[1..] == XorAll(v[1..], w[1..]);
    }
  }

  /** Distinct states stay distinct. */
  lemma {:induction false} RunIsInjective(a: bv32, b: bv32, v: seq<Symbol>)
    requires State(a) && State(b) && Run(a, v) == Run(b, v)
    ensures a == b
    decreases |v|
  {
    hide Step, State;
    if v != [] {
      StepKeepsState(a, v[0]);
      StepKeepsState(b, v[0]);
      RunIsInjective(Step(a, v[0]), Step(b, v[0]), v[1..]);
      StepIsInjective(a, b, v[0]);
    }
  }

  // ---------------------------------------------------------------- the six check symbols

  /** The lowest five bits. */
  function Low(x: bv32): Symbol {
    (x & 0x1f) as bv5
  }

  /** The six groups of five bits, highest first. */
  function Digits(x: bv32): (r: seq<Symbol>)
    ensures |r| == 6
  {
    [Low(x >> 25), Low(x >> 20), Low(x >> 15), Low(x >> 10), Low(x >> 5), Low(x)]
  }

  function Upper(x: bv32): bv32 {
    x >> 5
  }

  /** Feeding the lowest five bits after the others gives the number. */
  lemma FeedLow(x: bv32)
    requires Upper(x) < 0x0200_0000
    ensures Step(Upper(x), Low(x)) == x
  {
    hide Step, Xor, Low, Upper;
    StepMovesUp(Upper(x), Low(x));
    LowRejoins(x);
  }

  lemma LowRejoins(x: bv32)
    ensures Xor(Upper(x) << 5, Low(x) as bv32) == x
  {
  }

  lemma Shifts(x: bv32)
    ensures x >> 5 == Upper(x) && x >> 10 == Upper(x >> 5) && x >> 15 == Upper(x >> 10)
    ensures x >> 20 == Upper(x >> 15) && x >> 25 == Upper(x >> 20)
  {
    hide Upper;
    assert x >> 5 == Upper(x) by { UpperIs(x); }
    Shift10(x);
    Shift15(x);
    Shift20(x);
    Shift25(x);
  }

  lemma UpperIs(x: bv32)
    ensures Upper(x) == x >> 5
  {
  }

  lemma Shift10(x: bv32)
    ensures x >> 10 == Upper(x >> 5)
  {
  }

  lemma Shift15(x: bv32)
    ensures x >> 15 == Upper(x >> 10)
  {
  }

  lemma Shift20(x: bv32)
    ensures x >> 20 == Upper(x >> 15)
  {
  }

  lemma Shift25(x: bv32)
    ensures x >> 25 == Upper(x >> 20)
  {
  }

  lemma UpperBounds(x: bv32)
    ensures State(x) ==> Upper(x) < 0x0200_0000
    ensures x < 0x0200_0000 ==> State(x)
    ensures State(x) ==> Upper(Upper(Upper(Upper(Upper(Upper(x)))))) == 0
  {
  }

  /** From zero the digits of a state rebuild it. */
  lemma DigitsRebuild(x: bv32)
    requires State(x)
    ensures Run(0, Digits(x)) == x
  {
    hide Step, Low, State, Upper, Run;
    Shifts(x);
    var a, b, c, d, e := Upper(x), Upper(Upper(x)), Upper(Upper(Upper(x))), Upper(Upper(Upper(Upper(x)))),
      Upper(Upper(Upper(Upper(Upper(x)))));
    UpperBounds(x);
    UpperBounds(a);
    UpperBounds(b);
    UpperBounds(c);
    UpperBounds(d);
    UpperBounds(e);
    FeedLow(x);
    FeedLow(a);
    FeedLow(b);
    FeedLow(c);
    FeedLow(d);
    FeedLow(e);
    RunSix(0, Low(e), Low(d), Low(c), Low(b), Low(a), Low(x));
  }

  lemma RunSix(s: bv32, a: Symbol, b: Symbol, c: Symbol, d: Symbol, e: Symbol, f: Symbol)
    ensures Run(s, [a, b, c, d, e, f]) == Step(Step(Step(Step(Step(Step(s, a), b), c), d), e), f)
  {
    hide Step;
    RunThree(s, a, b, c);
    RunThree(Run(s, [a, b, c]), d, e, f);
    assert [a, b, c] + [d, e, f] == [a, b, c, d, e, f];
    RunConcat(s, [a, b, c], [d, e, f]);
  }

  lemma RunThree(s: bv32, a: Symbol, b: Symbol, c: Symbol)
    ensures Run(s, [a, b, c]) == Step(Step(Step(s, a), b), c)
  {
    hide Step;
    assert [a, b, c][1..] == [b, c] && [b, c][1..] == [c] && [c][1..] == [];
    assert Run(Step(Step(s, a), b), [c]) == Run(Step(Step(Step(s, a), b), c), []);
  }

  const ZEROS: seq<Symbol> := [0, 0, 0, 0, 0, 0]

  function Constant(variant: Variant): (c: bv32)
    ensures State(c)
  {
    match variant
    case Bech32 => 1
    case Bech32m => 0x2bc8_30a3
  }

  /** `from_remainder` */
  function FromRemainder(c: bv32): Option<Variant> {
    if c == 1 then Some(Bech32) else if c == 0x2bc8_30a3 then Some(Bech32m) else None
  }

  /** The check symbols written in state `chk`. */
  function CheckSymbols(chk: bv32, variant: Variant): (r: seq<Symbol>)
    ensures |r| == 6
  {
    Digits(Xor(Run(chk, ZEROS), Constant(variant)))
  }

  /** They bring the checksum to the constant of the variant. */
  lemma CheckSymbolsComplete(chk: bv32, variant: Variant)
    requires State(chk)
    ensures Run(chk, CheckSymbols(chk, variant)) == Constant(variant)
  {
    hide Run, Digits, Xor, Constant;
    var end, c := Run(chk, ZEROS), Constant(variant);
    var plm := Xor(end, c);
    var symbols := Digits(plm);
    RunKeepsState(chk, ZEROS);
    XorOfStates(end, c);
    DigitsRebuild(plm);
    RunIsLinear(chk, 0, ZEROS, symbols);
    XorWithNothing(chk);
    ZerosDoNothing(symbols);
    XorTwice(end, c);
  }

  lemma ZerosDoNothing(symbols: seq<Symbol>)
    requires |symbols| == 6
    ensures XorAll(ZEROS, symbols) == symbols
  {
    assert forall i :: 0 <= i < 6 ==> ZEROS[i] ^ symbols[i] == symbols[i];
  }

  lemma XorOfStates(a: bv32, b: bv32)
    requires State(a) && State(b)
    ensures State(Xor(a, b))
  {
  }

  lemma XorTwice(a: bv32, b: bv32)
    ensures Xor(a, Xor(a, b)) == b
  {
  }

  // ---------------------------------------------------------------- characters

  const CHARSET: string := "qpzry9x8gf2tvdw0s3jn54khce6mua7l"

  const REV_48: seq<int> := [15, -1, 10, 17, 21, 20, 26, 30, 7, 5, -1, -1, -1, -1, -1, -1]
  const REV_64: seq<int> := [-1, 29, -1, 24, 13, 25, 9, 8, 23, -1, 18, 22, 31, 27, 19, -1]
  const REV_80: seq<int> := [1, 0, 3, 16, 11, 28, 12, 14, 6, 4, 2, -1, -1, -1, -1, -1]
  const REV_96: seq<int> := [-1, 29, -1, 24, 13, 25, 9, 8, 23, -1, 18, 22, 31, 27, 19, -1]
  const REV_112: seq<int> := [1, 0, 3, 16, 11, 28, 12, 14, 6, 4, 2, -1, -1, -1, -1, -1]

  /** The reverse character set; characters it does not hold have -1. */
  function CharsetRev(c: nat): int
    requires c < 128
  {
    if c < 48 then -1
    else if c < 64 then REV_48[c - 48]
    else if c < 80 then REV_64[c - 64]
    else if c < 96 then REV_80[c - 80]
    else if c < 112 then REV_96[c - 96]
    else REV_112[c - 112]
  }

  const SEP: char := '1'

  function ToChar(v: Symbol): char {
    CHARSET[v as nat]
  }

  predicate IsLower(c: char) { 'a' <= c <= 'z' }

  predicate IsUpper(c: char) { 'A' <= c <= 'Z' }

  lemma CharsetAt(k: nat)
    requires k < 32
    ensures |CHARSET| == 32
    ensures var c := CHARSET[k]; c < 128 as char && c != SEP && !IsUpper(c) && CharsetRev(c as int) == k
  {
    match k
    case 0 => case 1 => case 2 => case 3 => case 4 => case 5 => case 6 => case 7 =>
    case 8 => case 9 => case 10 => case 11 => case 12 => case 13 => case 14 => case 15 =>
    case 16 => case 17 => case 18 => case 19 => case 20 => case 21 => case 22 => case 23 =>
    case 24 => case 25 => case 26 => case 27 => case 28 => case 29 => case 30 => case 31 =>
  }

  /** The symbol a character of the data part stands for. */
  function FromChar(c: char): Option<Symbol> {
    if c >= 128 as char then None
    else
      var k := CharsetRev(c as int);
      if 0 <= k <= 31 then Some(k as bv5) else None
  }

  lemma CharRoundTrip(v: Symbol)
    ensures var c := ToChar(v); c < 128 as char && c != SEP && !IsUpper(c) && FromChar(c) == Some(v)
  {
    hide CharsetRev;
    var k := v as nat;
    SymbolBelow(v);
    CharsetAt(k);
  }

  lemma SymbolBelow(v: Symbol)
    ensures (v as nat) < 32 && (v as nat) as bv5 == v
  {
  }

  function Chars(data: seq<Symbol>): (r: string)
    ensures |r| == |data|
  {
    seq(|data|, i requires 0 <= i < |data| => ToChar(data[i]))
  }

  // ---------------------------------------------------------------- the human-readable part

  datatype Case = Upper | Lower | NoCase

  /** The scan of `check_hrp` from some character on. */
  function CheckChars(hrp: string, hasLower: bool, hasUpper: bool): Result<Case, Error>
    requires !(hasLower && hasUpper)
  {
    if hrp == [] then Ok(if hasUpper then Case.Upper else if hasLower then Lower else NoCase)
    else
      var b := hrp[0];
      if !(33 as char <= b <= 126 as char) then Err(InvalidChar(b))
      else
        var lower, upper := hasLower || IsLower(b), hasUpper || IsUpper(b);
        if lower && upper then Err(MixedCase) else CheckChars(hrp[1..], lower, upper)
  }

  /** `check_hrp` */
  function CheckHrp(hrp: string): Result<Case, Error> {
    if |hrp| == 0 || |hrp| > 83 then Err(InvalidLength) else CheckChars(hrp, false, false)
  }

  function ToLower(c: char): char {
    if IsUpper(c) then (c as int + 32) as char else c
  }

  function Lowercase(s: string): (r: string)
    ensures |r| == |s|
  {
    seq(|s|, i requires 0 <= i < |s| => ToLower(s[i]))
  }

  /** Lower case has no upper-case letters, and nothing else changes in the scan. */
  lemma {:induction false} LowercaseChecks(hrp: string, hasLower: bool, hasUpper: bool)
    requires !(hasLower && hasUpper) && CheckChars(hrp, hasLower, hasUpper).Ok?
    ensures var r := CheckChars(Lowercase(hrp), hasLower || hasUpper, false); r.Ok? && r.value != Case.Upper
    decreases |hrp|
  {
    if hrp != [] {
      var b := hrp[0];
      var lower, upper := hasLower || IsLower(b), hasUpper || IsUpper(b);
      assert Lowercase(hrp)[0] == ToLower(b) && Lowercase(hrp)[1..] == Lowercase(hrp[1..]);
      LowercaseChecks(hrp[1..], lower, upper);
    }
  }

  /** Without upper-case letters lower case is the same string. */
  lemma {:induction false} AlreadyLower(hrp: string, hasLower: bool)
    requires CheckChars(hrp, hasLower, false).Ok? && CheckChars(hrp, hasLower, false).value != Case.Upper
    ensures Lowercase(hrp) == hrp
    decreases |hrp|
  {
    if hrp != [] {
      var b := hrp[0];
      if IsUpper(b) {
        StaysUpper(hrp[1..]);
      } else {
        AlreadyLower(hrp[1..], hasLower || IsLower(b));
        assert Lowercase(hrp) == [ToLower(b)] + Lowercase(hrp[1..]);
      }
    }
  }

  lemma {:induction false} StaysUpper(hrp: string)
    requires CheckChars(hrp, false, true).Ok?
    ensures CheckChars(hrp, false, true).value == Case.Upper
    decreases |hrp|
  {
    if hrp != [] {
      StaysUpper(hrp[1..]);
    }
  }

  /** The human-readable part as it is written and returned: in lower case. */
  lemma LowerHrp(hrp: string)
    requires CheckHrp(hrp).Ok?
    ensures var lower := if CheckHrp(hrp).value == Case.Upper then Lowercase(hrp) else hrp;
      && lower == Lowercase(hrp) && CheckHrp(lower).Ok? && CheckHrp(lower).value != Case.Upper
  {
    hide CheckChars;
    LowercaseChecks(hrp, false, false);
    if CheckHrp(hrp).value != Case.Upper {
      AlreadyLower(hrp, false);
    }
  }

  /** `hrp_expand` */
  function HrpExpand(hrp: string): (r: seq<Symbol>)
    requires forall i :: 0 <= i < |hrp| ==> hrp[i] < 128 as char
    ensures |r| == 2 * |hrp| + 1
  {
    seq(|hrp|, i requires 0 <= i < |hrp| => (hrp[i] as int / 32) as bv5)
    + [0]
    + seq(|hrp|, i requires 0 <= i < |hrp| => (hrp[i] as int % 32) as bv5)
  }

  lemma {:induction false} CheckedIsAscii(hrp: string, hasLower: bool, hasUpper: bool)
    requires !(hasLower && hasUpper) && CheckChars(hrp, hasLower, hasUpper).Ok?
    ensures forall i :: 0 <= i < |hrp| ==> hrp[i] < 128 as char
    decreases |hrp|
  {
    if hrp != [] {
      var b := hrp[0];
      CheckedIsAscii(hrp[1..], hasLower || IsLower(b), hasUpper || IsUpper(b));
      assert hrp == [b] + hrp[1..];
    }
  }

  // ---------------------------------------------------------------- encode and decode

  /** `encode` */
  function Encode(hrp: string, data: seq<Symbol>, variant: Variant): Result<string, Error> {
    match CheckHrp(hrp)
    case Err(e) => Err(e)
    case Ok(c) =>
      LowerHrp(hrp);
      var lower := if c == Case.Upper then Lowercase(hrp) else hrp;
      CheckedIsAscii(lower, false, false);
      var chk := Run(Run(1, HrpExpand(lower)), data);
      Ok(lower + [SEP] + Chars(data) + Chars(CheckSymbols(chk, variant)))
  }

  /** `rfind` of the separator. */
  function LastSeparator(s: string): (r: Option<nat>)
    ensures r.Some? ==> r.value < |s|
  {
    if s == [] then None
    else if s[|s| - 1] == SEP then Some(|s| - 1)
    else LastSeparator(s[..|s| - 1])
  }

  /** The data part, with the case of what came before it. */
  function DecodeChars(s: string, c: Case): Result<seq<Symbol>, Error>
    decreases |s|
  {
    if s == [] then Ok([])
    else
      var first := s[0];
      if first >= 128 as char then Err(InvalidChar(first))
      else if (IsLower(first) && c == Case.Upper) || (IsUpper(first) && c == Lower) then Err(MixedCase)
      else
        var c' := if IsLower(first) then Lower else if IsUpper(first) then Case.Upper else c;
        match FromChar(first)
        case None => Err(InvalidChar(first))
        case Some(v) =>
          match DecodeChars(s[1..], c')
          case Err(e) => Err(e)
          case Ok(rest) => Ok([v] + rest)
  }

  /** `split_and_decode` */
  function SplitAndDecode(s: string): Result<(string, seq<Symbol>), Error> {
    match LastSeparator(s)
    case None => Err(MissingSeparator)
    case Some(at) =>
      var rawHrp, rawData := s[..at], s[at + 1..];
      match CheckHrp(rawHrp)
      case Err(e) => Err(e)
      case Ok(c) =>
        match DecodeChars(rawData, c)
        case Err(e) => Err(e)
        case Ok(data) => Ok((if c == Case.Upper then Lowercase(rawHrp) else rawHrp, data))
  }

  /** `verify_checksum` */
  function VerifyChecksum(hrp: string, data: seq<Symbol>): Option<Variant>
    requires forall i :: 0 <= i < |hrp| ==> hrp[i] < 128 as char
  {
    FromRemainder(Run(1, HrpExpand(hrp) + data))
  }

  lemma SplitIsAscii(s: string)
    requires SplitAndDecode(s).Ok?
    ensures var hrp := SplitAndDecode(s).value.0; forall i :: 0 <= i < |hrp| ==> hrp[i] < 128 as char
  {
    hide CheckChars, DecodeChars;
    var hrp := s[..LastSeparator(s).value];
    LowerHrp(hrp);
    CheckedIsAscii(SplitAndDecode(s).value.0, false, false);
  }

  /** `decode` */
  function Decode(s: string): Result<(string, seq<Symbol>, Variant), Error> {
    match SplitAndDecode(s)
    case Err(e) => Err(e)
    case Ok((hrp, data)) =>
      SplitIsAscii(s);
      if |data| < 6 then Err(InvalidLength)
      else
        match VerifyChecksum(hrp, data)
        case None => Err(InvalidChecksum)
        case Some(variant) => Ok((hrp, data[..|data| - 6], variant))
  }

  // ---------------------------------------------------------------- the writer

  lemma XorAssociates(a: bv32, b: bv32, c: bv32)
    ensures Xor(Xor(a, b), c) == Xor(a, Xor(b, c))
  {
  }

  /** The coefficients taken in one after the other. */
  lemma OneByOne(m: bv32, t0: bv32, t1: bv32, t2: bv32, t3: bv32, t4: bv32)
    ensures Xor(Xor(Xor(Xor(Xor(m, t0), t1), t2), t3), t4) == Xor(m, Xor(Xor(Xor(Xor(t0, t1), t2), t3), t4))
  {
    hide Xor;
    XorAssociates(m, t0, t1);
    XorAssociates(m, Xor(t0, t1), t2);
    XorAssociates(m, Xor(Xor(t0, t1), t2), t3);
    XorAssociates(m, Xor(Xor(Xor(t0, t1), t2), t3), t4);
  }

  /** `Bech32Writer`, writing to a string. */
  class Bech32Writer {
    var formatter: string
    var chk: bv32
    const variant: Variant

    constructor (hrp: string, variant: Variant)
      requires forall i :: 0 <= i < |hrp| ==> hrp[i] < 128 as char
      ensures formatter == hrp + [SEP] && chk == Run(1, HrpExpand(hrp)) && this.variant == variant
    {
      this.variant := variant;
      chk := 1;
      formatter := hrp + [SEP];
      new;
      hide Run, Step;
      ghost var h := HrpExpand(hrp);
      RunNone(1);
      assert h[..0] == [];
      for i := 0 to |hrp|
        invariant chk == Run(1, h[..i]) && formatter == hrp + [SEP]
      {
        RunSnoc(1, h, i);
        PolymodStep((hrp[i] as int / 32) as bv5);
      }
      RunSnoc(1, h, |hrp|);
      PolymodStep(0);
      for i := 0 to |hrp|
        invariant chk == Run(1, h[..|hrp| + 1 + i]) && formatter == hrp + [SEP]
      {
        RunSnoc(1, h, |hrp| + 1 + i);
        PolymodStep((hrp[i] as int % 32) as bv5);
      }
      assert h[..|h|] == h;
    }

    method PolymodStep(v: Symbol)
      modifies this`chk
      ensures chk == Step(old(chk), v)
    {
      hide Xor, Tap;
      var b := chk >> 25;
      ghost var m := Moved(chk, v);
      chk := Moved(chk, v);
      chk := Xor(chk, Tap(b, 1, GEN0));
      chk := Xor(chk, Tap(b, 2, GEN1));
      chk := Xor(chk, Tap(b, 4, GEN2));
      chk := Xor(chk, Tap(b, 8, GEN3));
      chk := Xor(chk, Tap(b, 16, GEN4));
      OneByOne(m, Tap(b, 1, GEN0), Tap(b, 2, GEN1), Tap(b, 4, GEN2), Tap(b, 8, GEN3), Tap(b, 16, GEN4));
    }

    /** `write_u5` */
    method WriteU5(v: Symbol)
      modifies this
      ensures chk == Step(old(chk), v) && formatter == old(formatter) + [ToChar(v)]
    {
      PolymodStep(v);
      formatter := formatter + [ToChar(v)];
    }

    /** `write_checksum` */
    method WriteChecksum()
      modifies this
      ensures formatter == old(formatter) + Chars(CheckSymbols(old(chk), variant))
    {
      hide Run, Step, Digits, Xor, ToChar;
      ghost var c := chk;
      RunNone(c);
      assert ZEROS[..0] == [];
      for i := 0 to 6
        invariant chk == Run(c, ZEROS[..i]) && formatter == old(formatter)
      {
        RunSnoc(c, ZEROS, i);
        PolymodStep(0);
      }
      assert ZEROS[..6] == ZEROS;
      var symbols := Digits(Xor(chk, Constant(variant)));
      for p := 0 to 6
        invariant formatter == old(formatter) + Chars(symbols)[..p]
      {
        formatter := formatter + [ToChar(symbols[p])];
      }
    }
  }

  lemma RunNone(chk: bv32)
    ensures Run(chk, []) == chk
  {
  }

  lemma RunSnoc(chk: bv32, values: seq<Symbol>, i: nat)
    requires i < |values|
    ensures Run(chk, values[..i + 1]) == Step(Run(chk, values[..i]), values[i])
  {
    hide Step;
    assert values[..i + 1] == values[..i] + [values[i]];
    RunConcat(chk, values[..i], [values[i]]);
    assert [values[i]][1..] == [];
  }

  /** `encode`, through the writer. */
  method EncodeString(hrp: string, data: seq<Symbol>, variant: Variant) returns (r: Result<string, Error>)
    ensures r == Encode(hrp, data, variant)
  {
    hide CheckHrp, Run, Step, CheckSymbols, HrpExpand, ToChar, Lowercase;
    var checked := CheckHrp(hrp);
    if checked.Err? {
      return Err(checked.error);
    }
    LowerHrp(hrp);
    var lower := if checked.value == Case.Upper then Lowercase(hrp) else hrp;
    CheckedHrpIsAscii(lower);
    var writer := new Bech32Writer(lower, variant);
    ghost var c := writer.chk;
    RunNone(c);
    assert data[..0] == [];
    for i := 0 to |data|
      invariant writer.chk == Run(c, data[..i]) && writer.formatter == lower + [SEP] + Chars(data)[..i]
    {
      RunSnoc(c, data, i);
      writer.WriteU5(data[i]);
    }
    assert data[..|data|] == data && Chars(data)[..|data|] == Chars(data);
    assert writer.variant == variant;
    writer.WriteChecksum();
    assert writer.formatter == lower + [SEP] + Chars(data) + Chars(CheckSymbols(Run(c, data), variant));
    return Ok(writer.formatter);
  }

  lemma {:induction false} NoSeparatorAfter(s: string, at: nat)
    requires at < |s| && s[at] == SEP && forall i :: at < i < |s| ==> s[i] != SEP
    ensures LastSeparator(s) == Some(at)
    decreases |s|
  {
    if at < |s| - 1 {
      NoSeparatorAfter(s[..|s| - 1], at);
    }
  }

  lemma {:induction false} CharsDecode(data: seq<Symbol>, c: Case)
    requires c != Case.Upper
    ensures DecodeChars(Chars(data), c) == Ok(data)
    decreases |data|
  {
    hide ToChar, FromChar;
    if data != [] {
      CharRoundTrip(data[0]);
      assert Chars(data)[1..] == Chars(data[1..]);
      CharsDecode(data[1..], if IsLower(ToChar(data[0])) then Lower else c);
      assert [data[0]] + data[1..] == data;
    }
  }

  lemma CharsConcat(a: seq<Symbol>, b: seq<Symbol>)
    ensures Chars(a) + Chars(b) == Chars(a + b)
  {
  }

  lemma EncodedSplits(lower: string, symbols: seq<Symbol>)
    requires CheckHrp(lower).Ok? && CheckHrp(lower).value != Case.Upper
    ensures SplitAndDecode(lower + [SEP] + Chars(symbols)) == Ok((lower, symbols))
  {
    hide CheckHrp, DecodeChars, LastSeparator, ToChar;
    var s := lower + [SEP] + Chars(symbols);
    forall i | |lower| < i < |s| ensures s[i] != SEP {
      CharRoundTrip(symbols[i - |lower| - 1]);
    }
    NoSeparatorAfter(s, |lower|);
    assert s[..|lower|] == lower && s[|lower| + 1..] == Chars(symbols);
    CharsDecode(symbols, CheckHrp(lower).value);
  }

  lemma EncodedVerifies(lower: string, data: seq<Symbol>, variant: Variant)
    requires forall i :: 0 <= i < |lower| ==> lower[i] < 128 as char
    ensures var chk := Run(Run(1, HrpExpand(lower)), data);
      VerifyChecksum(lower, data + CheckSymbols(chk, variant)) == Some(variant)
  {
    hide Run, CheckSymbols, HrpExpand;
    var h := HrpExpand(lower);
    var chk := Run(Run(1, h), data);
    var check := CheckSymbols(chk, variant);
    RunConcat(1, h, data);
    RunConcat(1, h + data, check);
    assert h + data + check == h + (data + check);
    RunKeepsState(1, h + data);
    CheckSymbolsComplete(chk, variant);
  }

  /** Decoding an encoded string gives back the lowercased human-readable part, the data and the
      variant. */
  lemma RoundTrip(hrp: string, data: seq<Symbol>, variant: Variant)
    requires CheckHrp(hrp).Ok?
    ensures Encode(hrp, data, variant).Ok?
    ensures Decode(Encode(hrp, data, variant).value) == Ok((Lowercase(hrp), data, variant))
  {
    hide CheckHrp, Run, CheckSymbols, SplitAndDecode, VerifyChecksum, HrpExpand, Chars, Lowercase;
    LowerHrp(hrp);
    var lower := Lowercase(hrp);
    CheckedHrpIsAscii(lower);
    var check := CheckSymbols(Run(Run(1, HrpExpand(lower)), data), variant);
    CharsConcat(data, check);
    assert lower + [SEP] + Chars(data) + Chars(check) == lower + [SEP] + Chars(data + check);
    EncodedSplits(lower, data + check);
    EncodedVerifies(lower, data, variant);
    SixMore(data, check);
  }

  lemma CheckedHrpIsAscii(hrp: string)
    requires CheckHrp(hrp).Ok?
    ensures forall i :: 0 <= i < |hrp| ==> hrp[i] < 128 as char
  {
    CheckedIsAscii(hrp, false, false);
  }

  lemma SixMore(data: seq<Symbol>, check: seq<Symbol>)
    requires |check| == 6
    ensures (data + check)[..|data + check| - 6] == data
  {
  }

  // ---------------------------------------------------------------- what the checksum detects

  /** Runs that agree but for six consecutive symbols, and end in the same state, are the same. */
  lemma BurstIsSeen(chk: bv32, a: seq<Symbol>, b: seq<Symbol>, at: nat)
    requires State(chk) && |a| == |b| && at + 6 <= |a|
    requires a[..at] == b[..at] && a[at + 6..] == b[at + 6..] && Run(chk, a) == Run(chk, b)
    ensures a == b
  {
    hide Run, State;
    var s := Run(chk, a[..at]);
    var x, y := a[at..at + 6], b[at..at + 6];
    assert a == a[..at] + x + a[at + 6..] && b == b[..at] + y + b[at + 6..];
    RunConcat(chk, a[..at], x);
    RunConcat(chk, a[..at] + x, a[at + 6..]);
    RunConcat(chk, b[..at], y);
    RunConcat(chk, b[..at] + y, b[at + 6..]);
    RunKeepsState(chk, a[..at]);
    RunKeepsState(s, x);
    RunKeepsState(s, y);
    RunIsInjective(Run(s, x), Run(s, y), a[at + 6..]);
    SixAreSeen(s, x, y);
  }

  lemma SixAreSeen(s: bv32, x: seq<Symbol>, y: seq<Symbol>)
    requires |x| == |y| == 6 && Run(s, x) == Run(s, y)
    ensures x == y
  {
    hide Run, Xor;
    var d := XorAll(x, y);
    RunIsLinear(s, s, x, y);
    XorWithNothing(s);
    XorWithNothing(Run(s, x));
    SixFromZero(d);
    forall i | 0 <= i < 6 ensures x[i] == y[i] {
      assert d[i] == x[i] ^ y[i];
      SameSymbol(x[i], y[i]);
    }
  }

  /** Two data parts that are valid for one human-readable part and one variant, and differ only within
      six consecutive symbols, do not differ at all. */
  lemma BurstIsDetected(hrp: string, a: seq<Symbol>, b: seq<Symbol>, at: nat)
    requires forall i :: 0 <= i < |hrp| ==> hrp[i] < 128 as char
    requires |a| == |b| && at + 6 <= |a| && a[..at] == b[..at] && a[at + 6..] == b[at + 6..]
    requires VerifyChecksum(hrp, a).Some? && VerifyChecksum(hrp, a) == VerifyChecksum(hrp, b)
    ensures a == b
  {
    hide Run, HrpExpand;
    var h := HrpExpand(hrp);
    assert (h + a)[..|h| + at] == h + a[..at] && (h + b)[..|h| + at] == h + b[..at];
    assert (h + a)[|h| + at + 6..] == a[at + 6..] && (h + b)[|h| + at + 6..] == b[at + 6..];
    BurstIsSeen(1, h + a, h + b, |h| + at);
    assert a == (h + a)[|h|..] && b == (h + b)[|h|..];
  }

  /** One wrong symbol, anywhere in a data part of any length, is detected. */
  lemma SingleErrorIsDetected(hrp: string, a: seq<Symbol>, i: nat, v: Symbol)
    requires forall k :: 0 <= k < |hrp| ==> hrp[k] < 128 as char
    requires 6 <= |a| && i < |a| && v != a[i] && VerifyChecksum(hrp, a).Some?
    ensures VerifyChecksum(hrp, a[i := v]) != VerifyChecksum(hrp, a)
  {
    hide VerifyChecksum;
    var b := a[i := v];
    var at := if i + 6 <= |a| then i else |a| - 6;
    assert a[..at] == b[..at] && a[at + 6..] == b[at + 6..];
    if VerifyChecksum(hrp, b) == VerifyChecksum(hrp, a) {
      BurstIsDetected(hrp, a, b, at);
    }
  }

  lemma {:induction false} DecodedAt(s: string, c: Case)
    requires DecodeChars(s, c).Ok?
    ensures var data := DecodeChars(s, c).value;
      |data| == |s| && forall i :: 0 <= i < |s| ==> FromChar(s[i]) == Some(data[i])
    decreases |s|
  {
    hide FromChar;
    if s != [] {
      DecodedAt(s[1..], if IsLower(s[0]) then Lower else if IsUpper(s[0]) then Case.Upper else c);
    }
  }

  lemma {:induction false} SeparatorIsLast(s: string)
    requires LastSeparator(s).Some?
    ensures var at := LastSeparator(s).value; s[at] == SEP && forall i :: at < i < |s| ==> s[i] != SEP
    decreases |s|
  {
    if s[|s| - 1] != SEP {
      SeparatorIsLast(s[..|s| - 1]);
    }
  }

  /** What the characters behind the separator of a string decode to. */
  lemma SplitAt(s: string)
    requires SplitAndDecode(s).Ok?
    ensures LastSeparator(s).Some?
    ensures var at, data := LastSeparator(s).value, SplitAndDecode(s).value.1;
      |data| == |s| - at - 1 && forall i :: 0 <= i < |data| ==> FromChar(s[at + 1 + i]) == Some(data[i])
  {
    hide FromChar, DecodeChars, LastSeparator, CheckHrp;
    var at := LastSeparator(s).value;
    DecodedAt(s[at + 1..], CheckHrp(s[..at]).value);
  }

  /** Two strings that decode in one variant, with the same characters up to the separator, and differ
      only within six consecutive characters behind it, decode to the same. */
  lemma DecodeDetectsBurst(s: string, t: string, at: nat)
    requires Decode(s).Ok? && Decode(t).Ok? && Decode(s).value.2 == Decode(t).value.2
    requires LastSeparator(s) == LastSeparator(t) && LastSeparator(s).Some? && LastSeparator(s).value < at
    requires |s| == |t| && at + 6 <= |s| && forall i :: 0 <= i < |s| && !(at <= i < at + 6) ==> s[i] == t[i]
    ensures SplitAndDecode(s) == SplitAndDecode(t) && Decode(s) == Decode(t)
  {
    hide FromChar, DecodeChars, LastSeparator, CheckHrp, VerifyChecksum, Lowercase;
    var sep := LastSeparator(s).value;
    SplitAt(s);
    SplitAt(t);
    SplitIsAscii(s);
    assert s[..sep] == t[..sep];
    var a, b, from := SplitAndDecode(s).value.1, SplitAndDecode(t).value.1, at - sep - 1;
    forall i | 0 <= i < |a| && !(from <= i < from + 6) ensures a[i] == b[i] {
      assert FromChar(s[sep + 1 + i]) == FromChar(t[sep + 1 + i]);
    }
    assert a[..from] == b[..from] && a[from + 6..] == b[from + 6..];
    BurstIsDetected(SplitAndDecode(s).value.0, a, b, from);
  }

  /** One wrong character behind the separator of a valid string of any length leaves no valid string of
      the same variant, unless it stands for the same symbol or is a separator. */
  lemma DecodeDetectsOne(s: string, i: nat, c: char)
    requires Decode(s).Ok? && LastSeparator(s).Some? && LastSeparator(s).value < i < |s|
    requires c != SEP && FromChar(c) != FromChar(s[i])
    ensures Decode(s[i := c]).Ok? ==> Decode(s[i := c]).value.2 != Decode(s).value.2
  {
    hide FromChar, DecodeChars, LastSeparator, CheckHrp, VerifyChecksum, Lowercase, SplitAndDecode;
    var t, sep := s[i := c], LastSeparator(s).value;
    SeparatorIsLast(s);
    NoSeparatorAfter(t, sep);
    RoomForChecksum(s);
    if Decode(t).Ok? && Decode(t).value.2 == Decode(s).value.2 {
      DecodeDetectsBurst(s, t, if i + 6 <= |s| then i else |s| - 6);
      SameSymbolAt(s, t, i);
    }
  }

  lemma SameSymbolAt(s: string, t: string, i: nat)
    requires SplitAndDecode(s).Ok? && SplitAndDecode(s) == SplitAndDecode(t)
    requires LastSeparator(s).Some? && LastSeparator(s) == LastSeparator(t) && LastSeparator(s).value < i < |s|
    ensures |t| == |s| && FromChar(s[i]) == FromChar(t[i])
  {
    hide FromChar, LastSeparator, SplitAndDecode;
    var k := i - LastSeparator(s).value - 1;
    SplitAt(s);
    SplitAt(t);
    var data := SplitAndDecode(s).value.1;
    assert FromChar(s[LastSeparator(s).value + 1 + k]) == Some(data[k]) == FromChar(t[LastSeparator(s).value + 1 + k]);
  }

  lemma RoomForChecksum(s: string)
    requires Decode(s).Ok?
    ensures LastSeparator(s).Some? && LastSeparator(s).value + 7 <= |s|
  {
    hide SplitAndDecode, LastSeparator, VerifyChecksum;
    SplitAt(s);
  }

  lemma SameSymbol(v: Symbol, w: Symbol)
    requires v ^ w == 0
    ensures v == w
  {
  }

  /** Six symbols that lead from zero to zero are all zero. */
  lemma SixFromZero(d: seq<Symbol>)
    requires |d| == 6 && Run(0, d) == 0
    ensures forall i :: 0 <= i < 6 ==> d[i] == 0
  {
    hide Step;
    assert d == [d[0], d[1], d[2], d[3], d[4], d[5]];
    RunSix(0, d[0], d[1], d[2], d[3], d[4], d[5]);
    var s1 := Step(0, d[0]);
    var s2 := Step(s1, d[1]);
    var s3 := Step(s2, d[2]);
    var s4 := Step(s3, d[3]);
    var s5 := Step(s4, d[4]);
    GrowsFrom(0, 0, d[0], s1);
    GrowsFrom(5, s1, d[1], s2);
    GrowsFrom(10, s2, d[2], s3);
    GrowsFrom(15, s3, d[3], s4);
    GrowsFrom(20, s4, d[4], s5);
    GrowsFrom(25, s5, d[5], 0);
  }

  /** A state of at most 25 bits takes a symbol in without losing anything. */
  lemma GrowsFrom(bits: nat, chk: bv32, v: Symbol, next: bv32)
    requires bits in {0, 5, 10, 15, 20, 25} && chk < (1 as bv32) << bits && next == Step(chk, v)
    ensures bits < 25 ==> next < (1 as bv32) << (bits + 5)
    ensures next == 0 ==> chk == 0 && v == 0
  {
  }
}
