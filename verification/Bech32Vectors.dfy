/** Published strings of both variants, which fix the generators, the constants and the characters. */
module Bech32Vectors {
  import opened Common
  import opened Bech32
  import opened Bech32Strings

  /** A run is known from the states along it. */
  lemma {:induction false} RunAlong(values: seq<Symbol>, states: seq<bv32>)
    requires |states| == |values| + 1 && forall i :: 0 <= i < |values| ==> Step(states[i], values[i]) == states[i + 1]
    ensures Run(states[0], values) == states[|values|]
    decreases |values|
  {
    hide Step;
    if values != [] {
      assert forall i :: 0 <= i < |values[1..]| ==> states[1..][i] == states[i + 1] && values[1..][i] == values[i + 1];
      RunAlong(values[1..], states[1..]);
    }
  }

  lemma RunTwo(chk: bv32, a: seq<Symbol>, b: seq<Symbol>, both: seq<Symbol>)
    requires a + b == both
    ensures Run(chk, both) == Run(Run(chk, a), b)
  {
    hide Run;
    RunConcat(chk, a, b);
  }

  lemma DecodesWith(s: string, hrp: string, symbols: seq<Symbol>, data: seq<Symbol>, variant: Variant)
    requires CheckHrp(hrp).Ok? && NoUpper(hrp) && OneCase(s) && Ascii(hrp)
    requires 6 <= |symbols| && symbols[..|symbols| - 6] == data
    requires Lowercase(s) == hrp + [SEP] + Chars(symbols) && Run(Run(1, HrpExpand(hrp)), symbols) == Constant(variant)
    ensures Decode(s) == Ok((hrp, data, variant))
  {
    hide SplitAndDecode, Run, HrpExpand, CheckHrp, Lowercase, Chars, NoUpper, OneCase;
    SplitsSo(s, hrp, symbols);
    RunConcat(1, HrpExpand(hrp), symbols);
  }

  lemma ShortBech32Hrp1()
    ensures Run(0x1, [3, 0, 1]) == 0x8c01
  {
    RunAlong([3, 0, 1], [0x1, 0x23, 0x460, 0x8c01]);
  }

  lemma ShortBech32Data1()
    ensures Run(0x8c01, [10, 28, 25, 31, 20]) == 0x24622766
  {
    RunAlong([10, 28, 25, 31, 20], [0x8c01, 0x11802a, 0x230055c, 0x3d6afc2b, 0x2f84386, 0x24622766]);
  }

  lemma ShortBech32Data2()
    ensures Run(0x24622766, [31]) == 0x1
  {
    RunAlong([31], [0x24622766, 0x1]);
  }

  lemma ShortBech32Sum()
    ensures Ascii("a") && Run(Run(1, HrpExpand("a")), [10, 28, 25, 31, 20, 31]) == Constant(Bech32)
  {
    hide Run, Step;
    assert HrpExpand("a") == [3, 0, 1];
    ShortBech32Hrp1();
    ShortBech32Data1();
    ShortBech32Data2();
    RunTwo(0x8c01, [10, 28, 25, 31, 20], [31], [10, 28, 25, 31, 20, 31]);
  }

  lemma ShortBech32Chars()
    ensures Lowercase("A12UEL5L") == "a" + [SEP] + Chars([10, 28, 25, 31, 20, 31])
  {
    assert Lowercase("A12UEL5L") == "a12uel5l";
    assert Chars([10, 28, 25, 31, 20, 31]) == "2uel5l";
  }

  /** The shortest published string of the first variant. */
  lemma ShortBech32()
    ensures Decode("A12UEL5L") == Ok(("a", [], Bech32))
  {
    hide Run, HrpExpand, Lowercase, Chars, Decode;
    ShortBech32Sum();
    ShortBech32Chars();
    assert CheckHrp("a").Ok? by { assert "a"[1..] == ""; }
    DecodesWith("A12UEL5L", "a", [10, 28, 25, 31, 20, 31], [], Bech32);
  }

  lemma ShortBech32mHrp1()
    ensures Run(0x1, [3, 0, 1]) == 0x8c01
  {
    RunAlong([3, 0, 1], [0x1, 0x23, 0x460, 0x8c01]);
  }

  lemma ShortBech32mData1()
    ensures Run(0x8c01, [31, 0, 9, 19, 17]) == 0x253c66e3
  {
    RunAlong([31, 0, 9, 19, 17], [0x8c01, 0x11803f, 0x23007e0, 0x3d6aabbb, 0x2f2b18a, 0x253c66e3]);
  }

  lemma ShortBech32mData2()
    ensures Run(0x253c66e3, [29]) == 0x2bc830a3
  {
    RunAlong([29], [0x253c66e3, 0x2bc830a3]);
  }

  lemma ShortBech32mSum()
    ensures Ascii("a") && Run(Run(1, HrpExpand("a")), [31, 0, 9, 19, 17, 29]) == Constant(Bech32m)
  {
    hide Run, Step;
    assert HrpExpand("a") == [3, 0, 1];
    ShortBech32mHrp1();
    ShortBech32mData1();
    ShortBech32mData2();
    RunTwo(0x8c01, [31, 0, 9, 19, 17], [29], [31, 0, 9, 19, 17, 29]);
  }

  lemma ShortBech32mChars()
    ensures Lowercase("A1LQFN3A") == "a" + [SEP] + Chars([31, 0, 9, 19, 17, 29])
  {
    assert Lowercase("A1LQFN3A") == "a1lqfn3a";
    assert Chars([31, 0, 9, 19, 17, 29]) == "lqfn3a";
  }

  /** And of the second. */
  lemma ShortBech32m()
    ensures Decode("A1LQFN3A") == Ok(("a", [], Bech32m))
  {
    hide Run, HrpExpand, Lowercase, Chars, Decode;
    ShortBech32mSum();
    ShortBech32mChars();
    assert CheckHrp("a").Ok? by { assert "a"[1..] == ""; }
    DecodesWith("A1LQFN3A", "a", [31, 0, 9, 19, 17, 29], [], Bech32m);
  }

  /** The 32 symbols in order, and six that check them for "abcdef", in two halves. */
  function FirstHalf(): seq<Symbol> {
    [0, 1, 2, 3, 4, 5, 6, 7, 8, 9, 10, 11, 12, 13, 14, 15, 16, 17, 18]
  }

  function SecondHalf(): seq<Symbol> {
    [19, 20, 21, 22, 23, 24, 25, 26, 27, 28, 29, 30, 31, 27, 0, 0, 0, 6, 14]
  }

  lemma CharsTwo(a: seq<Symbol>, b: seq<Symbol>, both: seq<Symbol>, first: string, second: string, joined: string)
    requires a + b == both && first + second == joined && Chars(a) == first && Chars(b) == second
    ensures Chars(both) == joined
  {
    hide Chars;
    CharsConcat(a, b);
  }

  lemma AlphabetHrp1()
    ensures Run(0x1, [3, 3, 3, 3, 3, 3, 0]) == 0x4dcbcd9
  {
    RunAlong([3, 3, 3, 3, 3, 3, 0], [0x1, 0x23, 0x463, 0x8c63, 0x118c63, 0x2318c63, 0x3d5bdbd1, 0x4dcbcd9]);
  }

  lemma AlphabetHrp2()
    ensures Run(0x4dcbcd9, [1, 2, 3, 4, 5, 6]) == 0x3be80e6a
  {
    RunAlong([1, 2, 3, 4, 5, 6], [0x4dcbcd9, 0x3dc7154c, 0x17456f7b, 0x8d50561, 0x401b5de, 0x266635a8, 0x3be80e6a]);
  }

  lemma FirstHalf1()
    ensures Run(0x3be80e6a, [0, 1, 2, 3, 4, 5, 6]) == 0x12be0710
  {
    RunAlong([0, 1, 2, 3, 4, 5, 6],
             [0x3be80e6a, 0xf9cd266, 0x30018ce4, 0x1767cdec, 0xc815781, 0x28db67b3, 0x2fd98d2c, 0x12be0710]);
  }

  lemma FirstHalf2()
    ensures Run(0x12be0710, [7, 8, 9, 10, 11, 12, 13]) == 0x212c0d6a
  {
    RunAlong([7, 8, 9, 10, 11, 12, 13],
             [0x12be0710, 0x11e88668, 0x52fed5, 0xa5fdaa9, 0x2e301b62, 0x2f8ccedd, 0x1816793a, 0x212c0d6a]);
  }

  lemma FirstHalf3()
    ensures Run(0x212c0d6a, [14, 15, 16, 17, 18]) == 0x29be197
  {
    RunAlong([14, 15, 16, 17, 18], [0x212c0d6a, 0xf95cffd, 0x31223f8a, 0x3311a03e, 0xe08010d, 0x29be197]);
  }

  lemma SecondHalf1()
    ensures Run(0x29be197, [19, 20, 21, 22, 23, 24, 25]) == 0x3f0597ac
  {
    RunAlong([19, 20, 21, 22, 23, 24, 25],
             [0x29be197, 0x28166541, 0x3679d37d, 0x556e704, 0xc8c6efb, 0x297c48e0, 0x1b3c6751, 0x3f0597ac]);
  }

  lemma SecondHalf2()
    ensures Run(0x3f0597ac, [26, 27, 28, 29, 30, 31, 27]) == 0x192fb74e
  {
    RunAlong([26, 27, 28, 29, 30, 31, 27],
             [0x3f0597ac, 0x347f64d1, 0x3eea4538, 0x9853657, 0x2e07d307, 0x2975c268, 0x1a0d3656, 0x192fb74e]);
  }

  lemma SecondHalf3()
    ensures Run(0x192fb74e, [0, 0, 0, 6, 14]) == 0x1
  {
    RunAlong([0, 0, 0, 6, 14], [0x192fb74e, 0x615c3e7, 0x1f82a53f, 0xe8d5418, 0x12314323, 0x1]);
  }

  lemma FirstHalfRun()
    ensures Run(0x3be80e6a, FirstHalf()) == 0x29be197
  {
    hide Run, Step;
    FirstHalf1();
    FirstHalf2();
    FirstHalf3();
    RunTwo(0x3be80e6a, [0, 1, 2, 3, 4, 5, 6], [7, 8, 9, 10, 11, 12, 13],
           [0, 1, 2, 3, 4, 5, 6, 7, 8, 9, 10, 11, 12, 13]);
    RunTwo(0x3be80e6a, [0, 1, 2, 3, 4, 5, 6, 7, 8, 9, 10, 11, 12, 13], [14, 15, 16, 17, 18],
           [0, 1, 2, 3, 4, 5, 6, 7, 8, 9, 10, 11, 12, 13, 14, 15, 16, 17, 18]);
  }

  lemma FirstHalfChars1()
    ensures Chars([0, 1, 2, 3, 4, 5, 6, 7, 8, 9]) == "qpzry9x8gf"
  {
  }

  lemma FirstHalfChars2()
    ensures Chars([10, 11, 12, 13, 14, 15, 16, 17, 18]) == "2tvdw0s3j"
  {
  }

  lemma FirstHalfChars()
    ensures Chars(FirstHalf()) == "qpzry9x8gf2tvdw0s3j"
  {
    hide Chars;
    FirstHalfChars1();
    FirstHalfChars2();
    CharsTwo([0, 1, 2, 3, 4, 5, 6, 7, 8, 9], [10, 11, 12, 13, 14, 15, 16, 17, 18], FirstHalf(), "qpzry9x8gf",
             "2tvdw0s3j", "qpzry9x8gf2tvdw0s3j");
  }

  lemma SecondHalfRun()
    ensures Run(0x29be197, SecondHalf()) == 0x1
  {
    hide Run, Step;
    SecondHalf1();
    SecondHalf2();
    SecondHalf3();
    RunTwo(0x29be197, [19, 20, 21, 22, 23, 24, 25], [26, 27, 28, 29, 30, 31, 27],
           [19, 20, 21, 22, 23, 24, 25, 26, 27, 28, 29, 30, 31, 27]);
    RunTwo(0x29be197, [19, 20, 21, 22, 23, 24, 25, 26, 27, 28, 29, 30, 31, 27], [0, 0, 0, 6, 14],
           [19, 20, 21, 22, 23, 24, 25, 26, 27, 28, 29, 30, 31, 27, 0, 0, 0, 6, 14]);
  }

  lemma SecondHalfChars1()
    ensures Chars([19, 20, 21, 22, 23, 24, 25, 26, 27, 28]) == "n54khce6mu"
  {
  }

  lemma SecondHalfChars2()
    ensures Chars([29, 30, 31, 27, 0, 0, 0, 6, 14]) == "a7lmqqqxw"
  {
  }

  lemma SecondHalfChars()
    ensures Chars(SecondHalf()) == "n54khce6mua7lmqqqxw"
  {
    hide Chars;
    SecondHalfChars1();
    SecondHalfChars2();
    CharsTwo([19, 20, 21, 22, 23, 24, 25, 26, 27, 28], [29, 30, 31, 27, 0, 0, 0, 6, 14], SecondHalf(),
             "n54khce6mu", "a7lmqqqxw", "n54khce6mua7lmqqqxw");
  }

  lemma AlphabetHrp()
    ensures Ascii("abcdef") && Run(1, HrpExpand("abcdef")) == 0x3be80e6a
  {
    hide Run, Step;
    assert HrpExpand("abcdef") == [3, 3, 3, 3, 3, 3, 0, 1, 2, 3, 4, 5, 6];
    AlphabetHrp1();
    AlphabetHrp2();
    RunTwo(0x1, [3, 3, 3, 3, 3, 3, 0], [1, 2, 3, 4, 5, 6], [3, 3, 3, 3, 3, 3, 0, 1, 2, 3, 4, 5, 6]);
  }

  lemma AlphabetCase()
    ensures CheckHrp("abcdef") == Ok(Lower)
  {
    assert "abcdef"[1..] == "bcdef" && "bcdef"[1..] == "cdef" && "cdef"[1..] == "def";
    assert "def"[1..] == "ef" && "ef"[1..] == "f" && "f"[1..] == "";
    assert CheckChars("def", true, false) == Ok(Lower);
  }

  lemma DecodesLower(s: string, hrp: string, symbols: seq<Symbol>, variant: Variant)
    requires CheckHrp(hrp) == Ok(Lower) && Ascii(hrp) && 6 <= |symbols| && s == hrp + [SEP] + Chars(symbols)
    requires Run(Run(1, HrpExpand(hrp)), symbols) == Constant(variant)
    ensures Decode(s) == Ok((hrp, symbols[..|symbols| - 6], variant))
  {
    hide SplitAndDecode, Run, HrpExpand, CheckHrp, Chars;
    EncodedSplits(hrp, symbols);
    RunConcat(1, HrpExpand(hrp), symbols);
  }

  /** The published string of all 32 characters. */
  lemma Alphabet()
    ensures Decode("abcdef1" + "qpzry9x8gf2tvdw0s3j" + "n54khce6mua7lmqqqxw")
      == Ok(("abcdef", (FirstHalf() + SecondHalf())[..32], Bech32))
  {
    HalfLengths();
    hide Run, HrpExpand, Chars, Decode, CheckHrp, FirstHalf, SecondHalf;
    AlphabetHrp();
    AlphabetCase();
    FirstHalfRun();
    SecondHalfRun();
    RunConcat(0x3be80e6a, FirstHalf(), SecondHalf());
    FirstHalfChars();
    SecondHalfChars();
    CharsConcat(FirstHalf(), SecondHalf());
    var s := "abcdef1" + "qpzry9x8gf2tvdw0s3j" + "n54khce6mua7lmqqqxw";
    assert s == "abcdef" + [SEP] + Chars(FirstHalf() + SecondHalf()) by {
      assert "abcdef1" == "abcdef" + [SEP];
      JoinThree("abcdef", [SEP], "qpzry9x8gf2tvdw0s3j", "n54khce6mua7lmqqqxw");
    }
    DecodesLower(s, "abcdef", FirstHalf() + SecondHalf(), Bech32);
  }

  lemma JoinThree(a: string, b: string, c: string, d: string)
    ensures a + b + c + d == a + b + (c + d)
  {
  }

  lemma HalfLengths()
    ensures |FirstHalf()| == |SecondHalf()| == 19
  {
  }
}
