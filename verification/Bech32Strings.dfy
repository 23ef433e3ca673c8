/** Which strings decode, and what the checksum says about the human-readable part. */
module Bech32Strings {
  import opened Common
  import opened Bech32

  // ---------------------------------------------------------------- characters

  /** The second table sends a character back to its place in the first. */
  predicate RightAt(k: nat)
    requires k < 128
  {
    0 <= CharsetRev(k) ==> CharsetRev(k) < 32 && CHARSET[CharsetRev(k)] as int == k
  }

  lemma LowTable(j: nat)
    requires j < 16
    ensures RightAt(48 + j)
  {
    match j
    case 0 => case 1 => case 2 => case 3 => case 4 => case 5 => case 6 => case 7 =>
    case 8 => case 9 => case 10 => case 11 => case 12 => case 13 => case 14 => case _ =>
  }

  lemma MiddleTable(j: nat)
    requires j < 16
    ensures RightAt(96 + j)
  {
    match j
    case 0 => case 1 => case 2 => case 3 => case 4 => case 5 => case 6 => case 7 =>
    case 8 => case 9 => case 10 => case 11 => case 12 => case 13 => case 14 => case _ =>
  }

  lemma HighTable(j: nat)
    requires j < 16
    ensures RightAt(112 + j)
  {
    match j
    case 0 => case 1 => case 2 => case 3 => case 4 => case 5 => case 6 => case 7 =>
    case 8 => case 9 => case 10 => case 11 => case 12 => case 13 => case 14 => case _ =>
  }

  /** A character and its lower case stand for the same symbol. */
  lemma CaseDoesNotMatter(c: char)
    ensures FromChar(ToLower(c)) == FromChar(c)
  {
    assert REV_64 == REV_96 && REV_80 == REV_112;
  }

  /** A character stands for a symbol if and only if its lower case is the symbol's character. */
  lemma StandsForIff(c: char, v: Symbol)
    ensures FromChar(c) == Some(v) <==> ToLower(c) == ToChar(v)
  {
    hide CharsetRev, FromChar, ToLower, ToChar;
    CaseDoesNotMatter(c);
    LowerStays(c);
    CharRoundTrip(v);
    if FromChar(c) == Some(v) {
      LowerStandsFor(ToLower(c), v);
    }
  }

  lemma LowerStays(c: char)
    ensures !IsUpper(ToLower(c)) && (ToLower(c) == SEP <==> c == SEP)
    ensures c < 128 as char <==> ToLower(c) < 128 as char
  {
  }

  lemma TableIsRight(k: nat)
    requires k < 128 && !(65 <= k <= 90)
    ensures RightAt(k)
  {
    hide RightAt;
    if k < 48 {
      NotLetters(k);
    } else if k < 64 {
      LowTable(k - 48);
    } else if k < 96 {
      NotLetters(k);
    } else if k < 112 {
      MiddleTable(k - 96);
    } else {
      HighTable(k - 112);
    }
  }

  lemma NotLetters(k: nat)
    requires k < 48 || k == 64 || 91 <= k <= 95
    ensures RightAt(k)
  {
  }

  lemma LowerStandsFor(c: char, v: Symbol)
    requires !IsUpper(c) && FromChar(c) == Some(v)
    ensures c == ToChar(v)
  {
    hide CharsetRev;
    TableIsRight(c as int);
    SymbolOf(CharsetRev(c as int), v);
  }

  lemma SymbolOf(k: int, v: Symbol)
    requires 0 <= k < 32 && k as bv5 == v
    ensures v as nat == k
  {
  }

  // ---------------------------------------------------------------- the human-readable part

  lemma ExpandAt(hrp: string, i: nat)
    requires i < |hrp| && forall k :: 0 <= k < |hrp| ==> hrp[k] < 128 as char
    ensures HrpExpand(hrp)[|hrp|] == 0
    ensures HrpExpand(hrp)[i] == High(hrp[i]) && HrpExpand(hrp)[|hrp| + 1 + i] == Low5(hrp[i])
  {
  }

  function High(c: char): Symbol
    requires c < 128 as char
  {
    (c as int / 32) as bv5
  }

  function Low5(c: char): Symbol
    requires c < 128 as char
  {
    (c as int % 32) as bv5
  }

  lemma BothHalves(c: char, d: char)
    requires c < 128 as char && d < 128 as char && High(c) == High(d) && Low5(c) == Low5(d)
    ensures c == d
  {
    hide High, Low5;
    HighIs(c);
    HighIs(d);
  }

  lemma HighIs(c: char)
    requires c < 128 as char
    ensures (High(c) as int) * 32 + Low5(c) as int == c as int
  {
    SymbolOf(c as int / 32, High(c));
    SymbolOf(c as int % 32, Low5(c));
  }

  ghost predicate Ascii(s: string) {
    forall i :: 0 <= i < |s| ==> s[i] < 128 as char
  }

  /** Two human-readable parts of one length whose expansions differ only within six consecutive symbols
      do not share a valid data part of one variant. */
  lemma ExpansionIsCovered(a: string, b: string, data: seq<Symbol>, at: nat)
    requires Ascii(a) && Ascii(b) && |a| == |b| && at + 6 <= 2 * |a| + 1 + |data|
    requires forall i :: 0 <= i < 2 * |a| + 1 && !(at <= i < at + 6) ==> HrpExpand(a)[i] == HrpExpand(b)[i]
    requires VerifyChecksum(a, data).Some? && VerifyChecksum(a, data) == VerifyChecksum(b, data)
    ensures HrpExpand(a) == HrpExpand(b)
  {
    hide Run, HrpExpand;
    var x, y := HrpExpand(a) + data, HrpExpand(b) + data;
    forall i | 0 <= i < |x| && !(at <= i < at + 6) ensures x[i] == y[i] {
      if i < 2 * |a| + 1 {
        assert HrpExpand(a)[i] == HrpExpand(b)[i];
      }
    }
    assert x[..at] == y[..at] && x[at + 6..] == y[at + 6..];
    BurstIsSeen(1, x, y, at);
    assert HrpExpand(a) == x[..2 * |a| + 1] && HrpExpand(b) == y[..2 * |a| + 1];
  }

  lemma ExpandIsInjective(a: string, b: string)
    requires Ascii(a) && Ascii(b) && |a| == |b| && HrpExpand(a) == HrpExpand(b)
    ensures a == b
  {
    hide HrpExpand, High, Low5;
    forall i | 0 <= i < |a| ensures a[i] == b[i] {
      ExpandAt(a, i);
      ExpandAt(b, i);
      BothHalves(a[i], b[i]);
    }
  }

  /** The data of one human-readable part is not valid, in the same variant, for another of the same length
      whose characters have the same high bits and differ only within six consecutive ones, such as any
      other six lower-case letters. */
  lemma LettersAreCovered(a: string, b: string, data: seq<Symbol>, at: nat)
    requires Ascii(a) && Ascii(b) && |a| == |b| && 6 <= |data|
    requires forall i :: 0 <= i < |a| ==> High(a[i]) == High(b[i])
    requires forall i :: 0 <= i < |a| && !(at <= i < at + 6) ==> a[i] == b[i]
    requires VerifyChecksum(a, data).Some? && VerifyChecksum(a, data) == VerifyChecksum(b, data)
    ensures a == b
  {
    hide HrpExpand, High, Low5, VerifyChecksum;
    var n := |a|;
    var from := if at <= n then n + 1 + at else n + 1 + n;
    forall i | 0 <= i < 2 * n + 1 && !(from <= i < from + 6)
      ensures HrpExpand(a)[i] == HrpExpand(b)[i]
    {
      SameSymbolIn(a, b, at, from, i);
    }
    ExpansionIsCovered(a, b, data, from);
    ExpandIsInjective(a, b);
  }

  lemma SameSymbolIn(a: string, b: string, at: nat, from: nat, i: nat)
    requires Ascii(a) && Ascii(b) && |a| == |b| && i < 2 * |a| + 1
    requires forall k :: 0 <= k < |a| ==> High(a[k]) == High(b[k])
    requires forall k :: 0 <= k < |a| && !(at <= k < at + 6) ==> a[k] == b[k]
    requires from == (if at <= |a| then |a| + 1 + at else |a| + 1 + |a|) && !(from <= i < from + 6)
    ensures HrpExpand(a)[i] == HrpExpand(b)[i]
  {
    hide HrpExpand, High, Low5;
    if |a| > 0 {
      var k := if i < |a| then i else if i == |a| then 0 else i - |a| - 1;
      ExpandAt(a, k);
      ExpandAt(b, k);
    } else {
      ExpandOfNothing(a);
      ExpandOfNothing(b);
    }
  }

  lemma ExpandOfNothing(hrp: string)
    requires hrp == ""
    ensures HrpExpand(hrp) == [0]
  {
  }

  /** Nor for one that differs in the high bits of a single character, such as its case. */
  lemma CasesAreCovered(a: string, b: string, data: seq<Symbol>, at: nat)
    requires Ascii(a) && Ascii(b) && |a| == |b| && 6 <= |data| && at < |a| && Low5(a[at]) == Low5(b[at])
    requires forall i :: 0 <= i < |a| && i != at ==> a[i] == b[i]
    requires VerifyChecksum(a, data).Some? && VerifyChecksum(a, data) == VerifyChecksum(b, data)
    ensures a == b
  {
    hide HrpExpand, High, Low5, VerifyChecksum;
    forall i | 0 <= i < 2 * |a| + 1 && !(at <= i < at + 6)
      ensures HrpExpand(a)[i] == HrpExpand(b)[i]
    {
      var k := if i < |a| then i else if i == |a| then 0 else i - |a| - 1;
      ExpandAt(a, k);
      ExpandAt(b, k);
    }
    ExpansionIsCovered(a, b, data, at);
    ExpandIsInjective(a, b);
  }

  /** The prefixes of the three networks do not share an address. */
  lemma NetworksAreApart(a: string, b: string, data: seq<Symbol>)
    requires a in {"odana", "odanx", "odaxx"} && b in {"odana", "odanx", "odaxx"} && a != b && 6 <= |data|
    ensures Ascii(a) && Ascii(b)
    ensures VerifyChecksum(a, data).Some? ==> VerifyChecksum(a, data) != VerifyChecksum(b, data)
  {
    hide VerifyChecksum;
    if VerifyChecksum(a, data).Some? && VerifyChecksum(a, data) == VerifyChecksum(b, data) {
      LettersAreCovered(a, b, data, 0);
    }
  }

  // ---------------------------------------------------------------- which strings decode

  ghost predicate NoLower(s: string) {
    forall i :: 0 <= i < |s| ==> !IsLower(s[i])
  }

  ghost predicate NoUpper(s: string) {
    forall i :: 0 <= i < |s| ==> !IsUpper(s[i])
  }

  /** Letters of one case only. */
  ghost predicate OneCase(s: string) {
    NoLower(s) || NoUpper(s)
  }

  /** The case that `check_hrp` finds. */
  lemma {:induction false} CaseFound(hrp: string, hasLower: bool, hasUpper: bool)
    requires !(hasLower && hasUpper) && CheckChars(hrp, hasLower, hasUpper).Ok?
    ensures var c := CheckChars(hrp, hasLower, hasUpper).value;
      && (c == Case.Upper <==> hasUpper || !NoUpper(hrp))
      && (c == Lower <==> hasLower || !NoLower(hrp))
    decreases |hrp|
  {
    if hrp != [] {
      var b := hrp[0];
      CaseFound(hrp[1..], hasLower || IsLower(b), hasUpper || IsUpper(b));
      FirstAndRest(hrp);
    }
  }

  lemma FirstAndRest(s: string)
    requires s != []
    ensures NoLower(s) <==> !IsLower(s[0]) && NoLower(s[1..])
    ensures NoUpper(s) <==> !IsUpper(s[0]) && NoUpper(s[1..])
  {
    assert s == [s[0]] + s[1..];
  }

  /** Characters of one case are checked as their lower case is. */
  lemma {:induction false} ChecksAsLower(hrp: string, hasLower: bool, hasUpper: bool)
    requires !(hasLower && hasUpper) && (hasLower ==> NoUpper(hrp)) && (hasUpper ==> NoLower(hrp)) && OneCase(hrp)
    requires CheckChars(Lowercase(hrp), hasLower || hasUpper, false).Ok?
    ensures CheckChars(hrp, hasLower, hasUpper).Ok?
    decreases |hrp|
  {
    if hrp != [] {
      var b := hrp[0];
      FirstAndRest(hrp);
      assert Lowercase(hrp)[0] == ToLower(b) && Lowercase(hrp)[1..] == Lowercase(hrp[1..]);
      ChecksAsLower(hrp[1..], hasLower || IsLower(b), hasUpper || IsUpper(b));
    }
  }

  /** What the data part decodes to, and that it mixes no cases. */
  lemma {:induction false} DecodesIff(s: string, c: Case, data: seq<Symbol>)
    ensures DecodeChars(s, c) == Ok(data)
      <==> && Lowercase(s) == Chars(data) && OneCase(s)
           && (c == Case.Upper ==> NoLower(s)) && (c == Lower ==> NoUpper(s))
    decreases |s|
  {
    hide FromChar, ToChar, ToLower;
    if s == [] {
      assert Lowercase(s) == Chars(data) <==> data == [];
    } else if data == [] {
      assert Lowercase(s) != Chars(data);
    } else {
      DecodeStep(s, c, data);
      DecodesIff(s[1..], CaseAfter(s[0], c), data[1..]);
      LowerStep(s, data);
      FirstAndRest(s);
    }
  }

  function CaseAfter(first: char, c: Case): Case {
    if IsLower(first) then Lower else if IsUpper(first) then Case.Upper else c
  }

  lemma LowerStep(s: string, data: seq<Symbol>)
    requires s != [] && data != []
    ensures Lowercase(s) == Chars(data) <==> ToLower(s[0]) == ToChar(data[0]) && Lowercase(s[1..]) == Chars(data[1..])
  {
    hide ToLower, ToChar;
    assert Lowercase(s) == [ToLower(s[0])] + Lowercase(s[1..]);
    assert Chars(data) == [ToChar(data[0])] + Chars(data[1..]);
    assert Lowercase(s)[0] == ToLower(s[0]) && Chars(data)[0] == ToChar(data[0]);
    assert Lowercase(s)[1..] == Lowercase(s[1..]) && Chars(data)[1..] == Chars(data[1..]);
  }

  lemma DecodeStep(s: string, c: Case, data: seq<Symbol>)
    requires s != [] && data != []
    ensures DecodeChars(s, c) == Ok(data)
      <==> && !(IsLower(s[0]) && c == Case.Upper) && !(IsUpper(s[0]) && c == Lower)
           && ToLower(s[0]) == ToChar(data[0]) && DecodeChars(s[1..], CaseAfter(s[0], c)) == Ok(data[1..])
  {
    hide FromChar, ToChar, ToLower;
    StandsForIff(s[0], data[0]);
    StandsIsAscii(s[0]);
    assert data == [data[0]] + data[1..];
  }

  lemma StandsIsAscii(c: char)
    ensures FromChar(c).Some? ==> c < 128 as char
  {
  }

  lemma HrpCase(hrp: string)
    requires CheckHrp(hrp).Ok?
    ensures (CheckHrp(hrp).value == Case.Upper <==> !NoUpper(hrp)) && (CheckHrp(hrp).value == Lower <==> !NoLower(hrp))
    ensures OneCase(hrp) && Ascii(hrp)
  {
    hide CheckChars;
    CaseFound(hrp, false, false);
    CheckedIsAscii(hrp, false, false);
  }

  lemma {:induction false} CharsPassIff(hrp: string, hasLower: bool, hasUpper: bool)
    requires !(hasLower && hasUpper)
    ensures CheckChars(hrp, hasLower, hasUpper).Ok?
      <==> && (forall i :: 0 <= i < |hrp| ==> '!' <= hrp[i] <= '~') && OneCase(hrp)
           && (hasLower ==> NoUpper(hrp)) && (hasUpper ==> NoLower(hrp))
    decreases |hrp|
  {
    if hrp != [] {
      var b := hrp[0];
      FirstAndRest(hrp);
      assert forall i :: 0 < i < |hrp| ==> hrp[i] == hrp[1..][i - 1];
      if '!' <= b <= '~' && !((hasLower || IsLower(b)) && (hasUpper || IsUpper(b))) {
        CharsPassIff(hrp[1..], hasLower || IsLower(b), hasUpper || IsUpper(b));
        assert forall i :: 0 <= i < |hrp[1..]| ==> hrp[1..][i] == hrp[i + 1];
      }
    }
  }

  /** A human-readable part is one of 1 to 83 printable characters with letters of one case. */
  lemma HrpPassesIff(hrp: string)
    ensures CheckHrp(hrp).Ok? <==> 1 <= |hrp| <= 83 && (forall i :: 0 <= i < |hrp| ==> '!' <= hrp[i] <= '~') && OneCase(hrp)
  {
    hide CheckChars, NoLower, NoUpper;
    CharsPassIff(hrp, false, false);
  }

  lemma LowerIsLower(s: string)
    ensures Lowercase(Lowercase(s)) == Lowercase(s) && NoUpper(Lowercase(s))
  {
  }

  lemma LowerOfParts(a: string, b: string)
    ensures Lowercase(a + [SEP] + b) == Lowercase(a) + [SEP] + Lowercase(b)
  {
  }

  lemma CaseOfParts(a: string, b: string)
    ensures NoLower(a + [SEP] + b) <==> NoLower(a) && NoLower(b)
    ensures NoUpper(a + [SEP] + b) <==> NoUpper(a) && NoUpper(b)
  {
    var s := a + [SEP] + b;
    assert forall i :: 0 <= i < |a| ==> s[i] == a[i];
    assert forall i :: 0 <= i < |b| ==> s[|a| + 1 + i] == b[i];
    assert forall i :: 0 <= i < |s| ==> s[i] == SEP || (i < |a| && s[i] == a[i]) || (|a| < i && s[i] == b[i - |a| - 1]);
  }

  /** What `split_and_decode` accepts: one case, and in lower case the human-readable part, the separator
      and the characters of the symbols. */
  lemma SplitsIff(s: string, hrp: string, symbols: seq<Symbol>)
    ensures SplitAndDecode(s) == Ok((hrp, symbols))
      <==> CheckHrp(hrp).Ok? && NoUpper(hrp) && OneCase(s) && Lowercase(s) == hrp + [SEP] + Chars(symbols)
  {
    if SplitAndDecode(s) == Ok((hrp, symbols)) {
      SplitsOnly(s, hrp, symbols);
    }
    if CheckHrp(hrp).Ok? && NoUpper(hrp) && OneCase(s) && Lowercase(s) == hrp + [SEP] + Chars(symbols) {
      SplitsSo(s, hrp, symbols);
    }
  }

  lemma SplitsOnly(s: string, hrp: string, symbols: seq<Symbol>)
    requires SplitAndDecode(s) == Ok((hrp, symbols))
    ensures CheckHrp(hrp).Ok? && NoUpper(hrp) && OneCase(s) && Lowercase(s) == hrp + [SEP] + Chars(symbols)
  {
    hide CheckHrp, DecodeChars, LastSeparator, Lowercase, Chars, NoUpper, NoLower;
    var at := LastSeparator(s).value;
    var raw, data := s[..at], s[at + 1..];
    SeparatorIsLast(s);
    assert s == raw + [SEP] + data;
    LowerHrp(raw);
    HrpCase(raw);
    LowerIsLower(raw);
    DecodesIff(data, CheckHrp(raw).value, symbols);
    LowerOfParts(raw, data);
    CaseOfParts(raw, data);
  }

  lemma SplitsSo(s: string, hrp: string, symbols: seq<Symbol>)
    requires CheckHrp(hrp).Ok? && NoUpper(hrp) && OneCase(s) && Lowercase(s) == hrp + [SEP] + Chars(symbols)
    ensures SplitAndDecode(s) == Ok((hrp, symbols))
  {
    hide CheckChars, DecodeChars, LastSeparator, Lowercase, Chars, NoUpper, NoLower;
    var raw, data := s[..|hrp|], s[|hrp| + 1..];
    PartsOfLower(s, hrp, Chars(symbols));
    SeparatorStays(s, hrp, symbols);
    assert s == raw + [SEP] + data;
    CaseOfParts(raw, data);
    ChecksAsLower(raw, false, false);
    LowerHrp(raw);
    HrpCase(raw);
    DecodesIff(data, CheckHrp(raw).value, symbols);
  }

  lemma SeparatorStays(s: string, hrp: string, symbols: seq<Symbol>)
    requires Lowercase(s) == hrp + [SEP] + Chars(symbols)
    ensures LastSeparator(s) == Some(|hrp|)
  {
    hide LastSeparator, ToChar, ToLower;
    PartsOfLower(s, hrp, Chars(symbols));
    forall i | |hrp| < i < |s| ensures s[i] != SEP {
      CharRoundTrip(symbols[i - |hrp| - 1]);
      assert Lowercase(s)[i] == Chars(symbols)[i - |hrp| - 1];
      LowerStays(s[i]);
    }
    NoSeparatorAfter(s, |hrp|);
  }

  lemma PartsOfLower(s: string, a: string, b: string)
    requires Lowercase(s) == a + [SEP] + b
    ensures |s| == |a| + 1 + |b| && s[|a|] == SEP && Lowercase(s[..|a|]) == a && Lowercase(s[|a| + 1..]) == b
  {
    assert Lowercase(s)[|a|] == SEP;
    LowerStays(s[|a|]);
    assert Lowercase(s[..|a|]) == Lowercase(s)[..|a|] && Lowercase(s[|a| + 1..]) == Lowercase(s)[|a| + 1..];
  }

  /** The last six symbols of a valid data part are its check symbols. */
  lemma ChecksAreOnly(hrp: string, data: seq<Symbol>, check: seq<Symbol>, variant: Variant)
    requires Ascii(hrp) && |check| == 6 && VerifyChecksum(hrp, data + check) == Some(variant)
    ensures check == CheckSymbols(Run(Run(1, HrpExpand(hrp)), data), variant)
  {
    hide VerifyChecksum, Run, CheckSymbols, HrpExpand;
    var only := CheckSymbols(Run(Run(1, HrpExpand(hrp)), data), variant);
    EncodedVerifies(hrp, data, variant);
    assert (data + check)[..|data|] == (data + only)[..|data|];
    BurstIsDetected(hrp, data + check, data + only, |data|);
    assert check == (data + check)[|data|..] && only == (data + only)[|data|..];
  }

  /** Exactly: a string decodes to a human-readable part, data and variant if and only if its letters have
      one case and in lower case it is what encoding those gives. */
  lemma DecodeIff(s: string, hrp: string, data: seq<Symbol>, variant: Variant)
    ensures Decode(s) == Ok((hrp, data, variant))
      <==> NoUpper(hrp) && OneCase(s) && Encode(hrp, data, variant) == Ok(Lowercase(s))
  {
    hide SplitAndDecode, VerifyChecksum, Run, CheckSymbols, HrpExpand, CheckHrp, Lowercase, Chars, NoUpper, OneCase;
    if Decode(s) == Ok((hrp, data, variant)) {
      DecodesOnly(s, hrp, data, variant);
    }
    if NoUpper(hrp) && OneCase(s) && Encode(hrp, data, variant) == Ok(Lowercase(s)) {
      DecodesSo(s, hrp, data, variant);
    }
  }

  /** Encoding, of a part without upper case. */
  lemma EncodeIs(hrp: string, data: seq<Symbol>, variant: Variant)
    requires NoUpper(hrp)
    ensures Encode(hrp, data, variant).Ok? <==> CheckHrp(hrp).Ok?
    ensures CheckHrp(hrp).Ok? ==>
      && Ascii(hrp)
      && var check := CheckSymbols(Run(Run(1, HrpExpand(hrp)), data), variant);
      Encode(hrp, data, variant) == Ok(hrp + [SEP] + Chars(data + check))
  {
    hide CheckHrp, Run, CheckSymbols, HrpExpand, Chars, Lowercase, NoUpper;
    if CheckHrp(hrp).Ok? {
      HrpCase(hrp);
      LowerHrp(hrp);
      var check := CheckSymbols(Run(Run(1, HrpExpand(hrp)), data), variant);
      CharsConcat(data, check);
      assert hrp + [SEP] + Chars(data) + Chars(check) == hrp + [SEP] + (Chars(data) + Chars(check));
    }
  }

  lemma DecodesOnly(s: string, hrp: string, data: seq<Symbol>, variant: Variant)
    requires Decode(s) == Ok((hrp, data, variant))
    ensures NoUpper(hrp) && OneCase(s) && Encode(hrp, data, variant) == Ok(Lowercase(s))
  {
    hide SplitAndDecode, VerifyChecksum, Run, CheckSymbols, HrpExpand, CheckHrp, Lowercase, Chars, NoUpper, OneCase, Encode;
    var symbols := SplitAndDecode(s).value.1;
    SplitsIff(s, hrp, symbols);
    EncodeIs(hrp, data, variant);
    var check := symbols[|symbols| - 6..];
    assert symbols == data + check;
    ChecksAreOnly(hrp, data, check, variant);
  }

  lemma DecodesSo(s: string, hrp: string, data: seq<Symbol>, variant: Variant)
    requires NoUpper(hrp) && OneCase(s) && Encode(hrp, data, variant) == Ok(Lowercase(s))
    ensures Decode(s) == Ok((hrp, data, variant))
  {
    hide SplitAndDecode, VerifyChecksum, Run, CheckSymbols, HrpExpand, CheckHrp, Lowercase, Chars, NoUpper, OneCase, Encode;
    EncodeIs(hrp, data, variant);
    var check := CheckSymbols(Run(Run(1, HrpExpand(hrp)), data), variant);
    SplitsIff(s, hrp, data + check);
    EncodedVerifies(hrp, data, variant);
    SixMore(data, check);
  }
}
