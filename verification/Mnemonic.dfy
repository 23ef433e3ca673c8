/** Mnemonic phrases: entropy and its checksum cut into eleven-bit words, and put together again. */
module Mnemonic {
  import opened Common
  import opened Limbs
  import opened Bitwise
  import opened BitGroups

  // ---------------------------------------------------------------- writing bits

  /** `BitWriter`: whole bytes, and the bits after them at the top of a 32-bit word. */
  class BitWriter {
    var offset: nat
    var remainder: nat
    var inner: seq<nat>
    ghost var done: seq<bool>
    ghost var pending: seq<bool>

    /** Everything pushed so far. */
    ghost function Written(): seq<bool>
      reads this
    {
      done + pending
    }

    ghost predicate Valid()
      reads this
    {
      && |pending| == offset < 8 && AtTop(remainder, pending, 32)
      && Whole(done, 8) && inner == Group(done, 8)
    }

    constructor ()
      ensures Valid() && Written() == []
    {
      offset, remainder, inner := 0, 0, [];
      done, pending := [], [];
    }

    /** `push` of a value of `size` bits. */
    method Push(v: nat, size: nat)
      requires Valid() && size <= 24 && v < P(size)
      modifies this
      ensures Valid() && Written() == old(Written()) + Bits(v, size)
    {
      hide Pow, Number, Bits, Or, Group, Whole, AtTop;
      var shift := 32 - size;
      ghost var before, held := done, pending + Bits(v, size);
      assert before + held == done + pending + Bits(v, size);
      ShiftedDown(v, shift, offset);
      TopMore(remainder, pending, 32, v, size);
      remainder := Or(remainder, (v * P(shift)) / P(offset));
      offset := offset + size;
      pending := held;
      while offset >= 8
        invariant before + held == done + pending
        invariant |pending| == offset && AtTop(remainder, pending, 32) && Whole(done, 8) && inner == Group(done, 8)
      {
        TopLess(remainder, pending, 32, 8);
        WholeAndGroup(done, pending[..8], 8);
        assert done + pending == (done + pending[..8]) + pending[8..];
        inner := inner + [remainder / P(24)];
        remainder := (remainder * P(8)) % P(32);
        offset := offset - 8;
        done, pending := done + pending[..8], pending[8..];
      }
    }

    /** `len` */
    method Len() returns (n: nat)
      requires Valid()
      ensures n == |Written()|
    {
      hide Group, AtTop;
      GroupLength(done, 8);
      n := |inner| * 8 + offset;
    }

    /** `into_bytes`: the last byte is filled up with zero bits. */
    method IntoBytes() returns (bytes: seq<nat>)
      requires Valid()
      ensures bytes == Group(Written(), 8) + Filled(Rest(Written(), 8), 8)
    {
      hide Pow, Number, Group, Whole, Rest;
      RestIs(done, pending, 8);
      bytes := inner;
      if offset != 0 {
        LastByte(remainder, pending);
        bytes := bytes + [remainder / P(24)];
      } else {
        assert bytes + [] == bytes;
      }
    }
  }

  lemma ShiftedDown(v: nat, shift: nat, offset: nat)
    requires offset <= shift
    ensures (v * P(shift)) / P(offset) == v * P(shift - offset)
  {
    hide Pow;
    PowAdd(2, shift - offset, offset);
    Assoc(v, P(shift - offset), P(offset));
    DivUnique(v * P(shift), P(offset), v * P(shift - offset), 0);
  }

  lemma {:induction false} GroupLength(bits: seq<bool>, w: nat)
    requires 0 < w && Whole(bits, w)
    ensures |Group(bits, w)| * w == |bits|
    decreases |bits|
  {
    hide Number;
    if |bits| >= w {
      WholeStep(|bits| - w, w);
      GroupLength(bits[w..], w);
      Distribute(w, |Group(bits[w..], w)|, 1);
    } else {
      WholeStep(|bits|, w);
    }
  }

  lemma LastByte(remainder: nat, pending: seq<bool>)
    requires AtTop(remainder, pending, 32) && |pending| < 8
    ensures remainder / P(24) == Number(pending + NoBits(8 - |pending|))
  {
    hide Pow, Number;
    var k := 8 - |pending|;
    NumberConcat(pending, NoBits(k));
    NumberOfNoBits(k);
    PowAdd(2, k, 24);
    Assoc(Number(pending), P(k), P(24));
    DivUnique(remainder, P(24), Number(pending) * P(k), 0);
  }

  // ---------------------------------------------------------------- reading bits

  /** `as u16` */
  function Cut16(n: nat): nat {
    PowPositive(2, 16);
    n % P(16)
  }

  function CutAll(values: seq<nat>): seq<nat> {
    seq(|values|, i requires 0 <= i < |values| => Cut16(values[i]))
  }

  /** `BitIter`: values of `inSize` bits handed out `outSize` bits at a time. */
  class BitIter {
    const inSize: nat
    const outSize: nat
    var source: seq<nat>
    var read: nat
    var buffer: nat
    ghost var pending: seq<bool>

    /** The bits not handed out yet. */
    ghost function Left(): seq<bool>
      reads this
    {
      pending + Flat(source, inSize)
    }

    ghost predicate Valid()
      reads this
    {
      && 0 < outSize && inSize + outSize <= 64
      && AllBelow(source, inSize) && |pending| == read < inSize + outSize && AtTop(buffer, pending, 64)
    }

    constructor (source: seq<nat>, inSize: nat, outSize: nat)
      requires 0 < outSize && inSize + outSize <= 64 && AllBelow(source, inSize)
      ensures Valid() && Left() == Flat(source, inSize) && this.inSize == inSize && this.outSize == outSize
    {
      this.source, this.inSize, this.outSize := source, inSize, outSize;
      read, buffer, pending := 0, 0, [];
      new;
      assert [] + Flat(source, inSize) == Flat(source, inSize);
    }

    /** `next`: the next group, cut to 16 bits, while enough bits are left for one. */
    method Next() returns (r: Option<nat>)
      requires Valid()
      modifies this
      ensures Valid()
      ensures r.Some? <==> outSize <= |old(Left())|
      ensures r.Some? ==> r.value == Cut16(Number(old(Left())[..outSize])) && Left() == old(Left())[outSize..]
      ensures r.None? ==> Left() == old(Left())
    {
      hide Pow, Number, Bits, Or, Flat, AtTop, AllBelow;
      ghost var left := Left();
      while read < outSize
        invariant Valid() && Left() == left
        decreases |source|
      {
        if source == [] {
          FlatNone(inSize);
          return None;
        }
        var bits := source[0];
        TakeOne(source, inSize, pending);
        TopMore(buffer, pending, 64, bits, inSize);
        read := read + inSize;
        buffer := Or(buffer, bits * P(64 - read));
        pending := pending + Bits(bits, inSize);
        source := source[1..];
      }
      TopLess(buffer, pending, 64, outSize);
      assert left[..outSize] == pending[..outSize];
      assert left[outSize..] == pending[outSize..] + Flat(source, inSize);
      r := Some(Cut16(buffer / P(64 - outSize)));
      buffer := (buffer * P(outSize)) % P(64);
      read := read - outSize;
      pending := pending[outSize..];
    }
  }

  lemma TakeOne(source: seq<nat>, w: nat, pending: seq<bool>)
    requires source != [] && AllBelow(source, w)
    ensures source[0] < P(w) && AllBelow(source[1..], w)
    ensures pending + Flat(source, w) == (pending + Bits(source[0], w)) + Flat(source[1..], w)
  {
    hide Bits, Flat;
    assert source == [source[0]] + source[1..];
    FlatCons(source[0], source[1..], w);
  }

  /** The groups of an iterator are cut to 16 bits, which changes none of at most that width. */
  lemma {:induction false} CutGroups(bits: seq<bool>, w: nat)
    requires 0 < w <= 16
    ensures CutAll(Group(bits, w)) == Group(bits, w)
    decreases |bits|
  {
    hide Group, Number;
    GroupHead(bits, w);
    if w <= |bits| {
      CutNumber(bits[..w]);
      CutGroups(bits[w..], w);
    }
  }

  lemma CutNumber(bits: seq<bool>)
    requires |bits| <= 16
    ensures Cut16(Number(bits)) == Number(bits)
  {
    hide Number, Pow;
    BitsOfNumber(bits);
    PowMono(2, |bits|, 16);
    DivUnique(Number(bits), P(16), 0, Number(bits));
  }

  /** All groups of an iterator, as `collect` takes them. */
  method Regroup(source: seq<nat>, inSize: nat, outSize: nat) returns (r: seq<nat>)
    requires 0 < outSize && inSize + outSize <= 64 && AllBelow(source, inSize)
    ensures r == CutAll(Group(Flat(source, inSize), outSize))
    ensures outSize <= 16 ==> r == Group(Flat(source, inSize), outSize)
  {
    hide Number, Group, Flat, AllBelow, Cut16;
    if outSize <= 16 {
      CutGroups(Flat(source, inSize), outSize);
    }
    var it := new BitIter(source, inSize, outSize);
    r := [];
    while true
      invariant it.Valid() && fresh(it) && it.outSize == outSize
      invariant CutAll(Group(Flat(source, inSize), outSize)) == r + CutAll(Group(it.Left(), outSize))
      decreases |it.Left()|
    {
      ghost var left := it.Left();
      GroupHead(left, outSize);
      var next := it.Next();
      if next.None? {
        assert r + [] == r;
        return;
      }
      assert CutAll(Group(left, outSize)) == [next.value] + CutAll(Group(it.Left(), outSize));
      r := r + [next.value];
    }
  }

  lemma GroupHead(bits: seq<bool>, w: nat)
    requires 0 < w
    ensures |bits| < w ==> Group(bits, w) == []
    ensures w <= |bits| ==> Group(bits, w) == [Number(bits[..w])] + Group(bits[w..], w)
  {
  }

  /** Bytes pushed one by one, or words of any size: the bytes of the same bits. */
  method Pack(values: seq<nat>, size: nat) returns (len: nat, bytes: seq<nat>)
    requires size <= 24 && AllBelow(values, size)
    ensures len == size * |values|
    ensures bytes == Group(Flat(values, size), 8) + Filled(Rest(Flat(values, size), 8), 8)
  {
    hide Pow, Number, Group, Flat, Rest, Bits;
    var writer := new BitWriter();
    FlatNone(size);
    assert values[..0] == [];
    for i := 0 to |values|
      invariant writer.Valid() && fresh(writer)
      invariant writer.Written() == Flat(values[..i], size)
    {
      assert values[..i + 1] == values[..i] + [values[i]];
      FlatSnoc(values[..i], values[i], size);
      writer.Push(values[i], size);
    }
    assert values[..|values|] == values;
    len := writer.Len();
    bytes := writer.IntoBytes();
  }

  // ---------------------------------------------------------------- phrases

  datatype Error = InvalidChecksum | InvalidWord | InvalidKeysize(size: nat) | InvalidWordLength(count: nat)

  datatype MnemonicType = MnemonicType(entropyBits: nat, checksumBits: nat)

  /** `for_word_count` */
  function ForWordCount(count: nat): Option<MnemonicType> {
    match count
    case 12 => Some(MnemonicType(128, 4))
    case 15 => Some(MnemonicType(160, 5))
    case 18 => Some(MnemonicType(192, 6))
    case 21 => Some(MnemonicType(224, 7))
    case 24 => Some(MnemonicType(256, 8))
    case _ => None
  }

  /** `for_key_size` */
  function ForKeySize(size: nat): Option<MnemonicType> {
    match size
    case 128 => Some(MnemonicType(128, 4))
    case 160 => Some(MnemonicType(160, 5))
    case 192 => Some(MnemonicType(192, 6))
    case 224 => Some(MnemonicType(224, 7))
    case 256 => Some(MnemonicType(256, 8))
    case _ => None
  }

  /** The permitted key sizes: whole multiples of 32 bits from 128 to 256, with one check bit for every
      32. */
  lemma KeySizeIff(size: nat)
    ensures ForKeySize(size).Some? <==> 128 <= size <= 256 && size % 32 == 0
    ensures ForKeySize(size).Some? ==> ForKeySize(size).value == MnemonicType(size, size / 32)
  {
  }

  /** The permitted word counts: whole multiples of three from 12 to 24, eleven bits a word and 32 in 33 of
      them entropy. */
  lemma WordCountIff(count: nat)
    ensures ForWordCount(count).Some? <==> 12 <= count <= 24 && count % 3 == 0
    ensures ForWordCount(count).Some? ==>
      var t := ForWordCount(count).value; 33 * t.entropyBits == 32 * (11 * count) && 33 * t.checksumBits == 11 * count
  {
  }

  lemma TypesMatch(count: nat, bytes: nat)
    ensures ForWordCount(count).Some? && ForWordCount(count).value.entropyBits == 8 * bytes ==>
      && ForKeySize(8 * bytes) == ForWordCount(count) && 0 < ForWordCount(count).value.checksumBits <= 8
      && 11 * count == 8 * bytes + ForWordCount(count).value.checksumBits
    ensures ForKeySize(8 * bytes).Some? ==>
      && ForKeySize(8 * bytes).value.entropyBits == 8 * bytes
      && ForWordCount((8 * bytes + 8) / 11) == ForKeySize(8 * bytes)
  {
  }

  /** The first `bits` bits of a byte, as `checksum` takes them. */
  function Checksum(byte: nat, bits: nat): nat
    requires bits <= 8
  {
    byte / P(8 - bits)
  }

  /** The first byte of the hash of the entropy. */
  type HashByte = seq<nat> -> nat

  ghost predicate IsHash(hash: HashByte) {
    forall e :: hash(e) < 256
  }

  /** The eleven-bit numbers of the words for an entropy. */
  ghost function Indices(entropy: seq<nat>, hash: HashByte): seq<nat> {
    Group(Flat(entropy + [hash(entropy)], 8), 11)
  }

  /** The bytes that eleven-bit numbers fill, the last one with zero bits. */
  ghost function BytesOf(indices: seq<nat>): seq<nat> {
    Group(Flat(indices, 11), 8) + Filled(Rest(Flat(indices, 11), 8), 8)
  }

  /** The entropy that eleven-bit numbers stand for, checked. */
  ghost function EntropyOf(indices: seq<nat>, hash: HashByte): Result<seq<nat>, Error> {
    match ForWordCount(|indices|)
    case None => Err(InvalidWordLength(|indices|))
    case Some(t) =>
      var n := t.entropyBits / 8;
      TypesMatch(|indices|, n);
      BytesSplit(indices, n);
      var bytes := BytesOf(indices);
      if Checksum(bytes[n], t.checksumBits) != Checksum(hash(bytes[..n]), t.checksumBits) then Err(InvalidChecksum)
      else Ok(bytes[..n])
  }

  // ---------------------------------------------------------------- bits of a phrase

  /** Whole bytes, and one more for at most eight further bits. */
  lemma FilledBytes(e: seq<bool>, c: seq<bool>)
    requires Whole(e, 8) && 0 < |c| <= 8
    ensures Group(e + c, 8) + Filled(Rest(e + c, 8), 8) == Group(e, 8) + [Number(c + NoBits(8 - |c|))]
  {
    hide Number, Group, Rest, Whole;
    if |c| == 8 {
      WholeAndGroup(e, c, 8);
      assert c + NoBits(0) == c;
      assert e + c + [] == e + c;
      RestIs(e + c, [], 8);
      assert Group(e + c, 8) + [] == Group(e + c, 8);
    } else {
      RestIs(e, c, 8);
    }
  }

  /** The bytes of a phrase of the right length: the entropy, and one that starts with the checksum. */
  lemma BytesSplit(indices: seq<nat>, n: nat)
    requires 8 * n < 11 * |indices| <= 8 * n + 8
    ensures var bits := Flat(indices, 11); var c := bits[8 * n..];
      && |bits| == 11 * |indices|
      && BytesOf(indices) == Group(bits[..8 * n], 8) + [Number(c + NoBits(8 - |c|))]
      && |Group(bits[..8 * n], 8)| == n
  {
    hide Number, Group, Rest, Filled;
    var bits := Flat(indices, 11);
    var e, c := bits[..8 * n], bits[8 * n..];
    assert bits == e + c;
    assert Whole(e, 8);
    FilledBytes(e, c);
    GroupLength(e, 8);
  }

  lemma ChecksumOfFilled(c: seq<bool>)
    requires |c| <= 8
    ensures Checksum(Number(c + NoBits(8 - |c|)), |c|) == Number(c)
  {
    hide Number, Pow, Checksum;
    var k := 8 - |c|;
    var filled := Number(c + NoBits(k));
    assert filled == Number(c) * P(k) by {
      NumberConcat(c, NoBits(k));
      NumberOfNoBits(k);
    }
    ChecksumIs(Number(c), filled, |c|);
  }

  lemma ChecksumIs(n: nat, byte: nat, bits: nat)
    requires bits <= 8 && byte == n * P(8 - bits)
    ensures Checksum(byte, bits) == n
  {
    hide Pow;
    ExactQuotient(n, P(8 - bits), byte);
  }

  lemma ExactQuotient(n: nat, p: nat, product: nat)
    requires 0 < p && product == n * p
    ensures product / p == n
  {
    DivUnique(product, p, n, 0);
  }

  /** What `EntropyOf` accepts, in bits: the entropy followed by the first bits of its hash. */
  lemma AcceptedIff(indices: seq<nat>, hash: HashByte, entropy: seq<nat>)
    requires ForWordCount(|indices|).Some? && IsHash(hash)
    ensures var t := ForWordCount(|indices|).value; var bits := Flat(indices, 11); var n := t.entropyBits / 8;
      && 8 * n == t.entropyBits < |bits| && |bits| == t.entropyBits + t.checksumBits && t.checksumBits <= 8
      && (EntropyOf(indices, hash) == Ok(entropy)
          <==> entropy == Group(bits[..8 * n], 8) && bits[8 * n..] == Bits(hash(entropy), 8)[..t.checksumBits])
  {
    hide Number, Group, Rest, Filled, Pow, Bits, Flat, BytesOf;
    var t, bits := ForWordCount(|indices|).value, Flat(indices, 11);
    var n := t.entropyBits / 8;
    TypesMatch(|indices|, n);
    BytesSplit(indices, n);
    var c := bits[8 * n..];
    ChecksumOfFilled(c);
    var e := Group(bits[..8 * n], 8);
    var bytes := BytesOf(indices);
    assert bytes[n] == Number(c + NoBits(8 - |c|)) && bytes[..n] == e;
    HashBits(hash(e), t.checksumBits, c);
  }

  lemma HashBits(h: nat, k: nat, c: seq<bool>)
    requires h < 256 && k <= 8 && |c| == k
    ensures Number(c) == Checksum(h, k) <==> c == Bits(h, 8)[..k]
  {
    hide Number, Pow, Bits;
    assert P(8) == 256 by { EightBits(); }
    var first := Bits(h, 8)[..k];
    NumberOfBits(h, 8);
    NumberSplit(Bits(h, 8), k);
    BitsOfNumber(first);
    BitsOfNumber(c);
  }

  lemma EightBits()
    ensures Pow(2, 8) == 256
  {
    assert Pow(2, 4) == 2 * Pow(2, 3) == 4 * Pow(2, 2) == 8 * Pow(2, 1);
    PowAdd(2, 4, 4);
  }

  /** Every entropy of a permitted size comes back from its words. */
  lemma EntropyRoundTrip(entropy: seq<nat>, hash: HashByte)
    requires ForKeySize(8 * |entropy|).Some? && AllBelow(entropy, 8) && IsHash(hash)
    ensures EntropyOf(Indices(entropy, hash), hash) == Ok(entropy) && AllBelow(Indices(entropy, hash), 11)
  {
    hide Number, Group, Pow, Bits, Flat, EntropyOf, AllBelow;
    var h, n := hash(entropy), |entropy|;
    TypesMatch(0, n);
    var all := Flat(entropy + [h], 8);
    FlatSnoc(entropy, h, 8);
    var total := 11 * ((8 * n + 8) / 11);
    var whole, rest := all[..total], all[total..];
    assert all == whole + rest;
    GroupMore(whole, rest, 11);
    GroupOne(rest, 11);
    assert Group(whole, 11) + [] == Group(whole, 11);
    FlatOfGroup(whole, 11);
    GroupLength(whole, 11);
    GroupOfFlat(entropy, 8);
    AcceptedIff(Indices(entropy, hash), hash, entropy);
    PrefixOfBoth(Flat(entropy, 8), Bits(h, 8), total);
  }

  lemma PrefixOfBoth(e: seq<bool>, b: seq<bool>, total: nat)
    requires |e| <= total <= |e| + |b|
    ensures (e + b)[..total][..|e|] == e && (e + b)[..total][|e|..] == b[..total - |e|]
  {
  }

  /** And every accepted phrase is the one its entropy is written as. */
  lemma PhraseIsCanonical(indices: seq<nat>, hash: HashByte)
    requires AllBelow(indices, 11) && IsHash(hash) && EntropyOf(indices, hash).Ok?
    ensures var e := EntropyOf(indices, hash).value;
      && AllBelow(e, 8) && ForKeySize(8 * |e|).Some? && Indices(e, hash) == indices
  {
    hide Number, Group, Pow, Bits, Flat, AllBelow;
    var e := EntropyOf(indices, hash).value;
    var t, bits := ForWordCount(|indices|).value, Flat(indices, 11);
    AcceptedIff(indices, hash, e);
    var n := t.entropyBits / 8;
    TypesMatch(|indices|, n);
    assert Whole(bits[..8 * n], 8);
    FlatOfGroup(bits[..8 * n], 8);
    GroupLength(bits[..8 * n], 8);
    var hbits := Bits(hash(e), 8);
    var rest := hbits[t.checksumBits..];
    FlatSnoc(e, hash(e), 8);
    assert bits[..8 * n] + hbits == bits + rest;
    GroupOfFlat(indices, 11);
    GroupMore(bits, rest, 11);
    GroupOne(rest, 11);
    assert indices + [] == indices;
  }

  // ---------------------------------------------------------------- words

  /** The map from words to numbers that a list of 2048 distinct words gives. */
  ghost predicate Matches(wordlist: seq<string>, wordmap: map<string, nat>) {
    && |wordlist| == 2048
    && (forall i :: 0 <= i < 2048 ==> wordlist[i] in wordmap && wordmap[wordlist[i]] == i)
    && (forall w :: w in wordmap ==> wordmap[w] < 2048 && wordlist[wordmap[w]] == w)
  }

  ghost predicate NoSpaces(words: seq<string>) {
    forall i :: 0 <= i < |words| ==> ' ' !in words[i]
  }

  /** `join(" ")` */
  function Join(words: seq<string>): string {
    if |words| == 0 then "" else if |words| == 1 then words[0] else words[0] + " " + Join(words[1..])
  }

  /** `split(' ')`, with the characters of the current piece. */
  function Split(s: string, piece: string): seq<string> {
    if s == "" then [piece]
    else if s[0] == ' ' then [piece] + Split(s[1..], "")
    else Split(s[1..], piece + [s[0]])
  }

  lemma {:induction false} SplitWord(w: string, rest: string, piece: string)
    requires ' ' !in w
    ensures Split(w + rest, piece) == Split(rest, piece + w)
    decreases |w|
  {
    if w == "" {
      assert w + rest == rest && piece + w == piece;
    } else {
      assert (w + rest)[1..] == w[1..] + rest && piece + [w[0]] + w[1..] == piece + w;
      SplitWord(w[1..], rest, piece + [w[0]]);
    }
  }

  /** Words without spaces come back from the phrase they are joined to. */
  lemma {:induction false} SplitOfJoin(words: seq<string>)
    requires words != [] && NoSpaces(words)
    ensures Split(Join(words), "") == words
    decreases |words|
  {
    var w := words[0];
    if |words| == 1 {
      assert w + "" == w && "" + w == w;
      SplitWord(w, "", "");
      assert [w] == words;
    } else {
      var rest := " " + Join(words[1..]);
      assert w + " " + Join(words[1..]) == w + rest;
      SplitWord(w, rest, "");
      assert rest[1..] == Join(words[1..]) && "" + w == w;
      SplitOfJoin(words[1..]);
      assert words == [w] + words[1..];
    }
  }

  lemma {:induction false} SplitHasPiece(s: string, piece: string)
    ensures Split(s, piece) != []
    decreases |s|
  {
    if s != "" && s[0] != ' ' {
      SplitHasPiece(s[1..], piece + [s[0]]);
    }
  }

  /** Any phrase comes back from its pieces. */
  lemma {:induction false} JoinOfSplit(s: string, piece: string)
    ensures Join(Split(s, piece)) == piece + s
    decreases |s|
  {
    if s == "" {
      assert piece + s == piece;
    } else if s[0] == ' ' {
      SplitHasPiece(s[1..], "");
      JoinOfSplit(s[1..], "");
      var rest := Split(s[1..], "");
      assert ([piece] + rest)[1..] == rest;
      assert piece + " " + ("" + s[1..]) == piece + s;
    } else {
      JoinOfSplit(s[1..], piece + [s[0]]);
      assert piece + [s[0]] + s[1..] == piece + s;
    }
  }

  ghost function WordsOf(indices: seq<nat>, wordlist: seq<string>): seq<string>
    requires |wordlist| == 2048 && AllBelow(indices, 11)
  {
    ElevenBits();
    seq(|indices|, i requires 0 <= i < |indices| => wordlist[indices[i]])
  }

  lemma ElevenBits()
    ensures Pow(2, 11) == 2048
  {
    EightBits();
    PowAdd(2, 8, 3);
    assert Pow(2, 3) == 2 * Pow(2, 2) == 4 * Pow(2, 1);
  }

  ghost predicate AllKnown(words: seq<string>, wordmap: map<string, nat>) {
    forall i :: 0 <= i < |words| ==> words[i] in wordmap
  }

  ghost function IndicesOf(words: seq<string>, wordmap: map<string, nat>): seq<nat>
    requires AllKnown(words, wordmap)
  {
    seq(|words|, i requires 0 <= i < |words| => wordmap[words[i]])
  }

  /** `from_entropy` */
  method FromEntropy(entropy: seq<nat>, wordlist: seq<string>, hash: HashByte) returns (r: Result<string, Error>)
    requires |wordlist| == 2048 && AllBelow(entropy, 8) && IsHash(hash)
    ensures r.Ok? <==> |entropy| in {16, 20, 24, 28, 32}
    ensures r.Err? ==> r == Err(InvalidKeysize(8 * |entropy|))
    ensures r.Ok? ==> AllBelow(Indices(entropy, hash), 11) && r == Ok(Join(WordsOf(Indices(entropy, hash), wordlist)))
  {
    hide Number, Group, Pow, Flat, AllBelow;
    KeySizeIff(8 * |entropy|);
    if ForKeySize(|entropy| * 8).None? {
      return Err(InvalidKeysize(|entropy| * 8));
    }
    EntropyRoundTrip(entropy, hash);
    OneByteMore(entropy, hash(entropy));
    var bits := Regroup(entropy + [hash(entropy)], 8, 11);
    var words: seq<string> := [];
    for i := 0 to |bits|
      invariant words == WordsOf(bits, wordlist)[..i]
    {
      BelowAt(bits, i);
      words := words + [wordlist[bits[i]]];
    }
    assert WordsOf(bits, wordlist)[..|bits|] == WordsOf(bits, wordlist);
    return Ok(Join(words));
  }

  lemma OneByteMore(entropy: seq<nat>, h: nat)
    requires AllBelow(entropy, 8) && h < 256
    ensures AllBelow(entropy + [h], 8)
  {
    hide Pow;
    EightBits();
  }

  lemma BelowAt(indices: seq<nat>, i: nat)
    requires AllBelow(indices, 11) && i < |indices|
    ensures indices[i] < 2048
  {
    hide Pow;
    ElevenBits();
  }

  /** What a phrase reads as. */
  ghost function Reading(phrase: string, wordmap: map<string, nat>, hash: HashByte): Result<seq<nat>, Error> {
    var words := Split(phrase, "");
    if AllKnown(words, wordmap) then EntropyOf(IndicesOf(words, wordmap), hash) else Err(InvalidWord)
  }

  /** `phrase_to_entropy` */
  method PhraseToEntropy(phrase: string, ghost wordlist: seq<string>, wordmap: map<string, nat>, hash: HashByte)
    returns (r: Result<seq<nat>, Error>)
    requires Matches(wordlist, wordmap) && IsHash(hash)
    ensures r == Reading(phrase, wordmap, hash)
    ensures var words := Split(phrase, "");
      && (r == Err(InvalidWord) <==> !AllKnown(words, wordmap))
      && (AllKnown(words, wordmap) ==>
            && (|words| !in {12, 15, 18, 21, 24} ==> r == Err(InvalidWordLength(|words|)))
            && (|words| in {12, 15, 18, 21, 24} ==> r.Ok? || r == Err(InvalidChecksum)))
  {
    hide Number, Group, Pow, Flat, Split, AtTop, Filled, Rest, Bits, Checksum;
    var words := Split(phrase, "");
    var bits := new BitWriter();
    ghost var indices: seq<nat> := [];
    FlatNone(11);
    for i := 0 to |words|
      invariant bits.Valid() && fresh(bits) && |indices| == i
      invariant forall k :: 0 <= k < i ==> words[k] in wordmap && indices[k] == wordmap[words[k]]
      invariant bits.Written() == Flat(indices, 11)
    {
      if words[i] !in wordmap {
        return Err(InvalidWord);
      }
      var v := wordmap[words[i]];
      ElevenBits();
      FlatSnoc(indices, v, 11);
      bits.Push(v, 11);
      indices := indices + [v];
    }
    assert indices == IndicesOf(words, wordmap);
    WordCountIff(|words|);
    var len := bits.Len();
    var count := len / 11;
    if ForWordCount(count).None? {
      return Err(InvalidWordLength(count));
    }
    var t := ForWordCount(count).value;
    var bytes := bits.IntoBytes();
    var n := t.entropyBits / 8;
    TypesMatch(count, n);
    BytesSplit(indices, n);
    var actual := Checksum(bytes[n], t.checksumBits);
    var entropy := bytes[..n];
    var expected := Checksum(hash(entropy), t.checksumBits);
    if actual != expected {
      return Err(InvalidChecksum);
    }
    return Ok(entropy);
  }

  /** A phrase made from entropy reads back as it, for any list of 2048 distinct words without spaces. */
  lemma PhraseRoundTrip(entropy: seq<nat>, wordlist: seq<string>, wordmap: map<string, nat>, hash: HashByte)
    requires Matches(wordlist, wordmap) && NoSpaces(wordlist) && IsHash(hash)
    requires ForKeySize(8 * |entropy|).Some? && AllBelow(entropy, 8)
    ensures AllBelow(Indices(entropy, hash), 11)
    ensures var words := Split(Join(WordsOf(Indices(entropy, hash), wordlist)), "");
      AllKnown(words, wordmap) && EntropyOf(IndicesOf(words, wordmap), hash) == Ok(entropy)
  {
    hide Group, Pow, Flat, EntropyOf, Indices, Join, Split;
    EntropyRoundTrip(entropy, hash);
    var indices := Indices(entropy, hash);
    assert indices != [] by { hide *; NotEmpty(indices, hash, entropy); }
    forall i | 0 <= i < |indices| ensures indices[i] < 2048 { BelowAt(indices, i); }
    var words := WordsOf(indices, wordlist);
    SplitOfJoin(words);
    assert IndicesOf(words, wordmap) == indices;
  }

  /** A phrase reads as an entropy if and only if it is the phrase made from it, and the entropy has one of
      the five sizes. */
  lemma ReadsIff(phrase: string, entropy: seq<nat>, wordlist: seq<string>, wordmap: map<string, nat>, hash: HashByte)
    requires Matches(wordlist, wordmap) && NoSpaces(wordlist) && IsHash(hash)
    ensures AllBelow(entropy, 8) && |entropy| in {16, 20, 24, 28, 32} ==> AllBelow(Indices(entropy, hash), 11)
    ensures Reading(phrase, wordmap, hash) == Ok(entropy)
      <==> && AllBelow(entropy, 8) && |entropy| in {16, 20, 24, 28, 32}
           && phrase == Join(WordsOf(Indices(entropy, hash), wordlist))
  {
    hide Group, Pow, Flat, EntropyOf, Indices, Join, Split, AllBelow, ForKeySize;
    KeySizeIff(8 * |entropy|);
    if AllBelow(entropy, 8) && |entropy| in {16, 20, 24, 28, 32} {
      PhraseRoundTrip(entropy, wordlist, wordmap, hash);
    }
    if Reading(phrase, wordmap, hash) == Ok(entropy) {
      var words := Split(phrase, "");
      var indices := IndicesOf(words, wordmap);
      KnownIsBelow(words, wordlist, wordmap);
      PhraseIsCanonical(indices, hash);
      assert WordsOf(indices, wordlist) == words;
      JoinOfSplit(phrase, "");
      assert "" + phrase == phrase;
    }
  }

  lemma KnownIsBelow(words: seq<string>, wordlist: seq<string>, wordmap: map<string, nat>)
    requires Matches(wordlist, wordmap) && AllKnown(words, wordmap)
    ensures AllBelow(IndicesOf(words, wordmap), 11)
  {
    hide Pow;
    ElevenBits();
  }

  lemma NotEmpty(indices: seq<nat>, hash: HashByte, entropy: seq<nat>)
    requires EntropyOf(indices, hash) == Ok(entropy)
    ensures indices != []
  {
  }
}
