/** The RLP format: what the writer produces for a tree of byte strings and lists, what the reader
    makes of a byte string, and that reading undoes writing. */
module RlpFormat {
  import opened Common
  import opened Limbs
  import opened Bitwise

  type Byte = x: int | 0 <= x < 256

  datatype Item = Data(bytes: seq<Byte>) | List(items: seq<Item>)

  datatype DecoderError =
    | RlpIsTooBig
    | RlpIsTooShort
    | RlpExpectedToBeList
    | RlpExpectedToBeData
    | RlpDataLenWithZeroPrefix
    | RlpInvalidIndirection
    | RlpInconsistentLengthAndData
    | RlpInvalidLength

  const USIZE: nat := 0x1_0000_0000_0000_0000

  // ---------------------------------------------------------------- sizes

  /** `u32::to_be_bytes`. */
  function BigEndian4(n: nat): (b: seq<Byte>)
    requires n < U32
    ensures |b| == 4
  {
    [n / 0x100_0000, (n / 0x1_0000) % 256, (n / 256) % 256, n % 256]
  }

  /** The number of whole zero bytes in front of a 32-bit size. */
  function LeadingEmptyBytes(n: nat): (k: nat)
    requires n < U32
    ensures k <= 4
    ensures k == if n == 0 then 4 else if n < 256 then 3 else if n < 0x1_0000 then 2 else if n < 0x100_0000 then 1 else 0
  {
    SizeBits(n);
    (32 - BitLength(n)) / 8
  }

  lemma SizeBits(n: nat)
    ensures BitLength(n) <= 0 <==> n < 1
    ensures BitLength(n) <= 8 <==> n < 256
    ensures BitLength(n) <= 16 <==> n < 0x1_0000
    ensures BitLength(n) <= 24 <==> n < 0x100_0000
    ensures BitLength(n) <= 32 <==> n < U32
  {
    hide BitLength, Pow;
    BytePowers();
    BitsAtMost(n, 0);
    BitsAtMost(n, 8);
    BitsAtMost(n, 16);
    BitsAtMost(n, 24);
    BitsAtMost(n, 32);
  }

  lemma BytePowers()
    ensures Pow(2, 0) == 1 && Pow(2, 8) == 256 && Pow(2, 16) == 0x1_0000 && Pow(2, 24) == 0x100_0000 && Pow(2, 32) == U32
  {
    PowAdd(2, 4, 4);
    PowAdd(2, 8, 8);
    PowAdd(2, 16, 8);
    PowAdd(2, 16, 16);
    assert Pow(2, 4) == 2 * Pow(2, 3) == 4 * Pow(2, 2) == 8 * Pow(2, 1);
  }

  lemma BitsAtMost(n: nat, k: nat)
    ensures BitLength(n) <= k <==> n < Pow(2, k)
  {
    hide BitLength, Pow;
    BitLengthBounds(n);
    if BitLength(n) <= k {
      PowMono(2, BitLength(n), k);
    } else {
      PowMono(2, k, BitLength(n) - 1);
    }
  }

  /** The size written by `insert_size`: cut to 32 bits, big-endian, without leading zero bytes. */
  function SizeBytes(len: nat): (b: seq<Byte>)
    ensures |b| <= 4
  {
    var n := len % U32;
    BigEndian4(n)[LeadingEmptyBytes(n)..]
  }

  /** The number a big-endian byte string stands for. */
  function FromBigEndian(b: seq<Byte>): nat {
    if b == [] then 0 else FromBigEndian(b[..|b| - 1]) * 256 + b[|b| - 1]
  }

  lemma FromFour(a: Byte, b: Byte, c: Byte, d: Byte)
    ensures FromBigEndian([a]) == a
    ensures FromBigEndian([a, b]) == a * 256 + b
    ensures FromBigEndian([a, b, c]) == (a * 256 + b) * 256 + c
    ensures FromBigEndian([a, b, c, d]) == ((a * 256 + b) * 256 + c) * 256 + d
  {
    assert [a][..0] == [];
    assert [a, b][..1] == [a];
    assert [a, b, c][..2] == [a, b];
    assert [a, b, c, d][..3] == [a, b, c];
  }

  ghost function Join4(a: int, b: int, c: int, d: int): int {
    ((a * 256 + b) * 256 + c) * 256 + d
  }

  lemma FourBytes(n: nat)
    requires 0 < n < U32
    ensures var f, k := BigEndian4(n), LeadingEmptyBytes(n);
      && Join4(f[0], f[1], f[2], f[3]) == n
      && k < 4 && f[k] != 0 && forall i :: 0 <= i < k ==> f[i] == 0
  {
    assert n / 256 == (n / 0x1_0000) * 256 + (n / 256) % 256;
    assert n / 0x1_0000 == (n / 0x100_0000) * 256 + (n / 0x1_0000) % 256;
  }

  lemma SizeTail(f: seq<Byte>, k: nat)
    requires |f| == 4 && k < 4 && forall i :: 0 <= i < k ==> f[i] == 0
    ensures FromBigEndian(f[k..]) == Join4(f[0], f[1], f[2], f[3])
  {
    hide FromBigEndian;
    FromFour(f[0], f[1], f[2], f[3]);
    FromFour(f[1], f[2], f[3], 0);
    FromFour(f[2], f[3], 0, 0);
    FromFour(f[3], 0, 0, 0);
    assert f[0..] == [f[0], f[1], f[2], f[3]] && f[1..] == [f[1], f[2], f[3]] && f[2..] == [f[2], f[3]] && f[3..] == [f[3]];
  }

  /** A size of at most 32 bits is written with no leading zero and read back. */
  lemma SizeRoundTrip(len: nat)
    requires 0 < len < U32
    ensures var b := SizeBytes(len); 0 < |b| && b[0] != 0 && FromBigEndian(b) == len
  {
    hide FromBigEndian, BitLength, BigEndian4, Join4, LeadingEmptyBytes;
    SizeIs(len);
    FourBytes(len);
    SizeTail(BigEndian4(len), LeadingEmptyBytes(len));
  }

  lemma SizeIs(len: nat)
    requires len < U32
    ensures |BigEndian4(len)| == 4 && SizeBytes(len) == BigEndian4(len)[LeadingEmptyBytes(len)..]
  {
    hide BitLength, BigEndian4, LeadingEmptyBytes;
    assert len % U32 == len;
  }

  // ---------------------------------------------------------------- the writer's format

  /** The bytes in front of a payload of `len` bytes. */
  function Header(len: nat, short: Byte, long: Byte): seq<Byte>
    requires short + 55 < 256 && long + 4 < 256
  {
    if len <= 55 then [short + len] else [long + |SizeBytes(len)|] + SizeBytes(len)
  }

  function Encode(item: Item): seq<Byte>
    decreases item
  {
    match item
    case Data(b) => EncodeData(b)
    case List(items) => ListOf(EncodeAll(items))
  }

  /** `encode_iter` */
  function EncodeData(b: seq<Byte>): seq<Byte> {
    if |b| == 1 && b[0] < 0x80 then b else Header(|b|, 0x80, 0xb7) + b
  }

  /** A list of the given payload. */
  function ListOf(payload: seq<Byte>): seq<Byte> {
    Header(|payload|, 0xc0, 0xf7) + payload
  }

  function EncodeAll(items: seq<Item>): seq<Byte>
    decreases items
  {
    if items == [] then [] else Encode(items[0]) + EncodeAll(items[1..])
  }

  lemma {:induction false} EncodeAllConcat(a: seq<Item>, b: seq<Item>)
    ensures EncodeAll(a + b) == EncodeAll(a) + EncodeAll(b)
  {
    if a == [] {
      assert a + b == b;
    } else {
      assert (a + b)[1..] == a[1..] + b;
      EncodeAllConcat(a[1..], b);
    }
  }

  /** Every payload in the tree is below 2^32 bytes. */
  predicate Small(item: Item)
    decreases item
  {
    match item
    case Data(b) => |b| < U32
    case List(items) => |EncodeAll(items)| < U32 && forall i :: 0 <= i < |items| ==> Small(items[i])
  }

  // ---------------------------------------------------------------- the reader

  datatype PayloadInfo = PayloadInfo(headerLen: nat, valueLen: nat) {
    function Total(): nat { headerLen + valueLen }
  }

  /** `decode_usize`, of at least one byte. */
  function DecodeUsize(b: seq<Byte>): Result<nat, DecoderError>
    requires b != []
  {
    if |b| <= 8 then if b[0] == 0 then Err(RlpInvalidIndirection) else Ok(FromBigEndian(b))
    else Err(RlpIsTooBig)
  }

  /** `calculate_payload_info` */
  function LongPayloadInfo(bytes: seq<Byte>, lenOfLen: nat): Result<PayloadInfo, DecoderError>
    requires 0 < lenOfLen
  {
    if |bytes| < 2 then Err(RlpIsTooShort)
    else if bytes[1] == 0 then Err(RlpDataLenWithZeroPrefix)
    else if |bytes| < 1 + lenOfLen then Err(RlpIsTooShort)
    else
      match DecodeUsize(bytes[1..1 + lenOfLen])
      case Err(e) => Err(e)
      case Ok(len) => if len <= 55 then Err(RlpInvalidIndirection) else Ok(PayloadInfo(1 + lenOfLen, len))
  }

  /** `PayloadInfo::from` */
  function HeaderInfo(bytes: seq<Byte>): Result<PayloadInfo, DecoderError> {
    if bytes == [] then Err(RlpIsTooShort)
    else
      var l := bytes[0];
      if l <= 0x7f then Ok(PayloadInfo(0, 1))
      else if l <= 0xb7 then Ok(PayloadInfo(1, l - 0x80))
      else if l <= 0xbf then LongPayloadInfo(bytes, l - 0xb7)
      else if l <= 0xf7 then Ok(PayloadInfo(1, l - 0xc0))
      else LongPayloadInfo(bytes, l - 0xf7)
  }

  /** `BasicDecoder::payload_info` */
  function FirstItem(bytes: seq<Byte>): (r: Result<PayloadInfo, DecoderError>)
    ensures r.Ok? ==> 0 < r.value.Total() <= |bytes|
  {
    match HeaderInfo(bytes)
    case Err(e) => Err(e)
    case Ok(item) => if item.Total() < USIZE && item.Total() <= |bytes| then Ok(item) else Err(RlpIsTooShort)
  }

  predicate IsList(bytes: seq<Byte>) {
    bytes != [] && bytes[0] >= 0xc0
  }

  /** `decode_value`, handing over the bytes themselves. */
  function DecodeValue(bytes: seq<Byte>): Result<seq<Byte>, DecoderError> {
    if bytes == [] then Err(RlpIsTooShort)
    else
      var l := bytes[0];
      if l <= 0x7f then Ok([l])
      else if l <= 0xb7 then
        var last := 1 + l - 0x80;
        if |bytes| < last then Err(RlpInconsistentLengthAndData)
        else if l == 0x81 && bytes[1] < 0x80 then Err(RlpInvalidIndirection)
        else Ok(bytes[1..last])
      else if l <= 0xbf then
        var begin := 1 + l - 0xb7;
        if |bytes| < begin then Err(RlpInconsistentLengthAndData)
        else
          match DecodeUsize(bytes[1..begin])
          case Err(e) => Err(e)
          case Ok(len) =>
            if begin + len >= USIZE then Err(RlpInvalidLength)
            else if |bytes| < begin + len then Err(RlpInconsistentLengthAndData)
            else Ok(bytes[begin..begin + len])
      else Err(RlpExpectedToBeData)
  }

  /** The items of a payload, up to the first one that cannot be read. */
  function Split(payload: seq<Byte>): seq<seq<Byte>> {
    match FirstItem(payload)
    case Err(_) => []
    case Ok(item) => [payload[..item.Total()]] + Split(payload[item.Total()..])
  }

  /** `consume_list_payload`: the payload of a list, and where it starts. */
  function ListPayload(bytes: seq<Byte>): Result<(seq<Byte>, nat), DecoderError> {
    match FirstItem(bytes)
    case Err(e) => Err(e)
    case Ok(item) => Ok((bytes[item.headerLen..item.Total()], item.headerLen))
  }

  /** Reading a whole tree: lists item by item, anything else as a byte string. */
  function Read(bytes: seq<Byte>): Result<Item, DecoderError>
    decreases |bytes|, 0
  {
    if IsList(bytes) then
      match ListPayload(bytes)
      case Err(e) => Err(e)
      case Ok(payload) =>
        ListIsShorter(bytes);
        SplitSizes(payload.0);
        match ReadAll(Split(payload.0), |payload.0|)
        case Err(e) => Err(e)
        case Ok(items) => Ok(List(items))
    else
      match DecodeValue(bytes)
      case Err(e) => Err(e)
      case Ok(b) => Ok(Data(b))
  }

  function ReadAll(views: seq<seq<Byte>>, bound: nat): Result<seq<Item>, DecoderError>
    requires forall i :: 0 <= i < |views| ==> |views[i]| <= bound
    decreases bound, |views| + 1
  {
    if views == [] then Ok([])
    else
      match Read(views[0])
      case Err(e) => Err(e)
      case Ok(first) =>
        match ReadAll(views[1..], bound)
        case Err(e) => Err(e)
        case Ok(rest) => Ok([first] + rest)
  }

  lemma ListIsShorter(bytes: seq<Byte>)
    requires IsList(bytes) && FirstItem(bytes).Ok?
    ensures ListPayload(bytes).Ok? && |ListPayload(bytes).value.0| < |bytes|
  {
  }

  lemma {:induction false} SplitSizes(payload: seq<Byte>)
    ensures forall i :: 0 <= i < |Split(payload)| ==> |Split(payload)[i]| <= |payload|
  {
    match FirstItem(payload)
    case Err(_) =>
    case Ok(item) =>
      SplitSizes(payload[item.Total()..]);
      var rest := Split(payload[item.Total()..]);
      assert Split(payload) == [payload[..item.Total()]] + rest;
      assert forall i :: 0 < i < |Split(payload)| ==> Split(payload)[i] == rest[i - 1];
  }

  // ---------------------------------------------------------------- reading undoes writing

  /** A header below 2^32 is read back, whatever follows the payload. */
  lemma HeaderRoundTrip(len: nat, short: Byte, long: Byte, rest: seq<Byte>)
    requires (short == 0x80 && long == 0xb7) || (short == 0xc0 && long == 0xf7)
    requires len < U32 && len <= |rest|
    ensures FirstItem(Header(len, short, long) + rest) == Ok(PayloadInfo(|Header(len, short, long)|, len))
  {
    hide SizeBytes, FromBigEndian;
    var h := Header(len, short, long);
    if len > 55 {
      SizeRoundTrip(len);
      var size := SizeBytes(len);
      assert (h + rest)[1..1 + |size|] == size;
      assert (h + rest)[1] == size[0];
    }
  }

  lemma SizeIsCut(len: nat)
    ensures SizeBytes(len) == SizeBytes(len % U32) && (len % U32 == 0 ==> SizeBytes(len) == [])
  {
    hide BitLength, BigEndian4, LeadingEmptyBytes;
    assert (len % U32) % U32 == len % U32;
  }

  /** The header tells the length of the payload if and only if it is below 2^32. */
  lemma HeaderExactIff(len: nat, short: Byte, long: Byte, rest: seq<Byte>)
    requires (short == 0x80 && long == 0xb7) || (short == 0xc0 && long == 0xf7)
    ensures HeaderInfo(Header(len, short, long) + rest) == Ok(PayloadInfo(|Header(len, short, long)|, len)) <==> len < U32
  {
    hide SizeBytes, FromBigEndian;
    var h := Header(len, short, long);
    if len > 55 {
      SizeIsCut(len);
      var n, size := len % U32, SizeBytes(len);
      if n > 0 {
        SizeRoundTrip(n);
        assert (h + rest)[1..1 + |size|] == size;
        assert (h + rest)[1] == size[0];
      }
    }
  }

  lemma DataRoundTrip(b: seq<Byte>, rest: seq<Byte>)
    requires |b| < U32
    ensures FirstItem(EncodeData(b) + rest).Ok? && FirstItem(EncodeData(b) + rest).value.Total() == |EncodeData(b)|
    ensures EncodeData(b) != [] && EncodeData(b)[0] < 0xc0
    ensures DecodeValue(EncodeData(b)) == Ok(b)
  {
    hide SizeBytes, FromBigEndian;
    if |b| == 1 && b[0] < 0x80 {
      assert [b[0]] == b;
    } else {
      var h := Header(|b|, 0x80, 0xb7);
      HeaderRoundTrip(|b|, 0x80, 0xb7, b + rest);
      assert h + b + rest == h + (b + rest);
      if |b| > 55 {
        SizeRoundTrip(|b|);
        assert (h + b)[1..1 + |SizeBytes(|b|)|] == SizeBytes(|b|);
        assert (h + b)[|h|..|h| + |b|] == b;
      } else {
        assert (h + b)[1..1 + |b|] == b;
      }
    }
  }

  lemma ListRoundTrip(payload: seq<Byte>, rest: seq<Byte>)
    requires |payload| < U32
    ensures FirstItem(ListOf(payload) + rest).Ok? && FirstItem(ListOf(payload) + rest).value.Total() == |ListOf(payload)|
    ensures IsList(ListOf(payload)) && ListPayload(ListOf(payload)) == Ok((payload, |Header(|payload|, 0xc0, 0xf7)|))
  {
    hide SizeBytes, FromBigEndian, FirstItem;
    var h := Header(|payload|, 0xc0, 0xf7);
    HeaderRoundTrip(|payload|, 0xc0, 0xf7, payload + rest);
    HeaderRoundTrip(|payload|, 0xc0, 0xf7, payload);
    assert h + payload + rest == h + (payload + rest);
    assert (h + payload)[|h|..|h| + |payload|] == payload;
  }

  /** The encoding of an item shows where it ends, whatever bytes follow it. */
  lemma SelfDelimiting(item: Item, rest: seq<Byte>)
    requires Small(item)
    ensures var first := FirstItem(Encode(item) + rest); first.Ok? && first.value.Total() == |Encode(item)|
  {
    hide SizeBytes, FromBigEndian, FirstItem, EncodeData, ListOf;
    match item
    case Data(b) => DataRoundTrip(b, rest);
    case List(items) => ListRoundTrip(EncodeAll(items), rest);
  }

  /** A payload splits into the encodings of its items. */
  lemma {:induction false} SplitRoundTrip(items: seq<Item>)
    requires forall i :: 0 <= i < |items| ==> Small(items[i])
    ensures Split(EncodeAll(items)) == seq(|items|, i requires 0 <= i < |items| => Encode(items[i]))
  {
    hide Encode, FirstItem, Small;
    if items == [] {
      assert FirstItem([]).Err? by { EmptyHasNoItem(); }
    } else {
      var head, tail := Encode(items[0]), EncodeAll(items[1..]);
      EncodeAllHead(items);
      SelfDelimiting(items[0], tail);
      assert (head + tail)[..|head|] == head && (head + tail)[|head|..] == tail;
      SplitRoundTrip(items[1..]);
    }
  }

  lemma EmptyHasNoItem()
    ensures FirstItem([]) == Err(RlpIsTooShort)
  {
  }

  lemma EncodeAllHead(items: seq<Item>)
    requires items != []
    ensures EncodeAll(items) == Encode(items[0]) + EncodeAll(items[1..])
  {
  }

  /** Reading the encoding of any tree gives the tree. */
  lemma {:induction false} RoundTrip(item: Item)
    requires Small(item)
    ensures Read(Encode(item)) == Ok(item)
    decreases item, 0
  {
    hide Read, ReadAll, Split, FirstItem, DecodeValue, ListPayload, EncodeData, ListOf, EncodeAll;
    match item
    case Data(b) =>
      DataRoundTrip(b, []);
      ReadData(EncodeData(b), b);
    case List(items) =>
      var payload := EncodeAll(items);
      ListRoundTrip(payload, []);
      SplitRoundTrip(items);
      SplitSizes(payload);
      assert forall i :: 0 <= i < |items| ==> Split(payload)[i] == Encode(items[i]);
      AllRoundTrip(items, |payload|);
      ReadList(ListOf(payload), payload, items);
  }

  lemma ReadData(bytes: seq<Byte>, b: seq<Byte>)
    requires !IsList(bytes) && DecodeValue(bytes) == Ok(b)
    ensures Read(bytes) == Ok(Data(b))
  {
  }

  lemma ReadList(bytes: seq<Byte>, payload: seq<Byte>, items: seq<Item>)
    requires IsList(bytes) && ListPayload(bytes).Ok? && ListPayload(bytes).value.0 == payload
    requires forall i :: 0 <= i < |Split(payload)| ==> |Split(payload)[i]| <= |payload|
    requires ReadAll(Split(payload), |payload|) == Ok(items)
    ensures Read(bytes) == Ok(List(items))
  {
    hide ReadAll, Split, FirstItem;
  }

  lemma {:induction false} AllRoundTrip(items: seq<Item>, bound: nat)
    requires forall i :: 0 <= i < |items| ==> Small(items[i]) && |Encode(items[i])| <= bound
    ensures ReadAll(seq(|items|, i requires 0 <= i < |items| => Encode(items[i])), bound) == Ok(items)
    decreases items, 1
  {
    hide Encode, Read, Small;
    var views := seq(|items|, i requires 0 <= i < |items| => Encode(items[i]));
    if items != [] {
      RoundTrip(items[0]);
      AllRoundTrip(items[1..], bound);
      assert views[1..] == seq(|items[1..]|, i requires 0 <= i < |items[1..]| => Encode(items[1..][i]));
      assert [items[0]] + items[1..] == items;
    }
  }

  // ---------------------------------------------------------------- exactly the small trees

  lemma {:induction false} BigEndianBound(b: seq<Byte>, k: nat)
    requires |b| <= k
    ensures FromBigEndian(b) < Pow(256, k)
  {
    if b == [] {
      PowPositive(256, k);
    } else {
      BigEndianBound(b[..|b| - 1], k - 1);
    }
  }

  lemma BytePowersOf256()
    ensures Pow(256, 0) == 1 && Pow(256, 1) == 256 && Pow(256, 2) == 0x1_0000 && Pow(256, 3) == 0x100_0000 && Pow(256, 4) == U32
  {
    assert Pow(256, 4) == 256 * Pow(256, 3) && Pow(256, 3) == 256 * Pow(256, 2) && Pow(256, 2) == 256 * Pow(256, 1);
  }

  /** A size is written in no more bytes than it needs. */
  lemma SizeInBytes(len: nat, k: nat)
    requires len < Pow(256, k)
    ensures |SizeBytes(len)| <= k
  {
    hide BitLength, BigEndian4, Pow;
    BytePowersOf256();
    if k < 4 {
      PowMono(256, k, 4);
      SizeIs(len);
    }
  }

  /** A header that was read is not shorter than the one written for the same payload or a smaller one. */
  lemma HeaderIsNoLonger(bytes: seq<Byte>, len: nat)
    requires IsList(bytes) && FirstItem(bytes).Ok? && len <= FirstItem(bytes).value.valueLen
    ensures |Header(len, 0xc0, 0xf7)| <= FirstItem(bytes).value.headerLen
  {
    hide SizeBytes, FromBigEndian, Pow;
    if bytes[0] > 0xf7 {
      var k := bytes[0] - 0xf7;
      BigEndianBound(bytes[1..1 + k], k);
      SizeInBytes(len, k);
    }
  }

  lemma DataIsNoLonger(bytes: seq<Byte>)
    requires DecodeValue(bytes).Ok?
    ensures |EncodeData(DecodeValue(bytes).value)| <= |bytes|
  {
    hide SizeBytes, FromBigEndian, Pow;
    if 0xb7 < bytes[0] {
      var k := bytes[0] - 0xb7;
      BigEndianBound(bytes[1..1 + k], k);
      SizeInBytes(FromBigEndian(bytes[1..1 + k]), k);
    }
  }

  ghost function Lengths(views: seq<seq<Byte>>): nat {
    if views == [] then 0 else |views[0]| + Lengths(views[1..])
  }

  lemma {:induction false} SplitLengths(payload: seq<Byte>)
    ensures Lengths(Split(payload)) <= |payload|
  {
    hide FirstItem;
    match FirstItem(payload)
    case Err(_) =>
    case Ok(item) =>
      SplitLengths(payload[item.Total()..]);
      assert Split(payload)[1..] == Split(payload[item.Total()..]);
  }

  /** What is read from a view is written in no more bytes than the view has. */
  lemma {:induction false} ReadIsNoLonger(bytes: seq<Byte>)
    requires Read(bytes).Ok?
    ensures |Encode(Read(bytes).value)| <= |bytes|
    decreases |bytes|, 0
  {
    hide FirstItem, Split, DecodeValue, EncodeAll, Header, ReadAll;
    if IsList(bytes) {
      ListIsShorter(bytes);
      var payload := ListPayload(bytes).value.0;
      SplitSizes(payload);
      SplitLengths(payload);
      ReadAllIsNoLonger(Split(payload), |payload|);
      HeaderIsNoLonger(bytes, |EncodeAll(Read(bytes).value.items)|);
    } else {
      DataIsNoLonger(bytes);
    }
  }

  lemma {:induction false} ReadAllIsNoLonger(views: seq<seq<Byte>>, bound: nat)
    requires forall i :: 0 <= i < |views| ==> |views[i]| <= bound
    requires ReadAll(views, bound).Ok?
    ensures |EncodeAll(ReadAll(views, bound).value)| <= Lengths(views)
    decreases bound, |views| + 1
  {
    hide Read, Encode;
    if views != [] {
      ReadIsNoLonger(views[0]);
      ReadAllIsNoLonger(views[1..], bound);
      var items := ReadAll(views, bound).value;
      assert items[1..] == ReadAll(views[1..], bound).value;
      EncodeAllHead(items);
    }
  }

  lemma {:induction false} EncodeAllHolds(items: seq<Item>, i: nat)
    requires i < |items|
    ensures |Encode(items[i])| <= |EncodeAll(items)|
  {
    hide Encode;
    if i > 0 {
      EncodeAllHolds(items[1..], i - 1);
    }
  }

  function Inside(item: Item): seq<Byte> {
    match item case Data(b) => b case List(items) => EncodeAll(items)
  }

  /** A payload too large somewhere in the tree makes the outermost one too large. */
  lemma {:induction false} LargeOutside(item: Item)
    requires !Small(item)
    ensures U32 <= |Inside(item)| <= |Encode(item)|
    decreases item
  {
    hide EncodeAll, Header;
    if item.List? && |EncodeAll(item.items)| < U32 {
      var i :| 0 <= i < |item.items| && !Small(item.items[i]);
      LargeOutside(item.items[i]);
      EncodeAllHolds(item.items, i);
    }
  }

  /** A header never tells of 2^32 bytes or more. */
  lemma LargeHeaderIsCut(b: seq<Byte>, short: Byte, long: Byte)
    requires (short == 0x80 && long == 0xb7) || (short == 0xc0 && long == 0xf7)
    requires 55 < |b|
    ensures var bytes := Header(|b|, short, long) + b;
      && bytes[0] == long + |SizeBytes(|b|)|
      && (FirstItem(bytes).Ok? ==> FirstItem(bytes).value.valueLen < U32)
      && (DecodeValue(bytes).Ok? ==> |DecodeValue(bytes).value| < U32)
  {
    hide SizeBytes, FromBigEndian, Pow;
    var size := SizeBytes(|b|);
    var bytes := Header(|b|, short, long) + b;
    assert bytes[1..1 + |size|] == size;
    BigEndianBound(size, 4);
    BytePowersOf256();
  }

  lemma LargeIsMisread(item: Item)
    requires !Small(item)
    ensures Read(Encode(item)) != Ok(item)
  {
    hide SizeBytes, Split, FirstItem, DecodeValue, EncodeAll, Header, ReadAll;
    LargeOutside(item);
    var bytes := Encode(item);
    if item.Data? {
      LargeHeaderIsCut(item.bytes, 0x80, 0xb7);
    } else {
      LargeHeaderIsCut(EncodeAll(item.items), 0xc0, 0xf7);
      if Read(bytes) == Ok(item) {
        var payload := ListPayload(bytes).value.0;
        SplitSizes(payload);
        SplitLengths(payload);
        ReadAllIsNoLonger(Split(payload), |payload|);
      }
    }
  }

  /** Reading the encoding of a tree gives the tree if and only if every payload in it is below 2^32
      bytes. */
  lemma RoundTripIff(item: Item)
    ensures Read(Encode(item)) == Ok(item) <==> Small(item)
  {
    hide Read, Encode, Small;
    if Small(item) {
      RoundTrip(item);
    } else {
      LargeIsMisread(item);
    }
  }

  // ---------------------------------------------------------------- canonical headers

  /** Two numbers written without leading zero are written alike. */
  lemma {:induction false} BigEndianIsUnique(a: seq<Byte>, b: seq<Byte>)
    requires FromBigEndian(a) == FromBigEndian(b)
    requires (a != [] ==> a[0] != 0) && (b != [] ==> b[0] != 0)
    ensures a == b
  {
    if a == [] || b == [] {
      BigEndianIsPositive(a);
      BigEndianIsPositive(b);
    } else {
      BigEndianIsUnique(a[..|a| - 1], b[..|b| - 1]);
      assert a == a[..|a| - 1] + [a[|a| - 1]] && b == b[..|b| - 1] + [b[|b| - 1]];
    }
  }

  lemma {:induction false} BigEndianIsPositive(b: seq<Byte>)
    ensures b != [] && b[0] != 0 ==> 0 < FromBigEndian(b)
  {
    if |b| > 1 {
      BigEndianIsPositive(b[..|b| - 1]);
    }
  }

  lemma SizeIsOnly(b: seq<Byte>)
    requires b != [] && b[0] != 0 && FromBigEndian(b) < U32
    ensures b == SizeBytes(FromBigEndian(b))
  {
    hide FromBigEndian, SizeBytes;
    BigEndianIsPositive(b);
    SizeRoundTrip(FromBigEndian(b));
    BigEndianIsUnique(b, SizeBytes(FromBigEndian(b)));
  }

  /** A header that is accepted, of a payload below 2^32 bytes, is the one written for it. */
  lemma HeaderIsCanonical(bytes: seq<Byte>)
    requires FirstItem(bytes).Ok? && bytes[0] >= 0x80 && FirstItem(bytes).value.valueLen < U32
    ensures var item := FirstItem(bytes).value;
      bytes[..item.headerLen] == if IsList(bytes) then Header(item.valueLen, 0xc0, 0xf7) else Header(item.valueLen, 0x80, 0xb7)
  {
    hide FromBigEndian, SizeBytes;
    var item := FirstItem(bytes).value;
    if item.headerLen > 1 {
      SizeIsOnly(bytes[1..item.headerLen]);
      assert bytes[..item.headerLen] == [bytes[0]] + bytes[1..item.headerLen];
    } else {
      assert bytes[..1] == [bytes[0]];
    }
  }

  /** A byte string that is accepted starts with the encoding of what it is read as, unless its header is a
      long one and tells of at most 55 bytes or of 2^32 or more. */
  lemma DataCanonicalIff(bytes: seq<Byte>)
    requires DecodeValue(bytes).Ok?
    ensures var b := DecodeValue(bytes).value; EncodeData(b) <= bytes <==> bytes[0] <= 0xb7 || 55 < |b| < U32
  {
    hide SizeBytes, FromBigEndian, Pow;
    var b := DecodeValue(bytes).value;
    if bytes[0] > 0xb7 {
      var k := bytes[0] - 0xb7;
      var size := bytes[1..1 + k];
      if 55 < |b| {
        if |b| < U32 {
          SizeIsOnly(size);
          assert EncodeData(b) == bytes[..1 + k + |b|];
        } else {
          LargeSize(size);
        }
      }
    } else if bytes[0] > 0x7f {
      assert EncodeData(b) == bytes[..1 + |b|];
    }
  }

  lemma LargeSize(size: seq<Byte>)
    requires U32 <= FromBigEndian(size)
    ensures 4 < |size|
  {
    hide FromBigEndian, Pow;
    BytePowersOf256();
    if |size| <= 4 {
      BigEndianBound(size, 4);
    }
  }

  lemma DataIsCanonical(bytes: seq<Byte>)
    requires DecodeValue(bytes).Ok? && |EncodeData(DecodeValue(bytes).value)| == |bytes|
    ensures EncodeData(DecodeValue(bytes).value) == bytes
  {
    hide EncodeData, DecodeValue;
    DataCanonicalIff(bytes);
    OtherwiseShorter(bytes);
  }

  lemma OtherwiseShorter(bytes: seq<Byte>)
    requires DecodeValue(bytes).Ok?
    ensures var b := DecodeValue(bytes).value; bytes[0] > 0xb7 && !(55 < |b| < U32) ==> |EncodeData(b)| < |bytes|
  {
    hide SizeBytes, FromBigEndian, Pow;
    if bytes[0] > 0xb7 && U32 <= |DecodeValue(bytes).value| {
      LargeSize(bytes[1..1 + bytes[0] - 0xb7]);
    }
  }

  ghost function Flatten(views: seq<seq<Byte>>): seq<Byte> {
    if views == [] then [] else views[0] + Flatten(views[1..])
  }

  lemma {:induction false} SplitIsWhole(payload: seq<Byte>)
    requires Lengths(Split(payload)) == |payload|
    ensures Flatten(Split(payload)) == payload
  {
    hide FirstItem;
    match FirstItem(payload)
    case Err(_) =>
    case Ok(item) =>
      var rest := payload[item.Total()..];
      assert Split(payload)[1..] == Split(rest);
      SplitIsWhole(rest);
      assert payload == payload[..item.Total()] + rest;
  }

  /** Whatever is read, from bytes that are not its encoding, is written in fewer bytes. */
  lemma {:induction false} ReadIsCanonical(bytes: seq<Byte>)
    requires Read(bytes).Ok? && |Encode(Read(bytes).value)| == |bytes|
    ensures Encode(Read(bytes).value) == bytes
    decreases |bytes|, 0
  {
    hide FirstItem, Split, DecodeValue, EncodeAll, Header, ReadAll, EncodeData;
    if IsList(bytes) {
      ListIsShorter(bytes);
      var payload, items := ListPayload(bytes).value.0, Read(bytes).value.items;
      SplitSizes(payload);
      SplitLengths(payload);
      ReadAllIsNoLonger(Split(payload), |payload|);
      HeaderIsNoLonger(bytes, |EncodeAll(items)|);
      SplitIsWhole(payload);
      ReadAllIsCanonical(Split(payload), |payload|);
      LongHeaderIsLonger(bytes);
      HeaderIsCanonical(bytes);
      var item := FirstItem(bytes).value;
      assert bytes == bytes[..item.headerLen] + payload;
    } else {
      DataIsCanonical(bytes);
    }
  }

  /** The header of 2^32 bytes or more is read from more bytes than are written. */
  lemma LongHeaderIsLonger(bytes: seq<Byte>)
    requires IsList(bytes) && FirstItem(bytes).Ok?
    requires |Header(FirstItem(bytes).value.valueLen, 0xc0, 0xf7)| == FirstItem(bytes).value.headerLen
    ensures FirstItem(bytes).value.valueLen < U32
  {
    hide FromBigEndian, SizeBytes, Pow;
    var item := FirstItem(bytes).value;
    if U32 <= item.valueLen {
      LargeSize(bytes[1..item.headerLen]);
    }
  }

  lemma {:induction false} ReadAllIsCanonical(views: seq<seq<Byte>>, bound: nat)
    requires forall i :: 0 <= i < |views| ==> |views[i]| <= bound
    requires ReadAll(views, bound).Ok? && |EncodeAll(ReadAll(views, bound).value)| == Lengths(views)
    ensures EncodeAll(ReadAll(views, bound).value) == Flatten(views)
    decreases bound, |views| + 1
  {
    hide Read, Encode;
    if views != [] {
      ReadIsNoLonger(views[0]);
      ReadAllIsNoLonger(views[1..], bound);
      var items := ReadAll(views, bound).value;
      assert items[1..] == ReadAll(views[1..], bound).value;
      EncodeAllHead(items);
      ReadIsCanonical(views[0]);
      ReadAllIsCanonical(views[1..], bound);
    }
  }
}
