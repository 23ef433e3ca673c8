/** The reading view of an RLP list, which remembers where the last item it found starts. */
module RlpView {
  import opened Common
  import opened Limbs
  import opened RlpFormat

  // ---------------------------------------------------------------- decode_usize

  /** `decode_usize` as the loop of shifted bytes; it never leaves 64 bits. */
  method SumOfBytes(b: seq<Byte>) returns (r: Result<nat, DecoderError>)
    requires b != []
    ensures r == DecodeUsize(b) && (r.Ok? <==> |b| <= 8 && b[0] != 0)
    ensures r.Ok? ==> r.value == FromBigEndian(b) < USIZE
  {
    hide Pow, FromBigEndian;
    if |b| > 8 {
      return Err(RlpIsTooBig);
    }
    if b[0] == 0 {
      return Err(RlpInvalidIndirection);
    }
    var l := |b|;
    var res: nat := 0;
    BigEndianStart(l);
    for i := 0 to l
      invariant res == FromBigEndian(b[..i]) * Pow(256, l - i)
    {
      BigEndianStep(b, i, l);
      res := res + b[i] * Pow(256, l - 1 - i);
    }
    assert b[..l] == b;
    BigEndianEnd(b);
    return Ok(res);
  }

  lemma BigEndianStart(l: nat)
    ensures FromBigEndian([]) * Pow(256, l) == 0
  {
  }

  lemma BigEndianStep(b: seq<Byte>, i: nat, l: nat)
    requires i < |b| == l
    ensures FromBigEndian(b[..i + 1]) * Pow(256, l - 1 - i) == FromBigEndian(b[..i]) * Pow(256, l - i) + b[i] * Pow(256, l - 1 - i)
  {
    var p := Pow(256, l - 1 - i);
    assert b[..i + 1][..i] == b[..i];
    assert Pow(256, l - i) == 256 * p;
    var v := FromBigEndian(b[..i]);
    Distribute(p, v * 256, b[i]);
    Assoc(v, 256, p);
  }

  lemma BigEndianEnd(b: seq<Byte>)
    requires |b| <= 8
    ensures FromBigEndian(b) * Pow(256, 0) == FromBigEndian(b) && FromBigEndian(b) < USIZE
  {
    BigEndianBound(b, 8);
    PowAdd(256, 2, 2);
    PowAdd(256, 4, 4);
    assert Pow(256, 2) == 256 * Pow(256, 1) == 256 * (256 * Pow(256, 0));
  }

  // ---------------------------------------------------------------- the view

  datatype OffsetCache = OffsetCache(index: nat, offset: nat)

  /** `consume` */
  function Consume(bytes: seq<Byte>, len: nat): Result<seq<Byte>, DecoderError> {
    if |bytes| >= len then Ok(bytes[len..]) else Err(RlpIsTooShort)
  }

  type Consumed = Result<(seq<Byte>, nat), DecoderError>

  /** With some bytes consumed before. */
  function After(n: nat, rest: Consumed): Consumed {
    if rest.Err? then rest else Ok((rest.value.0, n + rest.value.1))
  }

  /** `consume_items`: what is left after that many items, and their size. */
  function ConsumeItems(bytes: seq<Byte>, items: nat): Consumed
    decreases items
  {
    if items == 0 then Ok((bytes, 0))
    else
      match FirstItem(bytes)
      case Err(e) => Err(e)
      case Ok(item) => After(item.Total(), ConsumeItems(bytes[item.Total()..], items - 1))
  }

  lemma ConsumeNone(bytes: seq<Byte>)
    ensures ConsumeItems(bytes, 0) == Ok((bytes, 0))
  {
  }

  lemma ConsumeHead(bytes: seq<Byte>, n: nat)
    requires 0 < n
    ensures FirstItem(bytes).Err? ==> ConsumeItems(bytes, n) == Err(FirstItem(bytes).error)
    ensures FirstItem(bytes).Ok? ==>
      var total := FirstItem(bytes).value.Total(); ConsumeItems(bytes, n) == After(total, ConsumeItems(bytes[total..], n - 1))
  {
    hide FirstItem;
  }

  /** What is left is the end of the bytes. */
  lemma {:induction false} ConsumeLeaves(bytes: seq<Byte>, items: nat)
    requires ConsumeItems(bytes, items).Ok?
    ensures var r := ConsumeItems(bytes, items).value; r.1 <= |bytes| && r.0 == bytes[r.1..]
    decreases items
  {
    hide FirstItem, ConsumeItems;
    if items == 0 {
      ConsumeNone(bytes);
    } else {
      ConsumeHead(bytes, items);
      ConsumeLeaves(bytes[FirstItem(bytes).value.Total()..], items - 1);
    }
  }

  lemma {:induction false} ConsumeMore(bytes: seq<Byte>, i: nat, j: nat)
    ensures var first := ConsumeItems(bytes, i);
      ConsumeItems(bytes, i + j) == if first.Err? then first else After(first.value.1, ConsumeItems(first.value.0, j))
    decreases i
  {
    hide FirstItem, ConsumeItems;
    if i == 0 {
      ConsumeNone(bytes);
    } else {
      ConsumeHead(bytes, i);
      ConsumeHead(bytes, i + j);
      if FirstItem(bytes).Ok? {
        ConsumeMore(bytes[FirstItem(bytes).value.Total()..], i - 1, j);
      }
    }
  }

  lemma ConsumeOne(bytes: seq<Byte>)
    ensures FirstItem(bytes).Err? ==> ConsumeItems(bytes, 1) == Err(FirstItem(bytes).error)
    ensures FirstItem(bytes).Ok? ==>
      var total := FirstItem(bytes).value.Total(); ConsumeItems(bytes, 1) == Ok((bytes[total..], total))
  {
    hide FirstItem, ConsumeItems;
    ConsumeHead(bytes, 1);
    if FirstItem(bytes).Ok? {
      ConsumeNone(bytes[FirstItem(bytes).value.Total()..]);
    }
  }

  /** Where a lookup starts: the bytes from there on, the items still to skip, the bytes before. */
  function StartOf(bytes: seq<Byte>, cache: Option<OffsetCache>, index: nat): Result<(seq<Byte>, nat, nat), DecoderError> {
    if cache.Some? && cache.value.index <= index then
      match Consume(bytes, cache.value.offset)
      case Err(e) => Err(e)
      case Ok(rest) => Ok((rest, index - cache.value.index, cache.value.offset))
    else
      match ListPayload(bytes)
      case Err(e) => Err(e)
      case Ok(payload) => Ok((payload.0, index, payload.1))
  }

  /** What is left when the items before `index` are skipped, and its offset. */
  function SkipTo(bytes: seq<Byte>, cache: Option<OffsetCache>, index: nat): Consumed {
    match StartOf(bytes, cache, index)
    case Err(e) => Err(e)
    case Ok(start) => After(start.2, ConsumeItems(start.0, start.1))
  }

  /** `at_with_offset`: the item found with its offset, and the cache left behind. */
  function LookUp(bytes: seq<Byte>, cache: Option<OffsetCache>, index: nat)
    : (Result<(seq<Byte>, nat), DecoderError>, Option<OffsetCache>)
  {
    if !IsList(bytes) then (Err(RlpExpectedToBeList), cache)
    else
      match SkipTo(bytes, cache, index)
      case Err(e) => (Err(e), cache)
      case Ok(rest) =>
        var cache' := Some(OffsetCache(index, rest.1));
        match FirstItem(rest.0)
        case Err(e) => (Err(e), cache')
        case Ok(found) => (Ok((rest.0[..found.Total()], rest.1)), cache')
  }

  /** The lookup of a view that remembers nothing. */
  function Fresh(bytes: seq<Byte>, index: nat): Result<(seq<Byte>, nat), DecoderError> {
    LookUp(bytes, None, index).0
  }

  /** The view holds one list item and nothing after it. */
  predicate OneList(bytes: seq<Byte>) {
    IsList(bytes) && FirstItem(bytes).Ok? && FirstItem(bytes).value.Total() == |bytes|
  }

  function Payload(bytes: seq<Byte>): seq<Byte>
    requires FirstItem(bytes).Ok?
  {
    var item := FirstItem(bytes).value;
    bytes[item.headerLen..item.Total()]
  }

  /** The bytes behind the first item. */
  function Trailing(bytes: seq<Byte>): seq<Byte>
    requires FirstItem(bytes).Ok?
  {
    bytes[FirstItem(bytes).value.Total()..]
  }

  /** The payload of a list together with the bytes behind the list. */
  function Behind(bytes: seq<Byte>): seq<Byte>
    requires FirstItem(bytes).Ok?
  {
    bytes[FirstItem(bytes).value.headerLen..]
  }

  /** What is left of a payload after its whole items. */
  function Remainder(payload: seq<Byte>): seq<Byte> {
    match FirstItem(payload)
    case Err(_) => payload
    case Ok(item) => Remainder(payload[item.Total()..])
  }

  /** The bytes behind the list do not change what the reader makes of the end of its payload. */
  predicate Agrees(bytes: seq<Byte>) {
    IsList(bytes) && FirstItem(bytes).Ok? ==>
      var rest := Remainder(Payload(bytes));
      FirstItem(rest + Trailing(bytes)) == FirstItem(rest)
  }

  /** The cache points at the item it names, counted over the list and the bytes behind it. */
  ghost predicate Points(bytes: seq<Byte>, cache: Option<OffsetCache>) {
    cache.Some? ==>
      && FirstItem(bytes).Ok?
      && ConsumeItems(Behind(bytes), cache.value.index).Ok?
      && cache.value.offset == FirstItem(bytes).value.headerLen + ConsumeItems(Behind(bytes), cache.value.index).value.1
  }

  /** The item of that number in some bytes that start at `offset`. */
  function Find(from: seq<Byte>, offset: nat, index: nat): Result<(seq<Byte>, nat), DecoderError> {
    match ConsumeItems(from, index)
    case Err(e) => Err(e)
    case Ok(rest) =>
      match FirstItem(rest.0)
      case Err(e) => Err(e)
      case Ok(found) => Ok((rest.0[..found.Total()], offset + rest.1))
  }

  lemma PayloadThenTrailing(bytes: seq<Byte>)
    requires FirstItem(bytes).Ok?
    ensures ListPayload(bytes) == Ok((Payload(bytes), FirstItem(bytes).value.headerLen))
    ensures Behind(bytes) == Payload(bytes) + Trailing(bytes)
  {
    hide FirstItem;
  }

  /** A whole item shows its end, whatever follows. */
  lemma ItemExtends(p: seq<Byte>, t: seq<Byte>)
    requires FirstItem(p).Ok?
    ensures FirstItem(p + t) == FirstItem(p)
    ensures var n := FirstItem(p).value.Total(); (p + t)[n..] == p[n..] + t && (p + t)[..n] == p[..n]
  {
    HeaderExtends(p, t);
    hide HeaderInfo;
  }

  lemma HeaderExtends(p: seq<Byte>, t: seq<Byte>)
    requires HeaderInfo(p).Ok?
    ensures HeaderInfo(p + t) == HeaderInfo(p)
  {
    hide DecodeUsize;
    if 0xb7 < p[0] <= 0xbf {
      LongExtends(p, t, p[0] - 0xb7);
    } else if 0xf7 < p[0] {
      LongExtends(p, t, p[0] - 0xf7);
    }
  }

  lemma LongExtends(p: seq<Byte>, t: seq<Byte>, n: nat)
    requires 0 < n && LongPayloadInfo(p, n).Ok?
    ensures LongPayloadInfo(p + t, n) == LongPayloadInfo(p, n)
  {
    hide DecodeUsize;
    assert (p + t)[1..1 + n] == p[1..1 + n];
  }

  lemma {:induction false} ConsumeExtends(p: seq<Byte>, t: seq<Byte>, i: nat)
    requires ConsumeItems(p, i).Ok?
    ensures var r := ConsumeItems(p, i).value; ConsumeItems(p + t, i) == Ok((r.0 + t, r.1))
    decreases i
  {
    hide FirstItem, ConsumeItems;
    if i == 0 {
      ConsumeNone(p);
      ConsumeNone(p + t);
    } else {
      ConsumeHead(p, i);
      ConsumeHead(p + t, i);
      ItemExtends(p, t);
      ConsumeExtends(p[FirstItem(p).value.Total()..], t, i - 1);
    }
  }

  lemma RemainderHead(p: seq<Byte>)
    ensures FirstItem(p).Err? ==> Remainder(p) == p
    ensures FirstItem(p).Ok? ==> Remainder(p) == Remainder(p[FirstItem(p).value.Total()..])
  {
    hide FirstItem;
  }

  /** While what is left reads the same with the bytes behind it, so does every item. */
  lemma {:induction false} FindExtends(p: seq<Byte>, t: seq<Byte>, i: nat)
    requires FirstItem(Remainder(p) + t) == FirstItem(Remainder(p))
    ensures var r, r' := ConsumeItems(p, i), ConsumeItems(p + t, i);
      && (r.Err? ==> r' == r)
      && (r.Ok? ==> r' == Ok((r.value.0 + t, r.value.1)) && FirstItem(r'.value.0) == FirstItem(r.value.0))
    decreases i
  {
    hide FirstItem, ConsumeItems, Remainder;
    RemainderHead(p);
    if FirstItem(p).Ok? {
      ItemExtends(p, t);
    }
    if i == 0 {
      ConsumeNone(p);
      ConsumeNone(p + t);
    } else {
      ConsumeHead(p, i);
      ConsumeHead(p + t, i);
      if FirstItem(p).Ok? {
        FindExtends(p[FirstItem(p).value.Total()..], t, i - 1);
      }
    }
  }

  lemma FindAgrees(bytes: seq<Byte>, index: nat)
    requires IsList(bytes) && FirstItem(bytes).Ok? && Agrees(bytes)
    ensures var h := FirstItem(bytes).value.headerLen; Find(Behind(bytes), h, index) == Find(Payload(bytes), h, index)
  {
    hide FirstItem, ConsumeItems, Remainder, Behind, Payload, Trailing;
    PayloadThenTrailing(bytes);
    FindExtends(Payload(bytes), Trailing(bytes), index);
    var r := ConsumeItems(Payload(bytes), index);
    if r.Ok? && FirstItem(r.value.0).Ok? {
      ItemExtends(r.value.0, Trailing(bytes));
    }
  }

  lemma SkipCached(bytes: seq<Byte>, cache: OffsetCache, index: nat)
    requires FirstItem(bytes).Ok? && Points(bytes, Some(cache)) && cache.index <= index
    ensures SkipTo(bytes, Some(cache), index) == After(FirstItem(bytes).value.headerLen, ConsumeItems(Behind(bytes), index))
  {
    hide FirstItem, ConsumeItems;
    ConsumeMore(Behind(bytes), cache.index, index - cache.index);
    ConsumeLeaves(Behind(bytes), cache.index);
    assert bytes[cache.offset..] == Behind(bytes)[ConsumeItems(Behind(bytes), cache.index).value.1..];
  }

  lemma SkipFresh(bytes: seq<Byte>, cache: Option<OffsetCache>, index: nat)
    requires FirstItem(bytes).Ok? && !(cache.Some? && cache.value.index <= index)
    ensures SkipTo(bytes, cache, index) == After(FirstItem(bytes).value.headerLen, ConsumeItems(Payload(bytes), index))
  {
    hide FirstItem, ConsumeItems;
  }

  /** A lookup that starts from the cache searches the list with the bytes behind it; one that starts
      afresh searches the payload. */
  lemma LookUpIsFind(bytes: seq<Byte>, cache: Option<OffsetCache>, index: nat)
    requires IsList(bytes) && FirstItem(bytes).Ok? && Points(bytes, cache)
    ensures var h := FirstItem(bytes).value.headerLen; var cached := cache.Some? && cache.value.index <= index;
      LookUp(bytes, cache, index).0 == Find(if cached then Behind(bytes) else Payload(bytes), h, index)
    ensures Points(bytes, LookUp(bytes, cache, index).1)
  {
    hide FirstItem, ConsumeItems, IsList, SkipTo, Behind, Payload, Trailing;
    PayloadThenTrailing(bytes);
    if cache.Some? && cache.value.index <= index {
      SkipCached(bytes, cache.value, index);
    } else {
      SkipFresh(bytes, cache, index);
      if ConsumeItems(Payload(bytes), index).Ok? {
        ConsumeExtends(Payload(bytes), Trailing(bytes), index);
      }
    }
  }

  /** A view that cannot be searched remembers nothing and fails the same way every time. */
  lemma UnreadableIsFresh(bytes: seq<Byte>, cache: Option<OffsetCache>, index: nat)
    requires !(IsList(bytes) && FirstItem(bytes).Ok?) && Points(bytes, cache)
    ensures LookUp(bytes, cache, index) == (Fresh(bytes, index), cache) && Fresh(bytes, index).Err?
  {
    hide FirstItem, ConsumeItems, IsList;
  }

  /** While the bytes behind the list do not matter, the cache changes no answer and no error. */
  lemma CacheIsInvisible(bytes: seq<Byte>, cache: Option<OffsetCache>, index: nat)
    requires Agrees(bytes) && Points(bytes, cache)
    ensures LookUp(bytes, cache, index).0 == Fresh(bytes, index)
    ensures Points(bytes, LookUp(bytes, cache, index).1)
  {
    hide FirstItem, ListPayload, ConsumeItems, IsList, LookUp, Agrees, Find;
    if IsList(bytes) && FirstItem(bytes).Ok? {
      FindAgrees(bytes, index);
      LookUpIsFind(bytes, cache, index);
      LookUpIsFind(bytes, None, index);
    } else {
      UnreadableIsFresh(bytes, cache, index);
    }
  }

  /** The answers to a run of lookups. */
  function Answers(bytes: seq<Byte>, cache: Option<OffsetCache>, indices: seq<nat>): seq<Result<(seq<Byte>, nat), DecoderError>>
    decreases |indices|
  {
    if indices == [] then []
    else
      var step := LookUp(bytes, cache, indices[0]);
      [step.0] + Answers(bytes, step.1, indices[1..])
  }

  /** The answers of a view that remembers nothing. */
  function FreshAnswers(bytes: seq<Byte>, indices: seq<nat>): seq<Result<(seq<Byte>, nat), DecoderError>> {
    seq(|indices|, i requires 0 <= i < |indices| => Fresh(bytes, indices[i]))
  }

  /** Any run of lookups then answers as uncached lookups would. */
  lemma {:induction false} AnswersAreFresh(bytes: seq<Byte>, cache: Option<OffsetCache>, indices: seq<nat>)
    requires Agrees(bytes) && Points(bytes, cache)
    ensures Answers(bytes, cache, indices) == FreshAnswers(bytes, indices)
    decreases |indices|
  {
    hide LookUp, Fresh, Agrees, Points;
    if indices != [] {
      CacheIsInvisible(bytes, cache, indices[0]);
      AnswersAreFresh(bytes, LookUp(bytes, cache, indices[0]).1, indices[1..]);
    }
  }

  lemma {:induction false} ConsumeAll(p: seq<Byte>)
    ensures ConsumeItems(p, |Split(p)|).Ok? && ConsumeItems(p, |Split(p)|).value.0 == Remainder(p)
    ensures FirstItem(Remainder(p)).Err?
    decreases |p|
  {
    hide FirstItem, ConsumeItems, Remainder, Split;
    RemainderHead(p);
    SplitHead(p);
    if FirstItem(p).Ok? {
      ConsumeHead(p, |Split(p)|);
      ConsumeAll(p[FirstItem(p).value.Total()..]);
    } else {
      ConsumeNone(p);
    }
  }

  /** Otherwise the item behind the last one, asked for twice, is answered in two ways. */
  lemma AskedTwice(bytes: seq<Byte>)
    requires !Agrees(bytes)
    ensures IsList(bytes) && FirstItem(bytes).Ok?
    ensures var n := |Split(Payload(bytes))|; Answers(bytes, None, [n, n]) != FreshAnswers(bytes, [n, n])
  {
    hide FirstItem, ConsumeItems, Remainder, Split, Payload, Trailing, Behind, IsList, LookUp, Points;
    var n := |Split(Payload(bytes))|;
    PayloadThenTrailing(bytes);
    ConsumeAll(Payload(bytes));
    ConsumeExtends(Payload(bytes), Trailing(bytes), n);
    NothingPoints(bytes);
    LookUpIsFind(bytes, None, n);
    var cache := LookUp(bytes, None, n).1;
    CachedAt(bytes, n);
    LookUpIsFind(bytes, cache, n);
    AnswersToTwo(bytes, n);
    assert FreshAnswers(bytes, [n, n])[1] == Fresh(bytes, n);
  }

  lemma AnswersToTwo(bytes: seq<Byte>, n: nat)
    ensures Answers(bytes, None, [n, n]) == [Fresh(bytes, n), LookUp(bytes, LookUp(bytes, None, n).1, n).0]
  {
    hide LookUp;
    assert [n, n][1..] == [n] && [n][1..] == [];
    var cache := LookUp(bytes, None, n).1;
    assert Answers(bytes, cache, [n]) == [LookUp(bytes, cache, n).0] + Answers(bytes, LookUp(bytes, cache, n).1, []);
  }

  lemma NothingPoints(bytes: seq<Byte>)
    ensures Points(bytes, None)
  {
  }

  lemma CachedAt(bytes: seq<Byte>, n: nat)
    requires IsList(bytes) && FirstItem(bytes).Ok? && ConsumeItems(Payload(bytes), n).Ok?
    ensures LookUp(bytes, None, n).1.Some? && LookUp(bytes, None, n).1.value.index == n
  {
    hide FirstItem, ConsumeItems, IsList;
  }

  /** Remembering where the last item starts changes no answer of any run if and only if the bytes
      behind the list do not change how the end of its payload is read. */
  lemma CacheIsInvisibleIff(bytes: seq<Byte>)
    ensures (forall indices :: Answers(bytes, None, indices) == FreshAnswers(bytes, indices)) <==> Agrees(bytes)
  {
    hide Answers, FreshAnswers, Agrees, Points, Split, FirstItem;
    NothingPoints(bytes);
    if Agrees(bytes) {
      forall indices ensures Answers(bytes, None, indices) == FreshAnswers(bytes, indices) {
        AnswersAreFresh(bytes, None, indices);
      }
    } else {
      AskedTwice(bytes);
    }
  }

  /** A view of one list item is such a view. */
  lemma OneListAgrees(bytes: seq<Byte>)
    requires OneList(bytes)
    ensures Agrees(bytes)
  {
    hide FirstItem, Remainder;
    var rest := Remainder(Payload(bytes));
    assert rest + bytes[|bytes|..] == rest;
  }

  /** For one, after the empty list of `c0 05`, asking for item 0 twice finds nothing first and the byte
      behind the list next. */
  lemma TrailingByteIsFound()
    ensures Fresh([0xc0, 0x05], 0) == Err(RlpIsTooShort)
    ensures Answers([0xc0, 0x05], None, [0, 0]) == [Err(RlpIsTooShort), Ok(([0x05], 1))]
  {
    hide LookUp, Answers;
    FirstTime();
    SecondTime();
    AnswersToTwo([0xc0, 0x05], 0);
  }

  lemma FirstTime()
    ensures LookUp([0xc0, 0x05], None, 0) == (Err(RlpIsTooShort), Some(OffsetCache(0, 1)))
  {
    var bytes: seq<Byte> := [0xc0, 0x05];
    assert FirstItem(bytes) == Ok(PayloadInfo(1, 0));
    assert bytes[1..1] == [];
    EmptyHasNoItem();
  }

  lemma SecondTime()
    ensures LookUp([0xc0, 0x05], Some(OffsetCache(0, 1)), 0).0 == Ok(([0x05], 1))
  {
    var bytes: seq<Byte> := [0xc0, 0x05];
    assert bytes[1..] == [0x05];
    assert [0x05][..1] == [0x05];
  }

  // ---------------------------------------------------------------- lookups and items

  lemma {:induction false} ConsumeIsSplit(payload: seq<Byte>, i: nat)
    ensures var r := ConsumeItems(payload, i);
      && (r.Ok? ==> i <= |Split(payload)| && Split(r.value.0) == Split(payload)[i..])
      && (r.Err? ==> |Split(payload)| < i)
    decreases i
  {
    hide FirstItem;
    if i > 0 {
      match FirstItem(payload)
      case Err(_) =>
      case Ok(item) =>
        ConsumeIsSplit(payload[item.Total()..], i - 1);
        assert Split(payload)[1..] == Split(payload[item.Total()..]);
        if ConsumeItems(payload, i).Ok? {
          assert Split(payload)[1..][i - 1..] == Split(payload)[i..];
        }
    }
  }

  lemma FindIsSplit(from: seq<Byte>, offset: nat, index: nat)
    ensures Find(from, offset, index).Ok? <==> index < |Split(from)|
    ensures Find(from, offset, index).Ok? ==> Find(from, offset, index).value.0 == Split(from)[index]
  {
    hide FirstItem, ConsumeItems, Split;
    ConsumeIsSplit(from, index);
    if ConsumeItems(from, index).Ok? {
      SplitHead(ConsumeItems(from, index).value.0);
    }
  }

  /** A lookup finds exactly the items the payload splits into. */
  lemma LookUpIsSplit(bytes: seq<Byte>, index: nat)
    requires IsList(bytes) && FirstItem(bytes).Ok?
    ensures var items := Split(Payload(bytes));
      && (Fresh(bytes, index).Ok? <==> index < |items|)
      && (Fresh(bytes, index).Ok? ==> Fresh(bytes, index).value.0 == items[index])
  {
    hide FirstItem, ConsumeItems, Split, Find, LookUp, Points;
    NothingPoints(bytes);
    LookUpIsFind(bytes, None, index);
    FindIsSplit(Payload(bytes), FirstItem(bytes).value.headerLen, index);
  }

  lemma SplitHead(payload: seq<Byte>)
    ensures FirstItem(payload).Err? ==> Split(payload) == []
    ensures FirstItem(payload).Ok? ==>
      var n := FirstItem(payload).value.Total(); Split(payload) == [payload[..n]] + Split(payload[n..])
  {
    hide FirstItem;
  }

  /** The items of a list, none when its size cannot be read. */
  function Items(bytes: seq<Byte>): seq<seq<Byte>> {
    if FirstItem(bytes).Ok? then Split(Payload(bytes)) else []
  }

  /** What `item_count` counts: its first lookup searches the payload unless the cache points at item 0,
      and the lookups after it search the list with the bytes behind it. */
  function Counted(bytes: seq<Byte>, cache: Option<OffsetCache>): nat {
    if FirstItem(bytes).Err? then 0
    else if Items(bytes) == [] && !(cache.Some? && cache.value.index == 0) then 0
    else |Split(Behind(bytes))|
  }

  lemma {:induction false} SplitExtends(p: seq<Byte>, t: seq<Byte>)
    ensures Split(p + t) == Split(p) + Split(Remainder(p) + t)
    decreases |p|
  {
    hide FirstItem, Remainder, Split;
    SplitHead(p);
    RemainderHead(p);
    if FirstItem(p).Ok? {
      ItemExtends(p, t);
      SplitHead(p + t);
      SplitExtends(p[FirstItem(p).value.Total()..], t);
    }
  }

  lemma BehindSplits(bytes: seq<Byte>)
    requires FirstItem(bytes).Ok?
    ensures Split(Behind(bytes)) == Items(bytes)
      + Split(Remainder(Payload(bytes)) + Trailing(bytes))
    ensures FirstItem(Remainder(Payload(bytes))).Err?
  {
    hide FirstItem, Payload, Trailing, Behind, Split, Remainder;
    PayloadThenTrailing(bytes);
    SplitExtends(Payload(bytes), Trailing(bytes));
    ConsumeAll(Payload(bytes));
  }

  /** The count of a view that remembers nothing is right if and only if the list is empty or no item
      starts with what is left of its payload and the bytes behind it. */
  lemma CountIsRightIff(bytes: seq<Byte>)
    requires IsList(bytes) && FirstItem(bytes).Ok?
    ensures Counted(bytes, None) == |Items(bytes)| <==>
      Items(bytes) == [] || FirstItem(Remainder(Payload(bytes)) + Trailing(bytes)).Err?
  {
    hide FirstItem, Payload, Trailing, Behind, Split, Remainder, Items;
    BehindSplits(bytes);
    SplitHead(Remainder(Payload(bytes)) + Trailing(bytes));
  }

  lemma AgreesCounts(bytes: seq<Byte>, cache: Option<OffsetCache>)
    requires IsList(bytes) && Agrees(bytes)
    ensures Counted(bytes, cache) == |Items(bytes)|
  {
    hide FirstItem, Payload, Trailing, Behind, Split, Remainder, IsList;
    if FirstItem(bytes).Ok? {
      BehindSplits(bytes);
      SplitHead(Remainder(Payload(bytes)) + Trailing(bytes));
    }
  }

  /** The items of a written list are the encodings of what was written. */
  lemma WrittenListIsFound(items: seq<Item>, index: nat)
    requires Small(List(items))
    ensures var bytes := Encode(List(items));
      && OneList(bytes) && Agrees(bytes)
      && (index < |items| ==> Fresh(bytes, index).Ok? && Fresh(bytes, index).value.0 == Encode(items[index]))
      && (index >= |items| ==> Fresh(bytes, index).Err?)
  {
    hide FirstItem, ConsumeItems, Split, ListOf, IsList, Fresh, EncodeAll, Agrees;
    ListRoundTrip(EncodeAll(items), []);

    assert ListOf(EncodeAll(items)) + [] == ListOf(EncodeAll(items));
    OneListAgrees(Encode(List(items)));
    SplitRoundTrip(items);
    LookUpIsSplit(Encode(List(items)), index);
  }

  /** A count goes on exactly while it is below its end. */
  lemma CountStep(bytes: seq<Byte>, first: Option<OffsetCache>, cache: Option<OffsetCache>, c: nat)
    requires IsList(bytes) && Points(bytes, cache) && c <= Counted(bytes, first)
    requires if c == 0 then cache == first else cache.Some? && cache.value.index <= c
    ensures LookUp(bytes, cache, c).0.Ok? <==> c < Counted(bytes, first)
  {
    hide FirstItem, ConsumeItems, Split, Find, LookUp, IsList, Payload, Trailing, Behind, Remainder;
    if FirstItem(bytes).Ok? {
      hide Points;
      var h := FirstItem(bytes).value.headerLen;
      LookUpIsFind(bytes, cache, c);
      FindIsSplit(Behind(bytes), h, c);
      FindIsSplit(Payload(bytes), h, c);
      BehindSplits(bytes);
    } else {
      UnreadableIsFresh(bytes, cache, c);
    }
  }

  class Rlp {
    const bytes: seq<Byte>
    var offsetCache: Option<OffsetCache>
    var countCache: Option<nat>

    /** The offset points at the item it names, and the count is right while the bytes behind the list do
        not matter. */
    ghost predicate Valid()
      reads this
    {
      && Points(bytes, offsetCache)
      && (Agrees(bytes) && countCache.Some? ==> countCache.value == |Items(bytes)|)
    }

    constructor (bytes: seq<Byte>)
      ensures Valid() && this.bytes == bytes && offsetCache == None && countCache == None
    {
      this.bytes := bytes;
      offsetCache := None;
      countCache := None;
    }

    /** `consume_items`, as the loop. */
    static method SkipItems(from: seq<Byte>, items: nat) returns (r: Result<(seq<Byte>, nat), DecoderError>)
      ensures r == ConsumeItems(from, items)
    {
      hide FirstItem, ConsumeItems;
      var result, consumed: nat := from, 0;
      ConsumeNone(from);
      for i := 0 to items
        invariant ConsumeItems(from, i) == Ok((result, consumed))
      {
        ConsumeMore(from, i, 1);
        ConsumeMore(from, i + 1, items - i - 1);
        ConsumeOne(result);
        var item := FirstItem(result);
        if item.Err? {
          return Err(item.error);
        }
        var toConsume := item.value.Total();
        result, consumed := result[toConsume..], consumed + toConsume;
      }
      return Ok((result, consumed));
    }

    /** `at_with_offset` */
    method At(index: nat) returns (r: Result<(seq<Byte>, nat), DecoderError>)
      requires Valid()
      modifies this`offsetCache
      ensures Valid() && (r, offsetCache) == LookUp(bytes, old(offsetCache), index)
      ensures Agrees(bytes) ==> r == Fresh(bytes, index)
    {
      hide FirstItem, ListPayload, ConsumeItems, Points, IsList, Agrees, Items;
      if Agrees(bytes) {
        CacheIsInvisible(bytes, offsetCache, index);
      }
      LookUpPoints(bytes, offsetCache, index);
      if !IsList(bytes) {
        return Err(RlpExpectedToBeList);
      }
      var start := StartOf(bytes, offsetCache, index);
      if start.Err? {
        return Err(start.error);
      }
      var rest := SkipItems(start.value.0, start.value.1);
      if rest.Err? {
        return Err(rest.error);
      }
      var offset := start.value.2 + rest.value.1;
      offsetCache := Some(OffsetCache(index, offset));
      var found := FirstItem(rest.value.0);
      if found.Err? {
        return Err(found.error);
      }
      return Ok((rest.value.0[..found.value.Total()], offset));
    }

    /** `item_count`: the items are counted once, and rightly while the bytes behind the list do not
        matter. */
    method ItemCount() returns (r: Result<nat, DecoderError>)
      requires Valid()
      modifies this
      ensures Valid()
      ensures r == if !IsList(bytes) then Err(RlpExpectedToBeList)
                   else if old(countCache).Some? then Ok(old(countCache).value)
                   else Ok(Counted(bytes, old(offsetCache)))
      ensures countCache == if r.Ok? then Some(r.value) else old(countCache)
      ensures Agrees(bytes) && r.Ok? ==> r.value == |Items(bytes)|
    {
      hide FirstItem, ListPayload, ConsumeItems, Points, Split, LookUp, Fresh, Items, Counted, Agrees, IsList;
      if !IsList(bytes) {
        return Err(RlpExpectedToBeList);
      }
      if countCache.Some? {
        return Ok(countCache.value);
      }
      var c := 0;
      while true
        invariant Valid() && countCache.None? && 0 <= c <= Counted(bytes, old(offsetCache))
        invariant if c == 0 then offsetCache == old(offsetCache) else offsetCache.Some? && offsetCache.value.index == c - 1
        decreases Counted(bytes, old(offsetCache)) - c
      {
        ghost var before := offsetCache;
        CountStep(bytes, old(offsetCache), offsetCache, c);
        var item := At(c);
        if item.Err? {
          break;
        }
        FoundIsCached(bytes, before, c);
        c := c + 1;
      }
      if Agrees(bytes) {
        AgreesCounts(bytes, old(offsetCache));
      }
      countCache := Some(c);
      return Ok(c);
    }
  }

  lemma LookUpPoints(bytes: seq<Byte>, cache: Option<OffsetCache>, index: nat)
    requires Points(bytes, cache)
    ensures Points(bytes, LookUp(bytes, cache, index).1)
  {
    hide FirstItem, ConsumeItems, IsList, LookUp, Points;
    if IsList(bytes) && FirstItem(bytes).Ok? {
      LookUpIsFind(bytes, cache, index);
    } else {
      UnreadableIsFresh(bytes, cache, index);
    }
  }

  lemma FoundIsCached(bytes: seq<Byte>, cache: Option<OffsetCache>, index: nat)
    requires LookUp(bytes, cache, index).0.Ok?
    ensures var after := LookUp(bytes, cache, index).1; after.Some? && after.value.index == index
  {
    hide FirstItem, ConsumeItems, StartOf;
  }
}
