/** The appending RLP writer: a buffer with a stack of lists whose headers are inserted when they
    turn out to be complete. */
module RlpStream {
  import opened Common
  import opened Bitwise
  import opened RlpFormat

  // ---------------------------------------------------------------- what the buffer holds

  /** An unfinished list: the encodings appended to it so far, how many items they are, and how many
      it is to hold, if that was said. */
  datatype Frame = Frame(payload: seq<Byte>, current: nat, max: Option<nat>)

  /** Finished bytes, and the unfinished lists inside each other. */
  datatype Writing = Writing(root: seq<Byte>, frames: seq<Frame>)

  predicate Unfilled(f: Frame) {
    f.max.Some? ==> f.current < f.max.value
  }

  /** The buffer: each unfinished list starts with one byte kept free for its header. */
  ghost function Layout(w: Writing): seq<Byte>
    decreases |w.frames|
  {
    if w.frames == [] then w.root
    else Layout(Below(w)) + [0] + Top(w).payload
  }

  ghost function Top(w: Writing): Frame
    requires w.frames != []
  {
    w.frames[|w.frames| - 1]
  }

  ghost function Below(w: Writing): Writing
    requires w.frames != []
  {
    Writing(w.root, w.frames[..|w.frames| - 1])
  }

  ghost function Push(w: Writing, f: Frame): Writing {
    Writing(w.root, w.frames + [f])
  }

  /** Bytes appended to the innermost list. */
  ghost function Put(w: Writing, b: seq<Byte>): Writing {
    if w.frames == [] then Writing(w.root + b, [])
    else Push(Below(w), Top(w).(payload := Top(w).payload + b))
  }

  /** Whether `n` more items fill the innermost list. */
  ghost predicate Fills(w: Writing, n: nat) {
    w.frames != [] && Top(w).max == Some(Top(w).current + n)
  }

  /** `n` items counted in the innermost list; a list they fill becomes one item of the next. */
  ghost function Noted(w: Writing, n: nat): Writing
    decreases |w.frames|
  {
    if w.frames == [] then w
    else if Fills(w, n) then Noted(Put(Below(w), ListOf(Top(w).payload)), 1)
    else Push(Below(w), Top(w).(current := Top(w).current + n))
  }

  lemma PushBelow(w: Writing, f: Frame)
    ensures Push(w, f).frames != [] && Below(Push(w, f)) == w && Top(Push(w, f)) == f
  {
    assert (w.frames + [f])[..|w.frames|] == w.frames;
  }

  lemma LayoutPut(w: Writing, b: seq<Byte>)
    ensures Layout(Put(w, b)) == Layout(w) + b && |Put(w, b).frames| == |w.frames|
  {
    if w.frames != [] {
      PushBelow(Below(w), Top(w).(payload := Top(w).payload + b));
      assert Layout(Below(w)) + [0] + (Top(w).payload + b) == Layout(Below(w)) + [0] + Top(w).payload + b;
    }
  }

  // ---------------------------------------------------------------- the stream

  datatype ListInfo = ListInfo(position: nat, current: nat, max: Option<nat>)

  /** The bookkeeping of the stream matches what it is writing. */
  ghost predicate Tracks(lists: seq<ListInfo>, start: nat, w: Writing)
    decreases |w.frames|
  {
    && |lists| == |w.frames| && start <= |w.root|
    && (w.frames == [] ||
        (&& Unfilled(Top(w)) && start <= |Layout(Below(w))|
         && lists[|lists| - 1] == ListInfo(|Layout(Below(w))| + 1 - start, Top(w).current, Top(w).max)
         && Tracks(lists[..|lists| - 1], start, Below(w))))
  }

  lemma TracksPut(lists: seq<ListInfo>, start: nat, w: Writing, b: seq<Byte>)
    requires Tracks(lists, start, w)
    ensures Tracks(lists, start, Put(w, b))
  {
    if w.frames != [] {
      PushBelow(Below(w), Top(w).(payload := Top(w).payload + b));
    }
  }

  lemma TracksPush(lists: seq<ListInfo>, start: nat, w: Writing, max: Option<nat>)
    requires Tracks(lists, start, w) && start <= |Layout(w)| && (max.Some? ==> 0 < max.value)
    ensures Tracks(lists + [ListInfo(|Layout(w)| + 1 - start, 0, max)], start, Push(w, Frame([], 0, max)))
  {
    hide Layout;
    var info := ListInfo(|Layout(w)| + 1 - start, 0, max);
    PushBelow(w, Frame([], 0, max));
    assert (lists + [info])[..|lists|] == lists;
  }

  /** What the bookkeeping says of the innermost list. */
  lemma TracksTop(lists: seq<ListInfo>, start: nat, w: Writing)
    requires Tracks(lists, start, w)
    ensures |lists| == |w.frames|
    ensures w.frames != [] ==>
      && start <= |Layout(Below(w))|
      && lists[|lists| - 1] == ListInfo(|Layout(Below(w))| + 1 - start, Top(w).current, Top(w).max)
      && Tracks(lists[..|lists| - 1], start, Below(w))
  {
    hide Layout;
  }

  /** Items counted in a list they do not fill. */
  lemma TracksCount(lists: seq<ListInfo>, start: nat, w: Writing, n: nat)
    requires Tracks(lists, start, w) && w.frames != [] && !Fills(w, n)
    requires Top(w).max.Some? ==> Top(w).current + n <= Top(w).max.value
    ensures var k := |lists| - 1; var f := Top(w).(current := Top(w).current + n);
      && Tracks(lists[k := lists[k].(current := lists[k].current + n)], start, Push(Below(w), f))
      && Layout(Push(Below(w), f)) == Layout(w)
  {
    var k := |lists| - 1;
    var f := Top(w).(current := Top(w).current + n);
    PushBelow(Below(w), f);
    LayoutTop(w);
    LayoutTop(Push(Below(w), f));
    hide Layout;
    var lists' := lists[k := lists[k].(current := lists[k].current + n)];
    assert lists'[..k] == lists[..k];
  }

  lemma RoomBelow(lists: seq<ListInfo>, start: nat, w: Writing)
    requires Tracks(lists, start, w)
    ensures w.frames != [] && Top(w).max.Some? ==> Top(w).current + 1 <= Top(w).max.value
  {
    hide Layout;
  }

  lemma NotedIs(w: Writing, n: nat)
    ensures Noted(w, n) ==
      if w.frames == [] then w
      else if Fills(w, n) then Noted(Put(Below(w), ListOf(Top(w).payload)), 1)
      else Push(Below(w), Top(w).(current := Top(w).current + n))
  {
  }

  lemma LongEnough(lists: seq<ListInfo>, start: nat, w: Writing)
    requires Tracks(lists, start, w)
    ensures start <= |Layout(w)|
  {
  }

  /** What one more item does to a list just begun on `w`. */
  lemma OneMore(w: Writing, f: Frame, b: seq<Byte>)
    ensures Noted(Put(Push(w, f), b), 1) ==
      if f.max == Some(f.current + 1) then Noted(Put(w, ListOf(f.payload + b)), 1)
      else Push(w, Frame(f.payload + b, f.current + 1, f.max))
    ensures Fills(Put(Push(w, f), b), 1) == Fills(Push(w, f), 1) == (f.max == Some(f.current + 1))
  {
    hide ListOf;
    PushBelow(w, f);
    var g := f.(payload := f.payload + b);
    PushBelow(w, g);
  }

  lemma SameRoom(w: Writing, b: seq<Byte>)
    ensures Fills(Put(w, b), 1) == Fills(w, 1) && |Put(w, b).frames| == |w.frames|
    ensures w.frames != [] ==> Top(Put(w, b)) == Top(w).(payload := Top(w).payload + b)
  {
    if w.frames != [] {
      PushBelow(Below(w), Top(w).(payload := Top(w).payload + b));
    }
  }

  // ---------------------------------------------------------------- what is streamed

  /** The calls that append one value: its bytes, or a list of announced or open length. */
  datatype Script = Bytes(value: seq<Byte>) | Bounded(parts: seq<Script>) | Unbounded(parts: seq<Script>)

  ghost function Tree(s: Script): Item {
    match s
    case Bytes(value) => Data(value)
    case Bounded(parts) => List(Trees(parts))
    case Unbounded(parts) => List(Trees(parts))
  }

  ghost function Trees(parts: seq<Script>): seq<Item> {
    if parts == [] then [] else [Tree(parts[0])] + Trees(parts[1..])
  }

  lemma {:induction false} TreesSnoc(parts: seq<Script>, s: Script)
    ensures Trees(parts + [s]) == Trees(parts) + [Tree(s)]
  {
    if parts == [] {
      assert ([] + [s])[1..] == [];
    } else {
      assert (parts + [s])[1..] == parts[1..] + [s];
      TreesSnoc(parts[1..], s);
    }
  }

  /** The payload of a list after its first `i` parts. */
  ghost function PayloadOf(parts: seq<Script>, i: nat): seq<Byte>
    requires i <= |parts|
  {
    EncodeAll(Trees(parts[..i]))
  }

  lemma PayloadStep(parts: seq<Script>, i: nat)
    requires i < |parts|
    ensures PayloadOf(parts, i + 1) == PayloadOf(parts, i) + Encode(Tree(parts[i]))
  {
    hide Encode;
    assert parts[..i + 1] == parts[..i] + [parts[i]];
    TreesSnoc(parts[..i], parts[i]);
    EncodeAllConcat(Trees(parts[..i]), [Tree(parts[i])]);
    assert EncodeAll([Tree(parts[i])]) == Encode(Tree(parts[i])) by {
      EncodeAllHead([Tree(parts[i])]);
      assert [Tree(parts[i])][1..] == [];
      assert EncodeAll([]) == [];
      assert Encode(Tree(parts[i])) + [] == Encode(Tree(parts[i]));
    }
  }

  lemma PayloadEnds(parts: seq<Script>)
    ensures PayloadOf(parts, 0) == [] && ListOf(PayloadOf(parts, |parts|)) == Encode(List(Trees(parts)))
  {
    assert parts[..0] == [] && parts[..|parts|] == parts;
  }

  /** `rotate_right` */
  function RotateRight(s: seq<Byte>, k: nat): seq<Byte>
    requires k <= |s|
  {
    s[|s| - k..] + s[..|s| - k]
  }

  class RlpStream {
    var unfinishedLists: seq<ListInfo>
    const startPos: nat
    var buffer: seq<Byte>
    var finishedList: bool
    ghost var writing: Writing

    ghost predicate Valid()
      reads this
    {
      Tracks(unfinishedLists, startPos, writing) && buffer == Layout(writing)
    }

    constructor (into: seq<Byte>)
      ensures Valid() && writing == Writing(into, []) && !finishedList
    {
      unfinishedLists := [];
      startPos := |into|;
      buffer := into;
      finishedList := false;
      writing := Writing(into, []);
    }

    method TotalWritten() returns (n: nat)
      requires startPos <= |buffer|
      ensures n == |buffer| - startPos
    {
      n := |buffer| - startPos;
    }

    /** Puts the size between the bytes before and after `position`, by appending and rotating. */
    method InsertSize(size: nat, position: nat) returns (count: nat)
      requires startPos + position <= |buffer|
      modifies this`buffer
      ensures count == |SizeBytes(size)|
      ensures var p := startPos + position; buffer == old(buffer[..p]) + SizeBytes(size) + old(buffer[p..])
    {
      hide BitLength, BigEndian4;
      var n := size % U32;
      var leadingEmptyBytes := LeadingEmptyBytes(n);
      count := 4 - leadingEmptyBytes;
      SizeLength(size);
      var p := startPos + position;
      var all := buffer + BigEndian4(n)[leadingEmptyBytes..];
      buffer := all[..p] + RotateRight(all[p..], count);
    }

    /** Writes the header of a list whose `len` payload bytes start at `pos`, over the byte kept free. */
    method InsertListPayload(len: nat, pos: nat)
      requires 0 < pos && startPos + pos <= |buffer|
      modifies this`buffer
      ensures var p := startPos + pos; buffer == old(buffer[..p - 1]) + Header(len, 0xc0, 0xf7) + old(buffer[p..])
    {
      hide SizeBytes;
      ghost var p := startPos + pos;
      ghost var was := buffer;
      if len <= 55 {
        buffer := buffer[startPos + pos - 1 := 0xc0 + len];
      } else {
        var insertedBytes := InsertSize(len, pos);
        buffer := buffer[startPos + pos - 1 := 0xf7 + insertedBytes];
      }
      assert buffer == was[..p - 1] + Header(len, 0xc0, 0xf7) + was[p..];
    }

    /** `encode_iter`, of an iterator of known length. */
    method EncodeValue(value: seq<Byte>)
      requires startPos <= |buffer|
      modifies this`buffer
      ensures buffer == old(buffer) + EncodeData(value)
    {
      hide SizeBytes;
      if |value| == 0 {
        buffer := buffer + [0x80];
      } else if |value| <= 55 {
        var first := value[0];
        if |value| == 1 && first < 0x80 {
          buffer := buffer + [first];
        } else {
          buffer := buffer + [0x80 + |value|];
          buffer := buffer + [first];
          buffer := buffer + value[1..];
        }
      } else {
        ghost var was := buffer;
        buffer := buffer + [0];
        var position := TotalWritten();
        var insertedBytes := InsertSize(|value|, position);
        buffer := buffer[startPos + position - 1 := 0xb7 + insertedBytes];
        buffer := buffer + value;
        assert buffer == was + ([0xb7 + insertedBytes] + SizeBytes(|value|) + value);
      }
    }

    /** Counts `n` items in the innermost list and finishes the lists that are then full. Panics, in the
        original, when that list was not to hold so many. */
    method NoteAppended(n: nat)
      requires Valid()
      requires writing.frames != [] && Top(writing).max.Some? ==> Top(writing).current + n <= Top(writing).max.value
      modifies this
      ensures Valid() && writing == Noted(old(writing), n)
      ensures finishedList == if old(writing).frames == [] then old(finishedList) else Fills(old(writing), n)
      decreases |writing.frames|
    {
      hide Layout, ListOf, Tracks, Noted, Put, Push;
      NotedIs(writing, n);
      TracksTop(unfinishedLists, startPos, writing);
      if |unfinishedLists| == 0 {
        return;
      }
      ghost var w := writing;
      var back := |unfinishedLists| - 1;
      var x := unfinishedLists[back];
      x := x.(current := x.current + n);
      var shouldFinish := x.max == Some(x.current);
      LayoutTop(w);
      if shouldFinish {
        unfinishedLists := unfinishedLists[..back];
        var len := |buffer| - startPos - x.position;
        InsertListPayload(len, x.position);
        ghost var b := ListOf(Top(w).payload);
        LayoutPut(Below(w), b);
        TracksPut(unfinishedLists, startPos, Below(w), b);
        RoomBelow(unfinishedLists, startPos, Put(Below(w), b));
        ListInPlace(Layout(Below(w)), Top(w).payload);
        writing := Put(Below(w), b);
        NoteAppended(1);
      } else {
        TracksCount(unfinishedLists, startPos, w, n);
        writing := Push(Below(w), Top(w).(current := Top(w).current + n));
        unfinishedLists := unfinishedLists[back := x];
      }
      finishedList := shouldFinish;
    }

    /** `begin_list`: an empty list is finished at once. */
    method BeginList(len: nat)
      requires Valid()
      modifies this
      ensures Valid()
      ensures len == 0 ==> writing == Noted(Put(old(writing), ListOf([])), 1) && finishedList
      ensures len > 0 ==> writing == Push(old(writing), Frame([], 0, Some(len))) && !finishedList
    {
      hide Layout;
      finishedList := false;
      if len == 0 {
        assert ListOf([]) == [0xc0];
        AppendBytes([0xc0]);
        NoteAppended(1);
        finishedList := true;
      } else {
        PushFrame(Some(len));
      }
    }

    /** `begin_unbounded_list` */
    method BeginUnboundedList()
      requires Valid()
      modifies this
      ensures Valid() && writing == Push(old(writing), Frame([], 0, None)) && !finishedList
    {
      finishedList := false;
      PushFrame(None);
    }

    method AppendBytes(b: seq<Byte>)
      requires Valid()
      modifies this`buffer, this`writing
      ensures Valid() && writing == Put(old(writing), b)
      ensures Fills(writing, 1) == Fills(old(writing), 1) && (writing.frames == [] <==> old(writing).frames == [])
      ensures writing.frames != [] && Top(writing).max.Some? ==> Top(writing).current + 1 <= Top(writing).max.value
    {
      hide Layout;
      LayoutPut(writing, b);
      SameRoom(writing, b);
      TracksPut(unfinishedLists, startPos, writing, b);
      buffer := buffer + b;
      writing := Put(writing, b);
    }

    method PushFrame(max: Option<nat>)
      requires Valid() && (max.Some? ==> 0 < max.value)
      modifies this`buffer, this`writing, this`unfinishedLists
      ensures Valid() && writing == Push(old(writing), Frame([], 0, max))
    {
      hide Layout;
      LongEnough(unfinishedLists, startPos, writing);
      TracksPush(unfinishedLists, startPos, writing, max);
      ghost var w := Push(writing, Frame([], 0, max));
      PushBelow(writing, Frame([], 0, max));
      LayoutTop(w);
      buffer := buffer + [0];
      var position := TotalWritten();
      unfinishedLists := unfinishedLists + [ListInfo(position, 0, max)];
      writing := w;
    }

    /** `finalize_unbounded_list`: panics, in the original, unless the innermost list has no announced
        length. */
    method FinalizeUnboundedList()
      requires Valid() && writing.frames != [] && Top(writing).max.None?
      modifies this
      ensures Valid() && finishedList
      ensures writing == Noted(Put(Below(old(writing)), ListOf(Top(old(writing)).payload)), 1)
    {
      hide Layout, ListOf;
      ghost var w := writing;
      var back := |unfinishedLists| - 1;
      var list := unfinishedLists[back];
      unfinishedLists := unfinishedLists[..back];
      LayoutTop(w);
      var len := |buffer| - startPos - list.position;
      InsertListPayload(len, list.position);
      writing := Put(Below(w), ListOf(Top(w).payload));
      LayoutPut(Below(w), ListOf(Top(w).payload));
      TracksPut(unfinishedLists, startPos, Below(w), ListOf(Top(w).payload));
      ListInPlace(Layout(Below(w)), Top(w).payload);
      NoteAppended(1);
      finishedList := true;
    }

    /** The encoding of a byte string, appended but not yet counted. */
    method AppendValue(value: seq<Byte>)
      requires Valid()
      modifies this`buffer, this`writing
      ensures Valid() && writing == Put(old(writing), EncodeData(value))
      ensures Fills(writing, 1) == Fills(old(writing), 1) && (writing.frames == [] <==> old(writing).frames == [])
      ensures writing.frames == [] ==> !Fills(writing, 1)
      ensures writing.frames != [] && Top(writing).max.Some? ==> Top(writing).current + 1 <= Top(writing).max.value
    {
      hide Layout, EncodeData;
      var b := EncodeData(value);
      LongEnough(unfinishedLists, startPos, writing);
      LayoutPut(writing, b);
      SameRoom(writing, b);
      TracksPut(unfinishedLists, startPos, writing, b);
      EncodeValue(value);
      writing := Put(writing, b);
    }

    /** `append_list`: the last part finishes the list and counts it. */
    method AppendList(parts: seq<Script>)
      requires Valid()
      modifies this
      ensures Valid() && finishedList && writing == Noted(Put(old(writing), Encode(List(Trees(parts)))), 1)
      decreases parts, 1
    {
      hide Layout, ListOf, Encode, EncodeAll, Noted, Put, Push, Fills, PayloadOf, Top, Below, Tracks;
      var n := |parts|;
      ghost var w := writing;
      BeginList(n);
      PayloadEnds(parts);
      for i := 0 to n
        invariant Valid()
        invariant i < n ==> writing == Push(w, Frame(PayloadOf(parts, i), i, Some(n)))
        invariant i == n ==> finishedList && writing == Noted(Put(w, ListOf(PayloadOf(parts, n))), 1)
      {
        OneMore(w, Frame(PayloadOf(parts, i), i, Some(n)), Encode(Tree(parts[i])));
        PayloadStep(parts, i);
        Append(parts[i]);
      }
    }

    /** A list of open length: begun, appended to and finalized. */
    method AppendUnbounded(parts: seq<Script>)
      requires Valid()
      modifies this
      ensures Valid() && finishedList && writing == Noted(Put(old(writing), Encode(List(Trees(parts)))), 1)
      decreases parts, 1
    {
      hide Layout, ListOf, Encode, EncodeAll, Noted, Put, Push, Fills, PayloadOf, Top, Below, Tracks;
      ghost var w := writing;
      BeginUnboundedList();
      PayloadEnds(parts);
      for i := 0 to |parts|
        invariant Valid()
        invariant writing == Push(w, Frame(PayloadOf(parts, i), i, None))
      {
        OneMore(w, Frame(PayloadOf(parts, i), i, None), Encode(Tree(parts[i])));
        PayloadStep(parts, i);
        Append(parts[i]);
      }
      PushBelow(w, Frame(PayloadOf(parts, |parts|), |parts|, None));
      FinalizeUnboundedList();
    }

    /** `append`: whatever the value is made of, the stream ends up as if its finished encoding had been
        appended as one item. */
    method Append(script: Script)
      requires Valid()
      modifies this
      ensures Valid() && writing == Noted(Put(old(writing), Encode(Tree(script))), 1)
      ensures finishedList == (!script.Bytes? || Fills(old(writing), 1))
      decreases script, 0
    {
      hide Layout, ListOf, EncodeAll, Noted, Put, Push, Fills, Tracks;
      finishedList := false;
      match script {
        case Bytes(value) =>
          AppendValue(value);
        case Bounded(parts) =>
          AppendList(parts);
        case Unbounded(parts) =>
          AppendUnbounded(parts);
      }
      if !finishedList {
        NoteAppended(1);
      }
    }
  }

  lemma LayoutTop(w: Writing)
    requires w.frames != []
    ensures Layout(w) == Layout(Below(w)) + [0] + Top(w).payload
  {
  }

  lemma ListInPlace(before: seq<Byte>, payload: seq<Byte>)
    ensures var buffer, p := before + [0] + payload, |before| + 1;
      buffer[..p - 1] + Header(|payload|, 0xc0, 0xf7) + buffer[p..] == before + ListOf(payload)
  {
    hide Header;
    assert (before + [0] + payload)[..|before|] == before;
    assert (before + [0] + payload)[|before| + 1..] == payload;
  }

  lemma SizeLength(size: nat)
    ensures |SizeBytes(size)| == 4 - LeadingEmptyBytes(size % U32)
    ensures SizeBytes(size) == BigEndian4(size % U32)[LeadingEmptyBytes(size % U32)..]
  {
    hide BitLength;
  }

  /** A whole tree written to a new stream: no list stays open, and the reader recovers the tree. */
  method StreamTree(into: seq<Byte>, script: Script) returns (out: seq<Byte>, finished: bool)
    ensures finished && out == into + Encode(Tree(script))
    ensures Small(Tree(script)) ==> Read(out[|into|..]) == Ok(Tree(script))
  {
    hide Encode, Read;
    var stream := new RlpStream(into);
    stream.Append(script);
    finished := stream.unfinishedLists == [];
    out := stream.buffer;
    assert out[|into|..] == Encode(Tree(script));
    if Small(Tree(script)) {
      RoundTrip(Tree(script));
    }
  }
}
