/** Whole sequences of tagged items, written to a buffer and read back. */
module TagItems {
  import opened Bytes
  import opened Evbuffer
  import opened EvbufferRun
  import opened TagCodec
  import opened Tagging

  /** What the marshalling calls take, one constructor for each. */
  datatype Item =
    | Raw(tag: nat, data: seq<byte>)
    | Int32(tag: nat, n: nat)
    | Int64(tag: nat, n: nat)
    | Time(tag: nat, sec: nat, usec: nat)

  /** The fields have the widths of their C types; a payload is below 2^31. */
  predicate Fits(it: Item) {
    && it.tag < TWO_32
    && match it
       case Raw(_, data) => |data| < TWO_31
       case Int32(_, n) => n < TWO_32
       case Int64(_, n) => n < TWO_64
       case Time(_, sec, usec) => sec < TWO_32 && usec < TWO_32
  }

  function Body(it: Item): (b: seq<byte>)
    requires Fits(it)
    ensures |b| < TWO_31
  {
    Widths(it);
    match it
    case Raw(_, data) => data
    case Int32(_, n) => EncInt(n)
    case Int64(_, n) => EncInt(n)
    case Time(_, sec, usec) => EncInt(sec) + EncInt(usec)
  }

  function Image(it: Item): seq<byte>
    requires Fits(it)
  {
    Widths(it);
    SmallLength(|Body(it)|);
    Wire(it.tag, Body(it))
  }

  /** The time 16.000002 under the tag 1: both numbers in one body, the seconds first. */
  lemma TimeExample()
    ensures Fits(Time(1, 16, 2)) && Image(Time(1, 16, 2)) == [0x01, 0x03, 0x10, 0x10, 0x02]
  {
    TwoBytes(16, 2);
    OneByte(2);
    OneByte(3);
    assert EncTag(1) == [0x01];
    hide EncInt, Count, EncTag;
    assert Body(Time(1, 16, 2)) == [0x10, 0x10, 0x02];
  }

  function Images(items: seq<Item>): seq<byte>
    requires forall i :: 0 <= i < |items| ==> Fits(items[i])
  {
    if items == [] then [] else Image(items[0]) + Images(items[1..])
  }

  lemma SmallLength(n: nat)
    requires n < TWO_32
    ensures Count(n) <= 8
  {
    assert Power16(8) == TWO_32;
    CountBound(n, 8);
  }

  lemma LargeNumber(n: nat)
    requires n < TWO_64
    ensures Count(n) <= 16
  {
    assert Power16(8) == TWO_32;
    assert Power16(16) == TWO_64;
    CountBound(n, 16);
  }

  /** Every number in an item has as many nibbles as its width allows. */
  lemma Widths(it: Item)
    requires Fits(it)
    ensures match it
      case Raw(_, data) => true
      case Int32(_, n) => Count(n) <= 8
      case Int64(_, n) => Count(n) <= 16
      case Time(_, sec, usec) => Count(sec) <= 8 && Count(usec) <= 8
  {
    hide Count;
    match it
    case Raw(_, _) =>
    case Int32(_, n) => SmallLength(n);
    case Int64(_, n) => LargeNumber(n);
    case Time(_, sec, usec) => SmallLength(sec); SmallLength(usec);
  }

  /** evtag_marshal, evtag_marshal_int, evtag_marshal_int64 and
      evtag_marshal_timeval */
  method Put(buf: Buffer, it: Item)
    requires Fits(it) && Neat(buf) && |buf.Contents()| + |Image(it)| <= EV_SIZE_MAX
    modifies buf
    ensures Neat(buf) && buf.Contents() == old(buf.Contents()) + Image(it)
    ensures Count(|Body(it)|) <= 16 && Image(it) == EncTag(it.tag) + EncInt(|Body(it)|) + Body(it)
  {
    hide Flat, Packed, Owned, IsLastData, Count, EncInt;
    Widths(it);
    SmallLength(|Body(it)|);
    var body;
    match it {
      case Raw(_, data) => body := data;
      case Int32(_, n) => body := EncodeInt(n, 5);
      case Int64(_, n) => body := EncodeInt(n, 9);
      case Time(_, sec, usec) =>
        var first := EncodeInt(sec, 5);
        var second := EncodeInt(usec, 5);
        body := first + second;
    }
    Marshal(buf, it.tag, body);
  }

  /** What a reader has to know beforehand. */
  datatype Want = AnyRaw | WantInt32(tag: nat) | WantInt64(tag: nat) | WantTime(tag: nat)

  function WantOf(it: Item): Want {
    match it
    case Raw(_, _) => AnyRaw
    case Int32(tag, _) => WantInt32(tag)
    case Int64(tag, _) => WantInt64(tag)
    case Time(tag, _, _) => WantTime(tag)
  }

  /** All that the readers look at, in a buffer that starts with `it`. */
  lemma ImageParts(it: Item, rest: seq<byte>)
    requires Fits(it)
    ensures var c := Image(it) + rest; var all := Body(it) + rest;
      && TagEnds(c) && HeadOf(c) == Head(it.tag, |Body(it)|, all)
      && TagSize(c) > 0 && IntLen(c[TagSize(c)..], 8) != -1 && IntValue(c[TagSize(c)..]) == |Body(it)|
      && TagSize(c) + IntLen(c[TagSize(c)..], 8) + |Body(it)| == |Image(it)| < TWO_32
      && all[|Body(it)|..] == rest && all[..|Body(it)|] == Body(it)
  {
    hide Count, EncInt, EncTag, TagLen, TagValue, IntLen, IntValue;
    Widths(it);
    SmallLength(|Body(it)|);
    HeadOfWire(it.tag, Body(it), rest);
    assert Power128(5) == 128 * 128 * 128 * 128 * 128;
    EncTagLength(it.tag, 5);
    assert |EncInt(|Body(it)|)| <= 5;
  }

  /** The numbers in a body are found again. */
  lemma BodyParts(it: Item, rest: seq<byte>)
    requires Fits(it)
    ensures var all := Body(it) + rest;
      match it
      case Raw(_, data) => Body(it) == data
      case Int32(_, n) => IntLen(all, 8) == |Body(it)| && IntValue(all) == n
      case Int64(_, n) => IntLen(all, 16) == |Body(it)| && IntValue(all) == n
      case Time(_, sec, usec) =>
        && HoldsTime(all, |Body(it)|) && IntValue(all) == sec && IntValue(all[IntLen(all, 8)..]) == usec
  {
    hide Count, EncInt, IntLen, IntValue;
    Widths(it);
    match it
    case Raw(_, _) =>
    case Int32(_, n) => IntRoundTrip(n, rest, 8);
    case Int64(_, n) => IntRoundTrip(n, rest, 16);
    case Time(_, sec, usec) =>
      assert Body(it) + rest == EncInt(sec) + (EncInt(usec) + rest);
      IntRoundTrip(sec, EncInt(usec) + rest, 8);
      IntRoundTrip(usec, rest, 8);
  }

  /** One item: its length is peeked at, then the reader for its kind is called. */
  method Take(buf: Buffer, want: Want, ghost it: Item, ghost rest: seq<byte>) returns (length: nat, back: Item)
    requires Fits(it) && WantOf(it) == want && Neat(buf) && buf.Contents() == Image(it) + rest
    requires |buf.Contents()| <= EV_SIZE_MAX
    modifies buf
    ensures Neat(buf) && buf.Contents() == rest && back == it && length == |Image(it)|
  {
    hide Flat, Packed, Owned, IsLastData, Count, IntLen, IntValue, HeadOf, Image, Body, TagSize, TagEnds;
    ImageParts(it, rest);
    BodyParts(it, rest);
    var _, peeked, _ := PeekLength(buf);
    length := peeked;
    match want
    case AnyRaw =>
      var dst := new Buffer();
      Fresh(dst);
      var _, tag, _ := Unmarshal(buf, dst);
      var _, data := dst.CopyOut(dst.totalLen);
      back := Raw(tag, data);
    case WantInt32(tag) =>
      var _, n, _ := UnmarshalInt(buf, tag, 8);
      back := Int32(tag, n);
    case WantInt64(tag) =>
      var _, n, _ := UnmarshalInt(buf, tag, 16);
      back := Int64(tag, n);
    case WantTime(tag) =>
      var _, sec, usec, _ := UnmarshalTimeval(buf, tag);
      back := Time(tag, sec, usec);
  }

  lemma {:induction false} ImagesSplit(items: seq<Item>, i: nat)
    requires i <= |items| && forall k :: 0 <= k < |items| ==> Fits(items[k])
    ensures Images(items) == Images(items[..i]) + Images(items[i..])
  {
    hide Image;
    if i == 0 {
      assert items[..0] == [] && items[0..] == items;
    } else {
      ImagesSplit(items[1..], i - 1);
      assert items[..i][1..] == items[1..][..i - 1];
      assert items[1..][i - 1..] == items[i..];
    }
  }

  lemma ImagesSnoc(items: seq<Item>, i: nat)
    requires i < |items| && forall k :: 0 <= k < |items| ==> Fits(items[k])
    ensures Images(items[..i + 1]) == Images(items[..i]) + Image(items[i])
    ensures Images(items[i..]) == Image(items[i]) + Images(items[i + 1..])
    ensures |Images(items)| == |Images(items[..i])| + |Image(items[i])| + |Images(items[i + 1..])|
  {
    hide Image;
    ImagesSplit(items, i);
    ImagesSplit(items[..i + 1], i);
    assert items[..i + 1][..i] == items[..i] && items[..i + 1][i..] == [items[i]];
    assert Images([items[i]]) == Image(items[i]) + Images([]);
    assert items[i..][1..] == items[i + 1..];
  }

  method PutAll(buf: Buffer, items: seq<Item>)
    requires Neat(buf) && buf.Contents() == [] && forall k :: 0 <= k < |items| ==> Fits(items[k])
    requires |Images(items)| <= EV_SIZE_MAX
    modifies buf
    ensures Neat(buf) && buf.Contents() == Images(items)
  {
    hide Flat, Packed, Owned, IsLastData, Image, Images;
    assert items[..0] == [];
    NoImages();
    for i := 0 to |items|
      invariant Neat(buf) && buf.Contents() == Images(items[..i])
    {
      ImagesSnoc(items, i);
      Put(buf, items[i]);
    }
    assert items[..|items|] == items;
  }

  lemma NoImages()
    ensures Images([]) == []
  {
  }

  /** Everything that is written is read back, item by item; each peeked length is
      the room one item takes; the bytes behind the items are left alone. */
  method RoundTrip(items: seq<Item>, tail: seq<byte>)
    returns (back: seq<Item>, lengths: seq<nat>, left: seq<byte>)
    requires forall k :: 0 <= k < |items| ==> Fits(items[k])
    requires |Images(items)| + |tail| <= EV_SIZE_MAX
    ensures back == items && left == tail
    ensures |lengths| == |items| && forall k :: 0 <= k < |items| ==> lengths[k] == |Image(items[k])|
  {
    hide Flat, Packed, Owned, IsLastData, Image, Images;
    var buf := new Buffer();
    Fresh(buf);
    PutAll(buf, items);
    Append(buf, tail);
    back, lengths := [], [];
    assert items[0..] == items;
    for i := 0 to |items|
      invariant Neat(buf) && buf.Contents() == Images(items[i..]) + tail && |buf.Contents()| <= EV_SIZE_MAX
      invariant back == items[..i] && |lengths| == i
      invariant forall k :: 0 <= k < i ==> lengths[k] == |Image(items[k])|
    {
      ImagesSnoc(items, i);
      assert buf.Contents() == Image(items[i]) + (Images(items[i + 1..]) + tail);
      var length, it := Take(buf, WantOf(items[i]), items[i], Images(items[i + 1..]) + tail);
      back, lengths := back + [it], lengths + [length];
    }
    NoImages();
    var _, rest := buf.CopyOut(buf.totalLen);
    left := rest;
  }

  lemma Fresh(buf: Buffer)
    requires buf.Valid() && buf.chains == [] && !buf.freezeStart && !buf.freezeEnd
    ensures Neat(buf) && buf.Contents() == []
  {
  }
}
