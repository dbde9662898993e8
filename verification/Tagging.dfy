/** Tagged data on evbuffers: marshalling and unmarshalling. */
module Tagging {
  import opened Bytes
  import opened Evbuffer
  import opened EvbufferRun
  import opened TagCodec

  /** TaggedData = Tag Length Data */
  function Wire(tag: nat, body: seq<byte>): seq<byte>
    requires Count(|body|) <= 16
  {
    EncTag(tag) + EncInt(|body|) + body
  }

  /** Three bytes under the tag 0x166. */
  lemma WireExample()
    ensures Count(3) <= 16 && Wire(0x166, [7, 8, 9]) == [0xe6, 0x02, 0x03, 7, 8, 9]
  {
    TagExample();
    OneByte(3);
    hide EncInt, Count, EncTag;
  }

  /** decode_tag_internal does not leave the bytes it pulled up. */
  predicate TagEnds(c: seq<byte>) {
    TagLen(c[..Min(5, |c|)]) > 0 || |c| <= 5
  }

  /** That is so exactly for at most five bytes, or when one of the first five has
      its high bit clear. */
  lemma TagEndsWhen(c: seq<byte>)
    ensures TagEnds(c) <==> |c| <= 5 || exists i :: 0 <= i < 5 && c[i] < 128
  {
    var front := c[..Min(5, |c|)];
    if |c| > 5 && TagLen(front) > 0 {
      var n := TagLen(front);
      assert c[n - 1] == front[n - 1];
    }
    assert forall i :: 0 <= i < |front| ==> front[i] == c[i];
  }

  /** Six bytes with the high bit set: the sixth is read, from where it may not be. */
  lemma SixHighBytes()
    ensures !TagEnds([128, 128, 128, 128, 128, 128])
  {
    TagEndsWhen([128, 128, 128, 128, 128, 128]);
  }

  function TagSize(c: seq<byte>): (n: nat)
    ensures n <= |c|
  {
    TagLen(c[..Min(5, |c|)])
  }

  /** evtag_marshal, and evtag_marshal_string for its bytes */
  method Marshal(buf: Buffer, tag: nat, body: seq<byte>)
    requires Count(|body|) <= 8
    requires Neat(buf) && |buf.Contents()| + |Wire(tag, body)| <= EV_SIZE_MAX
    modifies buf
    ensures Neat(buf) && buf.Contents() == old(buf.Contents()) + (EncTag(tag) + EncInt(|body|) + body)
  {
    hide EncTag, EncInt, Flat;
    var data := EncodeTag(tag);
    Append(buf, data);
    data := EncodeInt(|body|, 5);
    Append(buf, data);
    Append(buf, body);
  }

  /** decode_tag_internal.  Where it leaves the bytes it pulled up, `inside` is false
      and the model stops. */
  method DecodeTagFrom(buf: Buffer, drain: bool) returns (count: int, tag: nat, inside: bool)
    requires Neat(buf)
    modifies buf
    ensures Neat(buf) && (inside <==> TagEnds(old(buf.Contents())))
    ensures !inside ==> buf.Contents() == old(buf.Contents())
    ensures var c := old(buf.Contents()); var n := TagSize(c);
      inside ==>
        && buf.Contents() == (if drain then c[n..] else c)
        && count == (if n == 0 then -1 else n) && (n > 0 ==> tag == TagValue(c[..Min(5, |c|)], n) % TWO_32)
  {
    hide Flat, Packed, Owned, IsLastData, Data, TagLen, TagValue;
    var m := Min(5, buf.totalLen);
    var ok := buf.Pullup(m);
    if !ok {
      NoTag(buf.Contents());
      return -1, 0, true;
    }
    ghost var c := buf.Contents();
    assert Data(buf.chains[0])[..m] == c[..m];
    var n;
    n, tag, inside := DecodeTag(Data(buf.chains[0])[..m], buf.totalLen);
    if n == 0 { return -1, tag, inside; }
    if drain {
      var _ := buf.Drain(n);
    }
    return n, tag, true;
  }

  lemma NoTag(c: seq<byte>)
    requires c == []
    ensures TagSize(c) == 0
  {
  }

  /** decode_int_internal (8 nibbles) and decode_int64_internal (16) */
  method DecodeIntFrom(buf: Buffer, maxNibbles: nat, offset: nat) returns (len: int, number: nat)
    requires Neat(buf) && offset <= |buf.Contents()|
    modifies buf
    ensures Neat(buf) && buf.Contents() == old(buf.Contents())
    ensures len == IntLen(buf.Contents()[offset..], maxNibbles)
    ensures len != -1 ==> number == IntValue(buf.Contents()[offset..])
  {
    hide Flat, Packed, Owned, IsLastData, Data, NibbleAt;
    var rest := buf.totalLen - offset;
    if rest <= 0 { return -1, 0; }
    var _ := buf.Pullup(offset + 1);
    ghost var c := buf.Contents();
    PrefixNibble(Data(buf.chains[0])[offset..], c[offset..], 0);
    var nibbles := NibbleAt(Data(buf.chains[0])[offset..], 0) + 1;
    if nibbles > maxNibbles || nibbles / 2 + 1 > rest { return -1, 0; }
    len := nibbles / 2 + 1;
    var _ := buf.Pullup(offset + len);
    var data := Data(buf.chains[0])[offset..];
    assert data <= c[offset..];
    IntPrefix(data, c[offset..], maxNibbles);
    len, number := DecodeInt(data, maxNibbles);
  }

  lemma IntPrefix(data: seq<byte>, all: seq<byte>, maxNibbles: nat)
    requires data <= all && IntLen(all, maxNibbles) != -1 && IntLen(all, maxNibbles) <= |data|
    ensures IntLen(data, maxNibbles) == IntLen(all, maxNibbles) && IntValue(data) == IntValue(all)
  {
    hide NibbleAt;
    PrefixNibble(data, all, 0);
    ValuePrefix(data, all, 1, NibbleAt(all, 0) + 1);
  }

  lemma {:induction false} ValuePrefix(data: seq<byte>, all: seq<byte>, i: nat, k: nat)
    requires data <= all && k / 2 < |data|
    ensures Value(data, i, k) == Value(all, i, k)
    decreases k + 1 - i
  {
    hide NibbleAt;
    if i <= k {
      PrefixNibble(data, all, i);
      ValuePrefix(data, all, i + 1, k);
    }
  }

  // ----- unmarshalling -----

  /** The tag and length in front of `rest`; or what is left after a failure. */
  datatype Head = Bad(left: seq<byte>) | Head(tag: nat, len: nat, rest: seq<byte>)

  function HeadOf(c: seq<byte>): Head {
    var n := TagSize(c);
    if n == 0 then Bad(c) else
      var m := IntLen(c[n..], 8);
      if m == -1 then Bad(c[n..])
      else Head(TagValue(c[..Min(5, |c|)], n) % TWO_32, IntValue(c[n..]), c[n + m..])
  }

  /** An ev_uint32_t returned as an int. */
  function AsInt(x: nat): (r: int)
    ensures x < TWO_32 ==> -0x8000_0000 <= r < 0x8000_0000 && (r - x) % TWO_32 == 0
  {
    if x < 0x8000_0000 then x else x - TWO_32
  }

  /** A wire item is taken apart into what it was made of. */
  lemma HeadOfWire(tag: nat, body: seq<byte>, rest: seq<byte>)
    requires tag < TWO_32 && Count(|body|) <= 8
    ensures var c := Wire(tag, body) + rest;
      && TagEnds(c) && HeadOf(c) == Head(tag, |body|, body + rest)
      && TagSize(c) + IntLen(c[TagSize(c)..], 8) == |Wire(tag, body)| - |body|
  {
    hide EncTag, EncInt, TagLen, TagValue, IntLen, IntValue, Count, TagSize, TagEnds;
    var t, l := EncTag(tag), EncInt(|body|);
    var c := Wire(tag, body) + rest;
    assert c == t + (l + (body + rest));
    TagInFront(tag, l + (body + rest));
    IntRoundTrip(|body|, body + rest, 8);
    assert c[|t| + |l|..] == body + rest;
  }

  lemma TagInFront(tag: nat, rest: seq<byte>)
    requires tag < TWO_32
    ensures var t := EncTag(tag); var c := t + rest;
      && TagEnds(c) && TagSize(c) == |t| > 0 && c[|t|..] == rest
      && TagValue(c[..Min(5, |c|)], |t|) == tag
  {
    hide EncTag, TagLen, TagValue;
    var t := EncTag(tag);
    var c := t + rest;
    assert tag < Power128(5) by { assert Power128(5) == 128 * 128 * 128 * 128 * 128; }
    EncTagLength(tag, 5);
    var m := Min(5, |c|);
    assert c[..m] == t + c[|t|..m];
    TagRoundTrip(tag, c[|t|..m]);
  }

  /** evtag_decode_int */
  method TakeInt(buf: Buffer, maxNibbles: nat) returns (ret: int, number: nat)
    requires Neat(buf)
    modifies buf
    ensures var c := old(buf.Contents()); var m := IntLen(c, maxNibbles);
      && Neat(buf) && ret == (if m == -1 then -1 else 0) && buf.Contents() == (if m == -1 then c else c[m..])
      && (m != -1 ==> number == IntValue(c))
  {
    hide Flat, Packed, Owned, IsLastData, IntLen, IntValue;
    ghost var c := buf.Contents();
    assert c[0..] == c;
    var len;
    len, number := DecodeIntFrom(buf, maxNibbles, 0);
    if len == -1 { return -1, number; }
    IntLenPositive(c, maxNibbles);
    var _ := buf.Drain(len);
    return 0, number;
  }

  lemma IntLenPositive(c: seq<byte>, maxNibbles: nat)
    ensures IntLen(c, maxNibbles) == -1 || 0 < IntLen(c, maxNibbles) <= |c|
  {
  }

  lemma DropTwice(c: seq<byte>, n: nat, m: nat)
    requires n + m <= |c|
    ensures c[n..][m..] == c[n + m..]
  {
  }

  /** evtag_unmarshal_header */
  method UnmarshalHeader(buf: Buffer) returns (ret: int, tag: nat, inside: bool)
    requires Neat(buf)
    modifies buf
    ensures Neat(buf) && (inside <==> TagEnds(old(buf.Contents())))
    ensures !inside ==> buf.Contents() == old(buf.Contents())
    ensures inside ==> match HeadOf(old(buf.Contents()))
      case Bad(left) => ret == -1 && buf.Contents() == left
      case Head(t, len, rest) =>
        tag == t && buf.Contents() == rest && ret == if |rest| < len then -1 else AsInt(len)
  {
    hide Flat, Packed, Owned, IsLastData, IntLen, IntValue, TagLen, TagValue;
    ghost var c := buf.Contents();
    var n;
    n, tag, inside := DecodeTagFrom(buf, true);
    if !inside || n == -1 { return -1, tag, inside; }
    IntLenPositive(c[n..], 8);
    var r, len := TakeInt(buf, 8);
    if r == -1 { return -1, tag, inside; }
    DropTwice(c, n, IntLen(c[n..], 8));
    if buf.totalLen < len { return -1, tag, inside; }
    return AsInt(len), tag, inside;
  }

  /** evtag_peek_length: how many bytes the first item takes up. */
  method PeekLength(buf: Buffer) returns (ret: int, length: nat, inside: bool)
    requires Neat(buf)
    modifies buf
    ensures Neat(buf) && buf.Contents() == old(buf.Contents()) && (inside <==> TagEnds(buf.Contents()))
    ensures var c := buf.Contents(); var n := TagSize(c);
      inside ==>
        if n == 0 || IntLen(c[n..], 8) == -1 then ret == -1
        else ret == 0 && length == (n + IntLen(c[n..], 8) + IntValue(c[n..])) % TWO_32
  {
    hide Flat, Packed, Owned, IsLastData, IntLen, IntValue, TagLen, TagValue;
    var n, tag;
    n, tag, inside := DecodeTagFrom(buf, false);
    if !inside || n == -1 { return -1, 0, inside; }
    var m, v := DecodeIntFrom(buf, 8, n);
    if m == -1 { return -1, 0, inside; }
    IntLenPositive(buf.Contents()[n..], 8);
    return 0, (v + m + n) % TWO_32, inside;
  }

  const TWO_31: nat := 0x8000_0000
  const TWO_64: nat := 0x1_0000_0000_0000_0000

  /** An int passed as a size_t. */
  function AsSize(x: int): (r: nat)
    requires x + TWO_31 >= 0
    ensures x < TWO_64 ==> r < TWO_64 && (r - x) % TWO_64 == 0
  {
    if x < 0 then x + TWO_64 else x
  }

  lemma HeadShorter(c: seq<byte>)
    ensures HeadOf(c).Head? ==> |HeadOf(c).rest| <= |c| && HeadOf(c).len < TWO_32
  {
    var n := TagSize(c);
    if n > 0 && IntLen(c[n..], 8) != -1 {
      ValueBound(c[n..], 1, NibbleAt(c[n..], 0) + 1);
    }
  }

  lemma {:induction false} ValueBound(data: seq<byte>, i: nat, k: nat)
    requires k / 2 < |data| && i <= k + 1 <= i + 8
    ensures Value(data, i, k) < Power16(k + 1 - i) <= TWO_32
    decreases k + 1 - i
  {
    hide NibbleAt;
    if i <= k {
      ValueBound(data, i + 1, k);
    }
    SmallPower(k + 1 - i);
  }

  lemma SmallPower(k: nat)
    requires k <= 8
    ensures Power16(k) <= TWO_32
  {
    assert Power16(8) == TWO_32;
  }

  /** evtag_unmarshal.  A length of 2^31 or more turns into a negative int, that is
      a size_t for which no chain can be allocated: evbuffer_add fails. */
  method Unmarshal(src: Buffer, dst: Buffer) returns (ret: int, tag: nat, inside: bool)
    requires src != dst && Neat(src) && Neat(dst)
    requires |src.Contents()| + |dst.Contents()| <= EV_SIZE_MAX
    modifies src, dst
    ensures Neat(src) && Neat(dst) && (inside <==> TagEnds(old(src.Contents())))
    ensures !inside ==> src.Contents() == old(src.Contents()) && dst.Contents() == old(dst.Contents())
    ensures inside ==> match HeadOf(old(src.Contents()))
      case Bad(left) => ret == -1 && src.Contents() == left && dst.Contents() == old(dst.Contents())
      case Head(t, len, rest) =>
        if |rest| < len || len >= TWO_31 then ret == -1 && src.Contents() == rest && dst.Contents() == old(dst.Contents())
        else ret == len && tag == t && src.Contents() == rest[len..] && dst.Contents() == old(dst.Contents()) + rest[..len]
  {
    hide Flat, Packed, Owned, IsLastData, HeadOf, Data;
    HeadShorter(src.Contents());
    ret, tag, inside := UnmarshalHeader(src);
    if !inside || ret == -1 { return; }
    if ret < 0 {
      var _ := src.Pullup(ret);
      return -1, tag, inside;
    }
    Copy(src, ret, dst);
    var _ := src.Drain(ret);
  }

  /** evbuffer_add(dst, evbuffer_pullup(src, len), len) */
  method Copy(src: Buffer, len: nat, dst: Buffer)
    requires src != dst && Neat(src) && Neat(dst)
    requires len <= |src.Contents()| && |src.Contents()| + |dst.Contents()| <= EV_SIZE_MAX
    modifies src, dst
    ensures Neat(src) && Neat(dst) && src.Contents() == old(src.Contents())
    ensures dst.Contents() == old(dst.Contents()) + src.Contents()[..len]
  {
    hide Flat, Packed, Owned, IsLastData, Data;
    var ok := src.Pullup(len);
    if ok {
      assert Data(src.chains[0])[..len] == src.Contents()[..len];
      Append(dst, Data(src.chains[0])[..len]);
    } else {
      Append(dst, []);
    }
  }

  /** An integer of at most this many nibbles stands in front of the bytes. */
  ghost predicate HoldsInt(c: seq<byte>, needTag: nat, maxNibbles: nat) {
    var h := HeadOf(c);
    && h.Head? && h.tag == needTag && h.len <= |h.rest|
    && IntLen(h.rest, maxNibbles) != -1 && IntLen(h.rest, maxNibbles) <= h.len
  }

  /** evtag_unmarshal_int (8 nibbles) and evtag_unmarshal_int64 (16) */
  method UnmarshalInt(buf: Buffer, needTag: nat, maxNibbles: nat) returns (ret: int, number: nat, inside: bool)
    requires Neat(buf)
    modifies buf
    ensures Neat(buf) && (inside <==> TagEnds(old(buf.Contents())))
    ensures !inside ==> buf.Contents() == old(buf.Contents())
    ensures inside ==> (ret != -1 <==> HoldsInt(old(buf.Contents()), needTag, maxNibbles))
    ensures inside && ret != -1 ==>
      var h := HeadOf(old(buf.Contents()));
      ret == IntLen(h.rest, maxNibbles) && number == IntValue(h.rest) && buf.Contents() == h.rest[h.len..]
  {
    hide Flat, Packed, Owned, IsLastData, IntLen, IntValue, TagLen, TagValue;
    ghost var c := buf.Contents();
    var n, tag;
    n, tag, inside := DecodeTagFrom(buf, true);
    if !inside || n == -1 || needTag != tag { return -1, 0, inside; }
    IntLenPositive(c[n..], 8);
    var r, len := TakeInt(buf, 8);
    if r == -1 { return -1, 0, inside; }
    DropTwice(c, n, IntLen(c[n..], 8));
    if buf.totalLen < len { return -1, 0, inside; }
    ghost var body := buf.Contents();
    assert body[0..] == body;
    ret, number := DecodeIntFrom(buf, maxNibbles, 0);
    IntLenPositive(body, maxNibbles);
    var _ := buf.Drain(len);
    if ret < 0 || ret > len { ret := -1; }
  }

  /** Two integers fill at most the first `len` bytes. */
  ghost predicate HoldsTime(rest: seq<byte>, len: int) {
    var o := IntLen(rest, 8);
    o != -1 && IntLen(rest[o..], 8) != -1 && o + IntLen(rest[o..], 8) <= len
  }

  /** evtag_unmarshal_timeval: the payload is consumed whether or not it holds
      the tag and the two integers asked for.  A length of 2^31 or more is negative
      as an int; as a size_t it drains all that a buffer can hold. */
  method UnmarshalTimeval(buf: Buffer, needTag: nat) returns (ret: int, sec: nat, usec: nat, inside: bool)
    requires Neat(buf)
    modifies buf
    ensures Neat(buf) && (inside <==> TagEnds(old(buf.Contents())))
    ensures !inside ==> buf.Contents() == old(buf.Contents())
    ensures inside ==> match HeadOf(old(buf.Contents()))
      case Bad(left) => ret == -1 && buf.Contents() == left
      case Head(tag, len, rest) =>
        if |rest| < len || len == TWO_32 - 1 then ret == -1 && buf.Contents() == rest
        else if len >= TWO_31 then ret == -1 && buf.Contents() == rest[Min(|rest|, TWO_64 - TWO_32 + len)..]
        else
          && buf.Contents() == rest[len..]
          && ret == (if tag == needTag && HoldsTime(rest, len) then 0 else -1)
          && (ret == 0 ==> sec == IntValue(rest) && usec == IntValue(rest[IntLen(rest, 8)..]))
  {
    hide Flat, Packed, Owned, IsLastData, IntLen, IntValue, HeadOf;
    HeadShorter(buf.Contents());
    sec, usec := 0, 0;
    var len, tag;
    len, tag, inside := UnmarshalHeader(buf);
    if !inside || len == -1 { return -1, 0, 0, inside; }
    ret := -1;
    if tag == needTag {
      ret, sec, usec := DecodeTime(buf, len);
    }
    var _ := buf.Drain(AsSize(len));
  }

  method DecodeTime(buf: Buffer, len: int) returns (ret: int, sec: nat, usec: nat)
    requires Neat(buf)
    modifies buf
    ensures var rest := buf.Contents();
      && Neat(buf) && rest == old(buf.Contents()) && ret == (if HoldsTime(rest, len) then 0 else -1)
      && (ret == 0 ==> len > 0 && sec == IntValue(rest) && usec == IntValue(rest[IntLen(rest, 8)..]))
  {
    hide Flat, Packed, Owned, IsLastData, IntLen, IntValue;
    ghost var rest := buf.Contents();
    assert rest[0..] == rest;
    var offset, offset2;
    offset, sec := DecodeIntFrom(buf, 8, 0);
    if offset == -1 { return -1, sec, 0; }
    IntLenPositive(rest, 8);
    IntLenPositive(rest[offset..], 8);
    offset2, usec := DecodeIntFrom(buf, 8, offset);
    if offset2 == -1 || offset + offset2 > len { return -1, sec, usec; }
    return 0, sec, usec;
  }
}
