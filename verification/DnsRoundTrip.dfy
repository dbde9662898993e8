/** Names written through one compression table can all be read back. */
module DnsRoundTrip {
  import opened Bytes
  import opened DnsName
  import opened DnsParse
  import opened DnsEncode

  /** At `i` stands the name `ls`, read through at most `most` pointers. */
  ghost predicate Denotes(p: seq<byte>, i: nat, ls: seq<seq<byte>>, most: nat) {
    exists k: nat :: k <= most && NameAt(p, i, ls, k)
  }

  /** Every entry of the table names what stands at its offset. */
  ghost predicate TableOk(table: seq<Entry>, p: seq<byte>) {
    forall e <- table :: e.pos < |p| && Denotes(p, e.pos, Meaning(e.name), e.pos)
  }

  lemma DenotesExtend(p: seq<byte>, q: seq<byte>, i: nat, ls: seq<seq<byte>>, most: nat)
    requires Denotes(p, i, ls, most) && p <= q
    ensures Denotes(q, i, ls, most)
  {
    var k: nat :| k <= most && NameAt(p, i, ls, k);
    NameAtExtend(p, q, i, ls, k);
  }

  /** A pointer to an earlier name denotes that name. */
  lemma PointerDenotes(p: seq<byte>, ref: nat, ls: seq<seq<byte>>)
    requires ref < MAX_OFFSET && Denotes(p, ref, ls, ref)
    ensures Denotes(p + PointerBytes(ref), |p|, ls, ref + 1) && EndOf(p + PointerBytes(ref), |p|) == |p| + 2
  {
    var k: nat :| k <= ref && NameAt(p, ref, ls, k);
    var q := p + PointerBytes(ref);
    NameAtExtend(p, q, ref, ls, k);
    assert q[|p|..|p| + 2] == PointerBytes(ref);
    PointerRoundTrip(ref, q, |p|);
    assert NameAt(q, |p|, ls, k + 1);
  }

  /** A label in front of a name. */
  lemma LabelDenotes(p: seq<byte>, rest: seq<byte>, q: seq<byte>, ls: seq<seq<byte>>, most: nat)
    requires 0 < DotAt(rest) <= 63 && p + LabelBytes(rest) <= q
    requires Denotes(q, |p| + DotAt(rest) + 1, ls, most)
    ensures Denotes(q, |p|, [rest[..DotAt(rest)]] + ls, most)
    ensures EndOf(q, |p|) == EndOf(q, |p| + DotAt(rest) + 1)
  {
    var d := DotAt(rest);
    var k: nat :| k <= most && NameAt(q, |p| + d + 1, ls, k);
    assert q[|p|] == (p + LabelBytes(rest))[|p|] == d;
    assert q[|p| + 1..|p| + 1 + d] == (p + LabelBytes(rest))[|p| + 1..|p| + 1 + d] == rest[..d];
    assert ([rest[..d]] + ls)[1..] == ls;
    assert NameAt(q, |p|, [rest[..d]] + ls, k);
  }

  lemma ZeroDenotes(q: seq<byte>, i: nat, most: nat)
    requires i < |q| && q[i] == 0
    ensures Denotes(q, i, [], most) && EndOf(q, i) == i + 1
  {
    assert NameAt(q, i, [], 0);
  }

  /** What one call of the encoder leaves: at its start the name, at the offset of
      each new entry the name of that entry; only entries from before `base` are
      pointed to, so pointers lead strictly backward.  Entries for longer names,
      those of the call still under way, are never looked up. */
  lemma {:induction false} EncodeDenotes(table: seq<Entry>, compress: bool, j: nat, rest: seq<byte>, bufLen: nat,
                                         p: seq<byte>, base: nat)
    requires |p| == j && base <= j && bufLen < MAX_OFFSET && base <= MAX_OFFSET
    requires Encode(table, compress, j, rest, bufLen).Done?
    requires compress ==> forall e <- table :: |e.name| <= |rest| ==> e.pos < base && Denotes(p, e.pos, Meaning(e.name), e.pos)
    ensures var e := Encode(table, compress, j, rest, bufLen); var q := p + e.bytes;
      && Denotes(q, j, Meaning(rest), base)
      && (Clean(rest) ==> EndOf(q, j) == |q|)
      && table <= e.table
      && forall n <- e.table[|table|..] :: j <= n.pos < |q| && Denotes(q, n.pos, Meaning(n.name), base)
    decreases |rest|
  {
    hide DotAt, Encode, LabelBytes, PointerBytes, Denotes, EndOf;
    EncodeCases(table, compress, j, rest, bufLen);
    var e := Encode(table, compress, j, rest, bufLen);
    var q := p + e.bytes;
    var d := DotAt(rest);
    if compress && GetPos(table, rest) >= 0 {
      PointerDenotes(p, GetPos(table, rest), Meaning(rest));
      DenotesMore(q, j, Meaning(rest), GetPos(table, rest) + 1, base);
      assert e.table[|table|..] == [];
    } else if d == |rest| {
      LastDenotes(p, rest, base);
      NewEntries(table, compress, j, rest, [], e.table, q, base);
    } else {
      var t := if compress then Added(table, rest, j) else table;
      var more := Encode(t, compress, j + d + 1, rest[d + 1..], bufLen);
      var p' := p + LabelBytes(rest);
      assert q == p' + more.bytes;
      if compress {
        ShorterEntries(table, rest, j, d, p, p', base);
      }
      EncodeDenotes(t, compress, j + d + 1, rest[d + 1..], bufLen, p', base);
      if d == 0 {
        assert q[j] == LabelBytes(rest)[0];
        ZeroDenotes(q, j, base);
      } else {
        LabelDenotes(p, rest, q, Meaning(rest[d + 1..]), base);
      }
      NewEntries(table, compress, j, rest, more.table[|t|..], e.table, q, base);
    }
  }

  lemma DenotesMore(p: seq<byte>, i: nat, ls: seq<seq<byte>>, most: nat, more: nat)
    requires Denotes(p, i, ls, most) && most <= more
    ensures Denotes(p, i, ls, more)
  {
    var k: nat :| k <= most && NameAt(p, i, ls, k);
    assert k <= more;
  }

  /** The last label and the zero byte after it. */
  lemma LastDenotes(p: seq<byte>, rest: seq<byte>, base: nat)
    requires DotAt(rest) == |rest| <= 63
    ensures var q := p + (LabelBytes(rest) + (if rest == [] then [] else [0]));
      Denotes(q, |p|, Meaning(rest), base) && EndOf(q, |p|) == |q|
  {
    var q := p + (LabelBytes(rest) + (if rest == [] then [] else [0]));
    if rest == [] {
      assert q[|p|] == 0;
      ZeroDenotes(q, |p|, base);
    } else {
      var n := |p| + |rest| + 1;
      assert q[n] == 0;
      ZeroDenotes(q, n, base);
      assert p + LabelBytes(rest) <= q;
      LabelDenotes(p, rest, q, [], base);
      assert rest[..|rest|] == rest;
      assert [rest] + [] == [rest];
    }
  }

  /** After the entry for `rest`, the shorter names are those of before. */
  lemma ShorterEntries(table: seq<Entry>, rest: seq<byte>, j: nat, d: nat, p: seq<byte>, p': seq<byte>, base: nat)
    requires d < |rest| && p <= p'
    requires forall e <- table :: |e.name| <= |rest| ==> e.pos < base && Denotes(p, e.pos, Meaning(e.name), e.pos)
    ensures forall e <- Added(table, rest, j) :: |e.name| <= |rest[d + 1..]| ==>
      e.pos < base && Denotes(p', e.pos, Meaning(e.name), e.pos)
  {
    forall e <- Added(table, rest, j) | |e.name| <= |rest[d + 1..]|
      ensures e.pos < base && Denotes(p', e.pos, Meaning(e.name), e.pos)
    {
      assert e in table;
      DenotesExtend(p, p', e.pos, Meaning(e.name), e.pos);
    }
  }

  /** The new entries: the one for `rest`, if there was room, and the later ones. */
  lemma NewEntries(table: seq<Entry>, compress: bool, j: nat, rest: seq<byte>, later: seq<Entry>, after: seq<Entry>,
                   q: seq<byte>, base: nat)
    requires after == (if compress then Added(table, rest, j) else table) + later
    requires j < |q| && Denotes(q, j, Meaning(rest), base)
    requires forall n <- later :: j <= n.pos < |q| && Denotes(q, n.pos, Meaning(n.name), base)
    ensures table <= after
    ensures forall n <- after[|table|..] :: j <= n.pos < |q| && Denotes(q, n.pos, Meaning(n.name), base)
  {
    if compress && |table| < MAX_LABELS {
      assert after[|table|..] == [Entry(rest, j)] + later;
    } else {
      assert after[|table|..] == later;
    }
  }

  /** One more name in a packet with a truthful table. */
  lemma EncodeKeepsTable(table: seq<Entry>, p: seq<byte>, name: seq<byte>, bufLen: nat)
    requires TableOk(table, p) && |p| <= MAX_OFFSET && bufLen < MAX_OFFSET
    requires Encode(table, true, |p|, name, bufLen).Done?
    ensures var e := Encode(table, true, |p|, name, bufLen); var q := p + e.bytes;
      TableOk(e.table, q) && Denotes(q, |p|, Meaning(name), |p|) && (Clean(name) ==> EndOf(q, |p|) == |q|)
  {
    var e := Encode(table, true, |p|, name, bufLen);
    var q := p + e.bytes;
    EncodeDenotes(table, true, |p|, name, bufLen, p, |p|);
    forall n <- e.table
      ensures n.pos < |q| && Denotes(q, n.pos, Meaning(n.name), n.pos)
    {
      if n in table {
        DenotesExtend(p, q, n.pos, Meaning(n.name), n.pos);
      } else {
        assert e.table == table + e.table[|table|..];
        assert n in e.table[|table|..];
      }
    }
  }

  // ----- whole packets -----

  /** What goes into a packet: names, and bytes of other fields between them. */
  datatype Item = Name(name: seq<byte>) | Raw(bytes: seq<byte>)

  /** Room for the worst case: two bytes more than the name. */
  function Room(items: seq<Item>): nat {
    if items == [] then 0 else
      var it := items[|items| - 1];
      Room(items[..|items| - 1]) + if it.Name? then |it.name| + 2 else |it.bytes|
  }

  ghost predicate WellFormed(items: seq<Item>) {
    forall i :: 0 <= i < |items| && items[i].Name? ==>
      0 !in items[i].name && |items[i].name| <= 255 && ShortLabels(items[i].name)
  }

  /** The name can be read back from where it was written. */
  ghost predicate Readable(p: seq<byte>, start: nat, end: nat, name: seq<byte>) {
    && start < |p| && |name| <= 255 && Denotes(p, start, Meaning(name), start)
    && (Clean(name) ==> EndOf(p, start) == end)
  }

  lemma ReadableExtend(p: seq<byte>, q: seq<byte>, start: nat, end: nat, name: seq<byte>)
    requires Readable(p, start, end, name) && p <= q
    ensures Readable(q, start, end, name)
  {
    var k: nat :| k <= start && NameAt(p, start, Meaning(name), k);
    NameAtExtend(p, q, start, Meaning(name), k);
    EndOfExtend(p, q, start, Meaning(name), k);
  }

  lemma RoomStep(items: seq<Item>, i: nat)
    requires i < |items|
    ensures Room(items[..i + 1]) == Room(items[..i]) + if items[i].Name? then |items[i].name| + 2 else |items[i].bytes|
    ensures Room(items[..i + 1]) <= Room(items)
  {
    assert items[..i + 1][..i] == items[..i];
    RoomPrefix(items, i + 1);
  }

  lemma {:induction false} RoomPrefix(items: seq<Item>, i: nat)
    requires i <= |items|
    ensures Room(items[..i]) <= Room(items)
    decreases |items| - i
  {
    if i < |items| {
      assert items[..i + 1][..i] == items[..i];
      RoomPrefix(items, i + 1);
    } else {
      assert items[..i] == items;
    }
  }

  /** Write one item after the `used` bytes of the packet. */
  method WriteItem(buf: array<byte>, bufLen: nat, used: nat, item: Item, table: LabelTable) returns (end: nat)
    requires bufLen <= buf.Length && bufLen < MAX_OFFSET && used + (if item.Name? then |item.name| + 2 else |item.bytes|) <= bufLen
    requires TableOk(table.labels, buf[..used])
    requires item.Name? ==> 0 !in item.name && |item.name| <= 255 && ShortLabels(item.name)
    modifies buf, table
    ensures used <= end <= used + (if item.Name? then |item.name| + 2 else |item.bytes|)
    ensures old(buf[..used]) <= buf[..end] && TableOk(table.labels, buf[..end])
    ensures item.Name? ==> Readable(buf[..end], used, end, item.name)
  {
    hide Denotes, EndOf, Meaning, Encode;
    ghost var p, t := buf[..used], table.labels;
    match item
    case Name(name) =>
      EncodeFits(t, true, used, name, bufLen);
      EncodeKeepsTable(t, p, name, bufLen);
      var ret, _ := DnsnameToLabels(buf, bufLen, used, name, table);
      end := ret;
      StartsThere(buf[..end], used, Meaning(name), used);
    case Raw(bytes) =>
      Put(buf, used, bytes);
      end := used + |bytes|;
      forall e <- t
        ensures e.pos < end && Denotes(buf[..end], e.pos, Meaning(e.name), e.pos)
      {
        DenotesExtend(p, buf[..end], e.pos, Meaning(e.name), e.pos);
      }
  }

  lemma StartsThere(p: seq<byte>, i: nat, ls: seq<seq<byte>>, most: nat)
    requires Denotes(p, i, ls, most)
    ensures i < |p|
  {
  }

  /** Write all items through one shared table. */
  method Compose(items: seq<Item>, bufLen: nat) returns (packet: seq<byte>, starts: seq<nat>, ends: seq<nat>)
    requires WellFormed(items) && Room(items) <= bufLen < MAX_OFFSET
    ensures |starts| == |ends| == |items| && |packet| <= bufLen
    ensures forall i :: 0 <= i < |items| && items[i].Name? ==> Readable(packet, starts[i], ends[i], items[i].name)
  {
    hide Readable, TableOk, ShortLabels;
    var buf := new byte[bufLen];
    var table := new LabelTable();
    EmptyTable(buf[..0]);
    var used := 0;
    starts, ends := [], [];
    for n := 0 to |items|
      invariant fresh(buf) && fresh(table) && |starts| == |ends| == n && used <= Room(items[..n]) && used <= bufLen
      invariant TableOk(table.labels, buf[..used])
      invariant forall i :: 0 <= i < n && items[i].Name? ==> Readable(buf[..used], starts[i], ends[i], items[i].name)
    {
      RoomStep(items, n);
      ghost var p := buf[..used];
      var end := WriteItem(buf, bufLen, used, items[n], table);
      forall i | 0 <= i < n && items[i].Name?
        ensures Readable(buf[..end], starts[i], ends[i], items[i].name)
      {
        ReadableExtend(p, buf[..end], starts[i], ends[i], items[i].name);
      }
      starts, ends, used := starts + [used], ends + [end], end;
    }
    packet := buf[..used];
  }

  lemma EmptyTable(p: seq<byte>)
    ensures TableOk([], p)
  {
  }

  /** Every name of a packet, read back at its start offset with a 256-byte
      buffer: the labels of the name, and the encoder's end offset. */
  method ReadBack(items: seq<Item>, bufLen: nat)
    returns (names: seq<seq<byte>>, ends: seq<nat>, readEnds: seq<nat>)
    requires WellFormed(items) && Room(items) <= bufLen < MAX_OFFSET
    ensures |names| == |ends| == |readEnds| == |items|
    ensures forall i :: 0 <= i < |items| && items[i].Name? ==> names[i] == Join(Meaning(items[i].name))
    ensures forall i :: 0 <= i < |items| && items[i].Name? && Clean(items[i].name) ==>
      names[i] == Stripped(items[i].name) && readEnds[i] == ends[i]
  {
    hide Join, Meaning, Readable, WellFormed, Stripped, Clean;
    var packet, starts, written := Compose(items, bufLen);
    names, ends, readEnds := [], written, [];
    for n := 0 to |items|
      invariant |names| == |readEnds| == n
      invariant forall i :: 0 <= i < n && items[i].Name? && Clean(items[i].name) ==> readEnds[i] == ends[i]
      invariant forall i :: 0 <= i < n && items[i].Name? ==> names[i] == Join(Meaning(items[i].name))
    {
      if items[n].Name? {
        var ret, out, next, _ := NameParse(packet, starts[n], 256);
        ParsedBack(packet, starts[n], ends[n], items[n].name, ret, out, next);
        names, readEnds := names + [out], readEnds + [next];
      } else {
        names, readEnds := names + [[]], readEnds + [0];
      }
    }
    forall i | 0 <= i < |items| && items[i].Name? && Clean(items[i].name)
      ensures names[i] == Stripped(items[i].name)
    {
      MeaningIsName(items[i].name);
    }
  }

  /** What the contract of NameParse says where a readable name stands. */
  lemma ParsedBack(p: seq<byte>, start: nat, end: nat, name: seq<byte>, ret: int, out: seq<byte>, next: nat)
    requires Readable(p, start, end, name)
    requires ret == 0 ==> Accepted(p, start, 256, out) && next == EndOf(p, start)
    requires ret in {0, -1} && (ret == -1 ==> Refused(p, start, 256))
    ensures ret == 0 && out == Join(Meaning(name)) && (Clean(name) ==> next == end)
  {
    var k: nat :| k <= start && NameAt(p, start, Meaning(name), k);
    MeaningLength(name);
    assert Acceptable(p, start, 256, Meaning(name), k);
    var ls, k': nat :| Acceptable(p, start, 256, ls, k') && out == Join(ls);
    NameAtUnique(p, start, ls, k', Meaning(name), k);
  }
}
