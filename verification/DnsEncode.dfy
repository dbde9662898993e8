/** dnsname_to_labels with its compression table, and what it writes. */
module DnsEncode {
  import opened Bytes
  import opened DnsName
  import opened DnsParse

  /** A struct dnslabel_entry. */
  datatype Entry = Entry(name: seq<byte>, pos: nat)

  /** dnslabel_table_get_pos: the first entry for `name`, or -1. */
  function GetPos(table: seq<Entry>, name: seq<byte>): (r: int)
    ensures r == -1 <==> forall e <- table :: e.name != name
    ensures r != -1 ==> r >= 0 && Entry(name, r) in table
  {
    if table == [] then -1
    else if table[0].name == name then table[0].pos
    else GetPos(table[1..], name)
  }

  /** dnslabel_table_add: a full table stays as it is. */
  function Added(table: seq<Entry>, name: seq<byte>, pos: nat): seq<Entry> {
    if |table| >= MAX_LABELS then table else table + [Entry(name, pos)]
  }

  /** APPEND16(ref | 0xc000): the offset with both upper bits set, high part first */
  function PointerBytes(ref: nat): (b: seq<byte>)
    ensures |b| == 2 && b[0] >= 192
    ensures ref < 0x4000 ==> b[0] == 192 + ref / 256 && b[1] == ref % 256
  {
    [192 + (ref % MAX_OFFSET) / 256, ref % 256]
  }

  /** A pointer leads back to the offset it was made from exactly when the offset
      fits in 14 bits. */
  lemma PointerRoundTrip(ref: nat, p: seq<byte>, i: nat)
    requires i + 2 <= |p| && p[i..i + 2] == PointerBytes(ref)
    ensures p[i] >= 64 && (Target(p, i) == ref <==> ref < MAX_OFFSET)
  {
    hide PointerBytes;
    assert p[i] == p[i..i + 2][0] && p[i + 1] == p[i..i + 2][1];
    assert Target(p, i) < MAX_OFFSET;
  }

  datatype Encoded = Fail(code: int) | Done(bytes: seq<byte>, table: seq<Entry>)

  /** What dnsname_to_labels writes from offset `j` on for the name `rest`, and
      the table it leaves. */
  function Encode(table: seq<Entry>, compress: bool, j: nat, rest: seq<byte>, bufLen: nat): Encoded
    decreases |rest|
  {
    var ref := if compress then GetPos(table, rest) else -1;
    if ref >= 0 then
      if j + 2 > bufLen then Fail(-2) else Done(PointerBytes(ref), table)
    else
      var d := DotAt(rest);
      if d > 63 then Fail(-1)
      else if j + d + 1 > bufLen then Fail(-2)
      else
        var t := if compress then Added(table, rest, j) else table;
        if d == |rest| then Done([d] + rest + (if d == 0 then [] else [0]), t)
        else
          var more := Encode(t, compress, j + d + 1, rest[d + 1..], bufLen);
          if more.Fail? then more else Done([d] + rest[..d] + more.bytes, more.table)
  }

  class LabelTable {
    var labels: seq<Entry>

    constructor ()
      ensures labels == []
    {
      labels := [];
    }
  }

  /** Copy `src` to buf[j..]. */
  method Put(buf: array<byte>, j: nat, src: seq<byte>)
    requires j + |src| <= buf.Length
    modifies buf
    ensures buf[..j + |src|] == old(buf[..j]) + src && buf[..j] == old(buf[..j])
    ensures src != [] ==> buf[j + |src| - 1] == src[|src| - 1]
  {
    forall k | 0 <= k < |src| {
      buf[j + k] := src[k];
    }
  }

  /** The result of the whole, from what is written and what is to come. */
  function Prepended(written: seq<byte>, more: Encoded): Encoded {
    if more.Fail? then more else Done(written + more.bytes, more.table)
  }

  /** The bytes of the label in front of `rest`. */
  function LabelBytes(rest: seq<byte>): (b: seq<byte>)
    requires DotAt(rest) <= 63
    ensures |b| == DotAt(rest) + 1 && b[0] == DotAt(rest) && b[1..] == rest[..DotAt(rest)]
  {
    [DotAt(rest)] + rest[..DotAt(rest)]
  }

  lemma PrependTwice(a: seq<byte>, b: seq<byte>, more: Encoded)
    ensures Prepended(a, Prepended(b, more)) == Prepended(a + b, more)
  {
    if more.Done? {
      assert a + (b + more.bytes) == a + b + more.bytes;
    }
  }

  lemma EncodeOnce(table: seq<Entry>, compress: bool, j: nat, rest: seq<byte>, bufLen: nat)
    ensures var ref := if compress then GetPos(table, rest) else -1; var d := DotAt(rest);
      var t := if compress then Added(table, rest, j) else table;
      Encode(table, compress, j, rest, bufLen) ==
        if ref >= 0 then if j + 2 > bufLen then Fail(-2) else Done(PointerBytes(ref), table)
        else if d > 63 then Fail(-1)
        else if j + d + 1 > bufLen then Fail(-2)
        else if d == |rest| then Done(LabelBytes(rest) + (if d == 0 then [] else [0]), t)
        else Prepended(LabelBytes(rest), Encode(t, compress, j + d + 1, rest[d + 1..], bufLen))
  {
    hide GetPos, Added, PointerBytes, DotAt;
    assert rest[..|rest|] == rest;
  }

  /** The turns of the loop: a pointer, an error, the last label, another label. */
  lemma EncodeStep(table: seq<Entry>, compress: bool, j: nat, rest: seq<byte>, bufLen: nat, written: seq<byte>)
    ensures var ref := if compress then GetPos(table, rest) else -1; var d := DotAt(rest);
      var t := if compress then Added(table, rest, j) else table;
      Prepended(written, Encode(table, compress, j, rest, bufLen)) ==
        if ref >= 0 then if j + 2 > bufLen then Fail(-2) else Done(written + PointerBytes(ref), table)
        else if d > 63 then Fail(-1)
        else if j + d + 1 > bufLen then Fail(-2)
        else if d == |rest| then Done(written + LabelBytes(rest) + (if d == 0 then [] else [0]), t)
        else Prepended(written + LabelBytes(rest), Encode(t, compress, j + d + 1, rest[d + 1..], bufLen))
  {
    EncodeOnce(table, compress, j, rest, bufLen);
    hide DotAt, GetPos, Added, PointerBytes, LabelBytes, Encode;
    var d := DotAt(rest);
    if d <= 63 {
      if d < |rest| {
        var t := if compress then Added(table, rest, j) else table;
        PrependTwice(written, LabelBytes(rest), Encode(t, compress, j + d + 1, rest[d + 1..], bufLen));
      } else {
        var end := if d == 0 then [] else [0];
        assert written + (LabelBytes(rest) + end) == written + LabelBytes(rest) + end;
      }
    }
  }

  ghost function Labels(table: LabelTable?): seq<Entry>
    reads table
  {
    if table == null then [] else table.labels
  }

  /** The last store of dnsname_to_labels, which is not checked. */
  method Terminate(buf: array<byte>, j: nat) returns (ret: nat, outside: bool)
    requires 0 < j <= buf.Length
    modifies buf
    ensures var w := old(buf[..j]) + (if old(buf[j - 1]) == 0 then [] else [0]);
      && ret == |w| && (outside <==> ret > buf.Length)
      && (!outside ==> buf[..ret] == w)
      && (outside ==> ret == buf.Length + 1 && buf[..] + [0] == w)
    ensures forall i :: 0 <= i < j ==> buf[i] == old(buf[i])
  {
    if buf[j - 1] == 0 { return j, false; }
    if j == buf.Length {
      assert buf[..] == buf[..j];
      return j + 1, true;
    }
    buf[j] := 0;
    return j + 1, false;
  }

  /** All is written as `e` says, but for a last zero byte outside the array. */
  ghost predicate Settled(e: Encoded, buf: seq<byte>, ret: int, outside: bool) {
    match e
    case Fail(code) => ret == code < 0 && !outside
    case Done(bytes, _) =>
      && ret == |bytes| && (outside <==> ret > |buf|)
      && (if outside then ret == |buf| + 1 && buf + [0] == bytes else buf[..ret] == bytes)
  }

  /** One turn of dnsname_to_labels, at offset `j` for the name `rest`; `more` says
      that another label is to come, at the offset returned. */
  method WriteLabel(buf: array<byte>, bufLen: nat, j: nat, rest: seq<byte>, table: LabelTable?)
    returns (ret: int, outside: bool, more: bool)
    requires bufLen <= buf.Length && 0 !in rest && j <= buf.Length
    modifies buf, table
    ensures var e := Prepended(old(buf[..j]), Encode(old(Labels(table)), table != null, j, rest, bufLen));
      if more then
        && DotAt(rest) < |rest| && ret == j + DotAt(rest) + 1 <= bufLen && old(buf[..j]) <= buf[..ret]
        && e == Prepended(buf[..ret], Encode(Labels(table), table != null, ret, rest[DotAt(rest) + 1..], bufLen))
      else Settled(e, buf[..], ret, outside) && (e.Done? ==> ret <= bufLen + 1 && (table != null ==> table.labels == e.table))
    ensures buf[..j] == old(buf[..j])
  {
    hide DotAt, Encode, Prepended, LabelBytes, PointerBytes;
    EncodeStep(Labels(table), table != null, j, rest, bufLen, buf[..j]);
    outside, more := false, false;
    var ref := if table == null then -1 else GetPos(table.labels, rest);
    if ref >= 0 {
      if j + 2 > bufLen { return -2, false, false; }
      Put(buf, j, PointerBytes(ref));
      return j + 2, false, false;
    }
    var d := DotAt(rest);
    if d > 63 { return -1, false, false; }
    if j + d + 1 > bufLen { return -2, false, false; }
    if table != null {
      table.labels := Added(table.labels, rest, j);
    }
    Put(buf, j, LabelBytes(rest));
    if d == |rest| {
      LastByte(rest);
      ret, outside := Terminate(buf, j + d + 1);
    } else {
      ret, more := j + d + 1, true;
    }
  }

  /** dnsname_to_labels.  The zero byte after the last label is not checked against
      buf_len.  Where it does not fit in the array, `outside` is set and the store,
      which C makes behind the buffer, is left out. */
  method DnsnameToLabels(buf: array<byte>, bufLen: nat, start: nat, name: seq<byte>, table: LabelTable?)
    returns (ret: int, outside: bool)
    requires bufLen <= buf.Length && 0 !in name && start <= buf.Length
    modifies buf, table
    ensures var e := Encode(old(Labels(table)), table != null, start, name, bufLen);
      if |name| > 255 then ret == -2 && buf[..] == old(buf[..]) && !outside
      else if e.Fail? then ret == e.code < 0 && buf[..start] == old(buf[..start]) && !outside
      else
        && ret == start + |e.bytes| <= bufLen + 1 && (outside <==> ret > buf.Length)
        && (!outside ==> buf[..ret] == old(buf[..start]) + e.bytes)
        && (outside ==> ret == buf.Length + 1 && buf[..] + [0] == old(buf[..start]) + e.bytes)
        && (table != null ==> table.labels == e.table)
    ensures forall t: nat :: |name| <= 255 && start + 2 <= bufLen && t < 0x4000 && FirstEntry(old(Labels(table)), name, t) ==>
      ret == start + 2 && buf[start] == 192 + t / 256 && buf[start + 1] == t % 256
  {
    ret, outside := 0, false;
    ghost var was := Labels(table);
    if |name| > 255 { return -2, false; }
    ghost var prefix := buf[..start];
    ghost var all := Prepended(prefix, Encode(Labels(table), table != null, start, name, bufLen));
    var j, rest, more := start, name, true;
    while more
      invariant more ==> 0 !in rest && start <= j <= buf.Length
      invariant start <= buf.Length && buf[..start] == prefix
      invariant more ==> all == Prepended(buf[..j], Encode(Labels(table), table != null, j, rest, bufLen))
      invariant !more ==> Settled(all, buf[..], ret, outside)
      invariant !more && all.Done? ==> ret <= bufLen + 1 && (table != null ==> table.labels == all.table)
      decreases more, |rest|
    {
      hide DotAt, Encode, Prepended;
      ret, outside, more := WriteLabel(buf, bufLen, j, rest, table);
      if more {
        j, rest := ret, rest[DotAt(rest) + 1..];
      }
    }
    forall t: nat | |name| <= 255 && start + 2 <= bufLen && t < 0x4000 && FirstEntry(was, name, t)
      ensures ret == start + 2 && buf[start] == 192 + t / 256 && buf[start + 1] == t % 256
    {
      PointerOnly(was, start, name, bufLen, t);
      assert buf[start] == buf[..ret][start] && buf[start + 1] == buf[..ret][start + 1];
    }
  }

  /** The table has `name` at offset `t`, and nowhere before that entry. */
  ghost predicate FirstEntry(table: seq<Entry>, name: seq<byte>, t: nat) {
    exists n :: 0 <= n < |table| && table[n] == Entry(name, t) && forall i :: 0 <= i < n ==> table[i].name != name
  }

  lemma {:induction false} FirstIsFound(table: seq<Entry>, name: seq<byte>, t: nat, n: nat)
    requires n < |table| && table[n] == Entry(name, t) && forall i :: 0 <= i < n ==> table[i].name != name
    ensures GetPos(table, name) == t
  {
    if n > 0 {
      FirstIsFound(table[1..], name, t, n - 1);
    }
  }

  lemma PointerOnly(table: seq<Entry>, j: nat, name: seq<byte>, bufLen: nat, t: nat)
    requires j + 2 <= bufLen && t < 0x4000 && FirstEntry(table, name, t)
    ensures Encode(table, true, j, name, bufLen) == Done([192 + t / 256, t % 256], table)
  {
    var n :| 0 <= n < |table| && table[n] == Entry(name, t) && forall i :: 0 <= i < n ==> table[i].name != name;
    FirstIsFound(table, name, t, n);
    hide PointerBytes;
    assert PointerBytes(t) == [192 + t / 256, t % 256];
  }

  // ----- the bytes of an encoding, one by one -----

  /** From `i` on, if a label starts there, the table does not have the rest of `name`. */
  predicate Misses(table: seq<Entry>, compress: bool, name: seq<byte>, i: nat) {
    LabelStart(name, i) ==> !compress || GetPos(table, name[i..]) == -1
  }

  predicate Hits(table: seq<Entry>, compress: bool, name: seq<byte>, k: nat) {
    compress && LabelStart(name, k) && GetPos(table, name[k..]) >= 0
  }

  /** `k` is the first place of `name` from which on the table has the rest of it, or
      one past the end if there is none. */
  ghost predicate Scanned(table: seq<Entry>, compress: bool, name: seq<byte>, k: nat) {
    && k <= |name| + 1 && (forall i: nat :: i < k ==> Misses(table, compress, name, i))
    && (k <= |name| ==> Hits(table, compress, name, k))
  }

  /** The offset that the table has for the rest of `name` from `k` on. */
  function Pointed(table: seq<Entry>, name: seq<byte>, k: nat): int {
    if k <= |name| then GetPos(table, name[k..]) else -1
  }

  lemma ScannedStep(table: seq<Entry>, compress: bool, name: seq<byte>, k: nat, pos: nat)
    requires Scanned(table, compress, name, k) && k > 0 && DotAt(name) < |name|
    ensures var d := DotAt(name);
      && k > d && Scanned(if compress then Added(table, name, pos) else table, compress, name[d + 1..], k - d - 1)
      && Pointed(if compress then Added(table, name, pos) else table, name[d + 1..], k - d - 1) == Pointed(table, name, k)
  {
    var d := DotAt(name);
    LaterLabel(table, name, pos, k);
    hide GetPos, Added, DotAt, LabelStart;
    assert k > d;
    hide Misses, Hits;
    var rest, t := name[d + 1..], if compress then Added(table, name, pos) else table;
    forall i: nat | i < k - d - 1
      ensures Misses(t, compress, rest, i)
    {
      assert Misses(table, compress, name, d + 1 + i);
      LaterMisses(table, compress, name, pos, d + 1 + i);
    }
    if k <= |name| {
      LaterMisses(table, compress, name, pos, k);
    }
  }

  lemma LaterMisses(table: seq<Entry>, compress: bool, name: seq<byte>, pos: nat, k: nat)
    requires DotAt(name) < |name| && k > DotAt(name)
    ensures var d, t := DotAt(name), if compress then Added(table, name, pos) else table;
      && (Misses(t, compress, name[d + 1..], k - d - 1) <==> Misses(table, compress, name, k))
      && (Hits(t, compress, name[d + 1..], k - d - 1) <==> Hits(table, compress, name, k))
  {
    LaterLabel(table, name, pos, k);
    hide GetPos, Added, DotAt;
  }

  /** The successful ways through one turn of the encoder. */
  lemma EncodeCases(table: seq<Entry>, compress: bool, j: nat, rest: seq<byte>, bufLen: nat)
    ensures var e := Encode(table, compress, j, rest, bufLen); var d := DotAt(rest);
      var t := if compress then Added(table, rest, j) else table;
      e.Done? ==>
        if compress && GetPos(table, rest) >= 0 then e == Done(PointerBytes(GetPos(table, rest)), table)
        else
          && d <= 63
          && if d == |rest| then e == Done(LabelBytes(rest) + (if rest == [] then [] else [0]), t)
             else
               var more := Encode(t, compress, j + d + 1, rest[d + 1..], bufLen);
               more.Done? && e == Done(LabelBytes(rest) + more.bytes, more.table)
  {
    assert rest[..|rest|] == rest;
  }

  /** The length of what is written for a name with a pointer to `t` in place `k`, or
      in full; and its byte `m`: the length of the label that starts there, a byte of
      the label, part of the pointer, or the last zero. */
  ghost predicate Spelled(b: seq<byte>, name: seq<byte>, k: nat, t: int, m: nat) {
    SpelledEnd(b, name, k, t) && (m < k && m <= |name| ==> SpelledByte(b, name, m))
  }

  predicate SpelledEnd(b: seq<byte>, name: seq<byte>, k: nat, t: int) {
    && |b| == (if k <= |name| then k + 2 else if name == [] || name[|name| - 1] == DOT then |name| + 1 else |name| + 2)
    && (if k <= |name| then PointerAt(b, k, t) else b[|b| - 1] == 0)
  }

  predicate SpelledByte(b: seq<byte>, name: seq<byte>, m: nat)
    requires m <= |name|
  {
    m < |b| && b[m] == if LabelStart(name, m) then DotAt(name[m..]) else name[m - 1]
  }

  /** The two bytes at `k` name offset `t`. */
  predicate PointerAt(b: seq<byte>, k: nat, t: int) {
    k + 1 < |b| && (0 <= t < 0x4000 ==> b[k] == 192 + t / 256 && b[k + 1] == t % 256)
  }

  lemma PointerShift(a: seq<byte>, b: seq<byte>, k: nat, t: int)
    requires PointerAt(b, k, t)
    ensures PointerAt(a + b, |a| + k, t)
  {
  }

  /** The bytes of what is written, without the encoder: the table is searched for the name and for
      its ends behind each dot; at the first one that is found, in place `k`, two bytes name its
      offset, and before that each dot has become the length of the label behind it. */
  lemma {:induction false} EncodeBytes(table: seq<Entry>, compress: bool, j: nat, name: seq<byte>, bufLen: nat, k: nat, m: nat)
    requires Scanned(table, compress, name, k) && Encode(table, compress, j, name, bufLen).Done?
    ensures Spelled(Encode(table, compress, j, name, bufLen).bytes, name, k, Pointed(table, name, k), m)
    decreases |name|
  {
    hide GetPos, Added, DotAt, Encode, Spelled, Scanned, Pointed;
    FirstTurn(table, compress, name, k);
    if k == 0 {
      BytesPointer(table, j, name, bufLen, m);
    } else if DotAt(name) == |name| {
      BytesLast(table, compress, j, name, bufLen, k, m);
    } else {
      var d, t := DotAt(name), if compress then Added(table, name, j) else table;
      ScannedStep(table, compress, name, k, j);
      var more := Encode(t, compress, j + d + 1, name[d + 1..], bufLen);
      MoreDone(table, compress, j, name, bufLen, more);
      EncodeBytes(t, compress, j + d + 1, name[d + 1..], bufLen, k - d - 1, if m > d then m - d - 1 else 0);
      SpelledStep(name, more.bytes, k, Pointed(table, name, k), m);
    }
  }

  lemma BytesPointer(table: seq<Entry>, j: nat, name: seq<byte>, bufLen: nat, m: nat)
    requires Encode(table, true, j, name, bufLen).Done? && GetPos(table, name) >= 0
    ensures Spelled(Encode(table, true, j, name, bufLen).bytes, name, 0, GetPos(table, name), m)
  {
    EncodeCases(table, true, j, name, bufLen);
    hide Encode, PointerBytes;
  }

  lemma BytesLast(table: seq<Entry>, compress: bool, j: nat, name: seq<byte>, bufLen: nat, k: nat, m: nat)
    requires Encode(table, compress, j, name, bufLen).Done? && DotAt(name) == |name| && (!compress || GetPos(table, name) == -1)
    requires 0 < k <= |name| + 1 && (k <= |name| ==> LabelStart(name, k))
    ensures k == |name| + 1 && Spelled(Encode(table, compress, j, name, bufLen).bytes, name, k, -1, m)
  {
    EncodeCases(table, compress, j, name, bufLen);
    hide Encode, PointerBytes, GetPos, DotAt, LabelBytes, Spelled;
    SpelledLast(name, k, m);
  }

  lemma MoreDone(table: seq<Entry>, compress: bool, j: nat, name: seq<byte>, bufLen: nat, more: Encoded)
    requires DotAt(name) < |name| && (!compress || GetPos(table, name) == -1)
    requires more == Encode(if compress then Added(table, name, j) else table, compress, j + DotAt(name) + 1,
                            name[DotAt(name) + 1..], bufLen)
    requires Encode(table, compress, j, name, bufLen).Done?
    ensures DotAt(name) <= 63 && more.Done?
    ensures Encode(table, compress, j, name, bufLen).bytes == LabelBytes(name) + more.bytes
  {
    EncodeCases(table, compress, j, name, bufLen);
  }

  lemma FirstTurn(table: seq<Entry>, compress: bool, name: seq<byte>, k: nat)
    requires Scanned(table, compress, name, k)
    ensures k <= |name| + 1 && (k <= |name| ==> LabelStart(name, k)) && (k == |name| + 1 ==> Pointed(table, name, k) == -1)
    ensures if k == 0 then compress && GetPos(table, name) == Pointed(table, name, k) >= 0 else !compress || GetPos(table, name) == -1
  {
    hide GetPos;
    FirstLabel(name);
    assert k > 0 ==> Misses(table, compress, name, 0);
  }

  lemma SpelledLast(name: seq<byte>, k: nat, m: nat)
    requires DotAt(name) == |name| <= 63 && 0 < k <= |name| + 1 && (k <= |name| ==> LabelStart(name, k))
    ensures k == |name| + 1 && Spelled(LabelBytes(name) + (if name == [] then [] else [0]), name, k, -1, m)
  {
    LastIs(name);
    hide DotAt, LabelBytes, SpelledByte;
    var b := LabelBytes(name) + (if name == [] then [] else [0]);
    assert |b| == |name| + (if name == [] then 1 else 2) && b[|b| - 1] == 0;
    if m <= |name| {
      SpelledByteFirst(name, if name == [] then [] else [0], m);
    }
  }

  lemma SpelledStep(name: seq<byte>, more: seq<byte>, k: nat, t: int, m: nat)
    requires DotAt(name) < |name| && DotAt(name) <= 63 && DotAt(name) < k <= |name| + 1
    requires var d := DotAt(name); Spelled(more, name[d + 1..], k - d - 1, t, if m > d then m - d - 1 else 0)
    ensures Spelled(LabelBytes(name) + more, name, k, t, m)
  {
    hide DotAt, LabelBytes, SpelledEnd, SpelledByte;
    var d := DotAt(name);
    SpelledEndStep(name, d, name[d + 1..], LabelBytes(name), more, k, t);
    if m < k && m <= |name| {
      if m > d {
        SpelledByteStep(name, d, name[d + 1..], LabelBytes(name), more, m);
      } else {
        SpelledByteFirst(name, more, m);
      }
    }
  }

  lemma SpelledEndStep(name: seq<byte>, d: nat, rest: seq<byte>, a: seq<byte>, more: seq<byte>, k: nat, t: int)
    requires d < |name| && d < k <= |name| + 1 && rest == name[d + 1..] && |a| == d + 1 && name[d] == DOT
    requires SpelledEnd(more, rest, k - d - 1, t)
    ensures SpelledEnd(a + more, name, k, t)
  {
    hide PointerAt;
    assert |rest| == |name| - d - 1;
    assert rest != [] ==> rest[|rest| - 1] == name[|name| - 1];
    if k <= |name| {
      PointerShift(a, more, k - d - 1, t);
    } else {
      assert (a + more)[|a + more| - 1] == more[|more| - 1];
    }
  }

  lemma SpelledByteStep(name: seq<byte>, d: nat, rest: seq<byte>, a: seq<byte>, more: seq<byte>, m: nat)
    requires d < m <= |name| && rest == name[d + 1..] && |a| == d + 1 && name[d] == DOT
    requires SpelledByte(more, rest, m - d - 1)
    ensures SpelledByte(a + more, name, m)
  {
    hide DotAt;
    var i := m - d - 1;
    assert (a + more)[m] == more[i] && rest[i..] == name[m..];
    assert i > 0 ==> rest[i - 1] == name[m - 1];
  }

  lemma SpelledByteFirst(name: seq<byte>, more: seq<byte>, m: nat)
    requires m <= DotAt(name) <= 63
    ensures SpelledByte(LabelBytes(name) + more, name, m)
  {
    hide DotAt, LabelBytes;
    var d, a := DotAt(name), LabelBytes(name);
    assert (a + more)[m] == a[m];
    if m == 0 {
      assert name[0..] == name;
    } else {
      assert a[m] == a[1..][m - 1] == name[..d][m - 1] == name[m - 1];
      assert name[m - 1] in name[..d];
    }
  }

  lemma LastIs(name: seq<byte>)
    requires DotAt(name) == |name| <= 63
    ensures name != [] ==> name[|name| - 1] != DOT
    ensures name == [] ==> LabelBytes(name) == [0]
    ensures forall i: nat :: LabelStart(name, i) ==> i == 0
  {
    assert name[..|name|] == name;
  }

  /** What is in the table stays there. */
  lemma {:induction false} EncodeGrows(table: seq<Entry>, compress: bool, j: nat, name: seq<byte>, bufLen: nat)
    requires Encode(table, compress, j, name, bufLen).Done?
    ensures table <= Encode(table, compress, j, name, bufLen).table
    decreases |name|
  {
    EncodeCases(table, compress, j, name, bufLen);
    hide DotAt, Encode, GetPos;
    var d := DotAt(name);
    if (compress ==> GetPos(table, name) == -1) && d < |name| {
      EncodeGrows(if compress then Added(table, name, j) else table, compress, j + d + 1, name[d + 1..], bufLen);
    }
  }

  /** A name that was written is found, if there was room for it. */
  lemma EncodeKnows(table: seq<Entry>, j: nat, name: seq<byte>, bufLen: nat)
    requires Encode(table, true, j, name, bufLen).Done? && |table| < MAX_LABELS
    ensures var found := GetPos(Encode(table, true, j, name, bufLen).table, name);
      found == if GetPos(table, name) >= 0 then GetPos(table, name) else j
  {
    EncodeCases(table, true, j, name, bufLen);
    hide DotAt, Encode, GetPos;
    var d := DotAt(name);
    if GetPos(table, name) == -1 {
      GrownFinds(table, name, j);
      if d < |name| {
        EncodeGrows(Added(table, name, j), true, j + d + 1, name[d + 1..], bufLen);
      }
      FoundStill(Added(table, name, j), Encode(table, true, j, name, bufLen).table, name);
    }
  }

  lemma GrownFinds(table: seq<Entry>, name: seq<byte>, pos: nat)
    ensures GetPos(table, name) == -1 && |table| < MAX_LABELS ==> GetPos(Added(table, name, pos), name) == pos
  {
    if GetPos(table, name) == -1 && |table| < MAX_LABELS {
      FirstIsFound(Added(table, name, pos), name, pos, |table|);
    }
  }

  lemma {:induction false} FoundStill(table: seq<Entry>, more: seq<Entry>, name: seq<byte>)
    requires table <= more && GetPos(table, name) >= 0
    ensures GetPos(more, name) == GetPos(table, name)
  {
    if table[0].name != name {
      FoundStill(table[1..], more[1..], name);
    }
  }

  /** A name that is written again through a table with room takes two bytes, which
      lead to where it stood first. */
  lemma WrittenAgain(table: seq<Entry>, j: nat, name: seq<byte>, bufLen: nat, j': nat, bufLen': nat)
    requires |table| < MAX_LABELS && Encode(table, true, j, name, bufLen).Done? && j' + 2 <= bufLen'
    ensures var first := Encode(table, true, j, name, bufLen); var again := Encode(first.table, true, j', name, bufLen');
      && again.Done? && |again.bytes| == 2 && again.table == first.table
      && (GetPos(table, name) == -1 && j < 0x4000 ==> again.bytes == [192 + j / 256, j % 256])
  {
    EncodeKnows(table, j, name, bufLen);
    EncodeCases(table, true, j, name, bufLen);
    var first := Encode(table, true, j, name, bufLen);
    assert Encode(first.table, true, j', name, bufLen') == Done(PointerBytes(GetPos(first.table, name)), first.table);
    hide Encode, PointerBytes, GetPos;
    assert GetPos(table, name) == -1 && j < 0x4000 ==> PointerBytes(j) == [192 + j / 256, j % 256];
  }

  /** The two ways to fail: a label of more than 63 bytes, or too little room. */
  lemma {:induction false} FailsFor(table: seq<Entry>, compress: bool, j: nat, name: seq<byte>, bufLen: nat)
    ensures var e := Encode(table, compress, j, name, bufLen);
      e.Fail? ==> (e.code == -1 && !ShortLabels(name)) || (e.code == -2 && j + |name| + 2 > bufLen)
    decreases |name|
  {
    var d := DotAt(name);
    hide DotAt, GetPos;
    if d < |name| {
      FailsFor(if compress then Added(table, name, j) else table, compress, j + d + 1, name[d + 1..], bufLen);
    }
  }

  predicate ShortLabels(s: seq<byte>)
    decreases |s|
  {
    var d := DotAt(s);
    d <= 63 && (d < |s| ==> ShortLabels(s[d + 1..]))
  }

  /** A label of `name` starts at `k`. */
  predicate LabelStart(name: seq<byte>, k: nat) {
    k <= |name| && (k == 0 || name[k - 1] == DOT)
  }

  /** No end of `name` that starts with a label is in the table. */
  ghost predicate Unknown(table: seq<Entry>, name: seq<byte>) {
    forall k: nat | LabelStart(name, k) :: GetPos(table, name[k..]) == -1
  }

  /** The name is written in full, up to the last byte before bufLen. */
  ghost predicate FillsBuffer(table: seq<Entry>, compress: bool, start: nat, name: seq<byte>, bufLen: nat) {
    && name != [] && name[|name| - 1] != DOT && ShortLabels(name)
    && start + |name| + 1 == bufLen && (compress ==> Unknown(table, name))
  }

  /** How long the result of one turn is. */
  lemma EncodeLength(table: seq<Entry>, compress: bool, j: nat, rest: seq<byte>, bufLen: nat)
    ensures var e := Encode(table, compress, j, rest, bufLen); var d := DotAt(rest);
      var more := Encode(if compress then Added(table, rest, j) else table, compress, j + d + 1, if d < |rest| then rest[d + 1..] else [], bufLen);
      if compress && GetPos(table, rest) >= 0 then (e.Done? <==> j + 2 <= bufLen) && (e.Done? ==> |e.bytes| == 2)
      else if d > 63 || j + d + 1 > bufLen then e.Fail?
      else if d == |rest| then e.Done? && |e.bytes| == d + 1 + if d == 0 then 0 else 1
      else (e.Done? <==> more.Done?) && (e.Done? ==> |e.bytes| == d + 1 + |more.bytes|)
  {
    hide DotAt, GetPos, Added, PointerBytes;
  }

  lemma ShortStep(s: seq<byte>)
    ensures ShortLabels(s) <==> DotAt(s) <= 63 && (DotAt(s) < |s| ==> ShortLabels(s[DotAt(s) + 1..]))
  {
  }

  /** The unchecked zero byte lands at offset bufLen exactly for such names. */
  lemma {:induction false} ZeroPastEnd(table: seq<Entry>, compress: bool, start: nat, name: seq<byte>, bufLen: nat)
    ensures var e := Encode(table, compress, start, name, bufLen);
      && (e.Done? ==> start + |e.bytes| <= bufLen + 1)
      && (e.Done? && start + |e.bytes| == bufLen + 1 <==> FillsBuffer(table, compress, start, name, bufLen))
    decreases |name|
  {
    EncodeLength(table, compress, start, name, bufLen);
    ShortStep(name);
    hide GetPos, DotAt, Encode, ShortLabels, Added;
    var d := DotAt(name);
    assert LabelStart(name, 0) && name[0..] == name;
    if d < |name| {
      var t := if compress then Added(table, name, start) else table;
      ZeroPastEnd(t, compress, start + d + 1, name[d + 1..], bufLen);
      if compress {
        UnknownStep(table, name, start);
      }
    } else {
      assert forall k: nat | LabelStart(name, k) :: k == 0;
    }
  }

  lemma UnknownStep(table: seq<Entry>, name: seq<byte>, pos: nat)
    requires DotAt(name) < |name|
    ensures Unknown(table, name) <==>
      GetPos(table, name) == -1 && Unknown(Added(table, name, pos), name[DotAt(name) + 1..])
  {
    hide GetPos, Added, DotAt;
    var d := DotAt(name);
    var rest, t := name[d + 1..], Added(table, name, pos);
    FirstLabel(name);
    if Unknown(table, name) {
      assert GetPos(table, name[0..]) == -1;
      forall k: nat | LabelStart(rest, k)
        ensures GetPos(t, rest[k..]) == -1
      {
        LaterLabel(table, name, pos, d + 1 + k);
      }
    }
    if GetPos(table, name) == -1 && Unknown(t, rest) {
      forall k: nat | LabelStart(name, k)
        ensures GetPos(table, name[k..]) == -1
      {
        LaterLabel(table, name, pos, k);
      }
    }
  }

  lemma FirstLabel(name: seq<byte>)
    ensures LabelStart(name, 0) && name[0..] == name
  {
  }

  /** The labels behind the first one, and what the table says of them. */
  lemma LaterLabel(table: seq<Entry>, name: seq<byte>, pos: nat, k: nat)
    requires DotAt(name) < |name|
    ensures LabelStart(name, k) ==> k == 0 || k > DotAt(name)
    ensures k > DotAt(name) ==>
      var rest, i := name[DotAt(name) + 1..], k - DotAt(name) - 1;
      && (LabelStart(rest, i) <==> LabelStart(name, k))
      && (k <= |name| ==> rest[i..] == name[k..] && GetPos(Added(table, name, pos), rest[i..]) == GetPos(table, name[k..]))
    ensures k == 0 ==> name[k..] == name
  {
    hide GetPos, Added;
    var d := DotAt(name);
    if d < k <= |name| {
      assert name[d + 1..][k - d - 1..] == name[k..];
      AddedOther(table, name, pos, name[k..]);
    }
    assert 0 < k <= d ==> name[k - 1] in name[..d];
  }

  /** An entry is not found under another name. */
  lemma {:induction false} AddedOther(table: seq<Entry>, name: seq<byte>, pos: nat, other: seq<byte>)
    requires other != name
    ensures GetPos(Added(table, name, pos), other) == GetPos(table, other)
  {
    if table != [] && |table| < MAX_LABELS && table[0].name != other {
      assert Added(table, name, pos)[1..] == Added(table[1..], name, pos);
      AddedOther(table[1..], name, pos, other);
    }
  }

  /** A name of one letter in a buffer of two bytes: three bytes are stored. */
  lemma OneLetterSpills()
    ensures Encode([], false, 0, [97], 2) == Done([1, 97, 0], [])
    ensures FillsBuffer([], false, 0, [97], 2)
  {
  }

  /** Two bytes more than the name are enough. */
  lemma {:induction false} EncodeFits(table: seq<Entry>, compress: bool, j: nat, rest: seq<byte>, bufLen: nat)
    ensures var e := Encode(table, compress, j, rest, bufLen);
      && (e.Done? ==> |e.bytes| <= |rest| + 2)
      && (ShortLabels(rest) && j + |rest| + 2 <= bufLen ==> e.Done?)
    decreases |rest|
  {
    EncodeLength(table, compress, j, rest, bufLen);
    ShortStep(rest);
    hide GetPos, DotAt, Encode, ShortLabels, Added;
    var d := DotAt(rest);
    if d < |rest| {
      EncodeFits(if compress then Added(table, rest, j) else table, compress, j + d + 1, rest[d + 1..], bufLen);
    }
  }

  /** evdns_request_len */
  function RequestLen(nameLen: nat): nat {
    96 + nameLen + 2 + 4
  }

  /** A question starts after the 12 bytes of the header: with a buffer of
      evdns_request_len bytes the zero byte stays inside, with room for the type
      and class. */
  lemma RequestNeverSpills(name: seq<byte>)
    ensures var e := Encode([], false, 12, name, RequestLen(|name|));
      (e.Done? <==> ShortLabels(name)) && (e.Done? ==> 12 + |e.bytes| + 4 <= RequestLen(|name|))
  {
    EncodeFits([], false, 12, name, RequestLen(|name|));
    if !ShortLabels(name) {
      LongLabelFails([], 12, name, RequestLen(|name|));
    }
  }

  lemma {:induction false} LongLabelFails(table: seq<Entry>, j: nat, rest: seq<byte>, bufLen: nat)
    requires !ShortLabels(rest)
    ensures Encode(table, false, j, rest, bufLen).Fail?
    decreases |rest|
  {
    var d := DotAt(rest);
    if d <= 63 {
      LongLabelFails(table, j + d + 1, rest[d + 1..], bufLen);
    }
  }

  lemma LastByte(rest: seq<byte>)
    requires DotAt(rest) == |rest| <= 63 && 0 !in rest
    ensures var b := LabelBytes(rest); b[|b| - 1] == 0 <==> rest == []
  {
  }
}
