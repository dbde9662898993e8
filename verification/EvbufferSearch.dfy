/** Positions in a buffer, searching for a pattern, and reading lines. */
module EvbufferSearch {
  import opened Prelude
  import opened Bytes
  import opened Evbuffer

  const CR: byte := 13
  const LF: byte := 10
  const CHUNK_SZ: nat := 128

  /** A struct evbuffer_ptr: the offset, the chain (NULL is the place after the
      last chain) and the offset in that chain. */
  datatype Ptr = Ptr(pos: int, chain: nat, inChain: nat)

  ghost predicate OnChain(cs: seq<Chain>, p: Ptr) {
    p.chain < |cs| && p.inChain <= cs[p.chain].off && p.pos == |Flat(cs[..p.chain])| + p.inChain
  }

  /** The bytes from a position on. */
  lemma Rest(cs: seq<Chain>, p: Ptr)
    requires OnChain(cs, p)
    ensures p.pos <= |Flat(cs)|
    ensures Flat(cs)[p.pos..] == Data(cs[p.chain])[p.inChain..] + Flat(cs[p.chain + 1..])
    ensures |Flat(cs[..p.chain + 1])| == p.pos + cs[p.chain].off - p.inChain <= |Flat(cs)|
  {
    hide Flat;
    FlatSplit(cs, p.chain);
    FlatStep(cs, p.chain);
  }

  /** Bytes of one chain, as bytes of the whole. */
  lemma Piece(cs: seq<Chain>, p: Ptr, n: nat)
    requires OnChain(cs, p) && p.inChain + n <= cs[p.chain].off
    ensures p.pos + n <= |Flat(cs)| && Flat(cs)[p.pos..p.pos + n] == Data(cs[p.chain])[p.inChain..p.inChain + n]
    ensures |Flat(cs[..p.chain + 1])| == p.pos + cs[p.chain].off - p.inChain <= |Flat(cs)|
  {
    hide Flat, Data;
    Rest(cs, p);
    assert Flat(cs)[p.pos..p.pos + n] == Flat(cs)[p.pos..][..n];
  }

  /** Comparing `n` more bytes. */
  lemma SliceStep(text: seq<byte>, a: nat, what: seq<byte>, done: nat, n: nat)
    requires done + n <= |what| && a + done + n <= |text| && text[a..a + done] == what[..done]
    ensures text[a + done..a + done + n] == what[done..done + n] <==> text[a..a + done + n] == what[..done + n]
  {
    assert text[a..a + done + n] == text[a..a + done] + text[a + done..a + done + n];
    assert what[..done + n] == what[..done] + what[done..done + n];
  }

  /** memchr: the first `b` in data[from..], or |data|. */
  method MemChr(data: seq<byte>, from: nat, b: byte) returns (j: nat)
    requires from <= |data|
    ensures from <= j <= |data| && b !in data[from..j] && (j < |data| ==> data[j] == b)
  {
    j := from;
    while j < |data| && data[j] != b
      invariant from <= j <= |data| && b !in data[from..j]
    {
      j := j + 1;
    }
  }

  datatype How = SET | ADD

  /** evbuffer_ptr_set */
  method PtrSet(buf: Buffer, ptr: Ptr, position: nat, how: How) returns (ok: bool, r: Ptr)
    requires buf.Valid() && (how.ADD? ==> ptr.pos < 0 || OnChain(buf.chains, ptr))
    ensures var target := if how.SET? then position else ptr.pos + position;
      && ok == (target < |buf.Contents()| && (how.ADD? ==> ptr.pos >= 0))
      && (ok ==> OnChain(buf.chains, r) && r.pos == target && r.inChain < buf.chains[r.chain].off)
  {
    hide Flat, Data;
    var cs := buf.chains;
    var left: nat, chain: nat, at: nat := position, 0, 0;
    r := ptr;
    if how.SET? {
      r := r.(pos := position);
      FlatStart(cs);
    } else {
      if ptr.pos < 0 { return false, r; }
      chain, at := ptr.chain, ptr.inChain;
      r := r.(pos := ptr.pos + position);
      Rest(cs, ptr);
    }
    while chain < |cs| && at + left >= cs[chain].off
      invariant chain <= |cs| && |Flat(cs[..chain])| + at + left == r.pos
      invariant chain == |cs| ==> at == 0
      invariant chain < |cs| ==> at <= cs[chain].off
      decreases |cs| - chain
    {
      FlatStep(cs, chain);
      left := left - (cs[chain].off - at);
      chain, at := chain + 1, 0;
    }
    if chain < |cs| {
      r := r.(chain := chain, inChain := at + left);
      Rest(cs, r);
      FlatSplit(cs, chain);
      FlatStep(cs, chain);
      return true, r;
    } else {
      FlatEnd(cs);
      return false, Ptr(-1, |cs|, r.inChain);
    }
  }

  ghost predicate OccursAt(text: seq<byte>, what: seq<byte>, p: int) {
    0 <= p && p + |what| <= |text| && text[p..p + |what|] == what
  }

  lemma Mismatch(text: seq<byte>, a: nat, what: seq<byte>, n: nat)
    requires n <= |what| && a + |what| <= |text| && text[a..a + n] != what[..n]
    ensures !OccursAt(text, what, a)
  {
    assert text[a..a + |what|][..n] == text[a..a + n];
  }

  /** evbuffer_ptr_memcmp, of which only the comparison with 0 is used */
  method PtrMemcmp(buf: Buffer, pos: Ptr, what: seq<byte>) returns (eq: bool)
    requires buf.Valid() && OnChain(buf.chains, pos)
    ensures eq == OccursAt(buf.Contents(), what, pos.pos)
  {
    hide Flat, Data, IsLastData;
    if pos.pos + |what| > buf.totalLen { return false; }
    var cs := buf.chains;
    var chain: nat, at: nat, done: nat := pos.chain, pos.inChain, 0;
    ghost var text := Flat(cs);
    while done < |what| && chain < |cs|
      invariant chain <= |cs| && done <= |what|
      invariant chain < |cs| && done < |what| ==> OnChain(cs, Ptr(pos.pos + done, chain, at))
      invariant text[pos.pos..pos.pos + done] == what[..done]
      invariant done < |what| ==> chain < |cs|
      decreases |cs| - chain
    {
      var n := if (|what| - done) + at > cs[chain].off then cs[chain].off - at else |what| - done;
      Piece(cs, Ptr(pos.pos + done, chain, at), n);
      SliceStep(text, pos.pos, what, done, n);
      if Data(cs[chain])[at..at + n] != what[done..done + n] {
        Mismatch(text, pos.pos, what, done + n);
        return false;
      }
      done := done + n;
      chain, at := chain + 1, 0;
      if chain == |cs| { FlatEnd(cs); }
    }
    assert what[..done] == what;
    return true;
  }

  /** `what` occurs at `p`, wholly before the end pointer. */
  ghost predicate Hit(text: seq<byte>, what: seq<byte>, end: Option<Ptr>, p: int) {
    OccursAt(text, what, p) && (end.Some? ==> p + |what| <= end.value.pos)
  }

  /** Bytes that are not the first of `what` start no occurrence. */
  lemma NoneSkipped(cs: seq<Chain>, cur: Ptr, j: nat, what: seq<byte>)
    requires OnChain(cs, cur) && cur.inChain <= j <= cs[cur.chain].off
    requires what != [] && what[0] !in Data(cs[cur.chain])[cur.inChain..j]
    ensures forall p :: cur.pos <= p < cur.pos + j - cur.inChain ==> !OccursAt(Flat(cs), what, p)
  {
    hide Flat, Data;
    var n := j - cur.inChain;
    Piece(cs, cur, n);
    forall p | cur.pos <= p < cur.pos + n
      ensures !OccursAt(Flat(cs), what, p)
    {
      assert Flat(cs)[p] == Flat(cs)[cur.pos..cur.pos + n][p - cur.pos];
      OccursFirst(Flat(cs), what, p);
    }
  }

  lemma OccursFirst(text: seq<byte>, what: seq<byte>, p: nat)
    requires what != [] && p < |text|
    ensures OccursAt(text, what, p) ==> text[p] == what[0]
  {
    if OccursAt(text, what, p) {
      assert text[p..p + |what|][0] == text[p];
    }
  }

  /** The position after `n` more bytes of the chain, or the start of the next one. */
  lemma Advance(cs: seq<Chain>, cur: Ptr, j: nat)
    requires OnChain(cs, cur) && cur.inChain <= j <= cs[cur.chain].off
    ensures OnChain(cs, cur.(pos := cur.pos + j - cur.inChain, inChain := j))
    ensures j == cs[cur.chain].off && cur.chain + 1 < |cs| ==>
      OnChain(cs, Ptr(cur.pos + j - cur.inChain, cur.chain + 1, 0))
    ensures j == cs[cur.chain].off && cur.chain + 1 == |cs| ==> cur.pos + j - cur.inChain == |Flat(cs)|
  {
    hide Flat, Data;
    FlatStep(cs, cur.chain);
    FlatEnd(cs);
  }

  /** An end pointer is before every byte of the chains after its own. */
  lemma EndBefore(cs: seq<Chain>, end: Ptr, next: nat)
    requires OnChain(cs, end) && end.chain < next <= |cs|
    ensures end.pos <= |Flat(cs[..next])|
  {
    hide Flat, Data;
    FlatStep(cs, end.chain);
    FlatSplit(cs[..next], end.chain + 1);
    assert cs[..next][..end.chain + 1] == cs[..end.chain + 1];
  }

  /** evbuffer_search_range: the least hit at or after the start. */
  method SearchRange(buf: Buffer, what: seq<byte>, start: Option<Ptr>, end: Option<Ptr>) returns (r: Ptr)
    requires buf.Valid() && (start.Some? ==> OnChain(buf.chains, start.value))
    requires end.Some? ==> OnChain(buf.chains, end.value) || (end.value.pos == -1 && end.value.chain >= |buf.chains|)
    ensures var from := if start.Some? then start.value else Ptr(0, 0, 0);
      if what == [] then r == from
      else if r.pos == -1 then forall p :: from.pos <= p ==> !Hit(buf.Contents(), what, end, p)
      else
        && from.pos <= r.pos && OnChain(buf.chains, r) && r.inChain < buf.chains[r.chain].off
        && Hit(buf.Contents(), what, end, r.pos)
        && forall p :: from.pos <= p < r.pos ==> !Hit(buf.Contents(), what, end, p)
  {
    hide Flat, Data, OccursAt;
    var cs := buf.chains;
    ghost var text := Flat(cs);
    r := if start.Some? then start.value else Ptr(0, 0, 0);
    if what == [] { return; }
    ghost var from := r.pos;
    FlatStart(cs);
    while r.chain < |cs|
      invariant r.chain < |cs| ==> OnChain(cs, r)
      invariant r.chain >= |cs| ==> r.pos == |text|
      invariant from <= r.pos && forall p :: from <= p < r.pos ==> !OccursAt(text, what, p)
      decreases |cs| - r.chain, if r.chain < |cs| then cs[r.chain].off - r.inChain else 0
    {
      var off := cs[r.chain].off;
      var j := MemChr(Data(cs[r.chain]), r.inChain, what[0]);
      NoneSkipped(cs, r, j, what);
      Advance(cs, r, j);
      if j < off {
        r := r.(pos := r.pos + j - r.inChain, inChain := j);
        var eq := PtrMemcmp(buf, r, what);
        if eq {
          if end.Some? && r.pos + |what| > end.value.pos {
            r := Ptr(-1, |cs|, r.inChain);
          }
          return;
        }
        Advance(cs, r, j + 1);
        r := if j + 1 == off then Ptr(r.pos + 1, r.chain + 1, 0) else r.(pos := r.pos + 1, inChain := j + 1);
      } else {
        if end.Some? && r.chain == end.value.chain {
          EndBefore(cs, end.value, r.chain + 1);
          r := Ptr(-1, |cs|, r.inChain);
          return;
        }
        r := Ptr(r.pos + off - r.inChain, r.chain + 1, 0);
      }
    }
    NoneAtEnd(text, what);
    r := Ptr(-1, |cs|, r.inChain);
  }

  lemma NoneAtEnd(text: seq<byte>, what: seq<byte>)
    requires what != []
    ensures forall p :: p >= |text| ==> !OccursAt(text, what, p)
  {
  }
}
