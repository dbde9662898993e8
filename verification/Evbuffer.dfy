/** The chunked byte queue of libevent/buffer.c: the two structs, the stated
    representation invariant, and the operations that add, remove and move
    bytes.  A pointer to a chain is its place in the list; a pointer to a
    `next` field is the place it leads to, 0 being &buf->first. */
module Evbuffer {
  import opened Bytes
  import opened Prelude

  const MIN_BUFFER_SIZE: nat := 1024
  const EVBUFFER_CHAIN_SIZE: nat := 48
  const EVBUFFER_CHAIN_MAX_AUTO_SIZE: nat := 4096
  const MAX_TO_REALIGN_IN_EXPAND: nat := 2048
  const EVBUFFER_CHAIN_MAX: nat := 0x7fff_ffff_ffff_ffff
  const EV_SIZE_MAX: nat := 0xffff_ffff_ffff_ffff

  // ----- one chain -----

  datatype ChainRec = ChainRec(immutable: bool, mem: seq<byte>, misalign: nat, off: nat)

  /** One chunk: `off` bytes of data from `misalign` on.  A read-only chunk is
      never empty and its data reaches the end of its memory. */
  type Chain = c: ChainRec |
      && c.misalign + c.off <= |c.mem| && 0 < |c.mem|
      && (c.immutable ==> 0 < c.off && c.misalign + c.off == |c.mem|)
    witness ChainRec(false, [0], 0, 0)

  function Data(c: Chain): (run: seq<byte>)
    ensures |run| == c.off
  {
    c.mem[c.misalign..c.misalign + c.off]
  }

  /** CHAIN_SPACE_LEN */
  function SpaceLen(c: Chain): nat {
    if c.immutable then 0 else |c.mem| - (c.misalign + c.off)
  }

  /** memcpy of `src` to `at`. */
  function Written(mem: seq<byte>, at: nat, src: seq<byte>): (r: seq<byte>)
    requires at + |src| <= |mem|
    ensures |r| == |mem|
    ensures r[..at] == mem[..at] && r[at..at + |src|] == src && r[at + |src|..] == mem[at + |src|..]
  {
    mem[..at] + src + mem[at + |src|..]
  }

  /** The size of the memory that evbuffer_chain_new asks for: the least doubling of
      MIN_BUFFER_SIZE that is enough, or just enough for very large sizes. */
  method AllocSize(size: nat) returns (toAlloc: nat)
    ensures toAlloc >= size + EVBUFFER_CHAIN_SIZE
    ensures if size + EVBUFFER_CHAIN_SIZE < EVBUFFER_CHAIN_MAX / 2
      then (exists k :: toAlloc == MIN_BUFFER_SIZE * Pow2(k)) &&
           (toAlloc == MIN_BUFFER_SIZE || toAlloc < 2 * (size + EVBUFFER_CHAIN_SIZE))
      else toAlloc == size + EVBUFFER_CHAIN_SIZE
  {
    if size + EVBUFFER_CHAIN_SIZE >= EVBUFFER_CHAIN_MAX / 2 { return size + EVBUFFER_CHAIN_SIZE; }
    toAlloc := MIN_BUFFER_SIZE;
    ghost var k := 0;
    while toAlloc < size + EVBUFFER_CHAIN_SIZE
      invariant toAlloc == MIN_BUFFER_SIZE * Pow2(k) && toAlloc > 0
      invariant toAlloc == MIN_BUFFER_SIZE || toAlloc < 2 * (size + EVBUFFER_CHAIN_SIZE)
      decreases size + EVBUFFER_CHAIN_SIZE - toAlloc
    {
      assert Pow2(k + 1) == 2 * Pow2(k);
      toAlloc := toAlloc * 2;
      k := k + 1;
    }
  }

  /** evbuffer_chain_new */
  method NewChain(size: nat) returns (c: Chain)
    ensures !c.immutable && size <= |c.mem| <= 2 * size + MIN_BUFFER_SIZE && c.misalign == 0 && c.off == 0
  {
    hide Pow2;
    var toAlloc := AllocSize(size);
    c := ChainRec(false, seq(toAlloc - EVBUFFER_CHAIN_SIZE, _ => 0), 0, 0);
  }

  /** The chain behind `last` has room for `n` bytes and is no smaller; it is twice as large as long
      as that stays within EVBUFFER_CHAIN_MAX_AUTO_SIZE. */
  predicate Grows(last: Chain, n: nat, next: Chain) {
    && n <= |next.mem| && |last.mem| <= |next.mem|
    && (|last.mem| <= EVBUFFER_CHAIN_MAX_AUTO_SIZE / 2 ==> 2 * |last.mem| <= |next.mem|)
  }

  /** Lines 1603-1608 of evbuffer_add. */
  method ChainFor(last: Chain, n: nat) returns (c: Chain)
    ensures !c.immutable && n <= |c.mem| && c.misalign == 0 && c.off == 0 && Grows(last, n, c)
  {
    var toAlloc := |last.mem|;
    if toAlloc <= EVBUFFER_CHAIN_MAX_AUTO_SIZE / 2 { toAlloc := 2 * toAlloc; }
    if n > toAlloc { toAlloc := n; }
    c := NewChain(toAlloc);
  }

  /** Store `src` right after the data. */
  function Extend(c: Chain, src: seq<byte>): (r: Chain)
    requires |src| <= SpaceLen(c) && !c.immutable
    ensures Data(r) == Data(c) + src
    ensures !r.immutable && SpaceLen(r) == SpaceLen(c) - |src| && |r.mem| == |c.mem|
  {
    c.(mem := Written(c.mem, c.misalign + c.off, src), off := c.off + |src|)
  }

  /** Store `src` right before the data. */
  function Retract(c: Chain, src: seq<byte>): (r: Chain)
    requires |src| <= c.misalign && !c.immutable
    ensures Data(r) == src + Data(c) && !r.immutable
  {
    c.(mem := Written(c.mem, c.misalign - |src|, src), misalign := c.misalign - |src|, off := c.off + |src|)
  }

  /** Forget the first `n` bytes of data. */
  function Skip(c: Chain, n: nat): (r: Chain)
    requires n < c.off
    ensures Data(r) == Data(c)[n..] && r.immutable == c.immutable
  {
    c.(misalign := c.misalign + n, off := c.off - n)
  }

  /** evbuffer_chain_align */
  function Align(c: Chain): (r: Chain)
    requires !c.immutable
    ensures Data(r) == Data(c) && SpaceLen(r) == |c.mem| - c.off && !r.immutable
    ensures |r.mem| == |c.mem|
  {
    c.(mem := Written(c.mem, 0, Data(c)), misalign := 0)
  }

  /** evbuffer_chain_should_realign */
  predicate ShouldRealign(c: Chain, n: nat) {
    |c.mem| - c.off >= n && c.off < |c.mem| / 2 && c.off <= MAX_TO_REALIGN_IN_EXPAND
  }

  // ----- a list of chains -----

  /** The bytes of all chains, in order. */
  function Flat(cs: seq<Chain>): seq<byte> {
    if cs == [] then [] else Data(cs[0]) + Flat(cs[1..])
  }

  lemma {:induction false} FlatConcat(a: seq<Chain>, b: seq<Chain>)
    ensures Flat(a + b) == Flat(a) + Flat(b)
  {
    if a == [] {
      assert a + b == b;
    } else {
      assert (a + b)[1..] == a[1..] + b;
      FlatConcat(a[1..], b);
    }
  }

  lemma FlatOne(c: Chain)
    ensures Flat([c]) == Data(c)
  {
    assert [c][1..] == [];
  }

  lemma FlatCons(c: Chain, cs: seq<Chain>)
    ensures Flat([c] + cs) == Data(c) + Flat(cs)
  {
    assert ([c] + cs)[1..] == cs;
  }

  lemma FlatStart(cs: seq<Chain>)
    ensures cs[0..] == cs && Flat(cs[..0]) == [] && Flat(cs) == Flat(cs[..0]) + Flat(cs[0..])
  {
  }

  lemma FlatSplit(cs: seq<Chain>, k: nat)
    requires k <= |cs|
    ensures Flat(cs) == Flat(cs[..k]) + Flat(cs[k..])
  {
    assert cs == cs[..k] + cs[k..];
    FlatConcat(cs[..k], cs[k..]);
  }

  lemma FlatStep(cs: seq<Chain>, k: nat)
    requires k < |cs|
    ensures Flat(cs[k..]) == Data(cs[k]) + Flat(cs[k + 1..])
    ensures Flat(cs[..k + 1]) == Flat(cs[..k]) + Data(cs[k])
  {
    assert cs[k..][1..] == cs[k + 1..];
    assert cs[..k + 1] == cs[..k] + [cs[k]];
    FlatConcat(cs[..k], [cs[k]]);
    FlatOne(cs[k]);
  }

  lemma FlatSnoc(cs: seq<Chain>, c: Chain)
    ensures Flat(cs + [c]) == Flat(cs) + Data(c)
  {
    FlatConcat(cs, [c]);
    FlatOne(c);
  }

  lemma FlatLast(cs: seq<Chain>)
    requires cs != []
    ensures Flat(cs) == Flat(cs[..|cs| - 1]) + Data(cs[|cs| - 1])
  {
    assert cs == cs[..|cs| - 1] + [cs[|cs| - 1]];
    FlatSnoc(cs[..|cs| - 1], cs[|cs| - 1]);
  }

  lemma {:induction false} FlatOfEmpty(cs: seq<Chain>)
    requires forall i :: 0 <= i < |cs| ==> cs[i].off == 0
    ensures Flat(cs) == []
  {
    if cs != [] {
      FlatOfEmpty(cs[1..]);
    }
  }

  /** `k` is the last chain with data, or 0 if there is none. */
  predicate IsLastData(cs: seq<Chain>, k: nat) {
    && (if |cs| == 0 then k == 0 else k < |cs|)
    && (0 < k < |cs| ==> cs[k].off > 0)
    && forall i :: k < i < |cs| ==> cs[i].off == 0
  }

  /** No chain after the last data chain. */
  predicate Tight(cs: seq<Chain>, lwd: nat) {
    |cs| == 0 || lwd == |cs| - 1
  }

  /** No empty chain, unless it is the only one. */
  predicate Packed(cs: seq<Chain>) {
    |cs| <= 1 || forall i :: 0 <= i < |cs| ==> cs[i].off > 0
  }

  /** No chain refers to memory of the caller. */
  predicate Owned(cs: seq<Chain>) {
    forall i :: 0 <= i < |cs| ==> !cs[i].immutable
  }

  /** last_with_datap points at a chain, if there is one. */
  predicate Slotted(cs: seq<Chain>, lwd: nat) {
    if |cs| == 0 then lwd == 0 else lwd < |cs|
  }

  /** The first victim of evbuffer_chain_insert: the first empty chain from
      last_with_datap on, or the end. */
  function Victim(cs: seq<Chain>, lwd: nat): (v: nat)
    requires lwd <= |cs|
    ensures lwd <= v <= |cs| && (v < |cs| ==> cs[v].off == 0) && forall i :: lwd <= i < v ==> cs[i].off > 0
    decreases |cs| - lwd
  {
    if lwd == |cs| || cs[lwd].off == 0 then lwd else Victim(cs, lwd + 1)
  }

  /** With the stated invariant only empty chains are replaced. */
  lemma VictimOfValid(cs: seq<Chain>, lwd: nat)
    requires IsLastData(cs, lwd)
    ensures Victim(cs, lwd) == if |cs| == 0 || cs[lwd].off == 0 then lwd else lwd + 1
    ensures forall i :: Victim(cs, lwd) <= i < |cs| ==> cs[i].off == 0
  {
  }

  lemma InsertValid(cs: seq<Chain>, lwd: nat, c: Chain)
    requires IsLastData(cs, lwd)
    ensures var v := Victim(cs, lwd);
      var lwd' := if 0 < v == |cs| && c.off > 0 then v else lwd;
      Slotted(cs[..v] + [c], lwd') && (IsLastData(cs[..v] + [c], lwd') <==> c.off == 0 || v in {0, |cs|})
  {
    VictimOfValid(cs, lwd);
    var v := Victim(cs, lwd);
    assert (cs[..v] + [c])[v] == c;
  }

  lemma FlatFromLast(cs: seq<Chain>, lwd: nat)
    requires IsLastData(cs, lwd) && cs != []
    ensures Flat(cs[lwd..]) == Data(cs[lwd])
  {
    FlatStep(cs, lwd);
    FlatOfEmpty(cs[lwd + 1..]);
  }

  lemma FlatEnd(cs: seq<Chain>)
    ensures Flat(cs[|cs|..]) == [] && cs[..|cs|] == cs
  {
  }

  /** The last data chain has data, unless the list has none. */
  lemma HasData(cs: seq<Chain>, lwd: nat)
    requires IsLastData(cs, lwd)
    ensures Flat(cs) == [] <==> cs == [] || cs[lwd].off == 0
  {
    if cs != [] {
      FlatSplit(cs, lwd);
      FlatFromLast(cs, lwd);
      if lwd == 0 { FlatStart(cs); }
    }
  }

  lemma PackedData(cs: seq<Chain>)
    ensures Packed(cs) && Flat(cs) != [] ==> forall i :: 0 <= i < |cs| ==> cs[i].off > 0
  {
    if |cs| == 1 {
      hide Flat;
      assert cs == [cs[0]];
      FlatOne(cs[0]);
    }
  }

  lemma PackedCut(cs: seq<Chain>, k: nat)
    requires k <= |cs|
    ensures Packed(cs) && Flat(cs) != [] ==>
      Packed(cs[k..]) && forall i :: 0 <= i < k ==> cs[..k][i].off > 0
    ensures Owned(cs) ==> Owned(cs[k..]) && Owned(cs[..k])
  {
    hide Flat;
    PackedData(cs);
  }

  lemma OwnedLast(cs: seq<Chain>)
    requires cs != []
    ensures Owned(cs) ==> !cs[|cs| - 1].immutable
  {
  }

  lemma HeadData(cs: seq<Chain>)
    requires cs != []
    ensures Data(cs[0]) <= Flat(cs)
  {
  }

  /** The chains once evbuffer_pullup has gathered the first `i` of them in `tmp`
      and has `left` bytes to take from the next. */
  function Pulled(cs: seq<Chain>, tmp: Chain, i: nat, left: nat): (r: seq<Chain>)
    requires i <= |cs| && !tmp.immutable && left <= SpaceLen(tmp) && (i < |cs| ==> left < cs[i].off)
  {
    if i == |cs| then [tmp]
    else [Extend(tmp, Data(cs[i])[..left]), Skip(cs[i], left)] + cs[i + 1..]
  }

  lemma Assoc(a: seq<byte>, b: seq<byte>, c: seq<byte>)
    ensures (a + b) + c == a + (b + c)
  {
  }

  lemma Regroup(a: seq<byte>, b: seq<byte>, c: seq<byte>, d: seq<byte>)
    ensures (a + b) + (c + d) == a + ((b + c) + d)
  {
  }

  lemma PulledFlat(cs: seq<Chain>, tmp: Chain, i: nat, left: nat)
    requires i <= |cs| && !tmp.immutable && left <= SpaceLen(tmp) && (i < |cs| ==> left < cs[i].off)
    requires Data(tmp) == Flat(cs[..i]) && left <= |Flat(cs[i..])|
    ensures var r := Pulled(cs, tmp, i, left); Flat(r) == Flat(cs) && Data(r[0]) <= Flat(cs) && r[0].off == tmp.off + left
  {
    hide Flat, Data;
    var r := Pulled(cs, tmp, i, left);
    FlatEnd(cs);
    FlatSplit(cs, i);
    if i == |cs| {
      FlatOne(tmp);
    } else {
      var c, rest := Skip(cs[i], left), cs[i + 1..];
      assert Data(r[0]) == Data(tmp) + Data(cs[i])[..left] && Data(cs[i]) == Data(cs[i])[..left] + Data(c);
      hide Extend, Skip, SpaceLen;
      FlatStep(cs, i);
      FlatCons(c, rest);
      FlatCons(r[0], [c] + rest);
      assert r == [r[0]] + ([c] + rest);
      hide Pulled;
      Regroup(Data(tmp), Data(cs[i])[..left], Data(c), Flat(rest));
    }
    HeadData(r);
  }

  lemma PulledSlot(cs: seq<Chain>, lwd: nat, tmp: Chain, i: nat, left: nat, removedData: bool, removedSlot: bool)
    requires i <= |cs| && !tmp.immutable && left <= SpaceLen(tmp) && (i < |cs| ==> left < cs[i].off)
    requires IsLastData(cs, lwd) && lwd > 0 && tmp.off + left > 0
    requires (removedData <==> lwd < i) && (lwd == i && !removedSlot ==> i == 1) && (removedSlot ==> lwd <= i)
    ensures var r := Pulled(cs, tmp, i, left);
      var slot := if removedData then 0 else if removedSlot then (if |r| > 1 && r[1].off > 0 then 1 else 0) else lwd - i + 1;
      && IsLastData(r, slot) && (Tight(cs, lwd) ==> Tight(r, slot))
      && (Packed(cs) ==> Packed(r)) && (Owned(cs) ==> Owned(r))
  {
    var r := Pulled(cs, tmp, i, left);
    assert i < |cs| ==> r[0].off == tmp.off + left && r[1].off == cs[i].off - left;
    assert i < |cs| ==> r[1].immutable == cs[i].immutable && !r[0].immutable;
    hide Extend, Skip, Data, SpaceLen;
    assert forall k :: 2 <= k < |r| ==> r[k] == cs[i + k - 1];
  }

  function FlatLen(cs: seq<Chain>): (n: nat)
    ensures n == |Flat(cs)|
  {
    if cs == [] then 0 else cs[0].off + FlatLen(cs[1..])
  }

  // ----- what evbuffer_add does to the chains -----

  /** evbuffer_add cannot put all of `n` bytes in this last chain. */
  predicate NeedsChain(c: Chain, n: nat) {
    c.immutable || (SpaceLen(c) < n && !ShouldRealign(c, n))
  }

  /** The last chain filled up with the first bytes of `src`. */
  function Filled(cs: seq<Chain>, src: seq<byte>): seq<Chain>
    requires cs != [] && NeedsChain(cs[|cs| - 1], |src|)
  {
    var last := cs[|cs| - 1];
    cs[..|cs| - 1] + [if SpaceLen(last) > 0 then Extend(last, src[..SpaceLen(last)]) else last]
  }

  /** From one list of chains and last_with_datap to the next by adding `src`. */
  predicate AddShape(cs: seq<Chain>, lwd: nat, src: seq<byte>, after: seq<Chain>, lwd': nat)
    requires Slotted(cs, lwd)
  {
    if cs == [] then
      && |after| == 1 && Data(after[0]) == src && !after[0].immutable && lwd' == 0
      && |after[0].mem| <= 2 * |src| + MIN_BUFFER_SIZE
    else
      var m, last := |cs|, cs[|cs| - 1];
      if !NeedsChain(last, |src|) then
        && |after| == m && after[..m - 1] == cs[..m - 1] && Data(after[m - 1]) == Data(last) + src
        && !after[m - 1].immutable && |after[m - 1].mem| == |last.mem| && lwd' == lwd
        && (SpaceLen(last) >= |src| ==> SpaceLen(after[m - 1]) == SpaceLen(last) - |src|)
      else
        var v := Victim(Filled(cs, src), lwd);
        && |after| == v + 1 && after[..v] == Filled(cs, src)[..v] && Data(after[v]) == src[SpaceLen(last)..]
        && !after[v].immutable && Grows(last, |src|, after[v]) && lwd' == if v == m && |src| > SpaceLen(last) then m else lwd
  }

  /** Some of `n` bytes, or bytes that were there, go with the victims: the last chain
      is filled up although evbuffer_chain_insert will replace it. */
  predicate Loses(cs: seq<Chain>, lwd: nat, n: nat)
    requires Slotted(cs, lwd)
  {
    && cs != [] && NeedsChain(cs[|cs| - 1], n) && Victim(cs, lwd) < |cs| - 1
    && (SpaceLen(cs[|cs| - 1]) > 0 || FlatLen(cs[Victim(cs, lwd)..]) > 0)
  }

  /** Adding `n` bytes keeps the stated invariant. */
  predicate StaysValid(cs: seq<Chain>, lwd: nat, n: nat)
    requires Slotted(cs, lwd)
  {
    n == 0 || cs == [] ||
    if !NeedsChain(cs[|cs| - 1], n) then Tight(cs, lwd)
    else if SpaceLen(cs[|cs| - 1]) > 0 then Victim(cs, lwd) >= |cs| - 1
    else Victim(cs, lwd) in {0, |cs|}
  }

  /** Filling the last chain matters to the walk only if it was the victim. */
  lemma {:induction false} VictimFilled(cs: seq<Chain>, lwd: nat, src: seq<byte>)
    requires cs != [] && lwd <= |cs| && NeedsChain(cs[|cs| - 1], |src|)
    ensures Victim(Filled(cs, src), lwd) ==
      if SpaceLen(cs[|cs| - 1]) > 0 && Victim(cs, lwd) == |cs| - 1 then |cs| else Victim(cs, lwd)
    decreases |cs| - lwd
  {
    hide Extend, ShouldRealign;
    var f := Filled(cs, src);
    assert forall i :: 0 <= i < |cs| - 1 ==> f[i] == cs[i];
    if lwd < |cs| {
      VictimFilled(cs, lwd + 1, src);
    }
  }

  lemma LastFlat(cs: seq<Chain>, c: Chain, more: seq<byte>)
    requires cs != [] && Data(c) == Data(cs[|cs| - 1]) + more
    ensures Flat(cs[..|cs| - 1] + [c]) == Flat(cs) + more
  {
    hide Flat, Data;
    FlatLast(cs);
    FlatSnoc(cs[..|cs| - 1], c);
    Assoc(Flat(cs[..|cs| - 1]), Data(cs[|cs| - 1]), more);
  }

  lemma FilledFlat(cs: seq<Chain>, src: seq<byte>)
    requires cs != [] && NeedsChain(cs[|cs| - 1], |src|)
    ensures Flat(Filled(cs, src)) == Flat(cs) + src[..SpaceLen(cs[|cs| - 1])]
  {
    var last := cs[|cs| - 1];
    var c := if SpaceLen(last) > 0 then Extend(last, src[..SpaceLen(last)]) else last;
    hide Flat;
    LastFlat(cs, c, src[..SpaceLen(last)]);
  }

  /** The new contents; and they are right exactly when nothing is lost. */
  lemma ShapeContents(cs: seq<Chain>, lwd: nat, src: seq<byte>, after: seq<Chain>, lwd': nat)
    requires Slotted(cs, lwd) && AddShape(cs, lwd, src, after, lwd')
    ensures Flat(after) == Flat(cs) + src <==> !Loses(cs, lwd, |src|)
    ensures |Flat(after)| == |Flat(cs)| + |src| <==> !Loses(cs, lwd, |src|)
    ensures Loses(cs, lwd, |src|) ==> Flat(after) == Flat(cs[..Victim(cs, lwd)]) + src[SpaceLen(cs[|cs| - 1])..]
    ensures after != [] && Slotted(after, lwd')
  {
    hide Flat, Data, Extend, ShouldRealign, Filled, Victim;
    FlatLast(after);
    if cs == [] {
      FlatOfEmpty([]);
      assert after[..0] == [];
    } else if !NeedsChain(cs[|cs| - 1], |src|) {
      FlatLast(cs);
    } else {
      NewShapeContents(cs, lwd, src, after, lwd');
    }
  }

  lemma NewShapeContents(cs: seq<Chain>, lwd: nat, src: seq<byte>, after: seq<Chain>, lwd': nat)
    requires Slotted(cs, lwd) && AddShape(cs, lwd, src, after, lwd') && cs != [] && NeedsChain(cs[|cs| - 1], |src|)
    ensures Flat(after) == Flat(cs) + src <==> !Loses(cs, lwd, |src|)
    ensures |Flat(after)| == |Flat(cs)| + |src| <==> !Loses(cs, lwd, |src|)
    ensures Loses(cs, lwd, |src|) ==> Flat(after) == Flat(cs[..Victim(cs, lwd)]) + src[SpaceLen(cs[|cs| - 1])..]
  {
    hide Flat, Data, Extend, ShouldRealign, Victim, Filled, FlatLen;
    var m, r, v := |cs|, SpaceLen(cs[|cs| - 1]), Victim(cs, lwd);
    var f := Filled(cs, src);
    VictimFilled(cs, lwd, src);
    FlatLast(after);
    assert after[..|after| - 1] == f[..Victim(f, lwd)] && r <= |src|;
    hide AddShape, NeedsChain;
    if Victim(f, lwd) == m {
      FilledFlat(cs, src);
      FilledFront(cs, src, m);
      assert src == src[..r] + src[r..];
    } else {
      FlatSplit(cs, v);
      FilledFront(cs, src, v);
      if v == m - 1 {
        FlatStep(cs, v);
        FlatEnd(cs);
      }
    }
  }

  lemma FilledFront(cs: seq<Chain>, src: seq<byte>, v: nat)
    requires cs != [] && NeedsChain(cs[|cs| - 1], |src|) && v <= |cs|
    ensures |Filled(cs, src)| == |cs| && Filled(cs, src)[..v] == if v == |cs| then Filled(cs, src) else cs[..v]
  {
  }

  lemma ShapeValid(cs: seq<Chain>, lwd: nat, src: seq<byte>, after: seq<Chain>, lwd': nat)
    requires IsLastData(cs, lwd) && AddShape(cs, lwd, src, after, lwd')
    ensures Flat(after) == Flat(cs) + src && IsLastData(after, lwd') <==> StaysValid(cs, lwd, |src|)
  {
    hide Flat, Data, Extend, ShouldRealign, Filled;
    ShapeContents(cs, lwd, src, after, lwd');
    VictimOfValid(cs, lwd);
    if cs != [] && NeedsChain(cs[|cs| - 1], |src|) {
      NewShapeValid(cs, lwd, src, after, lwd');
    }
  }

  lemma NewShapeValid(cs: seq<Chain>, lwd: nat, src: seq<byte>, after: seq<Chain>, lwd': nat)
    requires IsLastData(cs, lwd) && AddShape(cs, lwd, src, after, lwd') && cs != [] && NeedsChain(cs[|cs| - 1], |src|)
    ensures !Loses(cs, lwd, |src|) && IsLastData(after, lwd') <==> StaysValid(cs, lwd, |src|)
  {
    hide Flat, Data, Extend, ShouldRealign;
    var m, v := |cs|, Victim(cs, lwd);
    VictimOfValid(cs, lwd);
    VictimFilled(cs, lwd, src);
    FlatOfEmpty(cs[v..]);
    assert forall i :: 0 <= i < v && i < m - 1 ==> after[..|after| - 1][i] == cs[i];
  }

  // ----- what evbuffer_remove_buffer does to the chains -----

  /** How many chains lie wholly in the first `n` bytes. */
  function Passed(cs: seq<Chain>, n: nat): (i: nat)
    ensures i <= |cs|
  {
    if cs == [] || n < cs[0].off then 0 else 1 + Passed(cs[1..], n - cs[0].off)
  }

  /** advance_last_with_data: over chains with data, up to an empty one. */
  function Advanced(cs: seq<Chain>, k: nat): (r: nat)
    requires k < |cs|
    ensures k <= r < |cs| && (r + 1 < |cs| ==> cs[r + 1].off == 0) && forall i :: k < i <= r ==> cs[i].off > 0
    decreases |cs| - k
  {
    if k + 1 < |cs| && cs[k + 1].off > 0 then Advanced(cs, k + 1) else k
  }

  lemma AdvancedStep(cs: seq<Chain>, k: nat)
    requires k < |cs|
    ensures Advanced(cs, k) == if k + 1 < |cs| && cs[k + 1].off > 0 then Advanced(cs, k + 1) else k
  {
  }

  /** No data behind an empty chain, from `k` on. */
  predicate Gapless(cs: seq<Chain>, k: nat) {
    forall i, j :: k < i < j < |cs| && cs[i].off == 0 ==> cs[j].off == 0
  }

  /** The chains of a buffer with `moved` for its empty tail. */
  function Joined(cs: seq<Chain>, lwd: nat, moved: seq<Chain>): seq<Chain>
    requires lwd <= |cs|
  {
    cs[..Victim(cs, lwd)] + moved
  }

  lemma GaplessIsLast(cs: seq<Chain>, k: nat)
    requires k < |cs| && (k > 0 ==> cs[k].off > 0)
    ensures IsLastData(cs, Advanced(cs, k)) <==> Gapless(cs, k)
  {
    var r := Advanced(cs, k);
    if IsLastData(cs, r) {
      forall i, j | k < i < j < |cs| && cs[i].off == 0
        ensures cs[j].off == 0
      {
      }
    }
  }

  lemma PassedStep(cs: seq<Chain>, i: nat, n: nat)
    requires i < |cs|
    ensures Passed(cs[i..], n) == if n < cs[i].off then 0 else 1 + Passed(cs[i + 1..], n - cs[i].off)
  {
    assert cs[i..][1..] == cs[i + 1..];
  }

  lemma {:induction false} PassedFits(cs: seq<Chain>, n: nat)
    ensures FlatLen(cs[..Passed(cs, n)]) <= n
  {
    if cs != [] && n >= cs[0].off {
      var i := Passed(cs[1..], n - cs[0].off);
      PassedFits(cs[1..], n - cs[0].off);
      assert cs[..1 + i][1..] == cs[1..][..i];
    }
  }

  /** The receiving buffer when whole chains have been moved: its chains, where
      last_with_datap is, the bytes still to be copied, and whether the stated
      invariant holds. */
  datatype Receiver = Receiver(chains: seq<Chain>, lwd: nat, left: nat, whole: bool)

  function Moving(cs: seq<Chain>, n: nat, dst: seq<Chain>, lwd: nat): (r: Receiver)
    requires Slotted(dst, lwd)
    ensures Slotted(r.chains, r.lwd) && r.left <= n
  {
    PassedFits(cs, n);
    var i := Passed(cs, n);
    var got := FlatLen(cs[..i]);
    if got == 0 then Receiver(dst, lwd, n, true)
    else
      var s := Joined(dst, lwd, cs[..i]);
      Receiver(s, Advanced(s, lwd), n - got, Gapless(s, lwd))
  }

  /** Not the case that only empty chains were passed, and all before the data: they
      stay, with last_with_datap reset to the first. */
  predicate KeepsSlot(cs: seq<Chain>, lwd: nat, n: nat) {
    !(FlatLen(cs[..Passed(cs, n)]) == 0 && 0 < Passed(cs, n) == lwd)
  }

  /** A stale last_with_datap before an empty chain is not mended by adding. */
  lemma ShapeStale(cs: seq<Chain>, k: nat, src: seq<byte>, after: seq<Chain>, lwd': nat)
    requires k < |cs| && !Gapless(cs, k) && AddShape(cs, Advanced(cs, k), src, after, lwd')
    ensures !(Flat(after) == Flat(cs) + src && IsLastData(after, lwd'))
  {
    hide Flat, Data, Extend, ShouldRealign, Filled, AddShape;
    var r := Advanced(cs, k);
    var i, j :| k < i < j < |cs| && cs[i].off == 0 && cs[j].off > 0;
    assert r < i;
    ShapeContents(cs, r, src, after, lwd');
    if NeedsChain(cs[|cs| - 1], |src|) {
      DataAt(cs, Victim(cs, r), j);
    } else {
      PlainShape(cs, r, src, after, lwd', j);
    }
  }

  /** Two lists of chains that are packed and own their memory. */
  predicate AllPacked(a: seq<Chain>, b: seq<Chain>) {
    Packed(a) && Owned(a) && Packed(b) && Owned(b)
  }

  lemma PackedIsTight(cs: seq<Chain>, lwd: nat)
    requires Packed(cs) && IsLastData(cs, lwd)
    ensures Tight(cs, lwd)
  {
    if |cs| > 1 {
      assert cs[|cs| - 1].off > 0;
    }
  }

  /** On a tight list adding loses nothing and breaks nothing; bytes, or memory of
      one's own, keep it tight and packed. */
  lemma ShapePacked(cs: seq<Chain>, lwd: nat, src: seq<byte>, after: seq<Chain>, lwd': nat)
    requires IsLastData(cs, lwd) && Tight(cs, lwd) && AddShape(cs, lwd, src, after, lwd')
    ensures !Loses(cs, lwd, |src|) && StaysValid(cs, lwd, |src|)
    ensures src != [] || Owned(cs) ==> Tight(after, lwd') && (Packed(cs) ==> Packed(after))
    ensures Owned(cs) ==> Owned(after)
  {
    hide Flat, Data, Extend, ShouldRealign;
    VictimOfValid(cs, lwd);
    if cs != [] && NeedsChain(cs[|cs| - 1], |src|) {
      VictimFilled(cs, lwd, src);
      var f, v := Filled(cs, src), |after| - 1;
      assert forall i :: 0 <= i < v ==> after[i] == f[i];
      assert v > 0 && SpaceLen(cs[|cs| - 1]) > 0 ==> |Data(f[|cs| - 1])| > 0;
      assert |Data(after[v])| == |src| - SpaceLen(cs[|cs| - 1]);
    } else if cs != [] {
      assert forall i :: 0 <= i < |cs| - 1 ==> after[i] == cs[..|cs| - 1][i];
      assert |Data(after[|cs| - 1])| >= cs[|cs| - 1].off;
    }
  }

  /** From a packed source only data moves, so nothing can go wrong. */
  lemma JoinedFlat(cs: seq<Chain>, lwd: nat, moved: seq<Chain>)
    requires IsLastData(cs, lwd) && moved != []
    ensures var s := Joined(cs, lwd, moved); Flat(s) == Flat(cs) + Flat(moved) && lwd < |s| && (lwd > 0 ==> s[lwd].off > 0)
  {
    hide Flat;
    VictimOfValid(cs, lwd);
    var v := Victim(cs, lwd);
    assert lwd > 0 ==> cs[lwd].off > 0 && lwd < v;
    hide Victim, IsLastData;
    FlatSplit(cs, v);
    FlatOfEmpty(cs[v..]);
    FlatConcat(cs[..v], moved);
  }

  lemma PackedMoving(cs: seq<Chain>, lwd: nat, n: nat, dst: seq<Chain>, dlwd: nat)
    requires IsLastData(cs, lwd) && IsLastData(dst, dlwd) && AllPacked(cs, dst) && 0 < n < FlatLen(cs)
    ensures KeepsSlot(cs, lwd, n)
    ensures var r := Moving(cs, n, dst, dlwd);
      r.whole && IsLastData(r.chains, r.lwd) && Tight(r.chains, r.lwd) && Packed(r.chains) && Owned(r.chains)
  {
    hide Flat, Gapless, Advanced, Victim;
    PackedData(cs);
    PackedIsTight(dst, dlwd);
    var i := Passed(cs, n);
    if i > 0 {
      DataAt(cs[..i], 0, 0);
      assert cs[..i][0..] == cs[..i];
      PackedJoined(dst, dlwd, cs[..i]);
    }
  }

  lemma PackedJoined(dst: seq<Chain>, lwd: nat, moved: seq<Chain>)
    requires IsLastData(dst, lwd) && Packed(dst) && Owned(dst) && Owned(moved) && moved != []
    requires forall i :: 0 <= i < |moved| ==> moved[i].off > 0
    ensures var s := Joined(dst, lwd, moved);
      && lwd < |s| && Gapless(s, lwd) && IsLastData(s, Advanced(s, lwd)) && Tight(s, Advanced(s, lwd))
      && Packed(s) && Owned(s)
  {
    VictimOfValid(dst, lwd);
    PackedIsTight(dst, lwd);
    var s := Joined(dst, lwd, moved);
    assert forall k :: 0 <= k < |s| ==> s[k].off > 0;
    hide Victim;
    GaplessIsLast(s, lwd);
  }

  lemma PackedSkipped(cs: seq<Chain>, n: nat, at: nat, left: nat, after: seq<Chain>)
    requires Packed(cs) && Owned(cs) && n < FlatLen(cs)
    requires var i := Passed(cs, n); left + FlatLen(cs[..i]) == n && at == (if left < n then 0 else i) && at <= |cs|
    requires var mid := if left < n then cs[Passed(cs, n)..] else cs;
      at < |mid| && left < mid[at].off && after == mid[at := Skip(mid[at], left)]
    ensures Packed(after) && Owned(after)
  {
    hide Flat, Passed, FlatLen;
    PackedData(cs);
  }

  lemma PackedMove(cs: seq<Chain>, lwd: nat, n: nat, at: nat, after: seq<Chain>,
                   dst: seq<Chain>, dlwd: nat, src: seq<byte>, dst': seq<Chain>, dlwd': nat)
    requires IsLastData(cs, lwd) && IsLastData(dst, dlwd) && AllPacked(cs, dst) && 0 < n < FlatLen(cs)
    requires var r := Moving(cs, n, dst, dlwd); Slotted(r.chains, r.lwd) && AddShape(r.chains, r.lwd, src, dst', dlwd')
    requires var i := Passed(cs, n); |src| + FlatLen(cs[..i]) == n && at == (if |src| < n then 0 else i) && at <= |cs|
    requires var mid := if |src| < n then cs[Passed(cs, n)..] else cs;
      at < |mid| && |src| < mid[at].off && after == mid[at := Skip(mid[at], |src|)]
    ensures KeepsSlot(cs, lwd, n) && AllPacked(after, dst')
    ensures var r := Moving(cs, n, dst, dlwd);
      r.whole && !Loses(r.chains, r.lwd, |src|) && StaysValid(r.chains, r.lwd, |src|)
  {
    hide Flat, FlatLen, Passed, AddShape, Moving, KeepsSlot, Loses, StaysValid, Skip;
    var r := Moving(cs, n, dst, dlwd);
    PackedMoving(cs, lwd, n, dst, dlwd);
    ShapePacked(r.chains, r.lwd, src, dst', dlwd');
    PackedSkipped(cs, n, at, |src|, after);
  }

  lemma MovingStale(cs: seq<Chain>, n: nat, dst: seq<Chain>, lwd: nat, src: seq<byte>, after: seq<Chain>, lwd': nat)
    requires Slotted(dst, lwd) && !Moving(cs, n, dst, lwd).whole
    requires var r := Moving(cs, n, dst, lwd); AddShape(r.chains, r.lwd, src, after, lwd')
    ensures var r := Moving(cs, n, dst, lwd); !(Flat(after) == Flat(r.chains) + src && IsLastData(after, lwd'))
  {
    hide Flat, AddShape, Gapless;
    var i := Passed(cs, n);
    ShapeStale(Joined(dst, lwd, cs[..i]), lwd, src, after, lwd');
  }

  lemma WholeIfValid(cs: seq<Chain>, n: nat, dst: seq<Chain>, lwd: nat, src: seq<byte>, after: seq<Chain>, lwd': nat)
    requires Slotted(dst, lwd)
    requires var r := Moving(cs, n, dst, lwd); Slotted(r.chains, r.lwd) && AddShape(r.chains, r.lwd, src, after, lwd')
    ensures var r := Moving(cs, n, dst, lwd); Flat(after) == Flat(r.chains) + src && IsLastData(after, lwd') ==> r.whole
  {
    hide Flat, AddShape, Moving;
    if !Moving(cs, n, dst, lwd).whole {
      MovingStale(cs, n, dst, lwd, src, after, lwd');
    }
  }

  /** The last `left` of the first `n` bytes are at the front of chain `at`. */
  lemma MovedBytes(cs: seq<Chain>, at: nat, left: nat, before: seq<byte>, all: seq<byte>, n: nat, now: seq<byte>)
    requires at < |cs| && left < cs[at].off && Flat(cs[..at]) == []
    requires left <= n <= |all| && Flat(cs) == all[n - left..] && now == before + all[..n - left]
    ensures now + Data(cs[at])[..left] == before + all[..n] && all[n - left..][left..] == all[n..]
  {
    hide Flat, Data;
    FlatSplit(cs, at);
    FlatStep(cs, at);
    assert Data(cs[at])[..left] == Flat(cs)[..left] == all[n - left..n];
    assert all[..n] == all[..n - left] + all[n - left..n];
    Assoc(before, all[..n - left], all[n - left..n]);
  }

  lemma DataAt(cs: seq<Chain>, v: nat, j: nat)
    requires v <= j < |cs| && cs[j].off > 0
    ensures FlatLen(cs[v..]) > 0
  {
    FlatSplit(cs[v..], j - v);
    FlatStep(cs[v..], j - v);
    assert cs[v..][j - v] == cs[j];
  }

  lemma PlainShape(cs: seq<Chain>, lwd: nat, src: seq<byte>, after: seq<Chain>, lwd': nat, j: nat)
    requires Slotted(cs, lwd) && AddShape(cs, lwd, src, after, lwd') && cs != [] && !NeedsChain(cs[|cs| - 1], |src|)
    requires lwd < j < |cs| && cs[j].off > 0
    ensures lwd' == lwd && j < |after| && after[j].off > 0
  {
    assert j < |cs| - 1 ==> after[..|cs| - 1][j] == cs[..|cs| - 1][j];
    assert |Data(after[|cs| - 1])| >= cs[|cs| - 1].off;
  }

  // ----- room at the end -----

  /** The room of a chain, once an empty one is realigned. */
  function Usable(c: Chain): nat {
    if c.off > 0 then SpaceLen(c) else |c.mem|
  }

  /** The room in chains p to k, and in how many of them there is some. */
  function Avail(cs: seq<Chain>, p: nat, k: nat): nat
    requires p <= k <= |cs|
  {
    if p == k then 0 else Avail(cs, p, k - 1) + Usable(cs[k - 1])
  }

  function Tally(cs: seq<Chain>, p: nat, k: nat): nat
    requires p <= k <= |cs|
  {
    if p == k then 0 else Tally(cs, p, k - 1) + if Usable(cs[k - 1]) > 0 then 1 else 0
  }

  predicate Aligned(cs: seq<Chain>, p: nat, k: nat)
    requires p <= k <= |cs|
  {
    forall i :: p <= i < k ==> SpaceLen(cs[i]) == Usable(cs[i])
  }

  /** The same chains, perhaps with others behind them. */
  predicate Widened(cs: seq<Chain>, after: seq<Chain>) {
    |cs| <= |after| && forall i :: 0 <= i < |cs| ==> after[i].off == cs[i].off && |after[i].mem| == |cs[i].mem|
  }

  lemma {:induction false} SameRoom(cs: seq<Chain>, after: seq<Chain>, p: nat, k: nat)
    requires p <= k <= |cs| && k <= |after| && forall i :: p <= i < k ==> Usable(after[i]) == Usable(cs[i])
    ensures Avail(after, p, k) == Avail(cs, p, k) && Tally(after, p, k) == Tally(cs, p, k)
  {
    if p < k {
      SameRoom(cs, after, p, k - 1);
    }
  }

  lemma RoomStep(cs: seq<Chain>, p: nat, k: nat)
    requires p <= k < |cs|
    ensures Avail(cs, p, k + 1) == Avail(cs, p, k) + Usable(cs[k])
    ensures Tally(cs, p, k + 1) == Tally(cs, p, k) + if Usable(cs[k]) > 0 then 1 else 0
  {
  }

  lemma {:induction false} TallyGrows(cs: seq<Chain>, p: nat, i: nat, k: nat)
    requires p <= i <= k <= |cs|
    ensures Tally(cs, p, i) <= Tally(cs, p, k)
  {
    if i < k {
      TallyGrows(cs, p, i, k - 1);
    }
  }

  /** The same but for the alignment of empty chains. */
  predicate Resembles(cs: seq<Chain>, after: seq<Chain>) {
    |cs| == |after| && forall i :: 0 <= i < |cs| ==>
      after[i].off == cs[i].off && |after[i].mem| == |cs[i].mem| && (cs[i].off > 0 ==> after[i] == cs[i])
  }

  lemma EmptyAlign(c: Chain)
    requires c.off == 0
    ensures !c.immutable && Data(c.(misalign := 0)) == Data(c) && SpaceLen(c.(misalign := 0)) == Usable(c)
  {
  }

  /** Another chain with the same data changes no bytes. */
  lemma SameFlat(cs: seq<Chain>, p: nat, c: Chain)
    requires p < |cs| && Data(c) == Data(cs[p])
    ensures Flat(cs[p := c]) == Flat(cs)
  {
    hide Flat, Data;
    FlatSplit(cs, p);
    FlatStep(cs, p);
    var after := cs[p := c];
    FlatSplit(after, p);
    FlatStep(after, p);
    assert after[..p] == cs[..p] && after[p + 1..] == cs[p + 1..];
  }

  /** New chains are not much larger than asked for. */
  predicate Modest(cs: seq<Chain>, after: seq<Chain>, n: nat) {
    forall i :: 0 <= i < |after| ==>
      |after[i].mem| <= 2 * n + MIN_BUFFER_SIZE || (i < |cs| && |after[i].mem| == |cs[i].mem|)
  }

  /** Chains lwd to end have room for `n` bytes, in at most `most` of them. */
  predicate HasRoom(cs: seq<Chain>, lwd: nat, end: nat, n: nat, most: nat) {
    lwd <= end <= |cs| && Avail(cs, lwd, end) >= n && Tally(cs, lwd, end) <= most && Aligned(cs, lwd, end)
  }

  lemma SnocRoom(cs: seq<Chain>, p: nat, c: Chain, n: nat, most: nat)
    requires p <= |cs| && Aligned(cs, p, |cs|) && c.off == 0 && c.misalign == 0
    requires Avail(cs, p, |cs|) + |c.mem| >= n && Tally(cs, p, |cs|) < most
    ensures HasRoom(cs + [c], p, |cs| + 1, n, most)
  {
    SameRoom(cs, cs + [c], p, |cs|);
  }

  /** A last data chain and an empty chain behind it, or an empty chain alone. */
  lemma LastRoom(cs: seq<Chain>, lwd: nat, n: nat, most: nat)
    requires cs != [] && lwd <= |cs| - 1 <= lwd + 1 && most >= 2
    requires cs[|cs| - 1].off == 0 && cs[|cs| - 1].misalign == 0 && (lwd < |cs| - 1 ==> cs[lwd].off > 0)
    requires |cs[|cs| - 1].mem| + (if lwd < |cs| - 1 then SpaceLen(cs[lwd]) else 0) >= n
    ensures HasRoom(cs, lwd, |cs|, n, most)
  {
    var k := |cs|;
    assert Avail(cs, lwd, k) == Avail(cs, lwd, k - 1) + Usable(cs[k - 1]);
    assert Tally(cs, lwd, k) <= Tally(cs, lwd, k - 1) + 1;
    if lwd < k - 1 {
      assert Avail(cs, lwd, lwd) == 0 && Tally(cs, lwd, lwd) == 0;
    }
  }

  lemma ResemblesMore(cs: seq<Chain>, mid: seq<Chain>, after: seq<Chain>)
    requires Resembles(cs, mid) && Resembles(mid, after)
    ensures Resembles(cs, after)
  {
  }

  /** One round of that loop: the room in chain `i`, realigned if it is empty, and
      whether it counts as a chain in use. */
  method RoomOf(cs: seq<Chain>, i: nat) returns (after: seq<Chain>, room: nat, counts: bool)
    requires i < |cs|
    ensures Resembles(cs, after) && Flat(after) == Flat(cs)
    ensures room == SpaceLen(after[i]) == Usable(after[i]) && (counts <==> room > 0)
    ensures forall j :: 0 <= j < |cs| && j != i ==> after[j] == cs[j]
  {
    hide Flat, Data;
    after := cs;
    if cs[i].off > 0 {
      room := SpaceLen(cs[i]);
      counts := room > 0;
    } else {
      EmptyAlign(cs[i]);
      SameFlat(cs, i, cs[i].(misalign := 0));
      after := cs[i := cs[i].(misalign := 0)];
      room, counts := |cs[i].mem|, true;
    }
  }

  /** The loop of _evbuffer_expand_fast, which realigns empty chains on its way. */
  method TryRoom(cs: seq<Chain>, lwd: nat, n: nat, most: nat) returns (after: seq<Chain>, avail: nat, used: nat, i: nat)
    requires IsLastData(cs, lwd) && most >= 2 && cs != []
    ensures Resembles(cs, after) && Flat(after) == Flat(cs) && IsLastData(after, lwd)
    ensures lwd <= i <= |after| && (avail >= n ==> HasRoom(after, lwd, i, n, most))
    ensures avail < n && used < most ==>
      i == |after| && Aligned(after, lwd, i) && avail == Avail(after, lwd, i) && Tally(after, lwd, i) < most
    ensures avail < n && used >= most ==> Tally(cs, lwd, |cs|) >= most
    ensures avail < n && cs[lwd].off > 0 ==> SpaceLen(cs[lwd]) < n
  {
    hide Flat, Data, IsLastData, Modest, Widened;
    after, avail, used, i := cs, 0, 0, lwd;
    assert lwd < |cs| by { SlotOfValid(cs, lwd); }
    assert Avail(cs, lwd, lwd) == 0 && Tally(cs, lwd, lwd) == 0;
    hide Avail, Tally, SpaceLen;
    while i < |after|
      invariant Resembles(cs, after) && Flat(after) == Flat(cs) && lwd <= i <= |cs| && Aligned(after, lwd, i)
      invariant avail == Avail(after, lwd, i) && used == Tally(after, lwd, i) < most
      invariant i > lwd ==> Usable(after[lwd]) <= avail < n
    {
      ghost var was := after;
      var room, counts;
      after, room, counts := RoomOf(after, i);
      SameRoom(was, after, lwd, i);
      ResemblesMore(cs, was, after);
      avail, used := avail + room, used + if counts then 1 else 0;
      RoomStep(after, lwd, i);
      i := i + 1;
      if avail >= n || used == most { break; }
    }
    ResemblesLast(cs, after, lwd, n);
    SameRoom(cs, after, lwd, |cs|);
    TallyGrows(after, lwd, i, |cs|);
  }

  lemma SlotOfValid(cs: seq<Chain>, lwd: nat)
    requires IsLastData(cs, lwd)
    ensures Slotted(cs, lwd)
  {
  }

  lemma ResemblesLast(cs: seq<Chain>, after: seq<Chain>, lwd: nat, n: nat)
    requires IsLastData(cs, lwd) && Resembles(cs, after)
    ensures IsLastData(after, lwd) && Widened(cs, after) && Modest(cs, after, n) && |after| == |cs|
    ensures cs != [] && cs[lwd].off > 0 ==> after[lwd] == cs[lwd]
    ensures cs != [] ==> after[lwd].off == cs[lwd].off
  {
  }

  lemma ModestSnoc(cs: seq<Chain>, after: seq<Chain>, n: nat)
    requires 0 < |after| <= |cs| + 1 && after[..|after| - 1] == cs[..|after| - 1]
    requires |after[|after| - 1].mem| <= 2 * n + MIN_BUFFER_SIZE
    ensures Modest(cs, after, n) && (|after| == |cs| + 1 ==> Widened(cs, after))
  {
    assert forall i :: 0 <= i < |after| - 1 ==> after[i] == after[..|after| - 1][i];
  }

  lemma WidenedMore(cs: seq<Chain>, mid: seq<Chain>, after: seq<Chain>, n: nat)
    requires Widened(cs, mid) && |mid| == |cs| && |after| == |mid| + 1 && after[..|mid|] == mid
    requires |after[|mid|].mem| <= 2 * n + MIN_BUFFER_SIZE
    ensures Widened(cs, after) && Modest(cs, after, n)
  {
    assert forall i :: 0 <= i < |mid| ==> after[i] == mid[i];
  }

  lemma ModestMore(cs: seq<Chain>, mid: seq<Chain>, after: seq<Chain>, n: nat)
    requires Modest(cs, mid, n) && Modest(mid, after, n)
    ensures Modest(cs, after, n)
  {
  }

  /** A struct evbuffer_iovec whose base lies in the memory of chain `at`. */
  datatype Iovec = Iovec(at: nat, base: nat, len: nat)

  /** Vector `v` starts at the free space of chain `p` (CHAIN_SPACE_PTR). */
  predicate AtSpace(cs: seq<Chain>, p: nat, v: Iovec)
    requires p < |cs|
  {
    v.at == p && v.base == cs[p].misalign + cs[p].off
  }

  /** The vectors start at the free spaces of the chains from `p` on, and fit. */
  predicate VecsFit(cs: seq<Chain>, p: nat, vecs: seq<Iovec>) {
    && p + |vecs| <= |cs|
    && forall i :: 0 <= i < |vecs| ==> AtSpace(cs, p + i, vecs[i]) && vecs[i].len <= SpaceLen(cs[p + i])
  }

  /** The memory that a list of vectors covers. */
  ghost function Covered(cs: seq<Chain>, p: nat, vecs: seq<Iovec>): seq<byte>
    requires VecsFit(cs, p, vecs)
  {
    if vecs == [] then [] else
      var v := vecs[|vecs| - 1];
      assert forall i :: 0 <= i < |vecs| - 1 ==> vecs[..|vecs| - 1][i] == vecs[i];
      Covered(cs, p, vecs[..|vecs| - 1]) + cs[p + |vecs| - 1].mem[v.base..v.base + v.len]
  }

  lemma CoveredStep(cs: seq<Chain>, p: nat, vecs: seq<Iovec>, i: nat)
    requires VecsFit(cs, p, vecs) && i < |vecs|
    ensures p + i < |cs| && vecs[i].len <= SpaceLen(cs[p + i])
    ensures VecsFit(cs, p, vecs[..i]) && VecsFit(cs, p, vecs[..i + 1]) && AtSpace(cs, p + i, vecs[i])
    ensures var c := cs[p + i]; var b := c.misalign + c.off;
      Covered(cs, p, vecs[..i + 1]) == Covered(cs, p, vecs[..i]) + c.mem[b..b + vecs[i].len]
  {
    assert vecs[..i + 1][..i] == vecs[..i] && vecs[..i + 1][i] == vecs[i];
  }

  lemma CoveredNone(cs: seq<Chain>, p: nat, vecs: seq<Iovec>)
    requires VecsFit(cs, p, vecs)
    ensures VecsFit(cs, p, vecs[..0]) && Covered(cs, p, vecs[..0]) == [] && vecs[..|vecs|] == vecs
  {
  }

  /** One vector that starts at the free space of the last chain. */
  predicate SingleLast(cs: seq<Chain>, vecs: seq<Iovec>) {
    |vecs| == 1 && |cs| > 0 && AtSpace(cs, |cs| - 1, vecs[0])
  }

  lemma OneVec(cs: seq<Chain>, vecs: seq<Iovec>)
    requires SingleLast(cs, vecs)
    ensures VecsFit(cs, |cs| - 1, vecs) <==> vecs[0].len <= SpaceLen(cs[|cs| - 1])
    ensures VecsFit(cs, |cs| - 1, vecs) ==>
      var c := cs[|cs| - 1]; var b := c.misalign + c.off; Covered(cs, |cs| - 1, vecs) == c.mem[b..b + vecs[0].len]
  {
    assert VecsFit(cs, |cs| - 1, vecs) <==> vecs[0].len <= SpaceLen(cs[|cs| - 1]);
    hide Covered, VecsFit;
    if VecsFit(cs, |cs| - 1, vecs) {
      CoveredNone(cs, |cs| - 1, vecs);
      CoveredStep(cs, |cs| - 1, vecs, 0);
      assert vecs[..1] == vecs;
    }
  }

  /** The chain that the first vector has to match. */
  function CommitPlace(cs: seq<Chain>, lwd: nat, vecs: seq<Iovec>): nat {
    if SingleLast(cs, vecs) then |cs| - 1
    else if lwd < |cs| && SpaceLen(cs[lwd]) == 0 then lwd + 1
    else lwd
  }

  /** evbuffer_expand_singlechain takes the chain behind the last data chain, although
      that one has some room. */
  predicate Skips(cs: seq<Chain>, lwd: nat, n: nat) {
    && lwd + 1 < |cs| && cs[lwd].off > 0 && 0 < SpaceLen(cs[lwd]) < n && !ShouldRealign(cs[lwd], n)
    && SpaceLen(cs[lwd + 1]) >= n
  }

  /** The window of a chain after `n` bytes of its free space became data. */
  function Grown(c: Chain, n: nat): (r: Chain)
    requires n <= SpaceLen(c)
    ensures Data(r) == Data(c) + c.mem[c.misalign + c.off..c.misalign + c.off + n]
  {
    c.(off := c.off + n)
  }

  // ----- the buffer -----

  function Min(a: nat, b: nat): nat {
    if a < b then a else b
  }

  class Buffer {
    var chains: seq<Chain>
    var lastWithDatap: nat
    var totalLen: nat
    var freezeStart: bool
    var freezeEnd: bool

    ghost function Contents(): seq<byte>
      reads this
    {
      Flat(chains)
    }

    /** The invariant stated in evbuffer-internal.h. */
    ghost predicate Valid()
      reads this
    {
      totalLen == |Contents()| && IsLastData(chains, lastWithDatap)
    }

    constructor ()
      ensures Valid() && Contents() == [] && chains == [] && !freezeStart && !freezeEnd
    {
      chains, lastWithDatap, totalLen := [], 0, 0;
      freezeStart, freezeEnd := false, false;
    }

    /** The bytes are counted and last_with_datap points at some chain. */
    ghost predicate Counted()
      reads this
    {
      totalLen == |Contents()| && Slotted(chains, lastWithDatap)
    }

    /** Lines 1577-1585 of evbuffer_add: store `src` after the data of the last
        chain.  The bytes are always right; the stated invariant survives exactly
        when no empty chain stood after the last data chain. */
    method ExtendLast(src: seq<byte>)
      requires Counted() && chains != [] && src != []
      requires var c := chains[|chains| - 1]; !c.immutable && |src| <= SpaceLen(c)
      modifies `chains, `totalLen
      ensures Counted() && Contents() == old(Contents()) + src
      ensures chains == old(chains[..|chains| - 1] + [Extend(chains[|chains| - 1], src)])
      ensures old(Valid()) ==> (Valid() <==> Tight(old(chains), lastWithDatap))
    {
      hide Flat, Data, Extend;
      var k := |chains| - 1;
      var c := Extend(chains[k], src);
      FlatSnoc(chains[..k], c);
      FlatLast(chains);
      assert |Data(c)| > 0;
      chains := chains[..k] + [c];
      assert chains[k].off > 0;
      totalLen := totalLen + |src|;
    }

    /** Realign the last chain. */
    method AlignLast()
      requires Counted() && chains != [] && !chains[|chains| - 1].immutable
      modifies `chains
      ensures Counted() && Contents() == old(Contents())
      ensures chains == old(chains[..|chains| - 1] + [Align(chains[|chains| - 1])])
    {
      hide Flat, Data;
      var k := |chains| - 1;
      FlatLast(chains);
      FlatSnoc(chains[..k], Align(chains[k]));
      chains := chains[..k] + [Align(chains[k])];
    }

    /** evbuffer_chain_insert, from any state: `c` takes the place of the first victim
        and of all that stands behind it.  From a state with the stated invariant no
        byte is lost, and the invariant survives exactly when `c` is empty, no chain
        held data, or the last chain did. */
    method ChainInsert(c: Chain)
      requires Slotted(chains, lastWithDatap)
      modifies `chains, `lastWithDatap, `totalLen
      ensures var v := old(Victim(chains, lastWithDatap));
        && chains == old(chains)[..v] + [c] && totalLen == old(totalLen) + c.off
        && Contents() == Flat(old(chains)[..v]) + Data(c)
        && lastWithDatap == (if 0 < v == |old(chains)| && c.off > 0 then v else old(lastWithDatap))
        && (old(Valid()) ==> Counted() && Contents() == old(Contents()) + Data(c))
        && (old(Valid()) ==> (Valid() <==> c.off == 0 || v in {0, |old(chains)|}))
    {
      hide Flat, Data, Victim, IsLastData;
      ghost var v := Victim(chains, lastWithDatap);
      FlatSplit(chains, v);
      FlatSnoc(chains[..v], c);
      if Valid() {
        VictimOfValid(chains, lastWithDatap);
        FlatOfEmpty(chains[v..]);
        InsertValid(chains, lastWithDatap, c);
      }
      totalLen := totalLen + c.off;
      if lastWithDatap >= |chains| {
        assert chains[..v] + [c] == [c];
        chains := [c];
      } else {
        var ch := lastWithDatap;
        while ch < |chains| && chains[ch].off != 0
          invariant lastWithDatap <= ch <= v
        {
          ch := ch + 1;
        }
        if ch == |chains| && c.off > 0 {
          lastWithDatap := ch;
        }
        chains := chains[..ch] + [c];
      }
    }

    /** Lines 1602-1626 of evbuffer_add: fill the last chain up and put the rest
        of `src` in a new one. */
    method AddInNewChain(src: seq<byte>)
      requires Counted() && chains != [] && NeedsChain(chains[|chains| - 1], |src|)
      modifies `chains, `lastWithDatap, `totalLen
      ensures AddShape(old(chains), old(lastWithDatap), src, chains, lastWithDatap)
      ensures totalLen == old(totalLen) + |src|
    {
      hide Flat, Data, Extend, Victim;
      var last := chains[|chains| - 1];
      var tmp := ChainFor(last, |src|);
      var remain := SpaceLen(last);
      assert chains == chains[..|chains| - 1] + [last];
      if remain > 0 {
        ExtendLast(src[..remain]);
      }
      assert chains == Filled(old(chains), src);
      hide Filled, Grows;
      ChainInsert(Extend(tmp, src[remain..]));
    }

    /** evbuffer_add, on every buffer.  The bytes of `src` are appended exactly when
        Loses does not hold; otherwise the first of them, which went to the last
        chain, are thrown away with it.  Where the stated invariant holds before, it
        holds after exactly when StaysValid says so. */
    method Add(src: seq<byte>) returns (ret: int)
      requires Counted()
      modifies this
      ensures freezeStart == old(freezeStart) && freezeEnd == old(freezeEnd)
      ensures ret == if old(freezeEnd || |src| > EV_SIZE_MAX - totalLen) then -1 else 0
      ensures ret == -1 ==> chains == old(chains) && lastWithDatap == old(lastWithDatap) && totalLen == old(totalLen)
      ensures ret == 0 ==> AddShape(old(chains), old(lastWithDatap), src, chains, lastWithDatap)
      ensures ret == 0 ==> totalLen == old(totalLen) + |src|
      ensures ret == 0 ==> (Contents() == old(Contents()) + src <==> !Loses(old(chains), old(lastWithDatap), |src|))
      ensures ret == 0 ==> (Counted() <==> !Loses(old(chains), old(lastWithDatap), |src|))
      ensures ret == 0 && Loses(old(chains), old(lastWithDatap), |src|) ==>
        var last := old(chains)[|old(chains)| - 1];
        Contents() == Flat(old(chains)[..Victim(old(chains), old(lastWithDatap))]) + src[SpaceLen(last)..]
      ensures ret == 0 && old(Valid()) ==> (Valid() <==> StaysValid(old(chains), old(lastWithDatap), |src|))
    {
      hide Flat, Data, Extend, Align, Victim, AddShape, Loses, StaysValid;
      if freezeEnd || |src| > EV_SIZE_MAX - totalLen { return -1; }
      AddBytes(src);
      ShapeContents(old(chains), old(lastWithDatap), src, chains, lastWithDatap);
      if old(Valid()) {
        ShapeValid(old(chains), old(lastWithDatap), src, chains, lastWithDatap);
      }
      return 0;
    }

    method AddBytes(src: seq<byte>)
      requires Counted()
      modifies `chains, `lastWithDatap, `totalLen
      ensures AddShape(old(chains), old(lastWithDatap), src, chains, lastWithDatap)
      ensures totalLen == old(totalLen) + |src|
    {
      hide Flat, Data, Extend, Align, Victim;
      if |chains| == 0 {
        FirstChain(src);
        return;
      }
      var k := |chains| - 1;
      var remain := SpaceLen(chains[k]);
      assert chains == chains[..k] + [chains[k]];
      if !chains[k].immutable {
        if remain >= |src| {
          if src != [] {
            ExtendLast(src);
          } else {
            assert Data(chains[k]) == Data(chains[k]) + src;
          }
          return;
        } else if ShouldRealign(chains[k], |src|) {
          AlignLast();
          ExtendLast(src);
          return;
        }
      }
      AddInNewChain(src);
    }

    /** Lines 1566-1585 of evbuffer_add, on a buffer without chains. */
    method FirstChain(src: seq<byte>)
      requires Counted() && chains == []
      modifies `chains, `lastWithDatap, `totalLen
      ensures AddShape([], 0, src, chains, lastWithDatap) && totalLen == old(totalLen) + |src|
    {
      hide Flat, Data, Extend;
      FlatOfEmpty([]);
      var c := NewChain(|src|);
      ChainInsert(c);
      assert chains == [c];
      FlatOne(c);
      if src != [] {
        ExtendLast(src);
        assert chains == [Extend(c, src)];
      }
    }

    /** evbuffer_add_reference, for memory that is not empty */
    method AddReference(memory: seq<byte>) returns (ret: int)
      requires Valid() && memory != []
      modifies this
      ensures freezeStart == old(freezeStart) && freezeEnd == old(freezeEnd)
      ensures ret == if old(freezeEnd) then -1 else 0
      ensures ret == 0 ==> Contents() == old(Contents()) + memory
      ensures ret == -1 ==> chains == old(chains) && Valid()
      ensures ret == 0 ==> Counted() && (Valid() <==> old(Victim(chains, lastWithDatap)) in {0, |old(chains)|})
      ensures old(Tight(chains, lastWithDatap)) ==>
        Valid() && Tight(chains, lastWithDatap) && (old(Packed(chains)) ==> Packed(chains))
    {
      hide Flat;
      if freezeEnd { return -1; }
      VictimOfValid(chains, lastWithDatap);
      ChainInsert(ChainRec(true, memory, 0, |memory|));
      return 0;
    }

    /** Put `c`, which holds `pre` before the same data, for the first chain. */
    method GrowFirst(c: Chain, ghost pre: seq<byte>)
      requires Valid() && chains != [] && Data(c) == pre + Data(chains[0])
      modifies `chains, `totalLen
      ensures Valid() && chains == [c] + old(chains[1..]) && (pre != [] ==> c.off > 0)
      ensures Contents() == pre + old(Contents())
    {
      hide Flat, Data;
      FlatCons(chains[0], chains[1..]);
      FlatCons(c, chains[1..]);
      assert chains == [chains[0]] + chains[1..];
      totalLen := totalLen - chains[0].off + c.off;
      chains := [c] + chains[1..];
    }

    /** evbuffer_prepend */
    method Prepend(src: seq<byte>) returns (ret: int)
      requires Valid()
      modifies this
      ensures Valid() && freezeStart == old(freezeStart) && freezeEnd == old(freezeEnd)
      ensures ret == if old(freezeStart || |src| > EV_SIZE_MAX - totalLen) then -1 else 0
      ensures ret == 0 ==> Contents() == src + old(Contents())
      ensures ret == -1 ==> chains == old(chains)
      ensures old(Tight(chains, lastWithDatap)) ==> Tight(chains, lastWithDatap)
      ensures old(Packed(chains)) && (src != [] || old(Owned(chains))) ==> Packed(chains)
      ensures old(Owned(chains)) ==> Owned(chains)
    {
      hide Flat, Data, Retract, Victim;
      if freezeStart || |src| > EV_SIZE_MAX - totalLen { return -1; }
      if |chains| == 0 {
        var c := NewChain(|src|);
        FlatOne(c);
        ChainInsert(c);
        assert chains == [c];
      }
      var c := chains[0];
      var n := |src|;
      if !c.immutable {
        if c.off == 0 { c := c.(misalign := |c.mem|); }
        assert Data(c) == Data(chains[0]);
        if c.misalign >= n {
          GrowFirst(Retract(c, src), src);
          return 0;
        } else if c.misalign > 0 {
          n := n - c.misalign;
          GrowFirst(Retract(c, src[n..]), src[n..]);
          assert src == src[..n] + src[n..];
        }
      }
      PushFirst(src[..n]);
      return 0;
    }

    /** The end of evbuffer_prepend: a new chain in front for what is left. */
    method PushFirst(src: seq<byte>)
      requires Valid() && chains != [] && chains[0].off > 0
      modifies `chains, `lastWithDatap, `totalLen
      ensures Valid() && Contents() == src + old(Contents())
      ensures old(Tight(chains, lastWithDatap)) ==> Tight(chains, lastWithDatap)
      ensures old(Packed(chains)) && src != [] ==> Packed(chains)
      ensures old(Owned(chains)) ==> Owned(chains)
    {
      hide Flat, Data, Retract;
      var tmp := NewChain(|src|);
      tmp := Retract(tmp.(misalign := |tmp.mem|), src);
      FlatCons(tmp, chains);
      chains := [tmp] + chains;
      lastWithDatap := lastWithDatap + 1;  // &tmp->next for &buf->first; later places move up
      totalLen := totalLen + |src|;
    }

    /** ZERO_CHAIN */
    method ZeroChain()
      modifies `chains, `lastWithDatap, `totalLen
      ensures Valid() && chains == [] && Contents() == []
    {
      chains, lastWithDatap, totalLen := [], 0, 0;
    }

    /** The loop of evbuffer_drain and evbuffer_remove_buffer: the number of
        chains that lie wholly in the first `n` bytes, the bytes to take from the
        next one, and last_with_datap, moved to &buf->first if its chain goes. */
    method FindCut(n: nat) returns (i: nat, left: nat, slot: nat)
      requires Valid() && n < totalLen
      ensures i <= lastWithDatap < |chains| && left < chains[i].off
      ensures Flat(chains) == Flat(chains[..i]) + Flat(chains[i..]) && |Flat(chains[..i])| + left == n
      ensures i == 0 ==> left == n
      ensures i == Passed(chains, n)
      ensures slot == if i == lastWithDatap then 0 else lastWithDatap
    {
      hide Flat, Data, Passed;
      i, left, slot := 0, n, lastWithDatap;
      FlatStart(chains);
      while left >= chains[i].off
        invariant i <= lastWithDatap < |chains|
        invariant left < |Flat(chains[i..])| && Flat(chains) == Flat(chains[..i]) + Flat(chains[i..])
        invariant |Flat(chains[..i])| + left == n && (i == 0 ==> left == n)
        invariant Passed(chains, n) == i + Passed(chains[i..], left)
        invariant slot == if i == lastWithDatap then 0 else lastWithDatap
        decreases |chains| - i
      {
        FlatStep(chains, i);
        FlatFromLast(chains, lastWithDatap);
        PassedStep(chains, i, left);
        left := left - chains[i].off;
        // chain != *last_with_datap: without pinned chains the last data stays
        if i + 1 == slot { slot := 0; }
        i := i + 1;
      }
      PassedStep(chains, i, left);
    }

    /** Unlink the chains that lie wholly in the first `n` bytes. */
    method CutFront(n: nat) returns (moved: seq<Chain>, left: nat)
      requires Valid() && n < totalLen
      modifies `chains, `lastWithDatap, `totalLen
      ensures Valid() && old(chains) == moved + chains && chains != [] && left < chains[0].off
      ensures left <= n && (moved == [] ==> left == n)
      ensures Flat(moved) == old(Contents())[..n - left] && Contents() == old(Contents())[n - left..]
      ensures old(Tight(chains, lastWithDatap)) ==> Tight(chains, lastWithDatap)
      ensures old(Packed(chains)) ==> Packed(chains) && forall j :: 0 <= j < |moved| ==> moved[j].off > 0
      ensures old(Owned(chains)) ==> Owned(chains) && Owned(moved)
    {
      hide Flat, Data, Packed, Owned;
      var i, rest, slot := FindCut(n);
      left := rest;
      PackedCut(chains, i);
      moved, chains := chains[..i], chains[i..];
      lastWithDatap := if slot == 0 then 0 else slot - i;
      totalLen := totalLen - (n - left);
    }

    /** Advanced the window of the first chain by `n` bytes, not emptying it. */
    method SkipFirst(n: nat)
      requires Valid() && chains != [] && n < chains[0].off
      modifies `chains, `totalLen
      ensures Valid() && chains == [Skip(old(chains[0]), n)] + old(chains[1..]) && chains[0].off > 0
      ensures n <= |old(Contents())| && Contents() == old(Contents())[n..]
      ensures old(Packed(chains)) ==> Packed(chains)
      ensures old(Owned(chains)) ==> Owned(chains)
    {
      hide Flat, Data;
      var c := Skip(chains[0], n);
      FlatCons(chains[0], chains[1..]);
      FlatCons(c, chains[1..]);
      assert chains == [chains[0]] + chains[1..];
      chains := [c] + chains[1..];
      totalLen := totalLen - n;
    }

    /** evbuffer_drain */
    method Drain(n: nat) returns (ret: int)
      requires Valid()
      modifies this
      ensures Valid() && freezeStart == old(freezeStart) && freezeEnd == old(freezeEnd)
      ensures ret == if old(freezeStart && totalLen > 0) then -1 else 0
      ensures ret == 0 ==> Contents() == old(Contents()[Min(n, |Contents()|)..])
      ensures ret == -1 ==> chains == old(chains)
      ensures old(Tight(chains, lastWithDatap)) ==> Tight(chains, lastWithDatap)
      ensures old(Packed(chains)) ==> Packed(chains)
      ensures old(Owned(chains)) ==> Owned(chains)
    {
      hide Flat, Data, Skip;
      if totalLen == 0 { return 0; }
      if freezeStart { return -1; }
      if n >= totalLen {
        ZeroChain();
      } else {
        var _, left := CutFront(n);
        SkipFirst(left);
      }
      return 0;
    }

    /** evbuffer_copyout: `out` is what arrives in data_out. */
    method CopyOut(n: nat) returns (ret: int, out: seq<byte>)
      requires Valid()
      ensures ret == if freezeStart && Min(n, totalLen) > 0 then -1 else Min(n, totalLen)
      ensures ret >= 0 ==> out == Contents()[..ret]
    {
      hide Flat, Data;
      var left, i: nat := Min(n, totalLen), 0;
      out := [];
      if left == 0 { return 0, out; }
      if freezeStart { return -1, out; }
      ret := left;
      FlatStart(chains);
      while 0 < left && left >= chains[i].off
        invariant i <= |chains| && out == Flat(chains[..i]) && Flat(chains) == out + Flat(chains[i..])
        invariant 0 <= left <= |Flat(chains[i..])| && ret == |out| + left
        invariant left > 0 ==> i < |chains|
        decreases |chains| - i
      {
        FlatStep(chains, i);
        out := out + Data(chains[i]);
        left := left - chains[i].off;
        i := i + 1;
        if i == |chains| { FlatEnd(chains); }
      }
      if left > 0 {
        FlatStep(chains, i);
        out := out + Data(chains[i])[..left];
      }
    }

    /** evbuffer_remove */
    method Remove(n: nat) returns (ret: int, out: seq<byte>)
      requires Valid()
      modifies this
      ensures Valid() && freezeStart == old(freezeStart) && freezeEnd == old(freezeEnd)
      ensures ret == if old(freezeStart && Min(n, totalLen) > 0) then -1 else old(Min(n, totalLen))
      ensures ret >= 0 ==> out == old(Contents())[..ret] && Contents() == old(Contents())[ret..]
      ensures ret == -1 ==> chains == old(chains)
      ensures old(Tight(chains, lastWithDatap)) ==> Tight(chains, lastWithDatap)
      ensures old(Packed(chains)) ==> Packed(chains)
      ensures old(Owned(chains)) ==> Owned(chains)
    {
      ret, out := CopyOut(n);
      if ret > 0 {
        var _ := Drain(ret);
      }
    }

    /** COPY_CHAIN, APPEND_CHAIN (`front` false) and PREPEND_CHAIN (`front` true) */
    method TakeChains(other: Buffer, front: bool)
      requires Valid() && other.Valid() && other != this && other.totalLen > 0
      modifies `chains, `lastWithDatap, `totalLen
      ensures Valid()
      ensures var mine := if old(totalLen) == 0 then [] else old(chains);
        chains == if front then other.chains + mine else mine + other.chains
      ensures Contents() == if front then other.Contents() + old(Contents()) else old(Contents()) + other.Contents()
      ensures (if front && old(totalLen) > 0 then old(Tight(chains, lastWithDatap))
               else Tight(other.chains, other.lastWithDatap)) ==> Tight(chains, lastWithDatap)
    {
      hide Flat;
      HasData(chains, lastWithDatap);
      HasData(other.chains, other.lastWithDatap);
      FlatConcat(chains, other.chains);
      FlatConcat(other.chains, chains);
      if totalLen == 0 {
        chains, lastWithDatap := other.chains, other.lastWithDatap;
      } else if front {
        lastWithDatap := if lastWithDatap == 0 then |other.chains| else |other.chains| + lastWithDatap;
        chains := other.chains + chains;
      } else {
        lastWithDatap := if other.lastWithDatap == 0 then |chains| else |chains| + other.lastWithDatap;
        chains := chains + other.chains;
      }
      totalLen := totalLen + other.totalLen;
    }

    /** evbuffer_add_buffer */
    method AddBuffer(inbuf: Buffer) returns (ret: int)
      requires Valid() && inbuf.Valid()
      modifies this, inbuf
      ensures Valid() && inbuf.Valid()
      ensures freezeStart == old(freezeStart) && freezeEnd == old(freezeEnd)
      ensures inbuf.freezeStart == old(inbuf.freezeStart) && inbuf.freezeEnd == old(inbuf.freezeEnd)
      ensures ret == if old(inbuf.totalLen > 0 && inbuf != this && (freezeEnd || inbuf.freezeStart)) then -1 else 0
      ensures ret == 0 && inbuf != this ==> Contents() == old(Contents() + inbuf.Contents()) && inbuf.Contents() == []
      ensures ret == -1 || inbuf == this ==> chains == old(chains) && inbuf.chains == old(inbuf.chains)
      ensures old(Tight(chains, lastWithDatap) && Tight(inbuf.chains, inbuf.lastWithDatap))
        ==> Tight(chains, lastWithDatap) && Tight(inbuf.chains, inbuf.lastWithDatap)
      ensures old(Packed(inbuf.chains)) ==> Packed(inbuf.chains) && (old(Packed(chains)) ==> Packed(chains))
      ensures old(Owned(chains) && Owned(inbuf.chains)) ==> Owned(chains) && Owned(inbuf.chains)
    {
      hide Flat;
      if inbuf.totalLen == 0 || inbuf == this { return 0; }
      if freezeEnd || inbuf.freezeStart { return -1; }
      PackedData(chains);
      PackedData(inbuf.chains);
      TakeChains(inbuf, false);
      inbuf.ZeroChain();
      return 0;
    }

    /** evbuffer_prepend_buffer */
    method PrependBuffer(inbuf: Buffer) returns (ret: int)
      requires Valid() && inbuf.Valid()
      modifies this, inbuf
      ensures Valid() && inbuf.Valid()
      ensures freezeStart == old(freezeStart) && freezeEnd == old(freezeEnd)
      ensures inbuf.freezeStart == old(inbuf.freezeStart) && inbuf.freezeEnd == old(inbuf.freezeEnd)
      ensures ret == if old(inbuf.totalLen > 0 && inbuf != this && (freezeStart || inbuf.freezeStart)) then -1 else 0
      ensures ret == 0 && inbuf != this ==> Contents() == old(inbuf.Contents() + Contents()) && inbuf.Contents() == []
      ensures ret == -1 || inbuf == this ==> chains == old(chains) && inbuf.chains == old(inbuf.chains)
      ensures old(Tight(chains, lastWithDatap) && Tight(inbuf.chains, inbuf.lastWithDatap))
        ==> Tight(chains, lastWithDatap) && Tight(inbuf.chains, inbuf.lastWithDatap)
      ensures old(Packed(chains) && Packed(inbuf.chains)) ==> Packed(chains) && Packed(inbuf.chains)
      ensures old(Owned(chains) && Owned(inbuf.chains)) ==> Owned(chains) && Owned(inbuf.chains)
    {
      hide Flat;
      if inbuf.totalLen == 0 || inbuf == this { return 0; }
      if freezeStart || inbuf.freezeStart { return -1; }
      PackedData(chains);
      PackedData(inbuf.chains);
      TakeChains(inbuf, true);
      inbuf.ZeroChain();
      return 0;
    }

    /** Lines 1140-1157 of evbuffer_remove_buffer, on the receiving buffer: free its
        empty chains, append `moved`, and advance_last_with_data, which stops at an
        empty chain.  The stated invariant survives exactly when no data stands
        behind an empty chain there. */
    method Adopt(moved: seq<Chain>)
      requires Valid() && moved != []
      modifies `chains, `lastWithDatap, `totalLen
      ensures chains == old(Joined(chains, lastWithDatap, moved)) && lastWithDatap == Advanced(chains, old(lastWithDatap))
      ensures Counted() && Contents() == old(Contents()) + Flat(moved)
      ensures Valid() <==> Gapless(chains, old(lastWithDatap))
    {
      hide Flat, FlatLen, Victim, Advanced, Gapless;
      JoinedFlat(chains, lastWithDatap, moved);
      hide IsLastData;
      totalLen := totalLen + FlatLen(moved);
      chains := chains[..Victim(chains, lastWithDatap)] + moved;
      hide Joined;
      ghost var lwd := lastWithDatap;
      while lastWithDatap + 1 < |chains| && chains[lastWithDatap + 1].off > 0
        invariant lwd <= lastWithDatap < |chains| && Advanced(chains, lwd) == Advanced(chains, lastWithDatap)
        modifies `lastWithDatap
      {
        AdvancedStep(chains, lastWithDatap);
        lastWithDatap := lastWithDatap + 1;
      }
      AdvancedStep(chains, lastWithDatap);
      GaplessIsLast(chains, lwd);
    }

    /** Lines 1126-1153 of evbuffer_remove_buffer, on the source: unlink the chains
        that lie wholly in the first `n` bytes, unless none of them has data.  In that
        case last_with_datap has been reset all the same. */
    method PassFront(n: nat) returns (moved: seq<Chain>, at: nat, left: nat)
      requires Valid() && n < totalLen
      modifies `chains, `lastWithDatap, `totalLen
      ensures var i := Passed(old(chains), n);
        && i <= |old(chains)| && left + FlatLen(old(chains)[..i]) == n
        && (left < n ==> moved == old(chains)[..i] && chains == old(chains)[i..] && at == 0 && Valid())
        && (left == n ==> moved == [] && chains == old(chains) && at == i)
        && (IsLastData(chains, lastWithDatap) <==> !(left == n && 0 < i == old(lastWithDatap)))
      ensures Counted() && at < |chains| && left < chains[at].off && Flat(chains[..at]) == []
      ensures left <= n && Flat(moved) == old(Contents())[..n - left] && Contents() == old(Contents())[n - left..]
    {
      hide Flat, Data;
      var i, rest, slot := FindCut(n);
      left := rest;
      if left < n {
        FlatStart(chains[i..]);
        moved, chains, at := chains[..i], chains[i..], 0;
        lastWithDatap := if slot == 0 then 0 else slot - i;
        totalLen := totalLen - (n - left);
      } else {
        FlatOfEmpty([]);
        moved, lastWithDatap, at := [], slot, i;
      }
    }

    /** Advanced the window of chain `at`, the first with data, by `n` bytes. */
    method SkipAt(at: nat, n: nat)
      requires Counted() && at < |chains| && n < chains[at].off && Flat(chains[..at]) == []
      modifies `chains, `totalLen
      ensures chains == old(chains)[at := Skip(old(chains[at]), n)] && chains[at].off > 0
      ensures Counted() && n <= |old(Contents())| && Contents() == old(Contents())[n..]
      ensures IsLastData(chains, lastWithDatap) <==> IsLastData(old(chains), lastWithDatap)
    {
      hide Flat, Data;
      var c := Skip(chains[at], n);
      FlatSplit(chains, at);
      FlatStep(chains, at);
      ghost var after := chains[at := c];
      FlatSplit(after, at);
      FlatStep(after, at);
      assert after[..at] == chains[..at] && after[at + 1..] == chains[at + 1..];
      chains := chains[at := c];
      totalLen := totalLen - n;
    }

    /** Lines 1126-1176 of evbuffer_remove_buffer: move `n` bytes of more.  The source
        is always left with the right bytes. */
    method MoveFront(dst: Buffer, n: nat)
      requires Valid() && dst.Valid() && dst != this && 0 < n < totalLen && !dst.freezeEnd
      requires |Contents()| + |dst.Contents()| <= EV_SIZE_MAX
      modifies `chains, `lastWithDatap, `totalLen, dst
      ensures dst.freezeStart == old(dst.freezeStart) && dst.freezeEnd == old(dst.freezeEnd)
      ensures Counted() && Contents() == old(Contents())[n..]
      ensures Valid() <==> KeepsSlot(old(chains), old(lastWithDatap), n)
      ensures var r := Moving(old(chains), n, old(dst.chains), old(dst.lastWithDatap));
        && (dst.Contents() == old(dst.Contents()) + old(Contents())[..n] <==> !Loses(r.chains, r.lwd, r.left))
        && (dst.Valid() <==> r.whole && StaysValid(r.chains, r.lwd, r.left))
      ensures AllPacked(old(chains), old(dst.chains)) ==>
        && Valid() && dst.Valid() && AllPacked(chains, dst.chains)
        && dst.Contents() == old(dst.Contents()) + old(Contents())[..n]
    {
      hide Flat, Data, Skip, AddShape, Loses, StaysValid, Victim, FlatLen, IsLastData, Moving, KeepsSlot, Passed, AllPacked;
      ghost var lwd := dst.lastWithDatap;
      ghost var at, bytes := MoveBytes(dst, n);
      if AllPacked(old(chains), old(dst.chains)) {
        PackedMove(old(chains), old(lastWithDatap), n, at, chains, old(dst.chains), lwd, bytes, dst.chains, dst.lastWithDatap);
      }
    }

    /** Whole chains, then part of one. */
    method MoveBytes(dst: Buffer, n: nat) returns (ghost at: nat, ghost bytes: seq<byte>)
      requires Valid() && dst.Valid() && dst != this && 0 < n < totalLen && !dst.freezeEnd
      requires |Contents()| + |dst.Contents()| <= EV_SIZE_MAX
      modifies `chains, `lastWithDatap, `totalLen, dst
      ensures dst.freezeStart == old(dst.freezeStart) && dst.freezeEnd == old(dst.freezeEnd)
      ensures Counted() && Contents() == old(Contents())[n..]
      ensures Valid() <==> KeepsSlot(old(chains), old(lastWithDatap), n)
      ensures var r := Moving(old(chains), n, old(dst.chains), old(dst.lastWithDatap));
        && (dst.Contents() == old(dst.Contents()) + old(Contents())[..n] <==> !Loses(r.chains, r.lwd, r.left))
        && (dst.Valid() <==> r.whole && StaysValid(r.chains, r.lwd, r.left))
        && r.left == |bytes| && AddShape(r.chains, r.lwd, bytes, dst.chains, dst.lastWithDatap)
      ensures var i := Passed(old(chains), n); var mid := if |bytes| < n then old(chains)[i..] else old(chains);
        && |bytes| + FlatLen(old(chains)[..i]) == n && at == (if |bytes| < n then 0 else i)
        && at < |mid| && |bytes| < mid[at].off && chains == mid[at := Skip(mid[at], |bytes|)]
    {
      assert Slotted(dst.chains, dst.lastWithDatap);
      hide Flat, Data, Skip, AddShape, Loses, StaysValid, Victim, FlatLen, IsLastData, Moving, KeepsSlot, Passed, Slotted;
      ghost var all, before, lwd := Contents(), dst.Contents(), dst.lastWithDatap;
      var place, left := MoveChains(dst, n);
      at, bytes := place, Data(chains[place])[..left];
      MovedBytes(chains, place, left, before, all, n, dst.Contents());
      MoveRest(dst, place, left);
      WholeIfValid(old(chains), n, old(dst.chains), lwd, bytes, dst.chains, dst.lastWithDatap);
    }

    /** The copying of the bytes that are part of a chain. */
    method MoveRest(dst: Buffer, at: nat, left: nat)
      requires Counted() && dst.Counted() && dst != this && !dst.freezeEnd && left <= EV_SIZE_MAX - dst.totalLen
      requires at < |chains| && left < chains[at].off && Flat(chains[..at]) == []
      modifies `chains, `totalLen, dst
      ensures dst.freezeStart == old(dst.freezeStart) && dst.freezeEnd == old(dst.freezeEnd)
      ensures chains == old(chains)[at := Skip(old(chains[at]), left)] && chains[at].off > 0
      ensures Counted() && left <= |old(Contents())| && Contents() == old(Contents())[left..]
      ensures IsLastData(chains, lastWithDatap) <==> IsLastData(old(chains), lastWithDatap)
      ensures var bytes := Data(old(chains[at]))[..left];
        && AddShape(old(dst.chains), old(dst.lastWithDatap), bytes, dst.chains, dst.lastWithDatap)
        && (dst.Contents() == old(dst.Contents()) + bytes <==> !Loses(old(dst.chains), old(dst.lastWithDatap), left))
      ensures dst.Valid() ==> dst.Contents() == old(dst.Contents()) + Data(old(chains[at]))[..left]
      ensures old(dst.Valid()) ==> (dst.Valid() <==> StaysValid(old(dst.chains), old(dst.lastWithDatap), left))
    {
      hide Flat, Skip, AddShape, Loses, StaysValid, Victim, IsLastData;
      var _ := dst.Add(Data(chains[at])[..left]);
      if dst.Valid() {
        SlotOfValid(dst.chains, dst.lastWithDatap);
      }
      SkipAt(at, left);
    }

    /** The moving of whole chains. */
    method MoveChains(dst: Buffer, n: nat) returns (at: nat, left: nat)
      requires Valid() && dst.Valid() && dst != this && 0 < n < totalLen
      modifies `chains, `lastWithDatap, `totalLen, dst`chains, dst`lastWithDatap, dst`totalLen
      ensures Counted() && at < |chains| && left < chains[at].off && Flat(chains[..at]) == []
      ensures left <= n && Contents() == old(Contents())[n - left..]
      ensures IsLastData(chains, lastWithDatap) <==> KeepsSlot(old(chains), old(lastWithDatap), n)
      ensures var r := Moving(old(chains), n, old(dst.chains), old(dst.lastWithDatap));
        && dst.chains == r.chains && dst.lastWithDatap == r.lwd && left == r.left && (dst.Valid() <==> r.whole)
      ensures dst.Counted() && dst.Contents() == old(dst.Contents()) + old(Contents())[..n - left]
      ensures var i := Passed(old(chains), n);
        && i <= |old(chains)| && left + FlatLen(old(chains)[..i]) == n && at == (if left < n then 0 else i)
        && chains == if left < n then old(chains)[i..] else old(chains)
    {
      assert Slotted(dst.chains, dst.lastWithDatap);
      hide Flat, Data, Victim, FlatLen, Gapless, Passed;
      var moved;
      moved, at, left := PassFront(n);
      if moved != [] {
        dst.Adopt(moved);
      }
    }

    /** evbuffer_remove_buffer, between any two buffers with the stated invariant.  The
        source always has the right bytes left; what can go wrong is said exactly. */
    method RemoveBuffer(dst: Buffer, n: nat) returns (ret: int)
      requires Valid() && dst.Valid()
      requires |Contents()| + |dst.Contents()| <= EV_SIZE_MAX
      modifies this, dst
      ensures freezeStart == old(freezeStart) && freezeEnd == old(freezeEnd)
      ensures dst.freezeStart == old(dst.freezeStart) && dst.freezeEnd == old(dst.freezeEnd)
      ensures ret == if n == 0 || dst == this then 0 else if old(dst.freezeEnd || freezeStart) then -1 else Min(n, old(totalLen))
      ensures ret == -1 || n == 0 || dst == this ==>
        chains == old(chains) && dst.chains == old(dst.chains) && Valid() && dst.Valid()
      ensures ret >= 0 && dst != this ==> Counted() && Contents() == old(Contents())[ret..]
      ensures ret >= 0 && dst != this && n >= old(totalLen) ==>
        Valid() && dst.Valid() && dst.Contents() == old(dst.Contents()) + old(Contents())
      ensures ret > 0 && n < old(totalLen) ==>
        var r := Moving(old(chains), n, old(dst.chains), old(dst.lastWithDatap));
        && (Valid() <==> KeepsSlot(old(chains), old(lastWithDatap), n))
        && (dst.Contents() == old(dst.Contents()) + old(Contents())[..n] <==> !Loses(r.chains, r.lwd, r.left))
        && (dst.Valid() <==> r.whole && StaysValid(r.chains, r.lwd, r.left))
      ensures AllPacked(old(chains), old(dst.chains)) ==>
        && Valid() && dst.Valid() && AllPacked(chains, dst.chains)
        && (ret >= 0 && dst != this ==> dst.Contents() == old(dst.Contents()) + old(Contents())[..ret])
    {
      hide Flat, Moving, KeepsSlot, Loses, StaysValid, Victim;
      if n == 0 || dst == this { return 0; }
      if dst.freezeEnd || freezeStart { return -1; }
      if n >= totalLen {
        ret := totalLen;
        var _ := dst.AddBuffer(this);
        return;
      }
      MoveFront(dst, n);
      return n;
    }

    /** The copying loop of evbuffer_pullup: `tmp` ends up with the data of the
        first `i` chains; `left` bytes are to come from chain `i`. */
    method Gather(size: nat) returns (tmp: Chain, i: nat, left: nat, removedData: bool, removedSlot: bool)
      requires Valid() && chains != [] && chains[0].off < size <= totalLen
      ensures i <= |chains| && Flat(chains) == Flat(chains[..i]) + Flat(chains[i..])
      ensures !tmp.immutable && Data(tmp) == Flat(chains[..i])
      ensures tmp.off + left == size && left <= SpaceLen(tmp) && left <= |Flat(chains[i..])|
      ensures i < |chains| ==> left < chains[i].off
      ensures lastWithDatap > 0 && (removedData <==> lastWithDatap < i)
      ensures lastWithDatap == i && !removedSlot ==> i == 1
      ensures removedSlot ==> lastWithDatap <= i
    {
      hide Flat, Data, Extend;
      var cs, lwd := chains, lastWithDatap;
      HasData(cs, lwd);
      FlatFromLast(cs, lwd);
      FlatStep(cs, 0);
      FlatStart(cs);
      hide IsLastData;
      tmp, i, removedData, removedSlot := cs[0], 1, false, false;
      if |tmp.mem| - tmp.misalign < size {
        tmp := NewChain(size);
        i := 0;
      }
      ghost var start := i;
      left := size - tmp.off;
      while i < |cs| && left >= cs[i].off
        invariant start <= i <= |cs|
        invariant !tmp.immutable && Data(tmp) == Flat(cs[..i])
        invariant tmp.off + left == size && left <= SpaceLen(tmp) && left <= |Flat(cs[i..])|
        invariant removedData <==> lwd < i
        invariant removedSlot <==> start < lwd <= i
      {
        FlatStep(cs, i);
        tmp := Extend(tmp, Data(cs[i]));
        left := left - cs[i].off;
        if i == lwd { removedData := true; }
        if i + 1 == lwd { removedSlot := true; }
        i := i + 1;
      }
      FlatSplit(cs, i);
    }

    /** evbuffer_pullup; the result says whether a pointer is returned. */
    method Pullup(want: int) returns (ok: bool)
      requires Valid()
      modifies `chains, `lastWithDatap
      ensures Valid() && Contents() == old(Contents())
      ensures var size := if want < 0 then totalLen else want;
        && ok == (0 < size <= totalLen)
        && (ok ==> chains != [] && size <= chains[0].off && Data(chains[0]) <= Contents())
        && (!ok ==> chains == old(chains))
      ensures old(Tight(chains, lastWithDatap)) ==> Tight(chains, lastWithDatap)
      ensures old(Packed(chains)) ==> Packed(chains)
      ensures old(Owned(chains)) ==> Owned(chains)
    {
      hide Flat, Data, Extend, Skip;
      var size := if want < 0 then totalLen else want;
      if size == 0 || size > totalLen { return false; }
      HasData(chains, lastWithDatap);
      if chains[0].off >= size {
        HeadData(chains);
        return true;
      }
      var tmp, i, left, removedData, removedSlot := Gather(size);
      PulledFlat(chains, tmp, i, left);
      PulledSlot(chains, lastWithDatap, tmp, i, left, removedData, removedSlot);
      hide IsLastData, Tight, Packed, Owned;
      chains := Pulled(chains, tmp, i, left);
      if removedData {
        lastWithDatap := 0;
      } else if removedSlot {
        lastWithDatap := 0;
        if |chains| > 1 && chains[1].off > 0 {
          lastWithDatap := 1;
        }
      } else {
        lastWithDatap := lastWithDatap - i + 1;
      }
      HeadData(chains);
      return true;
    }

    /** evbuffer_expand_singlechain: make room for `n` more bytes in one chain,
        whose place is returned.  With sizes below EVBUFFER_CHAIN_MAX the branch
        that would resize the chain is never taken. */
    method ExpandSingleChain(n: nat) returns (at: nat)
      requires Valid() && totalLen + n <= EVBUFFER_CHAIN_MAX && n < EVBUFFER_CHAIN_MAX
      modifies `chains, `lastWithDatap, `totalLen
      ensures Valid() && Contents() == old(Contents())
      ensures at < |chains| && !chains[at].immutable && n <= SpaceLen(chains[at])
      ensures lastWithDatap <= at && (lastWithDatap < at ==> chains[at].off == 0 && at <= lastWithDatap + 1)
      ensures lastWithDatap == old(lastWithDatap) && |chains| in {|old(chains)|, at + 1}
      ensures old(lastWithDatap < |chains| && chains[lastWithDatap].off > 0 && SpaceLen(chains[lastWithDatap]) == 0) ==>
        at > lastWithDatap && chains[..at] == old(chains)[..at]
      ensures forall i :: 0 <= i < old(|chains|) && old(chains)[i].off > 2048 ==> i < |chains| && chains[i] == old(chains)[i]
      ensures old(Skips(chains, lastWithDatap, n)) ==> at == lastWithDatap + 1 && chains == old(chains)
      ensures !old(Skips(chains, lastWithDatap, n)) ==>
        at == |chains| - 1 || at == lastWithDatap + (if SpaceLen(chains[lastWithDatap]) == 0 then 1 else 0)
    {
      hide Flat, Data, Victim;
      var ch := lastWithDatap;
      if ch < |chains| && SpaceLen(chains[ch]) == 0 {
        ch := ch + 1;
      }
      if ch < |chains| && !chains[ch].immutable {
        if SpaceLen(chains[ch]) >= n { return ch; }
        if chains[ch].off > 0 {
          if ShouldRealign(chains[ch], n) {
            AlignAt(ch);
            return ch;
          }
          FlatSplit(chains, ch);
          FlatStep(chains, ch);
          assert EVBUFFER_CHAIN_MAX - n >= chains[ch].off;  // "not worth resizing"
          if ch + 1 < |chains| && SpaceLen(chains[ch + 1]) >= n {
            return ch + 1;
          }
        }
      }
      at := InsertRoom(n);
    }

    /** Realign chain `p`. */
    method AlignAt(p: nat)
      requires Valid() && p < |chains| && !chains[p].immutable
      modifies `chains
      ensures Valid() && Contents() == old(Contents()) && chains == old(chains)[p := Align(old(chains[p]))]
    {
      hide Flat, Data;
      SameFlat(chains, p, Align(chains[p]));
      chains := chains[p := Align(chains[p])];
    }

    /** evbuffer_chain_insert_new */
    method InsertRoom(n: nat) returns (at: nat)
      requires Valid()
      modifies `chains, `lastWithDatap, `totalLen
      ensures Valid() && Contents() == old(Contents()) && lastWithDatap == old(lastWithDatap)
      ensures at == old(Victim(chains, lastWithDatap)) && |chains| == at + 1 && chains[..at] == old(chains)[..at]
      ensures !chains[at].immutable && chains[at].off == 0 && chains[at].misalign == 0
      ensures n <= |chains[at].mem| <= 2 * n + MIN_BUFFER_SIZE
      ensures at == if old(chains == [] || chains[lastWithDatap].off == 0) then lastWithDatap else lastWithDatap + 1
    {
      hide Flat, Data, Victim;
      VictimOfValid(chains, lastWithDatap);
      var c := NewChain(n);
      FlatOne(c);
      assert Data(c) == [];
      ChainInsert(c);
      return |chains| - 1;
    }

    /** _evbuffer_expand_fast: room for `n` bytes in at most `most` chains, those up to
        `end`, without moving data.  Empty chains may stay behind the data. */
    method ExpandFast(n: nat, most: nat) returns (end: nat)
      requires Valid() && most >= 2
      modifies `chains, `lastWithDatap, `totalLen
      ensures Valid() && Contents() == old(Contents()) && lastWithDatap == old(lastWithDatap)
      ensures lastWithDatap <= end <= |chains| <= |old(chains)| + 1 && HasRoom(chains, lastWithDatap, end, n, most)
      ensures chains != []
      ensures old(chains != [] && chains[lastWithDatap].off > 0) ==> chains[lastWithDatap] == old(chains[lastWithDatap])
      ensures old(chains != [] && Tally(chains, lastWithDatap, |chains|) < most) ==> Widened(old(chains), chains)
      ensures Modest(old(chains), chains, n)
    {
      hide Flat, Data, Victim, HasRoom, Widened, Modest, Tally, Avail, Aligned, Resembles;
      if chains == [] || chains[|chains| - 1].immutable {
        var at := InsertRoom(n);
        LastRoom(chains, lastWithDatap, n, most);
        ModestSnoc(old(chains), chains, n);
        return |chains|;
      }
      var cs, avail, used, i := TryRoom(chains, lastWithDatap, n, most);
      ResemblesLast(chains, cs, lastWithDatap, n);
      chains := cs;
      if avail >= n { return i; }
      if used < most {
        end := AppendEmpty(n, avail, most);
        WidenedMore(old(chains), cs, chains, n);
      } else {
        end := ReplaceEmpty(n, most);
        ModestMore(old(chains), cs, chains, n);
      }
    }

    /** Another empty chain for what the others have no room for. */
    method AppendEmpty(n: nat, avail: nat, most: nat) returns (end: nat)
      requires Valid() && chains != [] && avail < n && Aligned(chains, lastWithDatap, |chains|)
      requires avail == Avail(chains, lastWithDatap, |chains|) && Tally(chains, lastWithDatap, |chains|) < most
      modifies `chains
      ensures Valid() && Contents() == old(Contents()) && |chains| == |old(chains)| + 1 && chains[..|chains| - 1] == old(chains)
      ensures end == |chains| && HasRoom(chains, lastWithDatap, end, n, most)
      ensures |chains[|chains| - 1].mem| <= 2 * n + MIN_BUFFER_SIZE
    {
      hide Flat, Data, HasRoom, Tally, Avail, Aligned;
      var tmp := NewChain(n - avail);
      FlatSnoc(chains, tmp);
      SnocRoom(chains, lastWithDatap, tmp, n, most);
      chains := chains + [tmp];
      return |chains|;
    }

    /** The end of _evbuffer_expand_fast: one new chain for all the empty ones. */
    method ReplaceEmpty(n: nat, most: nat) returns (end: nat)
      requires Valid() && chains != [] && (chains[lastWithDatap].off > 0 ==> SpaceLen(chains[lastWithDatap]) < n) && most >= 2
      modifies `chains
      ensures Valid() && Contents() == old(Contents())
      ensures lastWithDatap <= end <= |chains| <= |old(chains)| + 1 && HasRoom(chains, lastWithDatap, end, n, most)
      ensures chains != []
      ensures old(chains[lastWithDatap].off > 0) ==> chains[lastWithDatap] == old(chains[lastWithDatap])
      ensures Modest(old(chains), chains, n)
    {
      hide Flat, Data, HasRoom;
      FlatSplit(chains, lastWithDatap);
      FlatFromLast(chains, lastWithDatap);
      if chains[lastWithDatap].off == 0 {
        var tmp := NewChain(n);
        FlatOne(tmp);
        FlatStart(chains);
        chains := [tmp];
      } else {
        var tmp := NewChain(n - SpaceLen(chains[lastWithDatap]));
        FlatStep(chains, lastWithDatap);
        FlatSnoc(chains[..lastWithDatap + 1], tmp);
        chains := chains[..lastWithDatap + 1] + [tmp];
      }
      LastRoom(chains, lastWithDatap, n, most);
      return |chains|;
    }

    /** Turn `n` bytes after the data of chain `p` into data. */
    method GrowChain(p: nat, n: nat)
      requires totalLen == |Contents()| && p < |chains| && n <= SpaceLen(chains[p])
      requires forall j :: p < j < |chains| ==> chains[j].off == 0
      modifies `chains, `totalLen
      ensures totalLen == |Contents()| && chains == old(chains)[p := Grown(old(chains[p]), n)]
      ensures var c := old(chains[p]); var b := c.misalign + c.off; Contents() == old(Contents()) + c.mem[b..b + n]
    {
      hide Flat, Data;
      var c := Grown(chains[p], n);
      FlatSplit(chains, p);
      FlatStep(chains, p);
      FlatOfEmpty(chains[p + 1..]);
      ghost var after := chains[p := c];
      FlatSplit(after, p);
      FlatStep(after, p);
      assert after[..p] == chains[..p] && after[p + 1..] == chains[p + 1..];
      chains := chains[p := c];
      totalLen := totalLen + n;
    }

    /** What vector `i` covers becomes data. */
    method TakeVec(p: nat, i: nat, len: nat, ghost cs: seq<Chain>, ghost vecs: seq<Iovec>, ghost all: seq<byte>)
      requires VecsFit(cs, p, vecs) && i < |vecs| && len == vecs[i].len && |chains| == |cs|
      requires VecsFit(cs, p, vecs[..i]) && totalLen == |Contents()| && Contents() == all + Covered(cs, p, vecs[..i])
      requires forall j :: p + i <= j < |cs| ==> chains[j] == cs[j] && (j > p + i ==> cs[j].off == 0)
      modifies `chains, `totalLen
      ensures totalLen == |Contents()| && VecsFit(cs, p, vecs[..i + 1]) && |chains| == |cs|
      ensures Contents() == all + Covered(cs, p, vecs[..i + 1])
      ensures p + i < |cs| && chains == old(chains)[p + i := chains[p + i]] && chains[p + i].off == cs[p + i].off + len
    {
      hide Flat, Data, Covered, VecsFit, AtSpace;
      CoveredStep(cs, p, vecs, i);
      GrowChain(p + i, len);
    }

    /** Pass 2 of evbuffer_commit_space. */
    method CommitAt(p: nat, vecs: seq<Iovec>)
      requires Valid() && VecsFit(chains, p, vecs) && lastWithDatap <= p
      modifies `chains, `lastWithDatap, `totalLen
      ensures Valid() && Contents() == old(Contents() + Covered(chains, p, vecs))
    {
      hide Flat, Covered, VecsFit;
      ghost var cs, all := chains, Contents();
      CoveredNone(cs, p, vecs);
      for i := 0 to |vecs|
        invariant |chains| == |cs| && Valid() && lastWithDatap < p + i + (if i == 0 then 1 else 0)
        invariant forall j :: p + i <= j < |cs| ==> chains[j] == cs[j]
        invariant VecsFit(cs, p, vecs[..i]) && Contents() == all + Covered(cs, p, vecs[..i])
      {
        TakeVec(p, i, vecs[i].len, cs, vecs, all);
        if vecs[i].len > 0 {
          lastWithDatap := p + i;
        }
      }
    }

    /** Lines 685-696 of evbuffer_commit_space: the vector is in the last chain.
        advance_last_with_data stops at an empty chain, so the stated invariant
        survives exactly when no empty chain stands in between. */
    method CommitLast(n: nat)
      requires Valid() && chains != [] && n <= SpaceLen(chains[|chains| - 1])
      modifies `chains, `lastWithDatap, `totalLen
      ensures totalLen == |Contents()|
      ensures var c := old(chains[|chains| - 1]); var b := c.misalign + c.off;
        Contents() == old(Contents()) + c.mem[b..b + n]
      ensures Valid() <==> n == 0 || old(|chains| <= lastWithDatap + 2)
    {
      hide Flat;
      ghost var lwd := lastWithDatap;
      GrowChain(|chains| - 1, n);
      if n > 0 {
        while lastWithDatap + 1 < |chains| && chains[lastWithDatap + 1].off > 0
          invariant lwd <= lastWithDatap < |chains| && (lwd < lastWithDatap ==> lastWithDatap == lwd + 1 == |chains| - 1)
          modifies `lastWithDatap
        {
          lastWithDatap := lastWithDatap + 1;
        }
        assert chains[|chains| - 1].off > 0;
      } else {
        assert chains == old(chains);
      }
    }

    /** Pass 1 of evbuffer_commit_space. */
    method CheckVecs(p: nat, vecs: seq<Iovec>) returns (ok: bool)
      requires p <= |chains|
      ensures ok <==> VecsFit(chains, p, vecs)
    {
      for i := 0 to |vecs|
        invariant p + i <= |chains| && VecsFit(chains, p, vecs[..i])
      {
        if p + i >= |chains| { return false; }
        if !AtSpace(chains, p + i, vecs[i]) || vecs[i].len > SpaceLen(chains[p + i]) { return false; }
      }
      assert vecs[..|vecs|] == vecs;
      return true;
    }

    /** evbuffer_commit_space: the bytes at the free space of the chains become
        data, in order; only CommitLast can break the stated invariant. */
    method CommitSpace(vecs: seq<Iovec>) returns (ret: int)
      requires Valid()
      modifies `chains, `lastWithDatap, `totalLen
      ensures var p := old(CommitPlace(chains, lastWithDatap, vecs));
        && ret == (if !freezeEnd && (vecs == [] || old(VecsFit(chains, p, vecs))) then 0 else -1)
        && (ret == 0 && vecs != [] ==> Contents() == old(Contents()) + Covered(old(chains), p, vecs))
        && (ret == -1 || vecs == [] ==> chains == old(chains) && lastWithDatap == old(lastWithDatap))
        && totalLen == |Contents()|
        && (Valid() <==> (ret == -1 || vecs == [] || vecs[0].len == 0 ||
                          !old(SingleLast(chains, vecs)) || p <= old(lastWithDatap) + 1))
    {
      assert vecs != [] && lastWithDatap >= |chains| ==> !VecsFit(chains, lastWithDatap, vecs);
      hide Flat, Covered, VecsFit, AtSpace;
      if freezeEnd { return -1; }
      if |vecs| == 0 { return 0; }
      if SingleLast(chains, vecs) {
        OneVec(chains, vecs);
        if vecs[0].len > SpaceLen(chains[|chains| - 1]) { return -1; }
        CommitLast(vecs[0].len);
        return 0;
      }
      var p := lastWithDatap;
      if p >= |chains| { return -1; }
      if SpaceLen(chains[p]) == 0 { p := p + 1; }
      var ok := CheckVecs(p, vecs);
      if !ok { return -1; }
      CommitAt(p, vecs);
      return 0;
    }
  }
}
