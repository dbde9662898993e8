/** Bytes that arrive in the free space of a buffer (libevent/buffer.c): reserving
    space and committing it, and reading from a descriptor. */
module EvbufferRead {
  import opened Bytes
  import opened Evbuffer

  const NUM_READ_IOVEC: nat := 4
  const EVBUFFER_MAX_READ: int := 4096

  /** The bytes that fit in the first `i` vectors. */
  function Sum(vecs: seq<Iovec>, i: nat): nat
    requires i <= |vecs|
  {
    if i == 0 then 0 else Sum(vecs, i - 1) + vecs[i - 1].len
  }

  lemma {:induction false} SumGrows(vecs: seq<Iovec>, i: nat, k: nat)
    requires i <= k <= |vecs|
    ensures Sum(vecs, i) <= Sum(vecs, k)
  {
    if i < k {
      SumGrows(vecs, i, k - 1);
    }
  }

  lemma {:induction false} SumSnoc(vecs: seq<Iovec>, v: Iovec, i: nat)
    requires i <= |vecs|
    ensures Sum(vecs + [v], i) == Sum(vecs, i)
  {
    if i > 0 {
      SumSnoc(vecs, v, i - 1);
    }
  }

  /** The first chain with room. */
  function FirstRoom(cs: seq<Chain>, lwd: nat): nat
    requires lwd < |cs|
  {
    if SpaceLen(cs[lwd]) == 0 then lwd + 1 else lwd
  }

  /** A vector list for `n` bytes: whole free spaces of the chains from `p` on, the last one
      perhaps only in part. */
  predicate Offers(cs: seq<Chain>, p: nat, vecs: seq<Iovec>, n: nat) {
    && VecsFit(cs, p, vecs) && Sum(vecs, |vecs|) >= n
    && forall i :: 0 <= i < |vecs| - 1 ==> vecs[i].len == SpaceLen(cs[p + i])
  }

  /** How many of the chains were looked at, and the room in them. */
  lemma {:induction false} RoomSoFar(cs: seq<Chain>, lwd: nat, end: nat, i: nat)
    requires IsLastData(cs, lwd) && lwd <= end <= |cs| && cs != [] && Aligned(cs, lwd, end)
    requires FirstRoom(cs, lwd) + i <= end
    ensures Tally(cs, lwd, FirstRoom(cs, lwd) + i) == i
    ensures forall j :: FirstRoom(cs, lwd) <= j < FirstRoom(cs, lwd) + i ==> SpaceLen(cs[j]) > 0
    ensures i == 0 ==> Avail(cs, lwd, FirstRoom(cs, lwd)) == 0
  {
    var p := FirstRoom(cs, lwd);
    if i == 0 {
      assert Avail(cs, lwd, lwd) == 0 && Tally(cs, lwd, lwd) == 0;
    } else {
      RoomSoFar(cs, lwd, end, i - 1);
      RoomStep(cs, lwd, p + i - 1);
    }
  }

  /** The vectors so far cover the room of the chains before `k`, all of it while more is wanted. */
  predicate Taken(cs: seq<Chain>, lwd: nat, vecs: seq<Iovec>, soFar: nat, howmuch: nat) {
    && lwd < |cs| && FirstRoom(cs, lwd) + |vecs| <= |cs| && soFar == Sum(vecs, |vecs|)
    && Offers(cs, FirstRoom(cs, lwd), vecs, soFar)
    && (soFar < howmuch ==> soFar == Avail(cs, lwd, FirstRoom(cs, lwd) + |vecs|))
    && (soFar < howmuch && vecs != [] ==> vecs[|vecs| - 1].len == SpaceLen(cs[FirstRoom(cs, lwd) + |vecs| - 1]))
  }

  lemma TakenMore(cs: seq<Chain>, lwd: nat, end: nat, vecs: seq<Iovec>, soFar: nat, howmuch: nat, avail: nat)
    requires IsLastData(cs, lwd) && Taken(cs, lwd, vecs, soFar, howmuch) && soFar < howmuch
    requires FirstRoom(cs, lwd) + |vecs| < end <= |cs| && Aligned(cs, lwd, end)
    requires var space := SpaceLen(cs[FirstRoom(cs, lwd) + |vecs|]); avail == space || avail == howmuch - soFar < space
    ensures var k := FirstRoom(cs, lwd) + |vecs|; var c := cs[k];
      Taken(cs, lwd, vecs + [Iovec(k, c.misalign + c.off, avail)], soFar + avail, howmuch)
  {
    var p := FirstRoom(cs, lwd);
    RoomSoFar(cs, lwd, end, |vecs| + 1);
    RoomStep(cs, lwd, p + |vecs|);
    OffersMore(cs, p, vecs, avail);
    hide Avail, Tally, Offers, Sum, FirstRoom, IsLastData, Aligned;
  }

  /** One more vector, when the last one takes all the room of its chain. */
  lemma OffersMore(cs: seq<Chain>, p: nat, vecs: seq<Iovec>, len: nat)
    requires p + |vecs| < |cs| && len <= SpaceLen(cs[p + |vecs|]) && Offers(cs, p, vecs, 0)
    requires vecs != [] ==> vecs[|vecs| - 1].len == SpaceLen(cs[p + |vecs| - 1])
    ensures var c := cs[p + |vecs|]; var more := vecs + [Iovec(p + |vecs|, c.misalign + c.off, len)];
      Sum(more, |more|) == Sum(vecs, |vecs|) + len && Offers(cs, p, more, Sum(more, |more|))
  {
    var c := cs[p + |vecs|];
    var v := Iovec(p + |vecs|, c.misalign + c.off, len);
    SumSnoc(vecs, v, |vecs|);
    var more := vecs + [v];
    forall i | 0 <= i < |more|
      ensures AtSpace(cs, p + i, more[i]) && more[i].len <= SpaceLen(cs[p + i])
      ensures i < |more| - 1 ==> more[i].len == SpaceLen(cs[p + i])
    {
      assert more[i] == if i < |vecs| then vecs[i] else v;
    }
  }

  /** While more is wanted there is another chain, and another vector to use. */
  lemma NotYetAll(cs: seq<Chain>, lwd: nat, end: nat, vecs: seq<Iovec>, soFar: nat, howmuch: nat, most: nat)
    requires IsLastData(cs, lwd) && HasRoom(cs, lwd, end, howmuch, most) && Taken(cs, lwd, vecs, soFar, howmuch)
    requires soFar < howmuch && FirstRoom(cs, lwd) + |vecs| <= end
    ensures FirstRoom(cs, lwd) + |vecs| < end && |vecs| < most
  {
    RoomSoFar(cs, lwd, end, |vecs| + 1);
    TallyGrows(cs, lwd, FirstRoom(cs, lwd) + |vecs| + 1, end);
  }

  lemma NoneTaken(cs: seq<Chain>, lwd: nat, end: nat, howmuch: nat, most: nat)
    requires IsLastData(cs, lwd) && cs != [] && HasRoom(cs, lwd, end, howmuch, most) && howmuch > 0
    ensures Taken(cs, lwd, [], 0, howmuch) && FirstRoom(cs, lwd) <= end
  {
    assert Avail(cs, lwd, lwd) == 0;
    RoomSoFar(cs, lwd, end, 0);
  }

  /** _evbuffer_read_setup_vecs, after _evbuffer_expand_fast has made the room: no chain is
      missing, and the vectors are enough for `howmuch` bytes, just enough if `exact`. */
  method SetupVecs(buf: Buffer, howmuch: nat, most: nat, exact: bool, ghost end: nat) returns (vecs: seq<Iovec>, p: nat)
    requires buf.Valid() && buf.chains != [] && HasRoom(buf.chains, buf.lastWithDatap, end, howmuch, most)
    ensures p == FirstRoom(buf.chains, buf.lastWithDatap) && |vecs| <= most
    ensures Offers(buf.chains, p, vecs, howmuch) && (exact ==> Sum(vecs, |vecs|) == howmuch)
  {
    hide Flat, Avail, Tally, Taken;
    var soFar: nat := 0;
    p, vecs := buf.lastWithDatap, [];
    if SpaceLen(buf.chains[p]) == 0 { p := p + 1; }
    if howmuch == 0 { return; }
    NoneTaken(buf.chains, buf.lastWithDatap, end, howmuch, most);
    hide HasRoom, Sum;
    while |vecs| < most && soFar < howmuch
      invariant p + |vecs| <= end && |vecs| <= most && (exact ==> soFar <= howmuch)
      invariant Taken(buf.chains, buf.lastWithDatap, vecs, soFar, howmuch)
      decreases most - |vecs|
    {
      NotYetAll(buf.chains, buf.lastWithDatap, end, vecs, soFar, howmuch, most);
      var c := buf.chains[p + |vecs|];
      var avail: nat := SpaceLen(c);
      if avail > howmuch - soFar && exact {
        avail := howmuch - soFar;
      }
      TakenMore(buf.chains, buf.lastWithDatap, end, vecs, soFar, howmuch, avail);
      vecs := vecs + [Iovec(p + |vecs|, c.misalign + c.off, avail)];
      soFar := soFar + avail;
    }
    if soFar < howmuch {
      NotYetAll(buf.chains, buf.lastWithDatap, end, vecs, soFar, howmuch, most);
    }
    TakenIs(buf.chains, buf.lastWithDatap, vecs, soFar, howmuch);
  }

  lemma TakenIs(cs: seq<Chain>, lwd: nat, vecs: seq<Iovec>, soFar: nat, howmuch: nat)
    requires Taken(cs, lwd, vecs, soFar, howmuch)
    ensures Offers(cs, FirstRoom(cs, lwd), vecs, soFar) && soFar == Sum(vecs, |vecs|)
  {
  }

  // ----- the bytes -----

  /** Vector `i` as far as `n` bytes go. */
  predicate IsPart(vecs: seq<Iovec>, n: nat, i: nat, u: Iovec)
    requires i < |vecs|
  {
    Sum(vecs, i) < n && u == vecs[i].(len := Min(vecs[i].len, n - Sum(vecs, i)))
  }

  /** What is in use of `vecs` so far, of `n` bytes in all: each vector as far as the bytes go. */
  predicate FilledSoFar(vecs: seq<Iovec>, n: nat, used: seq<Iovec>) {
    |used| <= |vecs| && forall i :: 0 <= i < |used| ==> IsPart(vecs, n, i, used[i])
  }

  /** `used` is what `n` bytes take of `vecs`. */
  predicate FillsUp(vecs: seq<Iovec>, n: nat, used: seq<Iovec>) {
    FilledSoFar(vecs, n, used) && n <= Sum(vecs, |used|)
  }

  /** The same windows, perhaps over other memory. */
  predicate SameShape(cs: seq<Chain>, after: seq<Chain>) {
    |cs| == |after| && forall i :: 0 <= i < |cs| ==>
      && after[i].immutable == cs[i].immutable && after[i].misalign == cs[i].misalign && after[i].off == cs[i].off
      && |after[i].mem| == |cs[i].mem|
  }

  lemma OffersLess(cs: seq<Chain>, p: nat, vecs: seq<Iovec>, n: nat, k: nat)
    requires Offers(cs, p, vecs, n) && k <= n
    ensures Offers(cs, p, vecs, k)
  {
  }

  lemma ShapeFits(cs: seq<Chain>, after: seq<Chain>, p: nat, vecs: seq<Iovec>, n: nat)
    requires SameShape(cs, after) && Offers(cs, p, vecs, n)
    ensures Offers(after, p, vecs, n)
  {
  }

  lemma {:induction false} CoveredSame(cs: seq<Chain>, after: seq<Chain>, p: nat, vecs: seq<Iovec>)
    requires VecsFit(cs, p, vecs) && VecsFit(after, p, vecs)
    requires forall i :: p <= i < p + |vecs| ==> after[i] == cs[i]
    ensures Covered(after, p, vecs) == Covered(cs, p, vecs)
  {
    if vecs != [] {
      assert vecs == vecs[..|vecs| - 1] + [vecs[|vecs| - 1]];
      CoveredSame(cs, after, p, vecs[..|vecs| - 1]);
    }
  }

  /** `r` is `c` with the bytes `src` in its free space. */
  predicate Holds(c: Chain, src: seq<byte>, r: Chain) {
    && r == c.(mem := r.mem) && |r.mem| == |c.mem| && Data(r) == Data(c) && |src| <= SpaceLen(c)
    && r.mem[c.misalign + c.off..c.misalign + c.off + |src|] == src
  }

  lemma PartFits(cs: seq<Chain>, p: nat, vecs: seq<Iovec>, n: nat, used: seq<Iovec>)
    requires VecsFit(cs, p, vecs) && FilledSoFar(vecs, n, used)
    ensures VecsFit(cs, p, used)
  {
  }

  lemma FilledMore(vecs: seq<Iovec>, n: nat, used: seq<Iovec>)
    requires FilledSoFar(vecs, n, used) && |used| < |vecs| && Sum(vecs, |used|) < n
    ensures FilledSoFar(vecs, n, used + [vecs[|used|].(len := Min(vecs[|used|].len, n - Sum(vecs, |used|)))])
  {
    hide Sum;
    var u := vecs[|used|].(len := Min(vecs[|used|].len, n - Sum(vecs, |used|)));
    assert IsPart(vecs, n, |used|, u);
    hide IsPart;
    assert forall i :: 0 <= i < |used| ==> (used + [u])[i] == used[i];
  }

  lemma HeldFits(cs: seq<Chain>, p: nat, vecs: seq<Iovec>, k: nat, part: seq<byte>, c: Chain)
    requires VecsFit(cs, p, vecs) && k < |vecs| && Holds(cs[p + k], part, c)
    ensures SameShape(cs, cs[p + k := c]) && VecsFit(cs[p + k := c], p, vecs)
  {
  }

  lemma CoveredMore(cs: seq<Chain>, p: nat, used: seq<Iovec>, v: Iovec, part: seq<byte>, c: Chain)
    requires VecsFit(cs, p, used) && p + |used| < |cs| && AtSpace(cs, p + |used|, v)
    requires v.len == |part| && Holds(cs[p + |used|], part, c)
    ensures var after := cs[p + |used| := c];
      VecsFit(after, p, used + [v]) && Covered(after, p, used + [v]) == Covered(cs, p, used) + part
  {
    var after, more := cs[p + |used| := c], used + [v];
    CoveredSame(cs, after, p, used);
    assert more[..|used|] == used;
  }

  /** Bytes stored in the free space of chain `p`. */
  method StoreAt(buf: Buffer, p: nat, part: seq<byte>)
    requires buf.totalLen == |buf.Contents()| && p < |buf.chains| && |part| <= SpaceLen(buf.chains[p])
    modifies buf`chains
    ensures buf.Contents() == old(buf.Contents()) && |buf.chains| == |old(buf.chains)|
    ensures Holds(old(buf.chains[p]), part, buf.chains[p]) && buf.chains == old(buf.chains)[p := buf.chains[p]]
  {
    hide Flat;
    var c := buf.chains[p];
    var r: Chain := c.(mem := Written(c.mem, c.misalign + c.off, part));
    assert Data(r) == Data(c);
    SameFlat(buf.chains, p, r);
    buf.chains := buf.chains[p := r];
  }

  /** `used` holds `bytes`, of `n` in all; no window has changed. */
  ghost predicate Stored(was: seq<Chain>, now: seq<Chain>, p: nat, vecs: seq<Iovec>, n: nat, used: seq<Iovec>, bytes: seq<byte>) {
    && SameShape(was, now) && VecsFit(now, p, vecs) && FilledSoFar(vecs, n, used)
    && VecsFit(now, p, used) && Covered(now, p, used) == bytes
  }

  lemma StoredNone(cs: seq<Chain>, p: nat, vecs: seq<Iovec>, n: nat)
    requires VecsFit(cs, p, vecs)
    ensures Stored(cs, cs, p, vecs, n, [], [])
  {
    CoveredNone(cs, p, vecs);
  }

  lemma StoredMore(was: seq<Chain>, cs: seq<Chain>, p: nat, vecs: seq<Iovec>, n: nat, used: seq<Iovec>, bytes: seq<byte>,
                   part: seq<byte>, c: Chain)
    requires Stored(was, cs, p, vecs, n, used, bytes) && |used| < |vecs| && Sum(vecs, |used|) < n
    requires |part| == Min(vecs[|used|].len, n - Sum(vecs, |used|)) && p + |used| < |cs| && Holds(cs[p + |used|], part, c)
    ensures Stored(was, cs[p + |used| := c], p, vecs, n, used + [vecs[|used|].(len := |part|)], bytes + part)
  {
    hide Covered, Holds, FilledSoFar, VecsFit, SameShape, SpaceLen, IsPart, Sum, Data;
    FitsAt(cs, p, vecs, |used|);
    FilledMore(vecs, n, used);
    HeldFits(cs, p, vecs, |used|, part, c);
    CoveredMore(cs, p, used, vecs[|used|].(len := |part|), part, c);
    ShapeTwice(was, cs, cs[p + |used| := c]);
  }

  lemma StoredFits(was: seq<Chain>, cs: seq<Chain>, p: nat, vecs: seq<Iovec>, n: nat, used: seq<Iovec>, bytes: seq<byte>)
    requires Stored(was, cs, p, vecs, n, used, bytes) && |used| < |vecs|
    ensures p + |used| < |cs| && vecs[|used|].len <= SpaceLen(cs[p + |used|])
    ensures Sum(vecs, |used| + 1) == Sum(vecs, |used|) + vecs[|used|].len
  {
  }

  lemma StoredAll(was: seq<Chain>, cs: seq<Chain>, p: nat, vecs: seq<Iovec>, n: nat, used: seq<Iovec>, bytes: seq<byte>)
    requires Stored(was, cs, p, vecs, n, used, bytes) && n <= Sum(vecs, |used|)
    ensures SameShape(was, cs) && FillsUp(vecs, n, used) && VecsFit(cs, p, used) && Covered(cs, p, used) == bytes
  {
  }

  /** readv, or a caller who writes: `src` goes to the vectors in order.  No data changes. */
  method Store(buf: Buffer, p: nat, vecs: seq<Iovec>, src: seq<byte>) returns (used: seq<Iovec>)
    requires buf.Valid() && VecsFit(buf.chains, p, vecs) && |src| <= Sum(vecs, |vecs|)
    modifies buf`chains
    ensures buf.Valid() && buf.Contents() == old(buf.Contents()) && SameShape(old(buf.chains), buf.chains)
    ensures FillsUp(vecs, |src|, used) && VecsFit(buf.chains, p, used) && Covered(buf.chains, p, used) == src
  {
    hide Flat, Data, Covered, Holds;
    ghost var cs, bytes := buf.chains, [];
    var rest := src;
    used := [];
    StoredNone(cs, p, vecs, |src|);
    hide FilledSoFar, FillsUp, VecsFit, Sum, SpaceLen, Stored, SameShape, IsLastData;
    while rest != []
      invariant |used| <= |vecs| && |bytes| == Min(|src|, Sum(vecs, |used|)) && bytes + rest == src
      invariant buf.totalLen == |buf.Contents()| && buf.Contents() == old(buf.Contents())
      invariant Stored(cs, buf.chains, p, vecs, |src|, used, bytes)
      decreases |vecs| - |used|
    {
      var v := vecs[|used|];
      var len := Min(v.len, |rest|);
      ghost var was := buf.chains;
      StoredFits(cs, was, p, vecs, |src|, used, bytes);
      StoreAt(buf, p + |used|, rest[..len]);
      StoredMore(cs, was, p, vecs, |src|, used, bytes, rest[..len], buf.chains[p + |used|]);
      Shifted(bytes, rest, len);
      bytes := bytes + rest[..len];
      used, rest := used + [v.(len := len)], rest[len..];
    }
    StoredAll(cs, buf.chains, p, vecs, |src|, used, bytes);
    ShapeLast(cs, buf.chains, buf.lastWithDatap);
  }

  lemma Shifted(a: seq<byte>, b: seq<byte>, n: nat)
    requires n <= |b|
    ensures (a + b[..n]) + b[n..] == a + b
  {
  }

  lemma FitsAt(cs: seq<Chain>, p: nat, vecs: seq<Iovec>, i: nat)
    requires VecsFit(cs, p, vecs) && i < |vecs|
    ensures p + i < |cs| && AtSpace(cs, p + i, vecs[i]) && vecs[i].len <= SpaceLen(cs[p + i])
    ensures Sum(vecs, i + 1) == Sum(vecs, i) + vecs[i].len
  {
  }

  lemma ShapeTwice(cs: seq<Chain>, mid: seq<Chain>, after: seq<Chain>)
    requires SameShape(cs, mid) && SameShape(mid, after)
    ensures SameShape(cs, after)
  {
  }

  lemma ShapeLast(cs: seq<Chain>, after: seq<Chain>, lwd: nat)
    requires SameShape(cs, after) && IsLastData(cs, lwd)
    ensures IsLastData(after, lwd)
  {
  }

  // ----- reserving and committing -----

  /** evbuffer_reserve_space.  The vectors lie where evbuffer_commit_space looks for them, unless
      one vector is asked for and evbuffer_expand_singlechain passes over some room. */
  method ReserveSpace(buf: Buffer, size: nat, nVecs: int) returns (n: int, vecs: seq<Iovec>, p: nat)
    requires buf.Valid() && buf.totalLen + size <= EVBUFFER_CHAIN_MAX && size < EVBUFFER_CHAIN_MAX
    modifies buf`chains, buf`lastWithDatap, buf`totalLen
    ensures buf.Valid() && buf.Contents() == old(buf.Contents()) && buf.lastWithDatap == old(buf.lastWithDatap)
    ensures buf.freezeEnd || nVecs < 1 ==> n == -1 && buf.chains == old(buf.chains)
    ensures !buf.freezeEnd && nVecs >= 1 ==>
      n == |vecs| <= nVecs && buf.chains != [] && Offers(buf.chains, p, vecs, size) && p <= buf.lastWithDatap + 1
    ensures !buf.freezeEnd && nVecs >= 1 && !(nVecs == 1 && old(Skips(buf.chains, buf.lastWithDatap, size))) ==>
      p == FirstRoom(buf.chains, buf.lastWithDatap) || (p == |buf.chains| - 1 && nVecs == 1)
    ensures !buf.freezeEnd && nVecs == 1 ==> n == 1
    ensures !buf.freezeEnd && nVecs == 1 && old(Skips(buf.chains, buf.lastWithDatap, size)) ==>
      p == buf.lastWithDatap + 1 && buf.chains == old(buf.chains)
  {
    hide Flat, Skips, HasRoom, Widened, Modest, Tally, Avail;
    n, vecs, p := -1, [], 0;
    if buf.freezeEnd || nVecs < 1 { return; }
    if nVecs == 1 {
      var at := buf.ExpandSingleChain(size);
      var c := buf.chains[at];
      vecs, p := [Iovec(at, c.misalign + c.off, SpaceLen(c))], at;
      SumSnoc([], vecs[0], 0);
      return 1, vecs, p;
    }
    var end := buf.ExpandFast(size, nVecs);
    vecs, p := SetupVecs(buf, size, nVecs, false, end);
    n := |vecs|;
  }

  /** What was used of vectors from chain `p` on is accepted exactly if `p` is the first chain with
      room, or the only vector is in the last chain. */
  lemma Accepted(cs: seq<Chain>, lwd: nat, p: nat, vecs: seq<Iovec>, n: nat, used: seq<Iovec>)
    requires lwd < |cs| && VecsFit(cs, p, vecs) && FilledSoFar(vecs, n, used) && VecsFit(cs, p, used) && used != []
    ensures VecsFit(cs, CommitPlace(cs, lwd, used), used) <==> p == FirstRoom(cs, lwd) || (p == |cs| - 1 && |used| == 1)
    ensures VecsFit(cs, CommitPlace(cs, lwd, used), used) ==> CommitPlace(cs, lwd, used) == p
  {
    assert AtSpace(cs, p, used[0]) && used[0].at == p;
    var q := CommitPlace(cs, lwd, used);
    if VecsFit(cs, q, used) {
      assert AtSpace(cs, q, used[0]);
    }
  }

  /** The bytes are written to the vectors and what they take is committed. */
  method WriteCommit(buf: Buffer, p: nat, vecs: seq<Iovec>, src: seq<byte>) returns (ret: int)
    requires buf.Valid() && buf.chains != [] && VecsFit(buf.chains, p, vecs) && |src| <= Sum(vecs, |vecs|)
    requires !buf.freezeEnd && src != [] && p <= buf.lastWithDatap + 1
    requires p == FirstRoom(buf.chains, buf.lastWithDatap) || |vecs| == 1
    modifies buf`chains, buf`lastWithDatap, buf`totalLen
    ensures buf.Valid() && ret == (if old(p == FirstRoom(buf.chains, buf.lastWithDatap) || p == |buf.chains| - 1) then 0 else -1)
    ensures buf.Contents() == old(buf.Contents()) + (if ret == 0 then src else [])
  {
    hide Flat, Covered, Sum, IsPart;
    ghost var cs := buf.chains;
    var used := Store(buf, p, vecs, src);
    NoneUsed(vecs, |src|, used);
    Accepted(buf.chains, buf.lastWithDatap, p, vecs, |src|, used);
    hide VecsFit, FilledSoFar, IsLastData, AtSpace;
    ret := buf.CommitSpace(used);
  }

  /** Space reserved, bytes written to it and committed: they are appended, and the stated
      invariant holds, except that one vector behind some room is refused unless it is in the
      last chain. */
  method ReserveWriteCommit(buf: Buffer, size: nat, nVecs: int, src: seq<byte>) returns (ret: int)
    requires buf.Valid() && buf.totalLen + size <= EVBUFFER_CHAIN_MAX && size < EVBUFFER_CHAIN_MAX
    requires !buf.freezeEnd && nVecs >= 1 && 0 < |src| <= size
    modifies buf`chains, buf`lastWithDatap, buf`totalLen
    ensures buf.Valid()
    ensures ret == if nVecs == 1 && old(Skips(buf.chains, buf.lastWithDatap, size) && buf.lastWithDatap + 2 < |buf.chains|)
                   then -1 else 0
    ensures buf.Contents() == old(buf.Contents()) + (if ret == 0 then src else [])
  {
    hide Flat, Sum;
    var n, vecs, p := ReserveSpace(buf, size, nVecs);
    ret := WriteCommit(buf, p, vecs, src);
  }

  lemma NoneUsed(vecs: seq<Iovec>, n: nat, used: seq<Iovec>)
    requires FillsUp(vecs, n, used)
    ensures used == [] <==> n == 0
  {
    assert used != [] ==> IsPart(vecs, n, 0, used[0]);
  }

  // ----- reading -----

  /** What the loop behind readv in evbuffer_read does with vector `i`. */
  lemma UsedAt(cs: seq<Chain>, p: nat, vecs: seq<Iovec>, n: nat, used: seq<Iovec>, i: nat)
    requires Offers(cs, p, vecs, n) && FillsUp(vecs, n, used) && i < |vecs| && Sum(vecs, i) < n
    ensures i < |used| && used[i].len == Min(SpaceLen(cs[p + i]), n - Sum(vecs, i))
    ensures SpaceLen(cs[p + i]) < n - Sum(vecs, i) ==> Sum(vecs, i + 1) == Sum(vecs, i) + SpaceLen(cs[p + i])
    ensures SpaceLen(cs[p + i]) >= n - Sum(vecs, i) ==> i + 1 == |used|
  {
    if i >= |used| {
      SumGrows(vecs, |used|, i);
    }
    assert IsPart(vecs, n, i, used[i]) && vecs[i].len <= SpaceLen(cs[p + i]);
    assert i + 1 < |used| ==> IsPart(vecs, n, i + 1, used[i + 1]);
  }

  lemma LastAgain(cs: seq<Chain>, lwd: nat, after: seq<Chain>, k: nat)
    requires IsLastData(cs, lwd) && |after| == |cs| && lwd <= k < |cs| && after[k].off > 0
    requires forall j :: k < j < |cs| ==> after[j] == cs[j]
    ensures IsLastData(after, k)
  {
  }

  /** The loop behind readv in evbuffer_read: `n` bytes of free space become data. */
  method TakeIn(buf: Buffer, p: nat, vecs: seq<Iovec>, n: nat, ghost used: seq<Iovec>)
    requires buf.Valid() && buf.chains != [] && p == FirstRoom(buf.chains, buf.lastWithDatap)
    requires Offers(buf.chains, p, vecs, n) && n > 0 && FillsUp(vecs, n, used) && VecsFit(buf.chains, p, used)
    modifies buf`chains, buf`lastWithDatap, buf`totalLen
    ensures buf.Valid() && buf.Contents() == old(buf.Contents() + Covered(buf.chains, p, used))
  {
    hide Flat, Data, Covered;
    ghost var cs, all, lwd := buf.chains, buf.Contents(), buf.lastWithDatap;
    CoveredNone(cs, p, used);
    var remaining: nat := n;
    assert Sum(vecs, |vecs|) >= n && Sum(vecs, 0) == 0;
    assert forall j :: p < j < |cs| ==> cs[j].off == 0;
    assert lwd <= p;
    hide IsLastData, FirstRoom, VecsFit, AtSpace, Offers, FilledSoFar, IsPart, Sum, SpaceLen;
    for i := 0 to |vecs|
      invariant |buf.chains| == |cs| && buf.totalLen == |buf.Contents()| && i <= |used|
      invariant forall j :: p + i <= j < |cs| ==> buf.chains[j] == cs[j]
      invariant 0 < remaining == n - Sum(vecs, i)
      invariant VecsFit(cs, p, used[..i]) && buf.Contents() == all + Covered(cs, p, used[..i])
    {
      UsedAt(cs, p, vecs, n, used, i);
      FitsAt(cs, p, used, i);
      var space: nat := SpaceLen(buf.chains[p + i]);
      if space < remaining {
        buf.TakeVec(p, i, space, cs, used, all);
        remaining := remaining - space;
      } else {
        buf.TakeVec(p, i, remaining, cs, used, all);
        buf.lastWithDatap := p + i;
        LastAgain(cs, lwd, buf.chains, p + i);
        assert used[..i + 1] == used;
        break;
      }
    }
  }

  /** evbuffer_read, where FIONREAD gives `readable`, and readv fails or delivers what it can of
      `incoming`.  What arrives is appended, in order, and nothing else changes. */
  method Read(buf: Buffer, readable: int, howmuch: int, fails: bool, incoming: seq<byte>) returns (ret: int)
    requires buf.Valid()
    modifies buf`chains, buf`lastWithDatap, buf`totalLen
    ensures buf.Valid() && (ret == -1 <==> buf.freezeEnd || fails) && (ret == -1 || 0 <= ret <= |incoming|)
    ensures buf.Contents() == old(buf.Contents()) + (if ret > 0 then incoming[..ret] else [])
    ensures ret <= 4096 && (howmuch >= 0 ==> ret <= howmuch) && (readable > 0 ==> ret <= readable)
    ensures ret == -1 || ret in {|incoming|, 4096, howmuch} || (0 < readable <= 4096 && ret == readable)
  {
    hide Flat, Covered, Sum, HasRoom, Widened, Modest, Offers, IsPart;
    if buf.freezeEnd { return -1; }
    var n := readable;
    if n <= 0 || n > EVBUFFER_MAX_READ { n := EVBUFFER_MAX_READ; }
    var want := howmuch;
    if want < 0 || want > n { want := n; }
    var end := buf.ExpandFast(want, NUM_READ_IOVEC);
    var vecs, p := SetupVecs(buf, want, NUM_READ_IOVEC, true, end);
    if fails { return -1; }
    var src := incoming[..Min(|incoming|, want)];
    if src == [] { return 0; }
    OffersLess(buf.chains, p, vecs, want, |src|);
    ReadIn(buf, p, vecs, src);
    return |src|;
  }

  /** readv and the loop behind it. */
  method ReadIn(buf: Buffer, p: nat, vecs: seq<Iovec>, src: seq<byte>)
    requires buf.Valid() && buf.chains != [] && p == FirstRoom(buf.chains, buf.lastWithDatap)
    requires Offers(buf.chains, p, vecs, |src|) && src != []
    modifies buf`chains, buf`lastWithDatap, buf`totalLen
    ensures buf.Valid() && buf.Contents() == old(buf.Contents()) + src
  {
    hide Flat, Covered, Sum, IsPart, FilledSoFar;
    ghost var cs := buf.chains;
    var used := Store(buf, p, vecs, src);
    ShapeFits(cs, buf.chains, p, vecs, |src|);
    hide Offers, VecsFit;
    TakeIn(buf, p, vecs, |src|, used);
  }

  // ----- a refused commit -----

  /** The room in the first two or three of the chains. */
  lemma RoomOfFew(cs: seq<Chain>, end: nat, n: nat, most: nat)
    requires cs != [] && HasRoom(cs, 0, end, n, most) && forall i :: 0 < i < |cs| ==> cs[i].off == 0
    requires cs[0].off > 0 && SpaceLen(cs[0]) < n
    ensures end >= 2 && SpaceLen(cs[1]) == |cs[1].mem| && (SpaceLen(cs[0]) + |cs[1].mem| < n ==> end >= 3)
    ensures |cs| == 2 ==> SpaceLen(cs[0]) + SpaceLen(cs[1]) >= n
    ensures |cs| >= 1 ==> Tally(cs, 0, 1) <= 1
    ensures Tally(cs, 0, 2) <= 2
  {
    assert Avail(cs, 0, 0) == 0 && Tally(cs, 0, 0) == 0;
    assert end >= 1 ==> Avail(cs, 0, 1) == SpaceLen(cs[0]);
    assert end >= 2 ==> Avail(cs, 0, 2) == SpaceLen(cs[0]) + |cs[1].mem|;
    assert Tally(cs, 0, 1) <= 1;
  }

  /** A buffer with one byte in a chain with room for at least one more, and nothing behind it. */
  method OneByte() returns (buf: Buffer)
    ensures fresh(buf) && buf.Valid() && !buf.freezeEnd && |buf.chains| == 1 && buf.chains[0].off == 1 && buf.totalLen == 1
    ensures buf.lastWithDatap == 0 && 0 < SpaceLen(buf.chains[0]) && |buf.chains[0].mem| <= 2 * 2 + MIN_BUFFER_SIZE
  {
    hide Flat;
    buf := new Buffer();
    var end := buf.ExpandFast(2, 2);
    FlatOne(buf.chains[0]);
    assert buf.chains == [buf.chains[0]];
    assert Avail(buf.chains, 0, 0) == 0;
    var _ := buf.Add([7]);
    assert |Data(buf.chains[0])| == 1;
  }

  /** With two empty chains behind a data chain that has room, but not enough, one vector is
      reserved that cannot be committed. */
  method RefusedCommit() returns (buf: Buffer, ret: int)
    ensures ret == -1 && buf.Valid() && !buf.freezeEnd
  {
    hide Flat;
    buf := OneByte();
    var m := |buf.chains[0].mem|;
    assert Tally(buf.chains, 0, 0) == 0 && Tally(buf.chains, 0, 1) <= 1;
    var end := buf.ExpandFast(2 * m, 2);
    RoomOfFew(buf.chains, end, 2 * m, 2);
    var k := m + |buf.chains[1].mem|;
    end := buf.ExpandFast(k, 4);
    RoomOfFew(buf.chains, end, k, 4);
    ret := ReserveWriteCommit(buf, m, 1, [9]);
  }
}
