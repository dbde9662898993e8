/** The chains of an evbuffer as they are linked in memory: first, last, next and
    last_with_datap, which is the address of a `first` or `next` field.  The
    operations that move whole lists of chains do the same as on lists of values. */
module EvbufferHeap {
  import opened Bytes
  import opened Evbuffer

  /** A struct evbuffer_chain with its link. */
  class Link {
    var chain: Chain
    var next: Link?

    constructor (chain: Chain)
      ensures this.chain == chain && next == null
    {
      this.chain, next := chain, null;
    }
  }

  /** A struct evbuffer_chain **: &buf->first or &chain->next. */
  datatype Slot = FirstOf(buf: HeapBuffer) | NextOf(link: Link)

  function Owner(s: Slot): object {
    match s
    case FirstOf(buf) => buf
    case NextOf(link) => link
  }

  function Deref(s: Slot): Link?
    reads Owner(s)
  {
    match s
    case FirstOf(buf) => buf.first
    case NextOf(link) => link.next
  }

  ghost predicate Distinct(s: seq<Link>) {
    forall i, j :: 0 <= i < j < |s| ==> s[i] != s[j]
  }

  ghost predicate Apart(a: seq<Link>, b: seq<Link>) {
    forall l :: l in a ==> l !in b
  }

  /** From `first` these next fields lead through `s` to NULL. */
  ghost predicate LeadBy(first: Link?, s: seq<Link>, nexts: seq<Link?>) {
    && Distinct(s) && |nexts| == |s| && (if s == [] then first == null else first == s[0])
    && forall i :: 0 <= i < |s| ==> nexts[i] == if i + 1 < |s| then s[i + 1] else null
  }

  ghost predicate Leads(first: Link?, s: seq<Link>)
    reads s
  {
    LeadBy(first, s, Nexts(s))
  }

  ghost function Nexts(s: seq<Link>): (ns: seq<Link?>)
    reads s
    ensures |ns| == |s|
  {
    if s == [] then [] else Nexts(s[..|s| - 1]) + [s[|s| - 1].next]
  }

  ghost function Values(s: seq<Link>): (cs: seq<Chain>)
    reads s
    ensures |cs| == |s|
  {
    if s == [] then [] else Values(s[..|s| - 1]) + [s[|s| - 1].chain]
  }

  /** The last data chain of two lists is that of the second, which has data. */
  lemma JoinedLast(a: seq<Chain>, b: seq<Chain>, i: nat, j: nat)
    requires IsLastData(a, i) && IsLastData(b, j) && |Flat(a)| > 0 && |Flat(b)| > 0
    ensures IsLastData(a + b, |a| + j) && |Flat(a + b)| == |Flat(a)| + |Flat(b)| && a != [] && b != []
  {
    hide Flat;
    HasData(a, i);
    HasData(b, j);
    FlatConcat(a, b);
  }

  lemma DistinctJoin(a: seq<Link>, b: seq<Link>)
    requires Distinct(a) && Distinct(b) && Apart(a, b)
    ensures Distinct(a + b)
  {
    var s := a + b;
    forall i, j | 0 <= i < j < |s|
      ensures s[i] != s[j]
    {
      if i < |a| <= j {
        assert s[i] in a && s[j] in b;
      }
    }
  }

  lemma {:induction false} Fields(s: seq<Link>)
    ensures forall i :: 0 <= i < |s| ==> Values(s)[i] == s[i].chain && Nexts(s)[i] == s[i].next
  {
    if s != [] {
      Fields(s[..|s| - 1]);
    }
  }

  lemma Concat(a: seq<Link>, b: seq<Link>)
    ensures Values(a + b) == Values(a) + Values(b) && Nexts(a + b) == Nexts(a) + Nexts(b)
  {
    hide Values, Nexts;
    Fields(a);
    Fields(b);
    Fields(a + b);
  }

  lemma LastAlone(a: seq<Link>, b: seq<Link>)
    requires a != [] && Distinct(a) && Apart(a, b)
    ensures (forall i :: 0 <= i < |a| - 1 ==> a[i] != a[|a| - 1]) && forall i :: 0 <= i < |b| ==> b[i] != a[|a| - 1]
  {
    assert a[|a| - 1] in a;
  }

  /** The last link of `a` leads to `b` now. */
  lemma Spliced(a: seq<Link>, b: seq<Link>, na: seq<Link?>, nb: seq<Link?>, first: Link?, second: Link?)
    requires a != [] && b != [] && Apart(a, b) && LeadBy(first, a, na) && LeadBy(second, b, nb)
    ensures LeadBy(first, a + b, na[..|a| - 1] + [second] + nb) && first == a[0]
    ensures (forall i :: 0 <= i < |a| - 1 ==> a[i] != a[|a| - 1]) && forall i :: 0 <= i < |b| ==> b[i] != a[|a| - 1]
  {
    DistinctJoin(a, b);
    LastAlone(a, b);
  }

  /** link->next = to, where `link` is the last of `a` and `to` the first of `b`. */
  method Splice(link: Link, to: Link?, ghost a: seq<Link>, ghost b: seq<Link>, ghost first: Link?)
    requires a != [] && b != [] && Apart(a, b) && Leads(first, a) && Leads(to, b) && link == a[|a| - 1]
    modifies link`next
    ensures Leads(first, a + b) && Values(a + b) == old(Values(a)) + old(Values(b))
  {
    hide Values, Nexts, LeadBy, Apart;
    ghost var na, nb := Nexts(a), Nexts(b);
    Fields(a);
    Fields(b);
    Spliced(a, b, na, nb, first, to);
    link.next := to;
    Fields(a);
    Fields(b);
    assert Nexts(a) == na[..|na| - 1] + [to] && Nexts(b) == nb;
    assert Values(a) == old(Values(a)) && Values(b) == old(Values(b));
    Concat(a, b);
  }

  /** The list is cut at place `v` and goes on with `link`. */
  lemma Replaced(s: seq<Link>, ns: seq<Link?>, first: Link?, v: nat, link: Link)
    requires LeadBy(first, s, ns) && v <= |s| && link !in s
    ensures LeadBy(if v == 0 then link else first, s[..v] + [link], (if v == 0 then [] else ns[..v - 1] + [link]) + [null])
    ensures forall i, j :: 0 <= i < j < |s| ==> s[i] != s[j]
  {
  }

  /** *ch = link, where `ch` is the slot at place `v` of the list `s` of `buf`. */
  method Store(buf: HeapBuffer, ch: Slot, link: Link, ghost s: seq<Link>, ghost v: nat)
    requires Leads(buf.first, s) && v <= |s| && link !in s && link.next == null
    requires ch == if v == 0 then FirstOf(buf) else NextOf(s[v - 1])
    modifies buf`first, s`next
    ensures Leads(buf.first, s[..v] + [link]) && Values(s[..v] + [link]) == old(Values(s))[..v] + [link.chain]
  {
    hide Values, Nexts, LeadBy;
    ghost var ns, vs := Nexts(s), Values(s);
    Fields(s);
    Replaced(s, ns, buf.first, v, link);
    match ch {
      case FirstOf(b) => b.first := link;
      case NextOf(l) => l.next := link;
    }
    Fields(s[..v] + [link]);
    assert Nexts(s[..v] + [link]) == (if v == 0 then [] else ns[..v - 1] + [link]) + [null];
    assert Values(s[..v] + [link]) == vs[..v] + [link.chain];
  }

  lemma VictimStep(cs: seq<Chain>, v: nat)
    requires v <= |cs|
    ensures Victim(cs, v) == if v == |cs| || cs[v].off == 0 then v else Victim(cs, v + 1)
  {
  }

  /** The rest of a list is a list. */
  lemma RestLeads(s: seq<Link>, ns: seq<Link?>, first: Link?, k: nat)
    requires LeadBy(first, s, ns) && k < |s|
    ensures LeadBy(s[k], s[k..], ns[k..])
  {
  }

  /** What is left after the first `n` bytes, of which `left` are in chain `k`. */
  lemma CutValues(cs: seq<Chain>, lwd: nat, k: nat, left: nat, n: nat)
    requires IsLastData(cs, lwd) && k < |cs| && left < cs[k].off && left + |Flat(cs[..k])| == n
    ensures var rest := [Skip(cs[k], left)] + cs[k + 1..];
      k <= lwd && IsLastData(rest, lwd - k) && n <= |Flat(cs)| && Flat(rest) == Flat(cs)[n..]
  {
    hide Flat, Data;
    FlatSplit(cs, k);
    FlatStep(cs, k);
    FlatCons(Skip(cs[k], left), cs[k + 1..]);
    assert Data(Skip(cs[k], left)) == Data(cs[k])[left..];
  }

  /** Skip the first bytes of `link`, which is chain `k` and becomes the first. */
  method SkipIn(link: Link, left: nat, ghost s: seq<Link>, ghost k: nat, ghost first: Link?)
    requires Leads(first, s) && k < |s| && link == s[k] && left < link.chain.off
    modifies link`chain
    ensures Leads(link, s[k..]) && Values(s[k..]) == [Skip(old(link.chain), left)] + old(Values(s))[k + 1..]
  {
    hide Values, Nexts, LeadBy, Skip;
    ghost var tail, ns, cs := s[k..], Nexts(s), Values(s);
    Fields(s);
    RestLeads(s, ns, first, k);
    OthersThan(s, ns, first, k);
    assert forall i :: 0 <= i < |tail| ==> tail[i] == s[k + i];
    assert forall i :: 0 < i < |tail| ==> tail[i].chain == cs[k + i] && tail[i] != link;
    assert forall i :: 0 <= i < |tail| ==> tail[i].next == ns[k + i];
    link.chain := Skip(link.chain, left);
    Fields(tail);
    assert Nexts(tail) == ns[k..];
    assert |tail| == 1 + |cs[k + 1..]| && Values(tail)[0] == Skip(cs[k], left);
    assert Values(tail)[1..] == cs[k + 1..];
    assert Values(tail) == [Values(tail)[0]] + Values(tail)[1..];
  }

  lemma OthersThan(s: seq<Link>, ns: seq<Link?>, first: Link?, k: nat)
    requires LeadBy(first, s, ns) && k < |s|
    ensures forall i :: k < i < |s| ==> s[i] != s[k]
  {
  }

  /** With bytes left there is another chain. */
  lemma NotAll(cs: seq<Chain>, k: nat)
    requires k < |cs|
    ensures |Flat(cs[..k + 1])| < |Flat(cs)| ==> k + 1 < |cs|
  {
    assert k + 1 == |cs| ==> cs[..k + 1] == cs;
  }

  class HeapBuffer {
    var first: Link?
    var last: Link?
    var lastWithDatap: Slot
    var totalLen: nat
    var freezeStart: bool
    var freezeEnd: bool
    /** The links in order, what they hold, and the place lastWithDatap leads to. */
    ghost var spine: seq<Link>
    ghost var chains: seq<Chain>
    ghost var at: nat

    ghost function SlotAt(k: nat): Slot
      reads this
      requires k <= |spine|
    {
      if k == 0 then FirstOf(this) else NextOf(spine[k - 1])
    }

    ghost predicate Linked()
      reads this, spine
    {
      && Leads(first, spine) && chains == Values(spine) && last == (if spine == [] then null else spine[|spine| - 1])
      && at <= |spine| && lastWithDatap == SlotAt(at)
    }

    /** The representation invariant of evbuffer-internal.h, on the chains as values. */
    ghost predicate Valid()
      reads this, spine
    {
      Linked() && IsLastData(chains, at) && totalLen == |Flat(chains)|
    }

    constructor ()
      ensures Valid() && spine == [] && !freezeStart && !freezeEnd
    {
      first, last, totalLen, freezeStart, freezeEnd := null, null, 0, false, false;
      lastWithDatap := FirstOf(this);
      spine, chains, at := [], [], 0;
    }

    /** New values for all fields. */
    method Assign(first: Link?, last: Link?, slot: Slot, totalLen: nat, ghost s: seq<Link>, ghost cs: seq<Chain>, ghost at: nat)
      requires Leads(first, s) && Values(s) == cs && last == (if s == [] then null else s[|s| - 1])
      requires at <= |s| && slot == (if at == 0 then FirstOf(this) else NextOf(s[at - 1]))
      modifies `first, `last, `lastWithDatap, `totalLen, `spine, `chains, `at
      ensures Linked() && spine == s && chains == cs && this.at == at && this.totalLen == totalLen
    {
      hide Leads, Values;
      this.first, this.last, lastWithDatap, this.totalLen := first, last, slot, totalLen;
      spine, chains, this.at := s, cs, at;
    }

    /** ZERO_CHAIN */
    method ZeroChain()
      modifies `first, `last, `lastWithDatap, `totalLen, `spine, `chains, `at
      ensures Valid() && spine == [] && chains == []
    {
      first, last, lastWithDatap, totalLen := null, null, FirstOf(this), 0;
      spine, chains, at := [], [], 0;
    }

    /** COPY_CHAIN */
    method CopyChain(src: HeapBuffer)
      requires src.Valid() && src != this
      modifies `first, `last, `lastWithDatap, `totalLen, `spine, `chains, `at
      ensures Valid() && spine == src.spine && at == src.at && chains == src.chains
    {
      hide Leads, Values, IsLastData, Flat;
      var slot := if src.lastWithDatap == FirstOf(src) then FirstOf(this) else src.lastWithDatap;
      Assign(src.first, src.last, slot, src.totalLen, src.spine, src.chains, src.at);
    }

    /** APPEND_CHAIN, to a buffer with data */
    method AppendChain(src: HeapBuffer)
      requires Valid() && src.Valid() && src != this && Apart(spine, src.spine) && totalLen > 0 && src.totalLen > 0
      modifies `first, `last, `lastWithDatap, `totalLen, `spine, `chains, `at, last`next
      ensures Valid() && spine == old(spine) + src.spine && at == |old(spine)| + src.at
      ensures chains == old(chains) + src.chains
    {
      JoinedLast(chains, src.chains, at, src.at);
      hide Flat, Values, IsLastData, Leads, Apart;
      ghost var s, k := spine + src.spine, |spine| + src.at;
      assert s[|s| - 1] == src.last && s[k - 1] == if src.at == 0 then last else src.spine[src.at - 1];
      Splice(last, src.first, spine, src.spine, first);
      var slot := if src.lastWithDatap == FirstOf(src) then NextOf(last) else src.lastWithDatap;
      Assign(first, src.last, slot, totalLen + src.totalLen, s, chains + src.chains, k);
    }

    /** PREPEND_CHAIN, to a buffer with data: last_with_datap leads to a chain. */
    method PrependChain(src: HeapBuffer)
      requires Valid() && src.Valid() && src != this && Apart(src.spine, spine) && totalLen > 0 && src.totalLen > 0
      modifies `first, `last, `lastWithDatap, `totalLen, `spine, `chains, `at, src.last`next
      ensures Valid() && spine == src.spine + old(spine) && at == |src.spine| + old(at)
      ensures chains == src.chains + old(chains)
    {
      JoinedLast(src.chains, chains, src.at, at);
      hide Flat, Values, IsLastData, Leads, Apart;
      Splice(src.last, first, src.spine, spine, src.first);
      var slot := if lastWithDatap == FirstOf(this) then NextOf(src.last) else lastWithDatap;
      Assign(src.first, last, slot, totalLen + src.totalLen, src.spine + spine, src.chains + chains, |src.spine| + at);
    }

    /** evbuffer_add_buffer */
    method AddBuffer(inbuf: HeapBuffer) returns (ret: int)
      requires Valid() && inbuf.Valid() && (inbuf != this ==> Apart(spine, inbuf.spine))
      modifies `first, `last, `lastWithDatap, `totalLen, `spine, `chains, `at, if last == null then {} else {last}
      modifies inbuf`first, inbuf`last, inbuf`lastWithDatap, inbuf`totalLen, inbuf`spine, inbuf`chains, inbuf`at
      ensures Valid() && inbuf.Valid()
      ensures ret == if old(inbuf.totalLen > 0 && inbuf != this && (freezeEnd || inbuf.freezeStart)) then -1 else 0
      ensures ret == 0 && inbuf != this && old(inbuf.totalLen) > 0 ==>
        inbuf.spine == [] && chains == old(if totalLen == 0 then [] else chains) + old(inbuf.chains)
      ensures ret == -1 || inbuf == this || old(inbuf.totalLen) == 0 ==>
        spine == old(spine) && chains == old(chains) && inbuf.spine == old(inbuf.spine) && inbuf.chains == old(inbuf.chains)
    {
      hide Flat, Values, IsLastData, Leads, Apart, HeapBuffer.Linked;
      if inbuf.totalLen == 0 || inbuf == this { return 0; }
      if freezeEnd || inbuf.freezeStart { return -1; }
      if totalLen == 0 {
        CopyChain(inbuf);
      } else {
        AppendChain(inbuf);
      }
      inbuf.ZeroChain();
      return 0;
    }

    /** evbuffer_prepend_buffer */
    method PrependBuffer(inbuf: HeapBuffer) returns (ret: int)
      requires Valid() && inbuf.Valid() && (inbuf != this ==> Apart(inbuf.spine, spine))
      modifies `first, `last, `lastWithDatap, `totalLen, `spine, `chains, `at, if inbuf.last == null then {} else {inbuf.last}
      modifies inbuf`first, inbuf`last, inbuf`lastWithDatap, inbuf`totalLen, inbuf`spine, inbuf`chains, inbuf`at
      ensures Valid() && inbuf.Valid()
      ensures ret == if old(inbuf.totalLen > 0 && inbuf != this && (freezeStart || inbuf.freezeStart)) then -1 else 0
      ensures ret == 0 && inbuf != this && old(inbuf.totalLen) > 0 ==>
        inbuf.spine == [] && chains == old(inbuf.chains) + old(if totalLen == 0 then [] else chains)
      ensures ret == -1 || inbuf == this || old(inbuf.totalLen) == 0 ==>
        spine == old(spine) && chains == old(chains) && inbuf.spine == old(inbuf.spine) && inbuf.chains == old(inbuf.chains)
    {
      hide Flat, Values, IsLastData, Leads, Apart, HeapBuffer.Linked;
      if inbuf.totalLen == 0 || inbuf == this { return 0; }
      if freezeStart || inbuf.freezeStart { return -1; }
      if totalLen == 0 {
        CopyChain(inbuf);
      } else {
        PrependChain(inbuf);
      }
      inbuf.ZeroChain();
      return 0;
    }

    /** The pointer at a place leads to the link there, which holds the chain. */
    lemma Reaches(k: nat)
      requires Linked() && k <= |spine|
      ensures |chains| == |spine|
      ensures Deref(SlotAt(k)) == if k < |spine| then spine[k] else null
      ensures k < |spine| ==> spine[k].chain == chains[k] && spine[k].next == if k + 1 < |spine| then spine[k + 1] else null
    {
      Fields(spine);
    }

    lemma NoRepeats()
      requires Linked()
      ensures Distinct(spine)
    {
    }

    /** The walk of evbuffer_chain_insert to its first victim. */
    method FirstVictim() returns (ch: Slot, ghost v: nat)
      requires Linked()
      ensures |chains| == |spine| && v == Victim(chains, at) && ch == SlotAt(v)
    {
      Reaches(at);
      hide Values, Leads, Victim, HeapBuffer.Linked;
      ch, v := lastWithDatap, at;
      while Deref(ch) != null && Deref(ch).chain.off != 0
        invariant at <= v <= |spine| && ch == SlotAt(v) && Victim(chains, v) == Victim(chains, at)
        invariant Deref(ch) == (if v < |spine| then spine[v] else null) && (v < |spine| ==> spine[v].chain == chains[v])
        decreases |spine| - v
      {
        VictimStep(chains, v);
        Reaches(v);
        Reaches(v + 1);
        ch := NextOf(Deref(ch));
        v := v + 1;
      }
      VictimStep(chains, v);
    }

    /** evbuffer_chain_insert, from any state, does what it does to values. */
    method ChainInsert(link: Link)
      requires Linked() && Slotted(chains, at) && link !in spine && link.next == null
      modifies `first, `last, `lastWithDatap, `totalLen, `spine, `chains, `at, spine`next
      ensures Linked() && Slotted(chains, at) && |old(chains)| == |old(spine)|
      ensures var v := Victim(old(chains), old(at));
        && chains == old(chains)[..v] + [link.chain] && spine == old(spine)[..v] + [link]
        && at == (if 0 < v == |old(spine)| && link.chain.off > 0 then v else old(at))
      ensures totalLen == old(totalLen) + link.chain.off
    {
      var ch, v := FirstVictim();
      Reaches(v);
      Reaches(0);
      hide Leads, Victim;
      var slot := if Deref(ch) == null && first != null && link.chain.off > 0 then NextOf(last) else lastWithDatap;
      PutAt(ch, link, slot, v, if 0 < v == |spine| && link.chain.off > 0 then v else at);
    }

    /** *ch = chain; buf->last = chain; and the new last_with_datap and total_len. */
    method PutAt(ch: Slot, link: Link, slot: Slot, ghost v: nat, ghost k: nat)
      requires Linked() && v <= |spine| && ch == SlotAt(v) && k <= v && slot == SlotAt(k)
      requires link !in spine && link.next == null
      modifies `first, `last, `lastWithDatap, `totalLen, `spine, `chains, `at, spine`next
      ensures Linked() && at == k && totalLen == old(totalLen) + link.chain.off
      ensures spine == old(spine)[..v] + [link] && v <= |old(chains)| && chains == old(chains)[..v] + [link.chain]
    {
      hide Values, Leads;
      ghost var s, cs := spine[..v] + [link], chains[..v] + [link.chain];
      assert k > 0 ==> s[k - 1] == spine[k - 1];
      Store(this, ch, link, spine, v);
      Assign(first, link, slot, totalLen + link.chain.off, s, cs, k);
    }

    /** The walk of evbuffer_drain over the chains it frees, which takes
        last_with_datap back to &buf->first when it leads out of one of them. */
    method PassOver(n: nat) returns (link: Link, left: nat, slot: Slot, ghost k: nat)
      requires Valid() && n < totalLen
      ensures |chains| == |spine| && k < |spine| && link == spine[k] && link.chain == chains[k]
      ensures left < link.chain.off && left + |Flat(chains[..k])| == n
      ensures slot == if at <= k then FirstOf(this) else SlotAt(at)
    {
      Reaches(0);
      Reaches(at);
      NoRepeats();
      FlatEnd(chains);
      FlatOfEmpty([]);
      assert chains[..0] == [];
      hide Values, Leads, Flat, IsLastData, HeapBuffer.Linked, HeapBuffer.Valid;
      link, left, slot, k := first, n, lastWithDatap, 0;
      while left >= link.chain.off
        invariant k < |spine| && link == spine[k] && link.chain == chains[k] && left + |Flat(chains[..k])| == n
        invariant slot == if at <= k then FirstOf(this) else SlotAt(at)
        decreases |spine| - k
      {
        FlatStep(chains, k);
        NotAll(chains, k);
        Reaches(k);
        Reaches(k + 1);
        left := left - link.chain.off;
        if link == Deref(slot) {
          slot := FirstOf(this);
        }
        if slot == NextOf(link) {
          slot := FirstOf(this);
        }
        link := link.next;
        k := k + 1;
      }
    }

    /** evbuffer_drain of less than everything: the links behind those it frees stay
        as they are, and last_with_datap leads to the same chain as before. */
    method CutFront(n: nat)
      requires Valid() && n < totalLen
      modifies `first, `last, `lastWithDatap, `totalLen, `spine, `chains, `at, spine`chain
      ensures Valid() && n <= |Flat(old(chains))| && Flat(chains) == Flat(old(chains))[n..]
      ensures |spine| <= |old(spine)| && spine == old(spine)[|old(spine)| - |spine|..]
      ensures at + |old(spine)| == old(at) + |spine|
    {
      var link, left, slot, k := PassOver(n);
      CutValues(chains, at, k, left, n);
      hide Leads, Flat, IsLastData, Skip, HeapBuffer.Linked;
      StartAt(link, left, slot, totalLen - n, k);
    }

    /** buf->first = chain, less its first bytes. */
    method StartAt(link: Link, left: nat, slot: Slot, total: nat, ghost k: nat)
      requires Linked() && k < |spine| == |chains| && link == spine[k] && link.chain == chains[k] && left < link.chain.off
      requires k <= at && slot == if at == k then FirstOf(this) else SlotAt(at)
      modifies `first, `last, `lastWithDatap, `totalLen, `spine, `chains, `at, spine`chain
      ensures Linked() && at == old(at) - k && totalLen == total
      ensures spine == old(spine)[k..] && chains == [Skip(old(chains)[k], left)] + old(chains)[k + 1..]
    {
      hide Values, Leads, Skip;
      ghost var s, rest := spine[k..], [Skip(chains[k], left)] + chains[k + 1..];
      assert s[|s| - 1] == spine[|spine| - 1] && (at > k ==> s[at - k - 1] == spine[at - 1]);
      SkipIn(link, left, spine, k, first);
      Assign(link, last, slot, total, s, rest, at - k);
    }

    /** evbuffer_drain */
    method Drain(n: nat) returns (ret: int)
      requires Valid()
      modifies `first, `last, `lastWithDatap, `totalLen, `spine, `chains, `at, spine`chain
      ensures Valid()
      ensures ret == if old(freezeStart && totalLen > 0) then -1 else 0
      ensures ret == 0 ==> Flat(chains) == Flat(old(chains))[Min(n, old(totalLen))..]
      ensures ret == -1 ==> spine == old(spine) && chains == old(chains)
    {
      hide Values, Leads, Flat, IsLastData;
      if totalLen == 0 { return 0; }
      if freezeStart { return -1; }
      if n >= totalLen {
        FlatOfEmpty([]);
        ZeroChain();
      } else {
        CutFront(n);
      }
      return 0;
    }
  }
}
