/** What a name in a packet denotes, and name_parse. */
module DnsParse {
  import opened Bytes
  import opened DnsName

  /** The offset in a compression pointer at `i`. */
  function Target(p: seq<byte>, i: nat): nat
    requires i + 1 < |p|
  {
    var high: int := p[i];
    (high % 64) * 256 + p[i + 1]
  }

  /** At `i` stands a name with labels `ls`, read through `jumps` pointers. */
  ghost predicate NameAt(p: seq<byte>, i: nat, ls: seq<seq<byte>>, jumps: nat)
    decreases |ls|, jumps
  {
    && i < |p|
    && if p[i] == 0 then
         ls == [] && jumps == 0
       else if p[i] >= 64 then
         jumps > 0 && i + 1 < |p| && NameAt(p, Target(p, i), ls, jumps - 1)
       else
         ls != [] && i + 1 + p[i] < |p| && ls[0] == p[i + 1..i + 1 + p[i]] && NameAt(p, i + 1 + p[i], ls[1..], jumps)
  }

  /** Where the name at `i` stops taking up space: after the zero byte or after
      the first pointer. */
  function EndOf(p: seq<byte>, i: nat): nat
    decreases |p| - i
  {
    if i >= |p| then i
    else if p[i] == 0 then i + 1
    else if p[i] >= 64 then i + 2
    else EndOf(p, i + 1 + p[i])
  }

  /** Over the bytes themselves: a byte with one of its two upper bits set and the byte
      behind it name offset `t`, high part first, and the names there are those at
      `t` with one more pointer (section 4.1.4 of RFC 1035, where both bits are set). */
  lemma PointerLeads(p: seq<byte>, i: nat, bits: nat, t: nat, ls: seq<seq<byte>>, k: nat)
    requires i + 1 < |p| && 1 <= bits <= 3 && t < 0x4000 && p[i] == 64 * bits + t / 256 && p[i + 1] == t % 256
    ensures NameAt(p, i, ls, k) <==> k > 0 && NameAt(p, t, ls, k - 1)
    ensures EndOf(p, i) == i + 2
  {
    assert Target(p, i) == t;
  }

  /** A place denotes one name at most. */
  lemma {:induction false} NameAtUnique(p: seq<byte>, i: nat, ls: seq<seq<byte>>, k: nat, ls': seq<seq<byte>>, k': nat)
    requires NameAt(p, i, ls, k) && NameAt(p, i, ls', k')
    ensures ls == ls' && k == k'
    decreases |ls|, k
  {
    if p[i] == 0 {
    } else if p[i] >= 64 {
      NameAtUnique(p, Target(p, i), ls, k - 1, ls', k' - 1);
    } else {
      NameAtUnique(p, i + 1 + p[i], ls[1..], k, ls'[1..], k');
      assert ls == [ls[0]] + ls[1..] && ls' == [ls'[0]] + ls'[1..];
    }
  }

  /** More bytes at the end change no name. */
  lemma {:induction false} NameAtExtend(p: seq<byte>, q: seq<byte>, i: nat, ls: seq<seq<byte>>, k: nat)
    requires NameAt(p, i, ls, k) && p <= q
    ensures NameAt(q, i, ls, k)
    decreases |ls|, k
  {
    if p[i] == 0 {
    } else if p[i] >= 64 {
      NameAtExtend(p, q, Target(p, i), ls, k - 1);
    } else {
      NameAtExtend(p, q, i + 1 + p[i], ls[1..], k);
    }
  }

  lemma {:induction false} EndOfExtend(p: seq<byte>, q: seq<byte>, i: nat, ls: seq<seq<byte>>, k: nat)
    requires NameAt(p, i, ls, k) && p <= q
    ensures EndOf(q, i) == EndOf(p, i) <= |p|
    decreases |p| - i
  {
    if 0 < p[i] < 64 {
      EndOfExtend(p, q, i + 1 + p[i], ls[1..], k);
    }
  }

  lemma {:induction false} JoinSnoc(ls: seq<seq<byte>>, lab: seq<byte>)
    ensures Join(ls + [lab]) == if ls == [] then lab else Join(ls) + [DOT] + lab
  {
    if |ls| > 1 {
      assert (ls + [lab])[1..] == ls[1..] + [lab];
      JoinSnoc(ls[1..], lab);
    } else if |ls| == 1 {
      assert (ls + [lab])[1..] == [lab];
    }
  }

  lemma {:induction false} JoinGrows(a: seq<seq<byte>>, b: seq<seq<byte>>)
    ensures |Join(a)| <= |Join(a + b)|
    decreases |b|
  {
    if b == [] {
      assert a + b == a;
    } else {
      hide Join;
      assert a + b == (a + [b[0]]) + b[1..];
      JoinSnoc(a, b[0]);
      JoinGrows(a + [b[0]], b[1..]);
    }
  }

  /** The name that name_parse accepts at `idx`: it is there, with no more
      pointers than the packet has bytes, and fits in the output. */
  ghost predicate Acceptable(p: seq<byte>, idx: nat, outLen: int, ls: seq<seq<byte>>, k: nat) {
    NameAt(p, idx, ls, k) && k <= |p| && |Join(ls)| < outLen
  }

  ghost predicate Refused(p: seq<byte>, idx: nat, outLen: int) {
    forall ls, k: nat :: !Acceptable(p, idx, outLen, ls, k)
  }

  ghost predicate Accepted(p: seq<byte>, idx: nat, outLen: int, out: seq<byte>) {
    exists ls, k: nat :: Acceptable(p, idx, outLen, ls, k) && out == Join(ls)
  }

  /** The names at `idx` are those at `j` after `done` and `count` pointers. */
  ghost predicate Unread(p: seq<byte>, idx: nat, done: seq<seq<byte>>, count: nat, j: nat) {
    && (forall ls, k: nat :: NameAt(p, j, ls, k) ==> NameAt(p, idx, done + ls, count + k))
    && (forall ls, k: nat :: NameAt(p, idx, ls, k) ==>
          |done| <= |ls| && ls[..|done|] == done && count <= k && NameAt(p, j, ls[|done|..], k - count))
  }

  lemma UnreadStart(p: seq<byte>, idx: nat)
    ensures Unread(p, idx, [], 0, idx)
  {
    forall ls: seq<seq<byte>>, k: nat | NameAt(p, idx, ls, k)
      ensures NameAt(p, idx, [] + ls, 0 + k) && ls[..0] == [] && NameAt(p, idx, ls[0..], k - 0)
    {
      assert [] + ls == ls && ls[0..] == ls;
    }
  }

  lemma UnreadJump(p: seq<byte>, idx: nat, done: seq<seq<byte>>, count: nat, j: nat)
    requires Unread(p, idx, done, count, j) && j + 1 < |p| && p[j] >= 64
    ensures Unread(p, idx, done, count + 1, Target(p, j))
  {
    forall ls: seq<seq<byte>>, k: nat | NameAt(p, Target(p, j), ls, k)
      ensures NameAt(p, idx, done + ls, count + 1 + k)
    {
      assert NameAt(p, j, ls, k + 1);
    }
    forall ls: seq<seq<byte>>, k: nat | NameAt(p, idx, ls, k)
      ensures |done| <= |ls| && ls[..|done|] == done && count + 1 <= k
      ensures NameAt(p, Target(p, j), ls[|done|..], k - (count + 1))
    {
      assert NameAt(p, j, ls[|done|..], k - count);
    }
  }

  lemma UnreadLabel(p: seq<byte>, idx: nat, done: seq<seq<byte>>, count: nat, j: nat)
    requires Unread(p, idx, done, count, j) && j < |p| && j + 1 + p[j] < |p| && 0 < p[j] < 64
    ensures Unread(p, idx, done + [p[j + 1..j + 1 + p[j]]], count, j + 1 + p[j])
  {
    var lab, n := p[j + 1..j + 1 + p[j]], j + 1 + p[j];
    forall ls: seq<seq<byte>>, k: nat | NameAt(p, n, ls, k)
      ensures NameAt(p, idx, done + [lab] + ls, count + k)
    {
      assert ([lab] + ls)[1..] == ls;
      assert NameAt(p, j, [lab] + ls, k);
      assert done + [lab] + ls == done + ([lab] + ls);
    }
    forall ls: seq<seq<byte>>, k: nat | NameAt(p, idx, ls, k)
      ensures |done| + 1 <= |ls| && ls[..|done| + 1] == done + [lab] && count <= k
      ensures NameAt(p, n, ls[|done| + 1..], k - count)
    {
      assert NameAt(p, j, ls[|done|..], k - count);
      assert ls[|done|..][1..] == ls[|done| + 1..];
    }
  }

  // ----- the copy of a label that the packet does not hold -----

  /** From `i`, whole labels `ls` and `jumps` pointers lead to `j`. */
  ghost predicate PathTo(p: seq<byte>, i: nat, ls: seq<seq<byte>>, jumps: nat, j: nat)
    decreases |ls|, jumps
  {
    || (i == j && ls == [] && jumps == 0)
    || (&& i < |p|
        && if p[i] >= 64 then
             jumps > 0 && i + 1 < |p| && PathTo(p, Target(p, i), ls, jumps - 1, j)
           else
             && ls != [] && 0 < p[i] && i + 1 + p[i] <= |p| && ls[0] == p[i + 1..i + 1 + p[i]]
             && PathTo(p, i + 1 + p[i], ls[1..], jumps, j))
  }

  /** The label at `t` is cut off by the end of the packet. */
  predicate CutOff(p: seq<byte>, t: nat) {
    t < |p| && 0 < p[t] < 64 && t + 1 + p[t] > |p|
  }

  /** The length of the output once a label of `len` bytes is added. */
  ghost function Needed(ls: seq<seq<byte>>, len: nat): nat {
    |Join(ls)| + (if ls != [] then 1 else 0) + len
  }

  /** name_parse comes to a label that is cut off and still has room to copy it. */
  ghost predicate Strays(p: seq<byte>, idx: nat, outLen: int) {
    exists ls, k: nat, t: nat :: StraysAt(p, idx, outLen, ls, k, t)
  }

  ghost predicate StraysAt(p: seq<byte>, idx: nat, outLen: int, ls: seq<seq<byte>>, k: nat, t: nat) {
    k <= |p| && CutOff(p, t) && PathTo(p, idx, ls, k, t) && Needed(ls, p[t]) < outLen
  }

  /** The way to a cut-off label leads over `j`, after `done` and `count` pointers. */
  ghost predicate Ahead(p: seq<byte>, idx: nat, done: seq<seq<byte>>, count: nat, j: nat) {
    && PathTo(p, idx, done, count, j)
    && (forall ls, k: nat, t: nat :: CutOff(p, t) && PathTo(p, idx, ls, k, t) ==>
          |done| <= |ls| && ls[..|done|] == done && count <= k && PathTo(p, j, ls[|done|..], k - count, t))
  }

  lemma {:induction false} PathOn(p: seq<byte>, i: nat, ls: seq<seq<byte>>, k: nat, j: nat, ls': seq<seq<byte>>, k': nat, t: nat)
    requires PathTo(p, i, ls, k, j) && PathTo(p, j, ls', k', t)
    ensures PathTo(p, i, ls + ls', k + k', t)
    decreases |ls|, k
  {
    if i == j && ls == [] && k == 0 {
      assert ls + ls' == ls';
    } else if p[i] >= 64 {
      PathOn(p, Target(p, i), ls, k - 1, j, ls', k', t);
    } else {
      PathOn(p, i + 1 + p[i], ls[1..], k, j, ls', k', t);
      assert (ls + ls')[1..] == ls[1..] + ls';
    }
  }

  lemma AheadStart(p: seq<byte>, idx: nat)
    ensures Ahead(p, idx, [], 0, idx)
  {
    forall ls: seq<seq<byte>>, k: nat, t: nat | CutOff(p, t) && PathTo(p, idx, ls, k, t)
      ensures ls[..0] == [] && PathTo(p, idx, ls[0..], k - 0, t)
    {
      assert ls[0..] == ls;
    }
  }

  lemma AheadJump(p: seq<byte>, idx: nat, done: seq<seq<byte>>, count: nat, j: nat)
    requires Ahead(p, idx, done, count, j) && j + 1 < |p| && p[j] >= 64
    ensures Ahead(p, idx, done, count + 1, Target(p, j))
  {
    assert PathTo(p, j, [], 1, Target(p, j)) by { assert PathTo(p, Target(p, j), [], 0, Target(p, j)); }
    PathOn(p, idx, done, count, j, [], 1, Target(p, j));
    assert done + [] == done;
    forall ls: seq<seq<byte>>, k: nat, t: nat | CutOff(p, t) && PathTo(p, idx, ls, k, t)
      ensures |done| <= |ls| && ls[..|done|] == done && count + 1 <= k
      ensures PathTo(p, Target(p, j), ls[|done|..], k - (count + 1), t)
    {
      assert PathTo(p, j, ls[|done|..], k - count, t);
    }
  }

  lemma AheadLabel(p: seq<byte>, idx: nat, done: seq<seq<byte>>, count: nat, j: nat)
    requires Ahead(p, idx, done, count, j) && j < |p| && j + 1 + p[j] <= |p| && 0 < p[j] < 64
    ensures Ahead(p, idx, done + [p[j + 1..j + 1 + p[j]]], count, j + 1 + p[j])
  {
    var lab, n := p[j + 1..j + 1 + p[j]], j + 1 + p[j];
    assert PathTo(p, j, [lab], 0, n) by { assert PathTo(p, n, [lab][1..], 0, n); }
    PathOn(p, idx, done, count, j, [lab], 0, n);
    forall ls: seq<seq<byte>>, k: nat, t: nat | CutOff(p, t) && PathTo(p, idx, ls, k, t)
      ensures |done| + 1 <= |ls| && ls[..|done| + 1] == done + [lab] && count <= k
      ensures PathTo(p, n, ls[|done| + 1..], k - count, t)
    {
      assert PathTo(p, j, ls[|done|..], k - count, t);
      assert ls[|done|..][1..] == ls[|done| + 1..];
    }
  }

  /** The way ends at `j` with no cut-off label, or takes too many pointers. */
  lemma NoStray(p: seq<byte>, idx: nat, outLen: int, done: seq<seq<byte>>, count: nat, j: nat)
    requires Ahead(p, idx, done, count, j)
    requires count > |p| || j >= |p| || p[j] == 0 || (p[j] >= 64 && j + 1 >= |p|)
    ensures !Strays(p, idx, outLen)
  {
    assert count > |p| || forall ls, k: nat, t: nat :: CutOff(p, t) ==> !PathTo(p, j, ls, k, t);
    assert forall ls, k: nat, t: nat :: !StraysAt(p, idx, outLen, ls, k, t);
  }

  /** The label at `j` does not fit, so no later one does. */
  lemma NoStrayFits(p: seq<byte>, idx: nat, outLen: int, done: seq<seq<byte>>, count: nat, j: nat)
    requires Ahead(p, idx, done, count, j) && j < |p| && 0 < p[j] < 64 && Needed(done, p[j]) >= outLen
    ensures !Strays(p, idx, outLen)
  {
    forall ls: seq<seq<byte>>, k: nat, t: nat
      ensures !StraysAt(p, idx, outLen, ls, k, t)
    {
      if CutOff(p, t) && PathTo(p, idx, ls, k, t) {
        var rest := ls[|done|..];
        assert PathTo(p, j, rest, k - count, t) && ls == done + rest;
        if rest != [] {
          LaterNeeds(done, rest, p[j], p[t]);
        } else {
          assert ls == done;
        }
      }
    }
  }

  lemma LaterNeeds(done: seq<seq<byte>>, rest: seq<seq<byte>>, len: nat, more: nat)
    requires rest != [] && |rest[0]| == len
    ensures Needed(done, len) <= Needed(done + rest, more)
  {
    assert Join([]) == [];
    hide Join;
    JoinSnoc(done, rest[0]);
    JoinGrows(done + [rest[0]], rest[1..]);
    assert done + [rest[0]] + rest[1..] == done + rest;
  }

  lemma StrayFound(p: seq<byte>, idx: nat, outLen: int, done: seq<seq<byte>>, count: nat, j: nat)
    requires Ahead(p, idx, done, count, j) && count <= |p| && CutOff(p, j) && Needed(done, p[j]) < outLen
    ensures Strays(p, idx, outLen)
  {
    assert StraysAt(p, idx, outLen, done, count, j);
  }

  /** A single byte 3 that announces three more. */
  lemma ShortPacketStrays()
    ensures Strays([3], 0, 256)
  {
    assert PathTo([3], 0, [], 0, 0) && Join([]) == [];
    assert StraysAt([3], 0, 256, [], 0, 0);
  }

  /** Where name_parse goes on from `j`. */
  ghost predicate Going(p: seq<byte>, idx: nat, done: seq<seq<byte>>, count: nat, j: nat) {
    Unread(p, idx, done, count, j) && Ahead(p, idx, done, count, j)
  }

  lemma GoingStart(p: seq<byte>, idx: nat)
    ensures Going(p, idx, [], 0, idx)
  {
    hide Unread, Ahead;
    UnreadStart(p, idx);
    AheadStart(p, idx);
  }

  lemma GoingJump(p: seq<byte>, idx: nat, done: seq<seq<byte>>, count: nat, j: nat)
    requires Going(p, idx, done, count, j) && j + 1 < |p| && p[j] >= 64
    ensures Going(p, idx, done, count + 1, Target(p, j))
  {
    hide Unread, Ahead;
    UnreadJump(p, idx, done, count, j);
    AheadJump(p, idx, done, count, j);
  }

  lemma GoingLabel(p: seq<byte>, idx: nat, done: seq<seq<byte>>, count: nat, j: nat, out: seq<byte>)
    requires Going(p, idx, done, count, j) && j < |p| && 0 < p[j] < 64 && j + 1 + p[j] < |p|
    requires out == Join(done) && (out == [] <==> done == [])
    ensures var lab := p[j + 1..j + 1 + p[j]]; var next := out + (if out != [] then [DOT] else []) + lab;
      Going(p, idx, done + [lab], count, j + 1 + p[j]) && next == Join(done + [lab]) && next != []
  {
    hide Unread, Ahead, Join;
    LabelStep(p, idx, done, count, j, out);
    AheadLabel(p, idx, done, count, j);
  }

  /** The output is too small for the label at `j`, or for the name that ends there. */
  lemma TooLong(p: seq<byte>, idx: nat, outLen: int, done: seq<seq<byte>>, count: nat, j: nat)
    requires Going(p, idx, done, count, j) && j < |p| && 0 < p[j] < 64 && Needed(done, p[j]) >= outLen
    ensures Refused(p, idx, outLen) && !Strays(p, idx, outLen)
  {
    hide Unread, Ahead, Refused, Strays;
    NoneFits(p, idx, outLen, done, count, j);
    NoStrayFits(p, idx, outLen, done, count, j);
  }

  /** The part of name_parse for a label: it is refused if the output has no room or
      the packet ends before the name does. */
  method CopyLabel(p: seq<byte>, idx: nat, outLen: int, j: nat, out: seq<byte>, ghost done: seq<seq<byte>>, ghost count: nat)
    returns (ok: bool, strays: bool, out': seq<byte>, ghost done': seq<seq<byte>>)
    requires Going(p, idx, done, count, j) && count <= |p| && j < |p| && 0 < p[j] < 64
    requires out == Join(done) && (out == [] <==> done == [])
    ensures !ok ==> Refused(p, idx, outLen) && (strays <==> Strays(p, idx, outLen))
    ensures ok ==> !strays && j + 1 + p[j] < |p| && Going(p, idx, done', count, j + 1 + p[j])
    ensures ok ==> out' == Join(done') && out' != [] && done' != []
  {
    hide Join, Going, Refused, Strays;
    out', done' := out, done;
    var dots := if out != [] then [DOT] else [];
    if |out| + |dots| + p[j] >= outLen {
      TooLong(p, idx, outLen, done, count, j);
      return false, false, out, done;
    }
    if j + 1 + p[j] >= |p| {
      // the copy reads past the packet, or up to its end; the next turn fails
      StraysHere(p, idx, outLen, done, count, j);
      return false, j + 1 + p[j] > |p|, out, done;
    }
    GoingLabel(p, idx, done, count, j, out);
    var lab := p[j + 1..j + 1 + p[j]];
    return true, false, out + dots + lab, done + [lab];
  }

  /** name_parse, on every packet: it succeeds exactly when an acceptable name is
      there, and then gives its dotted form and where it ends.  `strays` says that a
      memcpy reads behind the packet; the call fails then in the next turn. */
  method NameParse(p: seq<byte>, idx: nat, outLen: int) returns (ret: int, out: seq<byte>, next: nat, strays: bool)
    ensures ret in {0, -1} && (strays ==> ret == -1)
    ensures ret == 0 ==> Accepted(p, idx, outLen, out) && next == EndOf(p, idx)
    ensures ret == -1 ==> Refused(p, idx, outLen)
    ensures strays <==> Strays(p, idx, outLen)
  {
    assert Join([]) == [];
    hide Join, Going, EndOf, Accepted, Refused, Strays, Target;
    out, next, strays := [], idx, false;
    var nameEnd: int := -1;
    var j: nat, ptrCount: nat := idx, 0;
    ghost var done: seq<seq<byte>> := [];
    GoingStart(p, idx);
    while true
      invariant Going(p, idx, done, ptrCount, j) && ptrCount <= |p|
      invariant out == Join(done) && (out == [] <==> done == [])
      invariant if nameEnd < 0 then EndOf(p, idx) == EndOf(p, j) else EndOf(p, idx) == nameEnd
      decreases |p| - ptrCount, |p| - j
    {
      if j >= |p| {
        GivesUp(p, idx, outLen, done, ptrCount, j);
        return -1, out, next, false;
      }
      EndStep(p, j);
      var labelLen := p[j];
      if labelLen == 0 { break; }
      if labelLen >= 64 {
        if j + 1 >= |p| {
          GivesUp(p, idx, outLen, done, ptrCount, j);
          return -1, out, next, false;
        }
        GoingJump(p, idx, done, ptrCount, j);
        if nameEnd < 0 { nameEnd := j + 2; }
        j := Target(p, j);
        ptrCount := ptrCount + 1;
        if j >= |p| || ptrCount > |p| {
          GivesUp(p, idx, outLen, done, ptrCount, j);
          return -1, out, next, false;
        }
      } else {
        var ok;
        ok, strays, out, done := CopyLabel(p, idx, outLen, j, out, done, ptrCount);
        if !ok { return -1, out, next, strays; }
        j := j + 1 + labelLen;
      }
    }
    EndsHere(p, idx, outLen, done, ptrCount, j);
    if |out| >= outLen { return -1, out, next, false; }
    next := if nameEnd < 0 then j + 1 else nameEnd;
    return 0, out, next, false;
  }

  /** Twelve bytes of header, the name "a", and a pointer back to it. */
  const WITH_POINTER: seq<byte> := [0, 0, 0, 0, 0, 0, 0, 0, 0, 0, 0, 0, 1, 97, 0, 192, 12]

  lemma PointerDenotesA()
    ensures NameAt(WITH_POINTER, 12, [[97]], 0) && NameAt(WITH_POINTER, 15, [[97]], 1) && EndOf(WITH_POINTER, 15) == 17
  {
    var p := WITH_POINTER;
    assert p[13..14] == [97] && [[97]][1..] == [];
    assert NameAt(p, 14, [], 0);
    assert NameAt(p, 12, [[97]], 0);
    PointerLeads(p, 15, 3, 12, [[97]], 1);
  }

  method ReadPointer() returns (ret: int, out: seq<byte>, next: nat)
    ensures ret == 0 && out == [97] && next == 17
  {
    hide NameAt, EndOf, Refused;
    PointerDenotesA();
    var strays;
    ret, out, next, strays := NameParse(WITH_POINTER, 15, 256);
    OnlyName(WITH_POINTER, 15, 256, [[97]], 1, ret, out);
    assert Join([[97]]) == [97];
  }

  /** Where a name that fits stands, that name is read. */
  lemma OnlyName(p: seq<byte>, idx: nat, outLen: int, ls: seq<seq<byte>>, k: nat, ret: int, out: seq<byte>)
    requires NameAt(p, idx, ls, k) && k <= |p| && |Join(ls)| < outLen && ret in {0, -1}
    requires (ret == 0 ==> Accepted(p, idx, outLen, out)) && (ret == -1 ==> Refused(p, idx, outLen))
    ensures ret == 0 && out == Join(ls)
  {
    assert Acceptable(p, idx, outLen, ls, k);
    var ls', k': nat :| Acceptable(p, idx, outLen, ls', k') && out == Join(ls');
    NameAtUnique(p, idx, ls, k, ls', k');
  }

  /** The name ends at `j`: it is accepted exactly if the output has room. */
  lemma EndsHere(p: seq<byte>, idx: nat, outLen: int, done: seq<seq<byte>>, count: nat, j: nat)
    requires Going(p, idx, done, count, j) && count <= |p| && j < |p| && p[j] == 0
    ensures !Strays(p, idx, outLen)
    ensures if |Join(done)| < outLen then Accepted(p, idx, outLen, Join(done)) else Refused(p, idx, outLen)
  {
    hide Unread, Ahead, Join, Refused, Strays;
    FoundName(p, idx, done, count, j);
    NoStray(p, idx, outLen, done, count, j);
    if |Join(done)| >= outLen {
      NoneFits(p, idx, outLen, done, count, j);
    } else {
      IsAcceptable(p, idx, outLen, done, count);
    }
  }

  lemma GivesUp(p: seq<byte>, idx: nat, outLen: int, done: seq<seq<byte>>, count: nat, j: nat)
    requires Going(p, idx, done, count, j)
    requires count > |p| || j >= |p| || (p[j] >= 64 && j + 1 >= |p|)
    ensures Refused(p, idx, outLen) && !Strays(p, idx, outLen)
  {
    hide Unread, Ahead, Refused, Strays;
    NoneBeyond(p, idx, outLen, done, count, j);
    NoStray(p, idx, outLen, done, count, j);
  }

  /** A last label: cut off, or with nothing behind it. */
  lemma StraysHere(p: seq<byte>, idx: nat, outLen: int, done: seq<seq<byte>>, count: nat, j: nat)
    requires Going(p, idx, done, count, j) && count <= |p| && j < |p| && 0 < p[j] < 64
    requires j + 1 + p[j] >= |p| && Needed(done, p[j]) < outLen
    ensures Strays(p, idx, outLen) <==> j + 1 + p[j] > |p|
    ensures Refused(p, idx, outLen)
  {
    hide Unread, Ahead, Refused, Strays;
    NoneBeyond(p, idx, outLen, done, count, j);
    if j + 1 + p[j] > |p| {
      StrayFound(p, idx, outLen, done, count, j);
    } else {
      AheadLabel(p, idx, done, count, j);
      NoStray(p, idx, outLen, done + [p[j + 1..j + 1 + p[j]]], count, |p|);
    }
  }

  lemma LabelStep(p: seq<byte>, idx: nat, done: seq<seq<byte>>, count: nat, j: nat, out: seq<byte>)
    requires Unread(p, idx, done, count, j) && j < |p| && 0 < p[j] < 64 && j + 1 + p[j] < |p|
    requires out == Join(done) && (out == [] <==> done == [])
    ensures var lab := p[j + 1..j + 1 + p[j]]; var next := out + (if out != [] then [DOT] else []) + lab;
      Unread(p, idx, done + [lab], count, j + 1 + p[j]) && next == Join(done + [lab]) && next != []
  {
    hide Unread, Join;
    UnreadLabel(p, idx, done, count, j);
    JoinSnoc(done, p[j + 1..j + 1 + p[j]]);
  }

  lemma EndStep(p: seq<byte>, j: nat)
    requires j < |p|
    ensures p[j] == 0 ==> EndOf(p, j) == j + 1
    ensures p[j] >= 64 ==> EndOf(p, j) == j + 2
    ensures 0 < p[j] < 64 ==> EndOf(p, j) == EndOf(p, j + 1 + p[j])
  {
  }

  lemma IsAcceptable(p: seq<byte>, idx: nat, outLen: int, ls: seq<seq<byte>>, k: nat)
    requires NameAt(p, idx, ls, k) && k <= |p| && |Join(ls)| < outLen
    ensures Accepted(p, idx, outLen, Join(ls))
  {
    assert Acceptable(p, idx, outLen, ls, k);
  }

  lemma FoundName(p: seq<byte>, idx: nat, done: seq<seq<byte>>, count: nat, j: nat)
    requires Unread(p, idx, done, count, j) && j < |p| && p[j] == 0
    ensures NameAt(p, idx, done, count)
  {
    assert NameAt(p, j, [], 0);
    assert done + [] == done;
  }

  /** Nothing denotes a name at `j`, or it takes too many pointers. */
  lemma NoneBeyond(p: seq<byte>, idx: nat, outLen: int, done: seq<seq<byte>>, count: nat, j: nat)
    requires Unread(p, idx, done, count, j)
    requires count > |p| || j >= |p| || (p[j] >= 64 && j + 1 >= |p|) || (0 < p[j] < 64 && j + 1 + p[j] >= |p|)
    ensures Refused(p, idx, outLen)
  {
    forall ls: seq<seq<byte>>, k: nat
      ensures !Acceptable(p, idx, outLen, ls, k)
    {
      if NameAt(p, idx, ls, k) {
        assert count <= k;
        assert count > |p| || !NameAt(p, j, ls[|done|..], k - count);
      }
    }
  }

  /** The name at `idx` does not fit in the output. */
  lemma NoneFits(p: seq<byte>, idx: nat, outLen: int, done: seq<seq<byte>>, count: nat, j: nat)
    requires Unread(p, idx, done, count, j) && j < |p| && p[j] < 64
    requires |Join(done)| + (if p[j] > 0 && done != [] then 1 else 0) + p[j] >= outLen
    ensures Refused(p, idx, outLen)
  {
    assert Join([]) == [];
    hide Join;
    forall ls: seq<seq<byte>>, k: nat
      ensures !Acceptable(p, idx, outLen, ls, k)
    {
      if NameAt(p, idx, ls, k) {
        var rest := ls[|done|..];
        assert NameAt(p, j, rest, k - count) && ls == done + rest;
        if p[j] > 0 {
          assert |rest[0]| == p[j];
          JoinSnoc(done, rest[0]);
          JoinGrows(done + [rest[0]], rest[1..]);
          assert done + [rest[0]] + rest[1..] == ls;
        } else {
          assert ls == done;
        }
      }
    }
  }
}
