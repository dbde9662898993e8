/** Whole runs of two buffers: every mix of adding, removing and moving bytes
    has the effect of the same operations on two flat byte strings. */
module EvbufferRun {
  import opened Bytes
  import opened Evbuffer

  /** What a caller does; `first` picks the buffer, or the source of a move. */
  datatype Op =
    | AddTo(first: bool, src: seq<byte>)
    | PrependTo(first: bool, src: seq<byte>)
    | DrainFrom(first: bool, n: nat)
    | MoveToEnd(first: bool)
    | MoveToFront(first: bool)
    | MoveSome(first: bool, n: nat)
    | PullUp(first: bool, want: int)

  datatype Pair = Pair(a: seq<byte>, b: seq<byte>) {
    function Get(first: bool): seq<byte> { if first then a else b }

    function Put(first: bool, x: seq<byte>): Pair { if first then this.(a := x) else this.(b := x) }

    /** The operation on flat strings. */
    function After(op: Op): Pair {
      var mine, other := Get(op.first), Get(!op.first);
      match op
      case AddTo(f, src) => Put(f, mine + src)
      case PrependTo(f, src) => Put(f, src + mine)
      case DrainFrom(f, n) => Put(f, mine[Min(n, |mine|)..])
      case MoveToEnd(f) => Put(f, []).Put(!f, other + mine)
      case MoveToFront(f) => Put(f, []).Put(!f, mine + other)
      case MoveSome(f, n) => Put(f, mine[Min(n, |mine|)..]).Put(!f, other + mine[..Min(n, |mine|)])
      case PullUp(_, _) => this
    }
  }

  function Flattened(ops: seq<Op>): Pair {
    if ops == [] then Pair([], []) else Flattened(ops[..|ops| - 1]).After(ops[|ops| - 1])
  }

  /** The number of bytes an operation brings in. */
  function Volume(op: Op): nat {
    if op.AddTo? || op.PrependTo? then |op.src| else 0
  }

  function TotalVolume(ops: seq<Op>): nat {
    if ops == [] then 0 else TotalVolume(ops[..|ops| - 1]) + Volume(ops[|ops| - 1])
  }

  ghost predicate Neat(buf: Buffer)
    reads buf
  {
    buf.Valid() && Packed(buf.chains) && Owned(buf.chains) && !buf.freezeStart && !buf.freezeEnd
  }

  /** evbuffer_add on such a buffer */
  method Append(buf: Buffer, src: seq<byte>)
    requires Neat(buf) && |buf.Contents()| + |src| <= EV_SIZE_MAX
    modifies buf
    ensures Neat(buf) && buf.Contents() == old(buf.Contents()) + src
  {
    hide Flat, Packed, Owned, AddShape, Loses, StaysValid, Victim;
    PackedIsTight(buf.chains, buf.lastWithDatap);
    assert buf.Counted();
    hide IsLastData;
    var _ := buf.Add(src);
    ShapePacked(old(buf.chains), old(buf.lastWithDatap), src, buf.chains, buf.lastWithDatap);
  }

  /** A buffer of one chain that is full to its last byte. */
  method FullChain() returns (buf: Buffer)
    ensures fresh(buf) && Neat(buf) && |buf.chains| == 1 && SpaceLen(buf.chains[0]) == 0
    ensures buf.chains[0].off > 0 && |buf.chains[0].mem| <= 2 + MIN_BUFFER_SIZE && buf.lastWithDatap == 0
  {
    hide Flat, Data;
    buf := new Buffer();
    var _ := buf.Add([7]);
    assert buf.Valid() && |Data(buf.chains[0])| == 1;
    var src := seq(SpaceLen(buf.chains[0]), _ => 0);
    FlatOne(buf.chains[0]);
    assert buf.chains == [buf.chains[0]];
    var _ := buf.Add(src);
    assert |Data(buf.chains[0])| == 1 + |src|;
  }

  /** With an empty chain behind the data evbuffer_add leaves last_with_datap where it
      was, although the chain has data now. */
  method StaleAfterAdd() returns (buf: Buffer, before: seq<byte>)
    ensures buf.Contents() == before + [5] && buf.Counted() && !buf.Valid()
    ensures |buf.chains| == 2 && buf.chains[1].off > 0 && buf.lastWithDatap == 0
  {
    hide Flat, Data;
    buf := FullChain();
    var end := buf.ExpandFast(1, 2);
    RoomBehind(buf.chains, end, 1, 2);
    var _, all := buf.CopyOut(buf.totalLen);
    before := all;
    FlatBound(buf.chains);
    var _ := buf.Add([5]);
  }

  /** Behind a full chain the room is in others. */
  lemma RoomBehind(cs: seq<Chain>, end: nat, n: nat, most: nat)
    requires cs != [] && cs[0].off > 0 && SpaceLen(cs[0]) == 0 && HasRoom(cs, 0, end, n, most) && n > 0
    requires forall i :: 0 < i < |cs| ==> cs[i].off == 0
    ensures end >= 2 && SpaceLen(cs[1]) == |cs[1].mem|
    ensures |cs[1].mem| < n ==> end >= 3 && SpaceLen(cs[2]) == |cs[2].mem|
  {
    assert Avail(cs, 0, 0) == 0;
    assert end >= 1 ==> Avail(cs, 0, 1) == 0;
    assert end >= 2 ==> Avail(cs, 0, 2) == |cs[1].mem|;
  }

  lemma OneUsed(cs: seq<Chain>)
    requires |cs| == 2 && cs[0].off > 0 && SpaceLen(cs[0]) == 0
    ensures Tally(cs, 0, 2) < 2
  {
    assert Tally(cs, 0, 0) == 0 && Tally(cs, 0, 1) == 0;
  }

  /** No more bytes than memory. */
  lemma {:induction false} FlatBound(cs: seq<Chain>)
    ensures |cs| == 1 ==> |Flat(cs)| <= |cs[0].mem|
    ensures |cs| == 2 ==> |Flat(cs)| <= |cs[0].mem| + |cs[1].mem|
    ensures |cs| == 3 ==> |Flat(cs)| <= |cs[0].mem| + |cs[1].mem| + |cs[2].mem|
  {
    if cs != [] {
      assert cs == [cs[0]] + cs[1..];
      FlatCons(cs[0], cs[1..]);
      FlatBound(cs[1..]);
    }
  }

  /** With two of them the bytes that still fit in the last one are thrown away. */
  method LostAfterAdd() returns (buf: Buffer, before: seq<byte>, src: seq<byte>, lost: nat)
    ensures 0 < lost < |src| && buf.Contents() == before + src[lost..]
  {
    hide Flat, Data;
    buf := FullChain();
    var end := buf.ExpandFast(1, 2);
    RoomBehind(buf.chains, end, 1, 2);
    OneUsed(buf.chains);
    var most := |buf.chains[1].mem| + 1;
    end := buf.ExpandFast(most, 2);
    RoomBehind(buf.chains, end, most, 2);
    var _, all := buf.CopyOut(buf.totalLen);
    before := all;
    FlatBound(buf.chains);
    src := seq(|buf.chains[2].mem| + 1, _ => 5);
    lost := SpaceLen(buf.chains[2]);
    VictimOfValid(buf.chains, 0);
    FlatSplit(buf.chains, 1);
    FlatOfEmpty(buf.chains[1..]);
    assert Loses(buf.chains, 0, |src|);
    hide Loses, Victim, StaysValid, AddShape;
    var _ := buf.Add(src);
  }

  /** One operation on the buffer `x`, with `y` as the other one. */
  method Perform(x: Buffer, y: Buffer, op: Op)
    requires x != y && Neat(x) && Neat(y)
    requires |x.Contents()| + |y.Contents()| + Volume(op) <= EV_SIZE_MAX
    modifies x, y
    ensures Neat(x) && Neat(y)
    ensures var p := Pair(old(x.Contents()), old(y.Contents()));
      Pair(x.Contents(), y.Contents()) == p.After(op.(first := true))
  {
    hide Flat, Packed, Owned, IsLastData, Moving, KeepsSlot, Loses, StaysValid;
    match op
    case AddTo(_, src) => Append(x, src);
    case PrependTo(_, src) => var _ := x.Prepend(src);
    case DrainFrom(_, n) => var _ := x.Drain(n);
    case MoveToEnd(_) => var _ := y.AddBuffer(x);
    case MoveToFront(_) => var _ := y.PrependBuffer(x);
    case MoveSome(_, n) => var _ := x.RemoveBuffer(y, n);
    case PullUp(_, want) => var _ := x.Pullup(want);
  }

  /** Every run leaves in the two buffers the bytes of the flat run. */
  method Run(ops: seq<Op>) returns (a: seq<byte>, b: seq<byte>)
    requires TotalVolume(ops) <= EV_SIZE_MAX
    ensures Pair(a, b) == Flattened(ops)
  {
    var bufA := new Buffer();
    var bufB := new Buffer();
    assert Neat(bufA) && Neat(bufB) && ops[..0] == [];
    hide Flat, Packed, Owned, IsLastData;
    for i := 0 to |ops|
      invariant Neat(bufA) && Neat(bufB) && fresh(bufA) && fresh(bufB) && bufA != bufB
      invariant Pair(bufA.Contents(), bufB.Contents()) == Flattened(ops[..i])
      invariant |bufA.Contents()| + |bufB.Contents()| <= TotalVolume(ops[..i])
    {
      VolumeStep(ops, i);
      if ops[i].first {
        Perform(bufA, bufB, ops[i]);
      } else {
        Perform(bufB, bufA, ops[i]);
      }
    }
    assert ops[..|ops|] == ops;
    var n;
    n, a := bufA.CopyOut(bufA.totalLen);
    n, b := bufB.CopyOut(bufB.totalLen);
  }

  lemma VolumeStep(ops: seq<Op>, i: nat)
    requires i < |ops|
    ensures Flattened(ops[..i + 1]) == Flattened(ops[..i]).After(ops[i])
    ensures TotalVolume(ops[..i + 1]) == TotalVolume(ops[..i]) + Volume(ops[i])
    ensures TotalVolume(ops[..i + 1]) <= TotalVolume(ops)
  {
    assert ops[..i + 1][..i] == ops[..i];
    VolumePrefix(ops, i + 1);
  }

  lemma {:induction false} VolumePrefix(ops: seq<Op>, i: nat)
    requires i <= |ops|
    ensures TotalVolume(ops[..i]) <= TotalVolume(ops)
    decreases |ops| - i
  {
    if i < |ops| {
      assert ops[..i + 1][..i] == ops[..i];
      VolumePrefix(ops, i + 1);
    } else {
      assert ops[..i] == ops;
    }
  }
}
