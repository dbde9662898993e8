/** Circular doubly linked lists: a head and its entries are one ring. */
module LinkedList {
  class Node {
    var next: Node?
    var prev: Node?

    /** INIT_LIST_HEAD */
    constructor ()
      ensures Ring([this])
    {
      next, prev := this, this;
    }
  }

  /** The node at a place of the ring, one turn either way. */
  ghost function At(r: seq<Node>, i: int): Node
    requires r != [] && -1 <= i <= |r|
  {
    if i == -1 then r[|r| - 1] else if i == |r| then r[0] else r[i]
  }

  ghost predicate Distinct(r: seq<Node>) {
    forall i, j :: 0 <= i < j < |r| ==> r[i] != r[j]
  }

  /** Every node once, each joined to its two neighbours: next and prev are inverse. */
  ghost predicate Ring(r: seq<Node>)
    reads r
  {
    && r != [] && Distinct(r)
    && forall i :: 0 <= i < |r| ==> r[i].next == At(r, i + 1) && r[i].prev == At(r, i - 1)
  }

  lemma Neighbours(r: seq<Node>, i: nat)
    requires Ring(r) && i < |r|
    ensures r[i].next == At(r, i + 1) && r[i].prev == At(r, i - 1)
  {
  }

  lemma RotateOne(head: Node, items: seq<Node>)
    requires Ring([head] + items)
    ensures Ring(items + [head])
  {
    if items == [] {
      assert [head] + items == items + [head];
    } else {
      var first, rest := items[0], items[1..];
      assert items == [first] + rest && items + [head] == [first] + (rest + [head]);
      Opened(head, items);
      assert Distinct([head] + items);
      hide Ring, Distinct;
      SplitChain([first], rest);
      JoinChain(rest, [head]);
      DistinctSwap([head], items);
      Closed(first, rest + [head]);
    }
  }

  /** It does not matter where a ring is opened. */
  lemma {:induction false} RotateParts(a: seq<Node>, b: seq<Node>)
    requires Ring(a + b)
    ensures Ring(b + a)
    decreases |a|
  {
    hide Ring;
    if a == [] {
      assert a + b == b + a;
    } else {
      assert a + b == [a[0]] + (a[1..] + b);
      RotateOne(a[0], a[1..] + b);
      assert a[1..] + b + [a[0]] == a[1..] + (b + [a[0]]);
      RotateParts(a[1..], b + [a[0]]);
      assert b + [a[0]] + a[1..] == b + a;
    }
  }

  /** __list_add, between the last and the first node of the ring */
  method Insert(entry: Node, prev: Node, next: Node, ghost r: seq<Node>)
    requires Ring(r) && entry !in r && prev == r[|r| - 1] && next == r[0]
    modifies entry, prev, next
    ensures Ring(r + [entry])
  {
    next.prev := entry;
    entry.next := next;
    entry.prev := prev;
    prev.next := entry;
  }

  /** list_add */
  method Add(entry: Node, head: Node, ghost items: seq<Node>)
    requires Ring([head] + items) && entry !in [head] + items
    modifies entry, head, head.next
    ensures Ring([head, entry] + items)
  {
    RotateParts([head], items);
    Neighbours([head] + items, 0);
    Insert(entry, head, head.next, items + [head]);
    assert items + [head] + [entry] == items + [head, entry];
    RotateParts(items, [head, entry]);
  }

  /** list_add_tail */
  method AddTail(entry: Node, head: Node, ghost items: seq<Node>)
    requires Ring([head] + items) && entry !in [head] + items
    modifies entry, head, head.prev
    ensures Ring([head] + items + [entry])
  {
    Neighbours([head] + items, 0);
    Insert(entry, head.prev, head, [head] + items);
  }

  /** __list_del: the ring closes over the node between `prev` and `next`. */
  method Unlink(prev: Node, next: Node, ghost entry: Node, ghost r: seq<Node>)
    requires Ring([entry] + r) && prev == entry.prev && next == entry.next
    modifies prev`next, next`prev
    ensures Ring(if r == [] then [entry] else r) && prev.next == next && next.prev == prev
  {
    hide Ring, Distinct;
    Opened(entry, r);
    UnlinkApart(entry, r);
    next.prev := prev;
    prev.next := next;
    if r == [] {
      assert [entry] + r == [entry];
      Closed(entry, r);
    } else {
      assert r == [next] + r[1..];
      Closed(next, r[1..]);
    }
  }

  lemma UnlinkApart(entry: Node, r: seq<Node>)
    requires Ring([entry] + r)
    ensures Distinct([entry] + r) && entry !in r && Distinct(r) && Chain(r)
    ensures r != [] ==> r[0] !in r[1..] && OwnEnds(r) && Chain(r[1..])
  {
    Opened(entry, r);
    assert Distinct([entry] + r);
    hide Ring, Distinct;
    DistinctConcat([entry], r);
    DisjointOne(entry, r);
    if r != [] {
      assert r == [r[0]] + r[1..];
      DistinctConcat([r[0]], r[1..]);
      DisjointOne(r[0], r[1..]);
      DistinctEnds(r);
      SplitChain([r[0]], r[1..]);
    }
  }

  /** list_del; the poison in the deleted entry is null here. */
  method Del(entry: Node, ghost r: seq<Node>)
    requires Ring([entry] + r)
    modifies entry, entry.next, entry.prev
    ensures entry.next == null && entry.prev == null && (r != [] ==> Ring(r))
  {
    Neighbours([entry] + r, 0);
    Unlink(entry.prev, entry.next, entry, r);
    Apart([entry], r);
    entry.next := null;
    entry.prev := null;
  }

  /** list_del_init */
  method DelInit(entry: Node, ghost r: seq<Node>)
    requires Ring([entry] + r)
    modifies entry, entry.next, entry.prev
    ensures Ring([entry]) && (r != [] ==> Ring(r))
  {
    Neighbours([entry] + r, 0);
    Unlink(entry.prev, entry.next, entry, r);
    Apart([entry], r);
    entry.next, entry.prev := entry, entry;
  }

  lemma Apart(a: seq<Node>, b: seq<Node>)
    requires Distinct(a + b)
    ensures forall i, j :: 0 <= i < |a| && 0 <= j < |b| ==> a[i] != b[j]
    ensures forall n :: n in a ==> n !in b
  {
    forall i, j | 0 <= i < |a| && 0 <= j < |b|
      ensures a[i] != b[j]
    {
      assert (a + b)[i] == a[i] && (a + b)[|a| + j] == b[j];
    }
  }

  /** list_replace; an entry that was alone is replaced as well. */
  method Replace(was: Node, entry: Node, ghost r: seq<Node>)
    requires Ring([was] + r) && entry !in [was] + r
    modifies entry, was.next, was.prev
    ensures Ring([entry] + r)
  {
    hide Ring, Distinct;
    Opened(was, r);
    UnlinkApart(was, r);
    ReplaceApart(was, entry, r);
    entry.next := was.next;
    entry.next.prev := entry;
    entry.prev := was.prev;
    entry.prev.next := entry;
    assert Chain(r);
    Closed(entry, r);
  }

  lemma ReplaceApart(was: Node, entry: Node, r: seq<Node>)
    requires Distinct(r) && entry !in [was] + r
    ensures Distinct([entry] + r) && entry !in r && entry != was
  {
    assert forall n :: n in r || n == was ==> n in [was] + r;
    hide Distinct;
    OneDistinct(entry);
    DisjointOne(entry, r);
    DistinctConcat([entry], r);
  }

  /** list_replace_init */
  method ReplaceInit(was: Node, entry: Node, ghost r: seq<Node>)
    requires Ring([was] + r) && entry !in [was] + r
    modifies entry, was, was.next, was.prev
    ensures Ring([entry] + r) && Ring([was])
  {
    Apart([was], r);
    assert was in [was] && was in [was] + r;
    Replace(was, entry, r);
    was.next, was.prev := was, was;
  }

  predicate Empty(head: Node)
    reads head
  {
    head.next == head
  }

  predicate IsSingular(head: Node)
    reads head
  {
    !Empty(head) && head.next == head.prev
  }

  predicate IsLast(entry: Node, head: Node)
    reads entry
  {
    entry.next == head
  }

  /** The three tests see what they are named after. */
  lemma TestsAreRight(head: Node, items: seq<Node>)
    requires Ring([head] + items)
    ensures Empty(head) <==> items == []
    ensures IsSingular(head) <==> |items| == 1
    ensures forall i :: 0 <= i < |items| ==> (IsLast(items[i], head) <==> i == |items| - 1)
  {
    var r := [head] + items;
    Neighbours(r, 0);
    assert forall i :: 0 <= i < |items| ==> items[i] == r[i + 1];
    if |items| > 1 { assert r[1] != r[|r| - 1]; }
  }

  /** What list_move and list_move_tail are called with: an entry whose ring goes on
      with `from`, and a head whose other entries are `items`.  They share a ring
      when the entry is between `items[..k]` and `items[k..]`. */
  ghost predicate Movable(entry: Node, from: seq<Node>, head: Node, items: seq<Node>, same: bool, k: nat)
    reads [entry] + from, [head] + items
  {
    && Ring([entry] + from)
    && if same then k <= |items| && from == items[k..] + [head] + items[..k]
       else Ring([head] + items) && forall n :: n in [entry] + from ==> n !in [head] + items
  }

  /** __list_del_entry, as the first half of a move */
  method Detach(entry: Node, ghost from: seq<Node>, head: Node, ghost items: seq<Node>, ghost same: bool, ghost k: nat)
    requires Movable(entry, from, head, items, same, k)
    modifies entry.prev, entry.next
    ensures head.next == old(head.next) || head.next == old(entry.next)
    ensures head.prev == old(head.prev) || head.prev == old(entry.prev)
    ensures Ring([head] + items) && entry !in [head] + items && (!same && from != [] ==> Ring(from))
  {
    Neighbours([entry] + from, 0);
    Apart([entry], from);
    assert entry in [entry] && entry in [entry] + from;
    assert forall n :: n in from ==> n in [entry] + from;
    Unlink(entry.prev, entry.next, entry, from);
    if same {
      Rejoin(from, head, items, k);
    }
  }

  lemma Rejoin(from: seq<Node>, head: Node, items: seq<Node>, k: nat)
    requires k <= |items| && from == items[k..] + [head] + items[..k] && Ring(from)
    ensures Ring([head] + items) && forall n :: n in [head] + items ==> n in from
  {
    assert from == items[k..] + ([head] + items[..k]);
    RotateParts(items[k..], [head] + items[..k]);
    assert [head] + items[..k] + items[k..] == [head] + items;
    forall n | n in [head] + items
      ensures n in from
    {
      assert n == head || n in items[..k] || n in items[k..];
    }
  }

  /** list_move */
  method Move(entry: Node, ghost from: seq<Node>, head: Node, ghost items: seq<Node>, ghost same: bool, ghost k: nat)
    requires Movable(entry, from, head, items, same, k)
    modifies entry, entry.prev, entry.next, head, head.next
    ensures Ring([head, entry] + items) && (!same && from != [] ==> Ring(from))
  {
    Detach(entry, from, head, items, same, k);
    Surroundings(head, items);
    MovedApart(entry, from, head, items, same, k);
    Add(entry, head, items);
  }

  /** list_move_tail */
  method MoveTail(entry: Node, ghost from: seq<Node>, head: Node, ghost items: seq<Node>, ghost same: bool, ghost k: nat)
    requires Movable(entry, from, head, items, same, k)
    modifies entry, entry.prev, entry.next, head, head.prev
    ensures Ring([head] + items + [entry]) && (!same && from != [] ==> Ring(from))
  {
    Detach(entry, from, head, items, same, k);
    Surroundings(head, items);
    MovedApart(entry, from, head, items, same, k);
    AddTail(entry, head, items);
  }

  lemma Surroundings(head: Node, items: seq<Node>)
    requires Ring([head] + items)
    ensures head in [head] + items && head.next in [head] + items && head.prev in [head] + items
  {
    Neighbours([head] + items, 0);
  }

  lemma MovedApart(entry: Node, from: seq<Node>, head: Node, items: seq<Node>, same: bool, k: nat)
    requires Distinct([entry] + from)
    requires !same ==> forall n :: n in [entry] + from ==> n !in [head] + items
    ensures !same ==> entry !in from && forall n :: n in [head] + items ==> n !in from
  {
    Apart([entry], from);
    assert forall n :: n in from ==> n in [entry] + from;
  }

  /** list_rotate_left */
  method RotateLeft(head: Node, ghost items: seq<Node>)
    requires Ring([head] + items)
    modifies head, head.next, head.prev, if head.next == null then {} else {head.next.next}
    ensures Ring([head] + if items == [] then [] else items[1..] + [items[0]])
  {
    TestsAreRight(head, items);
    if !Empty(head) {
      Neighbours([head] + items, 0);
      var first := head.next;
      ghost var others := items[1..];
      assert [head] + items == [head] + ([first] + others);
      RotateParts([head], [first] + others);
      assert [first] + others + [head] == [first] + (others + [head]);
      assert others + [head] == others[0..] + [head] + others[..0];
      MoveTail(first, others + [head], head, others, true, 0);
      assert [head] + others + [first] == [head] + (items[1..] + [items[0]]);
    }
  }

  /** __list_cut_position: everything up to `entry` goes to `list`. */
  method Cut(list: Node, head: Node, entry: Node, ghost items: seq<Node>, ghost k: nat)
    requires Ring([head] + items) && list !in [head] + items && k < |items| && entry == items[k]
    modifies list, head, head.next, entry, entry.next
    ensures Ring([list] + items[..k + 1]) && Ring([head] + items[k + 1..])
    ensures Disjoint([list] + items[..k + 1], [head] + items[k + 1..])
  {
    hide Ring, Distinct;
    ghost var a, b := items[..k + 1], items[k + 1..];
    assert items == a + b;
    Opened(head, a + b);
    SplitChain(a, b);
    CutApart(list, head, a, b);
    var newFirst := entry.next;
    list.next := head.next;
    list.next.prev := list;
    list.prev := entry;
    entry.next := list;
    head.next := newFirst;
    newFirst.prev := head;
    assert Chain(a) && Chain(b);
    Closed(list, a);
    Closed(head, b);
  }

  /** __list_splice: the entries of `list` go between the last and the first node
      of the other ring; the old head is left as it was. */
  method Join(list: Node, prev: Node, next: Node, ghost items: seq<Node>, ghost others: seq<Node>)
    requires Ring([list] + items) && items != [] && Ring([next] + others) && prev == next.prev
    requires Disjoint([list] + items, [next] + others)
    modifies prev, next, list.next, list.prev
    ensures Ring([next] + (others + items)) && list.next == old(list.next) && list.prev == old(list.prev)
  {
    hide Ring, Distinct;
    Opened(list, items);
    Opened(next, others);
    JoinApart(list, next, items, others);
    var first, last := list.next, list.prev;
    first.prev := prev;
    prev.next := first;
    last.next := next;
    next.prev := last;
    assert Chain(others) && Chain(items);
    JoinChain(others, items);
    Closed(next, others + items);
  }

  /** list_cut_position: `k` entries go to `list`, none when `entry` is the head.  An
      empty list, and a list of one entry that is not `entry`, are not touched. */
  method CutPosition(list: Node, head: Node, entry: Node, ghost items: seq<Node>, ghost k: nat)
    requires Ring([head] + items) && list !in [head] + items && k <= |items|
    requires entry == ([head] + items)[k] || (|items| <= 1 && entry !in [head] + items)
    modifies list, head, head.next, entry, entry.next
    ensures items == [] || entry !in [head] + items ==> unchanged(list, head, entry) && unchanged(items)
    ensures items != [] && entry in [head] + items ==>
      && Ring([list] + items[..k]) && Ring([head] + items[k..])
      && Disjoint([list] + items[..k], [head] + items[k..])
  {
    hide Ring, Distinct, Disjoint;
    TestsAreRight(head, items);
    if Empty(head) { return; }
    Opened(head, items);
    if IsSingular(head) && head.next != entry && head != entry { return; }
    HeadOnce(head, items, k);
    if entry == head {
      assert items[..0] == [] && items[0..] == items;
      NotThere(list, head, items);
      list.next, list.prev := list, list;
      Closed(list, []);
    } else {
      Cut(list, head, entry, items, k - 1);
    }
  }

  lemma HeadOnce(head: Node, items: seq<Node>, k: nat)
    requires Ring([head] + items) && k <= |items|
    ensures ([head] + items)[k] == head <==> k == 0
  {
    assert ([head] + items)[0] == head;
  }

  lemma NotThere(list: Node, head: Node, items: seq<Node>)
    requires list !in [head] + items
    ensures Disjoint([list] + [], [head] + items) && Distinct([list] + [])
  {
    DisjointOne(list, [head] + items);
    assert [list] + [] == [list];
  }

  /** list_splice, and list_splice_init when `init` */
  method Splice(list: Node, head: Node, init: bool, ghost listed: seq<Node>, ghost items: seq<Node>)
    requires Ring([list] + listed) && Ring([head] + items) && Disjoint([list] + listed, [head] + items)
    modifies head, head.next, list, list.next, list.prev
    ensures Ring([head] + (listed + items)) && (init || listed == [] ==> Ring([list]))
    ensures !init ==> list.next == old(list.next) && list.prev == old(list.prev)
  {
    TestsAreRight(list, listed);
    if !Empty(list) {
      SpliceAtHead(list, head, listed, items);
      if init {
        list.next, list.prev := list, list;
      }
    } else {
      assert listed + items == items && [list] + listed == [list];
    }
  }

  method SpliceAtHead(list: Node, head: Node, ghost listed: seq<Node>, ghost items: seq<Node>)
    requires Ring([list] + listed) && listed != [] && Ring([head] + items) && Disjoint([list] + listed, [head] + items)
    modifies head, head.next, list.next, list.prev
    ensures Ring([head] + (listed + items)) && list !in [head] + (listed + items)
    ensures list.next == old(list.next) && list.prev == old(list.prev)
  {
    hide Ring, Distinct, Disjoint;
    ghost var r := items + [head];
    Outside(list, listed, head, items);
    Opened(head, items);
    RotateParts([head], items);
    DisjointSwap([list] + listed, [head], items);
    ghost var next := head.next;
    assert r == [next] + r[1..];
    Join(list, head, head.next, listed, r[1..]);
    assert [next] + (r[1..] + listed) == r + listed;
    assert r + listed == items + ([head] + listed);
    RotateParts(items, [head] + listed);
    assert [head] + listed + items == [head] + (listed + items);
  }

  /** list_splice_tail, and list_splice_tail_init when `init` */
  method SpliceTail(list: Node, head: Node, init: bool, ghost listed: seq<Node>, ghost items: seq<Node>)
    requires Ring([list] + listed) && Ring([head] + items) && Disjoint([list] + listed, [head] + items)
    modifies head, head.prev, list, list.next, list.prev
    ensures Ring([head] + (items + listed)) && (init || listed == [] ==> Ring([list]))
    ensures !init ==> list.next == old(list.next) && list.prev == old(list.prev)
  {
    TestsAreRight(list, listed);
    if !Empty(list) {
      Outside(list, listed, head, items);
      Neighbours([head] + items, 0);
      Join(list, head.prev, head, listed, items);
      if init {
        list.next, list.prev := list, list;
      }
    } else {
      assert items + listed == items && [list] + listed == [list];
    }
  }

  lemma DisjointSwap(x: seq<Node>, a: seq<Node>, b: seq<Node>)
    requires Disjoint(x, a + b)
    ensures Disjoint(x, b + a)
  {
    forall i, j | 0 <= i < |x| && 0 <= j < |b + a|
      ensures x[i] != (b + a)[j]
    {
      assert (b + a)[j] == (a + b)[if j < |b| then |a| + j else j - |b|];
    }
  }

  lemma Outside(list: Node, listed: seq<Node>, head: Node, items: seq<Node>)
    requires Ring([list] + listed) && Disjoint([list] + listed, [head] + items)
    ensures list !in [head] + (listed + items) && list !in [head] + (items + listed)
  {
    assert ([list] + listed)[0] == list;
    assert list !in [head] + items;
    assert forall n :: n in items ==> n in [head] + items;
    assert head in [head] && head in [head] + items;
    Apart([list], listed);
    assert list in [list];
  }

  /** Cutting at an entry and splicing the part back gives the list as it was. */
  method CutThenSplice(list: Node, head: Node, entry: Node, ghost items: seq<Node>, ghost k: nat, ghost stale: seq<Node>)
    requires Ring([head] + items) && k <= |items| && entry == ([head] + items)[k]
    requires Ring([list] + stale) && Disjoint([list] + stale, [head] + items)
    modifies [list] + stale, [head] + items
    ensures Ring([head] + if items == [] then stale else items)
    ensures Ring([head] + items) <==> items != [] || stale == []
  {
    hide Ring, Distinct, Disjoint;
    ghost var listed := if items == [] then stale else items[..k];
    Surroundings(head, items);
    Surroundings(list, stale);
    Neighbours([head] + items, k);
    assert entry in [head] + items && entry.next in [head] + items;
    NotOn(list, stale, head, items);
    TestsAreRight(head, items);
    CutPosition(list, head, entry, items, k);
    assert items == [] ==> Ring([list] + stale) && items[k..] == items;
    Surroundings(head, items[k..]);
    Surroundings(list, listed);
    Within(list, listed, head, items, k, stale);
    Splice(list, head, false, listed, items[k..]);
    assert listed + items[k..] == if items == [] then stale else items;
    TestsAreRight(head, if items == [] then stale else items);
    if Ring([head] + items) {
      TestsAreRight(head, items);
    }
  }

  lemma Within(list: Node, listed: seq<Node>, head: Node, items: seq<Node>, k: nat, stale: seq<Node>)
    requires k <= |items| && listed == if items == [] then stale else items[..k]
    ensures forall n :: n in [list] + listed ==> n in [list] + stale || n in [head] + items
    ensures forall n :: n in [head] + items[k..] ==> n in [head] + items
  {
    forall n | n in [list] + listed
      ensures n in [list] + stale || n in [head] + items
    {
      assert n == list || n in stale || n in items;
    }
  }

  lemma NotOn(list: Node, listed: seq<Node>, head: Node, items: seq<Node>)
    requires Disjoint([list] + listed, [head] + items)
    ensures list !in [head] + items && forall n :: n in [list] + listed ==> n !in [head] + items
  {
    assert ([list] + listed)[0] == list;
  }

  /** Each node is joined to the one behind it. */
  ghost predicate Chain(s: seq<Node>)
    reads s
  {
    forall i :: 0 <= i < |s| - 1 ==> s[i].next == s[i + 1] && s[i + 1].prev == s[i]
  }

  lemma Opened(head: Node, items: seq<Node>)
    requires Ring([head] + items)
    ensures Chain(items)
    ensures if items == [] then head.next == head && head.prev == head else
      && head.next == items[0] && items[0].prev == head
      && head.prev == items[|items| - 1] && items[|items| - 1].next == head
  {
    var r := [head] + items;
    Neighbours(r, 0);
    assert forall i :: 0 <= i < |items| ==> items[i] == r[i + 1];
  }

  lemma Closed(head: Node, items: seq<Node>)
    requires Distinct([head] + items) && Chain(items)
    requires if items == [] then head.next == head && head.prev == head else
      && head.next == items[0] && items[0].prev == head
      && head.prev == items[|items| - 1] && items[|items| - 1].next == head
    ensures Ring([head] + items)
  {
    var r := [head] + items;
    assert forall i :: 0 <= i < |items| ==> items[i] == r[i + 1];
  }

  lemma SplitChain(a: seq<Node>, b: seq<Node>)
    requires Chain(a + b)
    ensures Chain(a) && Chain(b)
    ensures a != [] && b != [] ==> a[|a| - 1].next == b[0] && b[0].prev == a[|a| - 1]
  {
    var s := a + b;
    assert forall i :: 0 <= i < |a| ==> s[i] == a[i];
    assert forall i :: 0 <= i < |b| ==> s[|a| + i] == b[i];
  }

  lemma JoinChain(a: seq<Node>, b: seq<Node>)
    requires Chain(a) && Chain(b) && b != []
    requires a != [] ==> a[|a| - 1].next == b[0] && b[0].prev == a[|a| - 1]
    ensures Chain(a + b)
  {
  }

  ghost predicate Disjoint(a: seq<Node>, b: seq<Node>) {
    forall i, j :: 0 <= i < |a| && 0 <= j < |b| ==> a[i] != b[j]
  }

  lemma DistinctConcat(a: seq<Node>, b: seq<Node>)
    ensures Distinct(a + b) <==> Distinct(a) && Distinct(b) && Disjoint(a, b)
  {
    var s := a + b;
    assert forall i :: 0 <= i < |a| ==> a[i] == s[i];
    assert forall j :: 0 <= j < |b| ==> b[j] == s[|a| + j];
    if Distinct(a) && Distinct(b) && Disjoint(a, b) {
      forall i, j | 0 <= i < j < |s|
        ensures s[i] != s[j]
      {
        if j >= |a| { assert s[j] == b[j - |a|]; }
        if i >= |a| { assert s[i] == b[i - |a|]; }
      }
    }
  }

  lemma DistinctSwap(a: seq<Node>, b: seq<Node>)
    requires Distinct(a + b)
    ensures Distinct(b + a)
  {
    hide Distinct;
    DistinctConcat(a, b);
    DistinctConcat(b, a);
  }

  /** The first and the last of a sequence of distinct nodes are nowhere else in it. */
  ghost predicate OwnEnds(a: seq<Node>) {
    && (forall i :: 0 <= i < |a| - 1 ==> a[i] != a[|a| - 1])
    && (forall i :: 0 < i < |a| ==> a[i] != a[0])
  }

  lemma DistinctEnds(a: seq<Node>)
    requires Distinct(a)
    ensures OwnEnds(a)
  {
  }

  lemma JoinApart(list: Node, next: Node, items: seq<Node>, a: seq<Node>)
    requires Ring([list] + items) && Ring([next] + a) && Disjoint([list] + items, [next] + a)
    ensures Distinct([next] + (a + items)) && list != next && OwnEnds(items) && OwnEnds(a) && Disjoint(a, items)
    ensures next !in a && next !in items && list !in a && list !in items
  {
    assert Distinct([list] + items) && Distinct([next] + a);
    hide Ring, Distinct;
    DistinctConcat([list], items);
    DistinctConcat([next], a);
    DisjointConcat([list], items, [next], a);
    DistinctConcat(a, items);
    DistinctConcat([next], a + items);
    DisjointOne(list, [next]);
    DisjointOne(next, a);
    DisjointOne(next, items);
    DisjointOne(list, a);
    DisjointOne(list, items);
    DistinctEnds(items);
    DistinctEnds(a);
  }

  lemma DisjointOne(n: Node, a: seq<Node>)
    ensures Disjoint([n], a) <==> n !in a
  {
    if Disjoint([n], a) {
      assert [n][0] == n;
    }
  }

  lemma DisjointConcat(a: seq<Node>, b: seq<Node>, c: seq<Node>, d: seq<Node>)
    requires Disjoint(a + b, c + d)
    ensures Disjoint(a, c) && Disjoint(a, d) && Disjoint(b, c) && Disjoint(b, d)
    ensures Disjoint(c, a) && Disjoint(d, a) && Disjoint(c, b) && Disjoint(d, b)
    ensures Disjoint(c, b + a) && Disjoint(c, d + b) == (Disjoint(c, d) && Disjoint(c, b))
  {
    assert forall i :: 0 <= i < |a| ==> a[i] == (a + b)[i];
    assert forall i :: 0 <= i < |b| ==> b[i] == (a + b)[|a| + i];
    assert forall i :: 0 <= i < |c| ==> c[i] == (c + d)[i];
    assert forall i :: 0 <= i < |d| ==> d[i] == (c + d)[|c| + i];
    assert forall i :: 0 <= i < |d| ==> d[i] == (d + b)[i];
    assert forall i :: 0 <= i < |b| ==> b[i] == (d + b)[|d| + i];
  }

  lemma CutApart(list: Node, head: Node, a: seq<Node>, b: seq<Node>)
    requires Ring([head] + (a + b)) && list !in [head] + (a + b)
    ensures Distinct([list] + a) && Distinct([head] + b) && list != head && OwnEnds(a) && OwnEnds(b) && Disjoint(a, b)
    ensures head !in a && head !in b && list !in a && list !in b
  {
    assert Distinct([head] + (a + b));
    hide Ring, Distinct;
    DistinctConcat([head], a + b);
    DistinctConcat(a, b);
    assert forall n :: n in a || n in b ==> n in a + b && n in [head] + (a + b);
    assert forall i :: 0 <= i < |a| ==> a[i] == (a + b)[i];
    assert forall i :: 0 <= i < |b| ==> b[i] == (a + b)[|a| + i];
    assert head in [head] && head in [head] + (a + b);
    DisjointOne(list, a);
    DisjointOne(head, b);
    OneDistinct(list);
    OneDistinct(head);
    DistinctConcat([list], a);
    DistinctConcat([head], b);
    DistinctEnds(a);
    DistinctEnds(b);
  }

  lemma OneDistinct(n: Node)
    ensures Distinct([n])
  {
  }
}
