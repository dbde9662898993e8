/** The queues of an event base as values: which events are on which queue. */
module EventQueues {
  import opened Prelude

  datatype Source = NoSource | Io(fd: nat) | Signal(num: nat)

  datatype Cause = Timeout | Read | Write | Signalled

  /** A struct timeval: microseconds, and the queue named in its upper bits. */
  datatype Tv = Tv(usec: int, tag: Option<nat>)

  datatype Event = Event(
    src: Source,
    persist: bool,
    internal: bool,
    pri: nat,
    inserted: bool,
    active: bool,
    timeout: bool,
    deadline: Tv,
    ioTimeout: Tv,
    res: set<Cause>,
    listed: bool  // is in the list that evmap keeps for its source
  )

  type Id = nat

  /** Every list an event can be on. */
  datatype Queue = Inserted | Active(pri: nat) | Heap | Common(idx: nat) | Listed(src: Source)

  type Queues = map<Queue, seq<Id>>

  /** What the flags of an event say about a queue. */
  predicate Is(e: Event, q: Queue) {
    match q
    case Inserted => e.inserted
    case Active(p) => e.active && e.pri == p
    case Heap => e.timeout && e.deadline.tag == None
    case Common(k) => e.timeout && e.deadline.tag == Some(k)
    case Listed(src) => e.listed && e.src == src
  }

  ghost predicate Unique(s: seq<Id>) {
    forall i, j :: 0 <= i < j < |s| ==> s[i] != s[j]
  }

  /** The queue holds the events whose flags say so, each once. */
  ghost predicate Holds(s: seq<Id>, events: seq<Event>, q: Queue) {
    && Unique(s)
    && (forall id :: id in s ==> id < |events| && Is(events[id], q))
    && (forall id :: 0 <= id < |events| && Is(events[id], q) ==> id in s)
  }

  ghost predicate Consistent(queues: Queues, events: seq<Event>) {
    && (forall q :: q in queues ==> Holds(queues[q], events, q))
    && (forall id, q :: 0 <= id < |events| && Is(events[id], q) ==> q in queues)
  }

  function Put(s: seq<Id>, at: nat, id: Id): (r: seq<Id>)
    requires at <= |s|
    ensures |r| == |s| + 1
  {
    s[..at] + [id] + s[at..]
  }

  function Without(s: seq<Id>, id: Id): (r: seq<Id>)
    ensures forall x :: x in r <==> x in s && x != id
  {
    if s == [] then [] else
      var rest := Without(s[1..], id);
      if s[0] == id then rest else [s[0]] + rest
  }

  lemma {:induction false} WithoutKeeps(s: seq<Id>, id: Id)
    requires Unique(s)
    ensures Unique(Without(s, id)) && |Without(s, id)| == |s| - if id in s then 1 else 0
  {
    if s != [] {
      assert Unique(s[1..]) && s[0] !in s[1..];
      WithoutKeeps(s[1..], id);
    }
  }

  // ----- what an operation on some events does to the others -----

  /** The members of a queue other than `ids`, in order. */
  function Rest(s: seq<Id>, ids: set<Id>): seq<Id> {
    if s == [] then [] else
      var more := Rest(s[..|s| - 1], ids);
      if s[|s| - 1] in ids then more else more + [s[|s| - 1]]
  }

  lemma {:induction false} RestConcat(a: seq<Id>, b: seq<Id>, ids: set<Id>)
    ensures Rest(a + b, ids) == Rest(a, ids) + Rest(b, ids)
  {
    if b == [] {
      assert a + b == a;
    } else {
      RestConcat(a, b[..|b| - 1], ids);
      assert (a + b)[..|a + b| - 1] == a + b[..|b| - 1];
    }
  }

  lemma RestOne(id: Id, ids: set<Id>)
    ensures Rest([id], ids) == if id in ids then [] else [id]
  {
    assert [id][..0] == [];
  }

  lemma {:induction false} RestNone(s: seq<Id>, ids: set<Id>)
    requires forall id :: id in ids ==> id !in s
    ensures Rest(s, ids) == s
  {
    if s != [] {
      RestNone(s[..|s| - 1], ids);
      assert s == s[..|s| - 1] + [s[|s| - 1]];
    }
  }

  lemma {:induction false} RestMore(s: seq<Id>, ids: set<Id>, more: set<Id>)
    requires ids <= more
    ensures Rest(Rest(s, ids), more) == Rest(s, more)
  {
    if s != [] {
      var front := Rest(s[..|s| - 1], ids);
      RestMore(s[..|s| - 1], ids, more);
      assert (front + [s[|s| - 1]])[..|front|] == front;
    }
  }

  lemma {:induction false} RestWithout(s: seq<Id>, id: Id, ids: set<Id>)
    requires id in ids
    ensures Rest(Without(s, id), ids) == Rest(s, ids)
  {
    if s != [] {
      RestWithout(s[1..], id, ids);
      assert s == [s[0]] + s[1..];
      RestConcat([s[0]], s[1..], ids);
      RestConcat([s[0]], Without(s[1..], id), ids);
      RestOne(s[0], ids);
    }
  }

  lemma RestPut(s: seq<Id>, at: nat, id: Id, ids: set<Id>)
    requires at <= |s| && id in ids
    ensures Rest(Put(s, at, id), ids) == Rest(s, ids)
  {
    hide Rest;
    RestConcat(s[..at] + [id], s[at..], ids);
    RestConcat(s[..at], [id], ids);
    RestOne(id, ids);
    RestConcat(s[..at], s[at..], ids);
    assert s == s[..at] + s[at..];
  }

  /** `now` is `was` without the one place that held `id`, or as it was. */
  ghost predicate CutOut(was: seq<Id>, now: seq<Id>, id: Id) {
    if id in was then exists k :: 0 <= k < |was| && was[k] == id && now == was[..k] + was[k + 1..]
    else now == was
  }

  lemma RestCut(s: seq<Id>, id: Id)
    requires Unique(s)
    ensures CutOut(s, Rest(s, {id}), id)
  {
    hide Rest;
    if id in s {
      var k :| 0 <= k < |s| && s[k] == id;
      assert id !in s[..k] && id !in s[k + 1..];
      hide Unique;
      assert s == s[..k] + ([id] + s[k + 1..]);
      RestConcat(s[..k], [id] + s[k + 1..], {id});
      RestConcat([id], s[k + 1..], {id});
      RestOne(id, {id});
      RestNone(s[..k], {id});
      RestNone(s[k + 1..], {id});
      assert Rest(s, {id}) == s[..k] + s[k + 1..];
    } else {
      RestNone(s, {id});
    }
  }

  /** Every queue holds its members other than `ids` as before, in the same order. */
  ghost predicate KeepsOthers(was: Queues, now: Queues, ids: set<Id>) {
    was.Keys == now.Keys && forall q :: q in was ==> Rest(now[q], ids) == Rest(was[q], ids)
  }

  lemma KeepsMore(was: Queues, now: Queues, ids: set<Id>, more: set<Id>)
    requires KeepsOthers(was, now, ids) && ids <= more
    ensures KeepsOthers(was, now, more)
  {
    forall q | q in was
      ensures Rest(now[q], more) == Rest(was[q], more)
    {
      RestMore(now[q], ids, more);
      RestMore(was[q], ids, more);
    }
  }

  lemma KeepsWithout(was: Queues, q: Queue, id: Id)
    requires q in was
    ensures KeepsOthers(was, was[q := Without(was[q], id)], {id})
  {
    RestWithout(was[q], id, {id});
  }

  lemma KeepsPut(was: Queues, q: Queue, at: nat, id: Id)
    requires q in was && at <= |was[q]|
    ensures KeepsOthers(was, was[q := Put(was[q], at, id)], {id})
  {
    RestPut(was[q], at, id, {id});
  }

  /** An event that was on some queues is on none, and nothing else has moved. */
  ghost predicate OffAll(was: Queues, now: Queues, ev: Id) {
    was.Keys == now.Keys && forall q :: q in now ==> ev !in now[q] && CutOut(was[q], now[q], ev)
  }

  lemma TakenOffAll(was: Queues, now: Queues, ev: Id)
    requires KeepsOthers(was, now, {ev}) && forall q :: q in was ==> Unique(was[q]) && ev !in now[q]
    ensures OffAll(was, now, ev)
  {
    forall q | q in now
      ensures CutOut(was[q], now[q], ev)
    {
      RestCut(was[q], ev);
      RestNone(now[q], {ev});
    }
  }

  /** In order of deadline. */
  ghost predicate Sorted(s: seq<Id>, events: seq<Event>) {
    && (forall i :: 0 <= i < |s| ==> s[i] < |events|)
    && forall i, j :: 0 <= i < j < |s| ==> events[s[i]].deadline.usec <= events[s[j]].deadline.usec
  }

  lemma SortedCons(id: Id, s: seq<Id>, events: seq<Event>)
    ensures Sorted([id] + s, events) <==>
      && id < |events| && Sorted(s, events)
      && forall i :: 0 <= i < |s| ==> events[id].deadline.usec <= events[s[i]].deadline.usec
  {
    var t := [id] + s;
    assert forall i :: 0 <= i < |s| ==> t[i + 1] == s[i];
    if Sorted(t, events) {
      assert t[0] == id;
      forall i | 0 <= i < |s|
        ensures s[i] < |events| && events[id].deadline.usec <= events[s[i]].deadline.usec
      {
        assert t[0] == id && t[i + 1] == s[i];
      }
    }
  }

  lemma {:induction false} WithoutSorted(s: seq<Id>, events: seq<Event>, id: Id)
    requires Sorted(s, events)
    ensures Sorted(Without(s, id), events)
  {
    hide Sorted;
    if s != [] {
      var rest := Without(s[1..], id);
      assert s == [s[0]] + s[1..];
      SortedCons(s[0], s[1..], events);
      WithoutSorted(s[1..], events, id);
      assert forall i :: 0 <= i < |rest| ==> rest[i] in s[1..];
      SortedCons(s[0], rest, events);
    }
  }

  lemma PutKeeps(s: seq<Id>, at: nat, id: Id)
    requires at <= |s|
    ensures forall x :: x in Put(s, at, id) <==> x in s || x == id
    ensures Unique(s) && id !in s ==> Unique(Put(s, at, id))
  {
    var r := Put(s, at, id);
    assert r[at] == id;
    forall x | x in s
      ensures x in r
    {
      var i :| 0 <= i < |s| && s[i] == x;
      assert r[if i < at then i else i + 1] == x;
    }
    if Unique(s) && id !in s {
      forall i, j | 0 <= i < j < |r|
        ensures r[i] != r[j]
      {
        if i != at && j != at {
          var a, b := if i < at then i else i - 1, if j < at then j else j - 1;
          assert r[i] == s[a] && r[j] == s[b];
        }
      }
    }
  }

  /** `e` is on the queues of `was`, and on `q`. */
  ghost predicate Joins(was: Event, e: Event, q: Queue) {
    !Is(was, q) && forall x :: Is(e, x) <==> Is(was, x) || x == q
  }

  /** An event enters one queue when the flags for it are set. */
  lemma Entered(queues: Queues, events: seq<Event>, id: Id, q: Queue, at: nat, e: Event)
    requires Consistent(queues, events) && id < |events| && q in queues && at <= |queues[q]|
    requires Joins(events[id], e, q)
    ensures Consistent(queues[q := Put(queues[q], at, id)], events[id := e]) && id !in queues[q]
  {
    assert id !in queues[q] by { assert Holds(queues[q], events, q); }
    PutKeeps(queues[q], at, id);
    var now, after := queues[q := Put(queues[q], at, id)], events[id := e];
    forall x | x in now
      ensures Holds(now[x], after, x)
    {
      assert Holds(queues[x], events, x);
    }
  }

  /** An event leaves one queue when the flags for it are cleared. */
  lemma Left(queues: Queues, events: seq<Event>, id: Id, q: Queue, e: Event)
    requires Consistent(queues, events) && id < |events| && q in queues
    requires Joins(e, events[id], q)
    ensures Consistent(queues[q := Without(queues[q], id)], events[id := e]) && id in queues[q]
  {
    assert id in queues[q] by { assert Holds(queues[q], events, q); }
    WithoutKeeps(queues[q], id);
    var now, after := queues[q := Without(queues[q], id)], events[id := e];
    forall x | x in now
      ensures Holds(now[x], after, x)
    {
      assert Holds(queues[x], events, x);
    }
  }

  /** Fields that no queue depends on. */
  lemma Touched(queues: Queues, events: seq<Event>, id: Id, e: Event)
    requires Consistent(queues, events) && id < |events| && forall x :: Is(e, x) <==> Is(events[id], x)
    ensures Consistent(queues, events[id := e])
  {
    forall x | x in queues
      ensures Holds(queues[x], events[id := e], x)
    {
      assert Holds(queues[x], events, x);
    }
  }

  // ----- the two counters -----

  function Weight(e: Event): nat {
    if e.internal then 0
    else (if e.inserted then 1 else 0) + (if e.active then 1 else 0) + if e.timeout then 1 else 0
  }

  /** How many places non-internal events have on the event queue, the active
      queues and the timeout queues together. */
  function Memberships(events: seq<Event>): nat {
    if events == [] then 0 else Memberships(events[..|events| - 1]) + Weight(events[|events| - 1])
  }

  lemma {:induction false} MembershipsUpdate(events: seq<Event>, id: Id, e: Event)
    requires id < |events|
    ensures Memberships(events[id := e]) == Memberships(events) - Weight(events[id]) + Weight(e)
  {
    var n, after := |events| - 1, events[id := e];
    if id < n {
      MembershipsUpdate(events[..n], id, e);
      assert after[..n] == events[..n][id := e];
    } else {
      assert after[..n] == events[..n];
    }
  }

  /** The length of the first `n` active queues. */
  function ActiveLength(queues: Queues, n: nat): nat
    requires forall p :: 0 <= p < n ==> Active(p) in queues
  {
    if n == 0 then 0 else ActiveLength(queues, n - 1) + |queues[Active(n - 1)]|
  }

  lemma {:induction false} ActiveLengthUpdate(queues: Queues, n: nat, q: Queue, s: seq<Id>)
    requires q in queues && forall p :: 0 <= p < n ==> Active(p) in queues
    ensures ActiveLength(queues[q := s], n) ==
      ActiveLength(queues, n) + if q.Active? && q.pri < n then |s| - |queues[q]| else 0
  {
    if n > 0 {
      ActiveLengthUpdate(queues, n - 1, q, s);
    }
  }

  // ----- what every queue operation keeps -----

  ghost predicate Shaped(queues: Queues, events: seq<Event>, nPri: nat, nCommon: nat) {
    && Inserted in queues && Heap in queues
    && (forall p: nat :: Active(p) in queues <==> p < nPri)
    && (forall k: nat :: Common(k) in queues <==> k < nCommon)
    && (forall id :: 0 <= id < |events| ==> events[id].pri < nPri)
    && (forall id :: 0 <= id < |events| && events[id].src != NoSource ==> Listed(events[id].src) in queues)
  }

  ghost predicate AllSorted(queues: Queues, events: seq<Event>) {
    forall q :: q in queues && q.Common? ==> Sorted(queues[q], events)
  }

  /** Flags, queues and both counters agree, and common timeouts are in order. */
  ghost predicate Core(queues: Queues, events: seq<Event>, count: int, active: int, nPri: nat, nCommon: nat) {
    && Shaped(queues, events, nPri, nCommon)
    && Consistent(queues, events)
    && AllSorted(queues, events)
    && count == Memberships(events)
    && active == ActiveLength(queues, nPri)
  }

  /** The fields that queueing does not change. */
  predicate SameBody(was: Event, e: Event) {
    && e.src == was.src && e.internal == was.internal && e.pri == was.pri
    && (was.timeout || e.timeout ==> e.deadline == was.deadline)
  }

  lemma SortedSame(s: seq<Id>, events: seq<Event>, id: Id, e: Event)
    requires Sorted(s, events) && id < |events| && (id in s ==> e.deadline == events[id].deadline)
    ensures Sorted(s, events[id := e])
  {
  }

  lemma CommonIsTimed(was: Event, e: Event, q: Queue)
    requires Joins(was, e, q)
    ensures q.Common? ==> e.timeout
  {
    assert Is(e, q);
  }

  lemma CoreEnter(queues: Queues, events: seq<Event>, count: int, active: int, nPri: nat, nCommon: nat,
                  id: Id, q: Queue, at: nat, e: Event)
    requires Core(queues, events, count, active, nPri, nCommon) && id < |events|
    requires q in queues && at <= |queues[q]| && Joins(events[id], e, q) && SameBody(events[id], e)
    requires q.Common? ==> Sorted(Put(queues[q], at, id), events)
    ensures Core(queues[q := Put(queues[q], at, id)], events[id := e], count - Weight(events[id]) + Weight(e),
                 if q.Active? then active + 1 else active, nPri, nCommon)
  {
    hide Sorted, Is, Put, Weight, Consistent, Joins;
    CommonIsTimed(events[id], e, q);
    Entered(queues, events, id, q, at, e);
    MembershipsUpdate(events, id, e);
    ActiveLengthUpdate(queues, nPri, q, Put(queues[q], at, id));
    AllSortedTouched(queues, events, id, e);
    if q.Common? {
      SortedSame(Put(queues[q], at, id), events, id, e);
    }
  }

  lemma CoreLeave(queues: Queues, events: seq<Event>, count: int, active: int, nPri: nat, nCommon: nat,
                  id: Id, q: Queue, e: Event)
    requires Core(queues, events, count, active, nPri, nCommon) && id < |events|
    requires q in queues && Joins(e, events[id], q) && SameBody(events[id], e)
    ensures Core(queues[q := Without(queues[q], id)], events[id := e], count - Weight(events[id]) + Weight(e),
                 if q.Active? then active - 1 else active, nPri, nCommon)
    ensures id in queues[q]
  {
    hide Sorted, Is, Weight, Consistent, Joins;
    Left(queues, events, id, q, e);
    MembershipsUpdate(events, id, e);
    ActiveLengthUpdate(queues, nPri, q, Without(queues[q], id));
    assert Unique(queues[q]) by { UniqueQueue(queues, events, q); }
    WithoutKeeps(queues[q], id);
    AllSortedTouched(queues, events, id, e);
    if q.Common? {
      WithoutSorted(queues[q], events[id := e], id);
    }
  }

  lemma UniqueQueue(queues: Queues, events: seq<Event>, q: Queue)
    requires Consistent(queues, events) && q in queues
    ensures Unique(queues[q])
  {
    assert Holds(queues[q], events, q);
  }

  lemma CoreTouch(queues: Queues, events: seq<Event>, count: int, active: int, nPri: nat, nCommon: nat, id: Id, e: Event)
    requires Core(queues, events, count, active, nPri, nCommon) && id < |events|
    requires e.src == events[id].src && e.internal == events[id].internal && e.pri < nPri
    requires e.inserted == events[id].inserted && e.timeout == events[id].timeout && e.listed == events[id].listed
    requires e.active == events[id].active && (e.active ==> e.pri == events[id].pri)
    requires e.timeout ==> e.deadline == events[id].deadline
    ensures Core(queues, events[id := e], count, active, nPri, nCommon)
  {
    Touched(queues, events, id, e);
    hide Sorted, Is, Consistent;
    MembershipsUpdate(events, id, e);
    assert AllSorted(queues, events[id := e]) by {
      AllSortedTouched(queues, events, id, e);
    }
  }

  lemma AllSortedTouched(queues: Queues, events: seq<Event>, id: Id, e: Event)
    requires Consistent(queues, events) && AllSorted(queues, events) && id < |events|
    requires events[id].timeout ==> e.deadline == events[id].deadline
    ensures AllSorted(queues, events[id := e])
  {
    hide Sorted;
    forall q | q in queues && q.Common?
      ensures Sorted(queues[q], events[id := e])
    {
      assert Holds(queues[q], events, q);
      SortedSame(queues[q], events, id, e);
    }
  }
}
