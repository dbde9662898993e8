/** The event base: adding, deleting, activating and timing out events. */
module Scheduler {
  import opened Prelude
  import opened EventQueues

  /** What event_queue_insert and event_queue_remove are told. */
  datatype Flag = INSERTED | ACTIVE | TIMEOUT

  /** The queue that a flag of an event names. */
  function QueueOf(e: Event, f: Flag): Queue {
    match f
    case INSERTED => Inserted
    case ACTIVE => Active(e.pri)
    case TIMEOUT => if e.deadline.tag.Some? then Common(e.deadline.tag.value) else Heap
  }

  predicate Has(e: Event, f: Flag) {
    match f
    case INSERTED => e.inserted
    case ACTIVE => e.active
    case TIMEOUT => e.timeout
  }

  function Set(e: Event, f: Flag, on: bool): Event {
    match f
    case INSERTED => e.(inserted := on)
    case ACTIVE => e.(active := on)
    case TIMEOUT => e.(timeout := on)
  }

  lemma SetJoins(e: Event, f: Flag)
    ensures !Has(e, f) ==> Joins(e, Set(e, f, true), QueueOf(e, f)) && SameBody(e, Set(e, f, true))
    ensures Has(e, f) ==> Joins(Set(e, f, false), e, QueueOf(e, f)) && SameBody(e, Set(e, f, false))
    ensures !e.internal ==> Weight(Set(e, f, true)) == Weight(Set(e, f, false)) + 1
    ensures e.internal ==> Weight(Set(e, f, true)) == Weight(Set(e, f, false)) == 0
    ensures Set(e, f, Has(e, f)) == e
  {
  }

  /** What event_add_internal may be asked for: queues that exist. */
  predicate Good(e: Event, nCommon: nat) {
    && (e.deadline.tag.Some? ==> e.deadline.tag.value < nCommon)
    && (Recurs(e) && HasDelay(e) ==> e.ioTimeout.tag == e.deadline.tag)
    && e.listed == e.inserted && (e.inserted ==> e.src != NoSource)
  }

  /** ev_io_timeout is not zero; the bits that name a queue are part of tv_usec. */
  predicate HasDelay(e: Event) {
    e.ioTimeout.usec != 0 || e.ioTimeout.tag.Some?
  }

  /** ev_closure is EV_CLOSURE_PERSIST */
  predicate Recurs(e: Event) {
    e.persist && !e.src.Signal?
  }

  ghost predicate AllGood(events: seq<Event>, nCommon: nat) {
    forall id :: 0 <= id < |events| ==> Good(events[id], nCommon)
  }

  /** The internal event of a common timeout queue. */
  predicate IsTimer(e: Event) {
    e.src == NoSource && e.internal && e.pri == 0 && !e.persist && e.deadline.tag == None
  }

  ghost predicate HaveTimers(events: seq<Event>, timers: seq<Id>) {
    && Unique(timers)
    && forall k :: 0 <= k < |timers| ==> timers[k] < |events| && IsTimer(events[timers[k]])
  }

  /** A timer will look after a deadline: it is active, or it is in the heap for
      then or earlier; or its callback is just about to run. */
  predicate Awake(timer: Event, due: int, runs: bool) {
    runs || timer.active || (timer.timeout && timer.deadline.usec <= due)
  }

  ghost predicate Armed(events: seq<Event>, timers: seq<Id>, pending: Option<nat>)
    requires HaveTimers(events, timers)
  {
    forall k, id :: 0 <= k < |timers| && 0 <= id < |events| && Is(events[id], Common(k)) ==>
      Awake(events[timers[k]], events[id].deadline.usec, pending == Some(k))
  }

  /** What an event was made with, and why it was last active, is as before. */
  predicate KeepsBody(was: Event, now: Event) {
    && now.src == was.src && now.persist == was.persist && now.internal == was.internal && now.pri == was.pri
    && now.ioTimeout == was.ioTimeout && now.res == was.res
  }

  /** What event_del_internal leaves of an event, and then event_active_nolock. */
  function Deleted(e: Event): Event {
    e.(timeout := false, active := false, inserted := false, listed := false)
  }

  function Fired(e: Event): Event {
    Deleted(e).(active := true, res := {Timeout})
  }

  function Activated(e: Event, res: set<Cause>): Event {
    if e.active then e.(res := e.res + res) else e.(active := true, res := res)
  }

  /** What the timeout part of event_add_internal makes of an event. */
  function Retimed(e: Event, tv: Tv, absolute: bool, now: int): Event {
    e.(ioTimeout := if Recurs(e) && !absolute then tv else e.ioTimeout,
       active := e.active && Timeout !in e.res,
       timeout := true,
       deadline := if absolute then tv else Tv(now + tv.usec, tv.tag))
  }

  /** Where event_process_active is while it does not hold the lock: in the callback
      of an event from queue `i`, which is that of a common timeout if one is named. */
  datatype Phase = Idle | InQueue(i: nat, count: nat, pending: Option<nat>)

  /** As event_assign leaves an event. */
  predicate Unused(e: Event) {
    && !e.inserted && !e.active && !e.timeout && !e.listed
    && e.deadline == Tv(0, None) && e.ioTimeout == Tv(0, None)
  }

  function Sources(events: seq<Event>): (q: set<Queue>)
    ensures forall x :: x in q <==> exists id :: 0 <= id < |events| && x == Listed(events[id].src)
  {
    set id | 0 <= id < |events| :: Listed(events[id].src)
  }

  function Nothing(events: seq<Event>, nPri: nat, nCommon: nat): Queues {
    var active, common := set p: nat | p < nPri :: Active(p), set k: nat | k < nCommon :: Common(k);
    map q | q in {Inserted, Heap} + active + common + Sources(events) :: []
  }

  lemma NothingKeys(events: seq<Event>, nPri: nat, nCommon: nat)
    ensures var queues := Nothing(events, nPri, nCommon);
      && Inserted in queues && Heap in queues
      && (forall p: nat :: Active(p) in queues <==> p < nPri)
      && (forall k: nat :: Common(k) in queues <==> k < nCommon)
      && (forall id :: 0 <= id < |events| ==> Listed(events[id].src) in queues)
      && (forall q :: q in queues ==> queues[q] == [])
  {
    forall id | 0 <= id < |events|
      ensures Listed(events[id].src) in Sources(events)
    {
    }
  }

  lemma NothingCore(events: seq<Event>, nPri: nat, nCommon: nat)
    requires forall id :: 0 <= id < |events| ==> events[id].pri < nPri && Unused(events[id])
    ensures Core(Nothing(events, nPri, nCommon), events, 0, 0, nPri, nCommon)
  {
    hide Nothing;
    NothingKeys(events, nPri, nCommon);
    NoMemberships(events);
    NoLength(Nothing(events, nPri, nCommon), nPri);
  }

  lemma {:induction false} NoMemberships(events: seq<Event>)
    requires forall id :: 0 <= id < |events| ==> Unused(events[id])
    ensures Memberships(events) == 0
  {
    if events != [] {
      NoMemberships(events[..|events| - 1]);
    }
  }

  lemma {:induction false} NoLength(queues: Queues, n: nat)
    requires forall p: nat :: p < n ==> Active(p) in queues && queues[Active(p)] == []
    ensures ActiveLength(queues, n) == 0
  {
    if n > 0 {
      NoLength(queues, n - 1);
    }
  }

  /** TAILQ_INSERT_TAIL and min_heap_push; a common timeout has its own place. */
  ghost predicate Appended(was: Queues, now: Queues, q: Queue, ev: Id) {
    q in was && (!q.Common? ==> now == was[q := was[q] + [ev]])
  }

  /** In a common timeout queue `ev` comes first exactly if all others are later. */
  ghost predicate InOrder(was: Queues, now: Queues, q: Queue, ev: Id, events: seq<Event>)
    requires ev < |events|
  {
    q.Common? ==>
      && q in was && q in now && now[q] != [] && (forall id :: id in was[q] ==> id < |events|)
      && (now[q][0] == ev <==> forall id :: id in was[q] ==> events[ev].deadline.usec < events[id].deadline.usec)
  }

  lemma PutFirst(s: seq<Id>, at: nat, ev: Id, events: seq<Event>)
    requires at <= |s| && ev < |events| && ev !in s && forall i :: 0 <= i < |s| ==> s[i] < |events|
    requires forall i :: 0 <= i < |s| ==> (i < at <==> events[s[i]].deadline.usec <= events[ev].deadline.usec)
    ensures Put(s, at, ev)[0] == ev <==> forall id :: id in s ==> events[ev].deadline.usec < events[id].deadline.usec
  {
    if at > 0 {
      assert Put(s, at, ev)[0] == s[0] && s[0] in s;
    }
  }

  /** All other events of common timeout queue `k` are due later than `due`. */
  ghost predicate Soonest(events: seq<Event>, ev: Id, k: nat, due: int) {
    forall id :: 0 <= id < |events| && id != ev && Is(events[id], Common(k)) ==> due < events[id].deadline.usec
  }

  /** The head of the queue of `ev` tells whether it is. */
  ghost predicate HeadTells(queues: Queues, events: seq<Event>, ev: Id, tag: Option<nat>)
    requires ev < |events|
  {
    tag.Some? ==>
      && Common(tag.value) in queues && queues[Common(tag.value)] != []
      && (queues[Common(tag.value)][0] == ev <==> Soonest(events, ev, tag.value, events[ev].deadline.usec))
  }

  lemma NoHead(queues: Queues, events: seq<Event>, ev: Id)
    requires ev < |events|
    ensures HeadTells(queues, events, ev, None)
  {
  }

  lemma HeadSoonest(was: Queues, now: Queues, mid: seq<Event>, events: seq<Event>, ev: Id, k: nat)
    requires ev < |mid| == |events| && !mid[ev].timeout && forall id :: 0 <= id < |mid| && id != ev ==> events[id] == mid[id]
    requires Common(k) in was && Holds(was[Common(k)], mid, Common(k)) && InOrder(was, now, Common(k), ev, events)
    ensures HeadTells(now, events, ev, Some(k))
  {
  }

  ghost predicate TakenOut(was: Queues, now: Queues, q: Queue, ev: Id) {
    q in was && now == was[q := Without(was[q], ev)]
  }

  class EventBase {
    var events: seq<Event>
    var queues: Queues
    var eventCount: int
    var eventCountActive: int
    var running: int
    var eventContinue: bool
    var eventBreak: bool
    var eventTv: int
    var phase: Phase
    const nPri: nat
    /** The internal event of each common timeout queue. */
    const timers: seq<Id>

    ghost predicate Queued()
      reads this
    {
      Core(queues, events, eventCount, eventCountActive, nPri, |timers|)
    }

    /** A base with these events, none of them added yet. */
    constructor (events: seq<Event>, nPri: nat, timers: seq<Id>)
      requires HaveTimers(events, timers) && nPri > 0
      requires forall id :: 0 <= id < |events| ==> events[id].pri < nPri && Unused(events[id])
      ensures Queued() && Sound(events, timers, None) && this.events == events && this.timers == timers && this.nPri == nPri
      ensures phase == Idle && running == -1 && !eventContinue && !eventBreak
    {
      this.events, this.nPri, this.timers := events, nPri, timers;
      queues := Nothing(events, nPri, |timers|);
      eventCount, eventCountActive, eventTv := 0, 0, 0;
      running, eventContinue, eventBreak, phase := -1, false, false, Idle;
      new;
      NothingCore(events, nPri, |timers|);
    }

    /** event_queue_insert, for a flag that is not set */
    method QueueInsert(ev: Id, f: Flag)
      requires Queued() && ev < |events| && !Has(events[ev], f)
      requires QueueOf(events[ev], f) in queues
      modifies `events, `queues, `eventCount, `eventCountActive
      ensures Queued() && events == old(events)[ev := Set(old(events[ev]), f, true)]
      ensures queues.Keys == old(queues.Keys)
      ensures Appended(old(queues), queues, old(QueueOf(events[ev], f)), ev)
      ensures InOrder(old(queues), queues, old(QueueOf(events[ev], f)), ev, events) && KeepsOthers(old(queues), queues, {ev})
    {
      hide Core, Joins, SameBody, Weight, Put, KeepsOthers;
      var e := events[ev];
      var q := QueueOf(e, f);
      SetJoins(e, f);
      var at := |queues[q]|;
      if q.Common? {
        SortedQueue(queues, events, eventCount, eventCountActive, nPri, |timers|, q);
        at := InsertPosition(ev, q);
        NotThere(queues, events, eventCount, eventCountActive, nPri, |timers|, ev, q);
        PutFirst(queues[q], at, ev, events);
      }
      CoreEnter(queues, events, eventCount, eventCountActive, nPri, |timers|, ev, q, at, Set(e, f, true));
      PutLast(queues[q], ev);
      KeepsPut(queues, q, at, ev);
      if !e.internal {
        eventCount := eventCount + 1;
      }
      if f == ACTIVE {
        eventCountActive := eventCountActive + 1;
      }
      events := events[ev := Set(e, f, true)];
      queues := queues[q := Put(queues[q], at, ev)];
    }

    /** insert_common_timeout_inorder: behind the last event that is not later. */
    method InsertPosition(ev: Id, q: Queue) returns (at: nat)
      requires ev < |events| && q in queues && Sorted(queues[q], events)
      ensures at <= |queues[q]| && Sorted(Put(queues[q], at, ev), events)
      ensures forall i :: 0 <= i < |queues[q]| ==>
        (i < at <==> events[queues[q][i]].deadline.usec <= events[ev].deadline.usec)
    {
      at := |queues[q]|;
      while at > 0
        invariant at <= |queues[q]|
        invariant forall i :: at <= i < |queues[q]| ==> events[ev].deadline.usec < events[queues[q][i]].deadline.usec
      {
        if events[ev].deadline.usec >= events[queues[q][at - 1]].deadline.usec { break; }
        at := at - 1;
      }
    }

    /** event_queue_remove, for a flag that is set */
    method QueueRemove(ev: Id, f: Flag)
      requires Queued() && ev < |events| && Has(events[ev], f)
      modifies `events, `queues, `eventCount, `eventCountActive
      ensures Queued() && events == old(events)[ev := Set(old(events[ev]), f, false)]
      ensures queues.Keys == old(queues.Keys) && TakenOut(old(queues), queues, old(QueueOf(events[ev], f)), ev)
      ensures KeepsOthers(old(queues), queues, {ev})
    {
      hide Core, Joins, SameBody, Weight, KeepsOthers;
      var e := events[ev];
      var q := QueueOf(e, f);
      SetJoins(e, f);
      FlagQueue(queues, events, eventCount, eventCountActive, nPri, |timers|, ev, q, Set(e, f, false));
      CoreLeave(queues, events, eventCount, eventCountActive, nPri, |timers|, ev, q, Set(e, f, false));
      KeepsWithout(queues, q, ev);
      if !e.internal {
        eventCount := eventCount - 1;
      }
      if f == ACTIVE {
        eventCountActive := eventCountActive - 1;
      }
      events := events[ev := Set(e, f, false)];
      queues := queues[q := Without(queues[q], ev)];
    }

    /** A field that no queue depends on. */
    method Touch(ev: Id, e: Event)
      requires Queued() && ev < |events| && e.src == events[ev].src && e.internal == events[ev].internal
      requires e.inserted == events[ev].inserted && e.timeout == events[ev].timeout && e.listed == events[ev].listed
      requires e.active == events[ev].active && (e.active ==> e.pri == events[ev].pri) && e.pri < nPri
      requires e.timeout ==> e.deadline == events[ev].deadline
      modifies `events
      ensures Queued() && events == old(events)[ev := e]
    {
      hide Core;
      CoreTouch(queues, events, eventCount, eventCountActive, nPri, |timers|, ev, e);
      events := events[ev := e];
    }

    /** evmap_io_add or evmap_signal_add where it succeeds, and event_queue_insert */
    method Register(ev: Id)
      requires Queued() && ev < |events| && !events[ev].inserted && !events[ev].listed && events[ev].src != NoSource
      modifies `events, `queues, `eventCount, `eventCountActive
      ensures Queued() && events == old(events)[ev := old(events[ev]).(inserted := true, listed := true)]
      ensures queues.Keys == old(queues.Keys) && KeepsOthers(old(queues), queues, {ev})
    {
      hide Core, Joins, SameBody, Weight, Put, Appended, Rest;
      var e := events[ev];
      var q := Listed(e.src);
      ListJoins(e);
      KnownQueues(queues, events, eventCount, eventCountActive, nPri, |timers|, ev);
      CoreEnter(queues, events, eventCount, eventCountActive, nPri, |timers|, ev, q, |queues[q]|, e.(listed := true));
      KeepsPut(queues, q, |queues[q]|, ev);
      events := events[ev := e.(listed := true)];
      queues := queues[q := Put(queues[q], |queues[q]|, ev)];
      QueueInsert(ev, INSERTED);
    }

    /** event_queue_remove and evmap_io_del or evmap_signal_del */
    method Unregister(ev: Id)
      requires Queued() && ev < |events| && events[ev].inserted && events[ev].listed
      modifies `events, `queues, `eventCount, `eventCountActive
      ensures Queued() && events == old(events)[ev := old(events[ev]).(inserted := false, listed := false)]
      ensures queues.Keys == old(queues.Keys) && KeepsOthers(old(queues), queues, {ev})
    {
      hide Core, Joins, SameBody, Weight, Without, TakenOut, Rest;
      QueueRemove(ev, INSERTED);
      var e := events[ev];
      ListJoins(e);
      var q := Listed(e.src);
      FlagQueue(queues, events, eventCount, eventCountActive, nPri, |timers|, ev, q, e.(listed := false));
      CoreLeave(queues, events, eventCount, eventCountActive, nPri, |timers|, ev, q, e.(listed := false));
      KeepsWithout(queues, q, ev);
      queues := queues[q := Without(queues[q], ev)];
      events := events[ev := e.(listed := false)];
    }

    /** event_del_internal, with a backend that does as it is told: the event is off
        every queue it was on, and nothing else has changed. */
    method EventDel(ev: Id)
      requires Queued() && ev < |events| && Good(events[ev], |timers|)
      modifies `events, `queues, `eventCount, `eventCountActive
      ensures Queued() && events == old(events)[ev := Deleted(old(events[ev]))]
      ensures (forall q :: !Is(events[ev], q)) && OffAll(old(queues), queues, ev)
      ensures KeepsBody(old(events[ev]), events[ev]) && events[ev].deadline == old(events[ev].deadline)
      ensures KeepsOthers(old(queues), queues, {ev})
    {
      hide Core, Appended, TakenOut, Rest, OffAll;
      UniqueQueues(queues, events, eventCount, eventCountActive, nPri, |timers|);
      if events[ev].timeout { QueueRemove(ev, TIMEOUT); }
      if events[ev].active { QueueRemove(ev, ACTIVE); }
      if events[ev].inserted { Unregister(ev); }
      NowhereElse(queues, events, eventCount, eventCountActive, nPri, |timers|, ev);
      TakenOffAll(old(queues), queues, ev);
    }

    /** event_active_nolock */
    method EventActive(ev: Id, res: set<Cause>)
      requires Queued() && ev < |events|
      modifies `events, `queues, `eventCount, `eventCountActive, `eventContinue
      ensures Queued() && queues.Keys == old(queues.Keys) && events == old(events)[ev := Activated(old(events[ev]), res)]
      ensures events[ev].active && events[ev].res == (if old(events[ev].active) then old(events[ev].res) + res else res)
      ensures forall q :: q != Active(events[ev].pri) ==> (Is(events[ev], q) <==> Is(old(events[ev]), q))
      ensures old(events[ev].active) ==> queues == old(queues)
      ensures old(!events[ev].active) ==> Appended(old(queues), queues, Active(events[ev].pri), ev)
      ensures KeepsOthers(old(queues), queues, {ev})
      ensures eventContinue == (old(eventContinue) || (!old(events[ev].active) && events[ev].pri < running))
    {
      hide Core, Appended, KeepsOthers, Is, Activated;
      ActivatedMeans(events[ev], res);
      KeepsSame(queues, {ev});
      if events[ev].active {
        AddCause(ev, res);
        return;
      }
      if events[ev].pri < running {
        eventContinue := true;
      }
      Enqueue(ev, res);
    }

    method AddCause(ev: Id, res: set<Cause>)
      requires Queued() && ev < |events| && events[ev].active
      modifies `events
      ensures Queued() && events == old(events)[ev := Activated(old(events[ev]), res)]
    {
      hide Core;
      PriQueue(queues, events, eventCount, eventCountActive, nPri, |timers|, ev);
      Touch(ev, events[ev].(res := events[ev].res + res));
    }

    method Enqueue(ev: Id, res: set<Cause>)
      requires Queued() && ev < |events| && !events[ev].active
      modifies `events, `queues, `eventCount, `eventCountActive
      ensures Queued() && queues.Keys == old(queues.Keys) && events == old(events)[ev := Activated(old(events[ev]), res)]
      ensures Appended(old(queues), queues, Active(events[ev].pri), ev) && KeepsOthers(old(queues), queues, {ev})
    {
      hide Core, Appended, KeepsOthers;
      PriQueue(queues, events, eventCount, eventCountActive, nPri, |timers|, ev);
      Touch(ev, events[ev].(res := res));
      QueueInsert(ev, ACTIVE);
    }

    /** event_del_internal and event_active_nolock, as a timeout does */
    method Fire(ev: Id)
      requires Queued() && ev < |events| && Good(events[ev], |timers|)
      modifies `events, `queues, `eventCount, `eventCountActive, `eventContinue
      ensures Queued() && queues.Keys == old(queues.Keys) && events == old(events)[ev := Fired(old(events[ev]))]
      ensures eventContinue == (old(eventContinue) || events[ev].pri < running) && KeepsOthers(old(queues), queues, {ev})
    {
      hide Core, Rest, OffAll, Appended;
      EventDel(ev);
      EventActive(ev, {Timeout});
    }

    /** event_priority_set */
    method SetPriority(ev: Id, pri: int) returns (res: int)
      requires Queued() && ev < |events|
      modifies `events
      ensures Queued() && res == if old(events[ev].active) || pri < 0 || pri >= nPri then -1 else 0
      ensures events == if res == 0 then old(events)[ev := old(events[ev]).(pri := pri)] else old(events)
    {
      hide Core;
      if events[ev].active { return -1; }
      if pri < 0 || pri >= nPri { return -1; }
      Touch(ev, events[ev].(pri := pri));
      return 0;
    }

    /** The part of event_add_internal for a timeout: an old timeout is taken back,
        even if it has already made the event active. */
    method AddTimeout(ev: Id, tv: Tv, absolute: bool, now: int)
      requires Queued() && ev < |events| && (tv.tag.Some? ==> tv.tag.value < |timers|)
      modifies `events, `queues, `eventCount, `eventCountActive
      ensures Queued() && queues.Keys == old(queues.Keys) && KeepsOthers(old(queues), queues, {ev})
      ensures events == old(events)[ev := Retimed(old(events[ev]), tv, absolute, now)] && HeadTells(queues, events, ev, tv.tag)
      ensures IsTimed(old(events[ev]), events[ev], tv, absolute, now)
      ensures !absolute ==> events[ev].timeout && events[ev].deadline == Tv(now + tv.usec, tv.tag)
    {
      hide Core, HeadTells, Rest;
      Unschedule(ev);
      Schedule(ev, tv, absolute, now);
    }

    /** The new deadline is written down and the event is queued for it. */
    method Schedule(ev: Id, tv: Tv, absolute: bool, now: int)
      requires Queued() && ev < |events| && (tv.tag.Some? ==> tv.tag.value < |timers|)
      requires !events[ev].timeout && !(events[ev].active && Timeout in events[ev].res)
      modifies `events, `queues, `eventCount, `eventCountActive
      ensures Queued() && queues.Keys == old(queues.Keys) && KeepsOthers(old(queues), queues, {ev})
      ensures events == old(events)[ev := Retimed(old(events[ev]), tv, absolute, now)] && HeadTells(queues, events, ev, tv.tag)
    {
      hide Core, Appended, InOrder, HeadTells, KeepsOthers;
      KnownQueues(queues, events, eventCount, eventCountActive, nPri, |timers|, ev);
      var e := Retimed(events[ev], tv, absolute, now).(timeout := false);
      Touch(ev, e);
      ghost var mid, was := events, queues;
      if tv.tag.Some? {
        NotThere(queues, events, eventCount, eventCountActive, nPri, |timers|, ev, Common(tv.tag.value));
      }
      QueueInsert(ev, TIMEOUT);
      if tv.tag.Some? {
        HeadSoonest(was, queues, mid, events, ev, tv.tag.value);
      } else {
        NoHead(queues, events, ev);
      }
    }

    method Unschedule(ev: Id)
      requires Queued() && ev < |events|
      modifies `events, `queues, `eventCount, `eventCountActive
      ensures Queued() && queues.Keys == old(queues.Keys) && KeepsOthers(old(queues), queues, {ev})
      ensures var e := old(events[ev]); events == old(events)[ev := e.(timeout := false, active := e.active && Timeout !in e.res)]
    {
      hide Core, TakenOut, Rest;
      if events[ev].timeout {
        QueueRemove(ev, TIMEOUT);
      }
      if events[ev].active && Timeout in events[ev].res {
        QueueRemove(ev, ACTIVE);
      }
    }

    /** event_add_internal; `addOk` says whether evmap can add the event.  A failure
        changes nothing.  A relative timeout counts from now.  The timer of a common
        timeout is set again exactly when all other events of its queue are later. */
    method EventAdd(ev: Id, tv: Option<Tv>, absolute: bool, now: int, addOk: bool, ghost pending: Option<nat>) returns (res: int)
      requires Queued() && Sound(events, timers, pending) && ev < |events| && ev !in timers
      requires tv.Some? ==> Settable(events[ev], tv.value, absolute, |timers|)
      modifies `events, `queues, `eventCount, `eventCountActive
      ensures Queued() && Sound(events, timers, pending) && |events| == old(|events|)
      ensures res == if Registers(old(events[ev])) && !addOk then -1 else 0
      ensures events == if res == -1 then old(events) else AddedTo(old(events), timers, ev, tv, absolute, now)
      ensures res == 0 ==> IsListed(old(events[ev]), events[ev])
      ensures res == 0 && tv.None? ==> SameTiming(old(events[ev]), events[ev])
      ensures res == 0 && tv.Some? ==> IsTimed(old(events[ev]), events[ev], tv.value, absolute, now)
      ensures res == 0 && tv.Some? && !absolute ==>
        events[ev].timeout && events[ev].deadline == Tv(now + tv.value.usec, tv.value.tag)
      ensures res == 0 && tv.Some? && tv.value.tag.Some? ==> TimerFollows(old(events), events, timers, ev, tv.value.tag.value)
      ensures forall id :: 0 <= id < |events| && id != ev && (tv.None? || tv.value.tag.None? || timers[tv.value.tag.value] != id) ==>
        events[id] == old(events)[id]
      ensures Quieter(old(events), events) && KeepsOthers(old(queues), queues, {ev} + TimerIds(timers))
    {
      hide Core, Sound, Good, Retimed, Rearmed, Rest, TimerFollows;
      res := 0;
      if Registers(events[ev]) {
        if !addOk { return -1; }
        RegisterSound(events, timers, pending, ev);
        Register(ev);
      }
      KeepsMore(old(queues), queues, {ev}, {ev} + TimerIds(timers));
      if tv.Some? {
        AddDeadline(ev, tv.value, absolute, now, pending);
        HaveTimersOf(old(events), timers, pending);
      }
      AddedMeans(old(events), timers, ev, tv, absolute, now);
    }

    method AddDeadline(ev: Id, tv: Tv, absolute: bool, now: int, ghost pending: Option<nat>)
      requires Queued() && Sound(events, timers, pending) && ev < |events| && ev !in timers
      requires Settable(events[ev], tv, absolute, |timers|)
      modifies `events, `queues, `eventCount, `eventCountActive
      ensures Queued() && Sound(events, timers, pending) && |events| == old(|events|)
      ensures events == Rearmed(old(events), timers, ev, tv, absolute, now) && Quieter(old(events), events)
      ensures KeepsOthers(old(queues), queues, {ev} + TimerIds(timers))
    {
      hide Core, Sound, Good, Retimed, Settable, Rest, KeepsOthers;
      SettableTag(events[ev], tv, absolute, now, |timers|);
      RetimedQuieter(events[ev], tv, absolute, now);
      ghost var was := events;
      AddTimeout(ev, tv, absolute, now);
      KeepsMore(old(queues), queues, {ev}, {ev} + TimerIds(timers));
      if tv.tag.Some? {
        var k := tv.tag.value;
        HeadIsLeast(queues, events, eventCount, eventCountActive, nPri, |timers|, k, ev);
        if queues[Common(k)][0] == ev {
          TimerIn(was, timers, pending, k);
          assert forall id :: 0 <= id < |was| && id != ev ==> was[id] == events[id];
          FirstSound(was, timers, pending, ev, tv, absolute, now, k);
          RetimedQuieter(events[timers[k]], Tv(events[ev].deadline.usec, None), true, now);
          ghost var mid := queues;
          AddTimeout(timers[k], Tv(events[ev].deadline.usec, None), true, now);
          KeepsMore(mid, queues, {timers[k]}, {ev} + TimerIds(timers));
          KeepsTwice(old(queues), mid, queues, {ev} + TimerIds(timers));
        } else {
          LaterSound(was, timers, pending, ev, tv, absolute, now, k, queues[Common(k)][0]);
        }
      } else {
        AloneSound(was, timers, pending, ev, tv, absolute, now);
      }
    }
  }

  ghost predicate Sound(events: seq<Event>, timers: seq<Id>, pending: Option<nat>) {
    HaveTimers(events, timers) && AllGood(events, |timers|) && Armed(events, timers, pending)
  }

  /** A timeout for a queue that exists; one that recurs keeps to its queue. */
  predicate Settable(e: Event, tv: Tv, absolute: bool, nCommon: nat) {
    && (tv.tag.Some? ==> tv.tag.value < nCommon)
    && (absolute && Recurs(e) && HasDelay(e) ==> e.ioTimeout.tag == tv.tag)
  }

  predicate Registers(e: Event) {
    e.src != NoSource && !e.inserted && !e.active
  }

  /** The events once `ev` has its deadline and, if that comes before all others of
      a common timeout queue, the timer of the queue too. */
  ghost function Rearmed(events: seq<Event>, timers: seq<Id>, ev: Id, tv: Tv, absolute: bool, now: int): seq<Event>
    requires ev < |events|
  {
    var e := Retimed(events[ev], tv, absolute, now);
    var after := events[ev := e];
    if tv.tag.Some? && tv.tag.value < |timers| && timers[tv.tag.value] < |events| &&
       Soonest(after, ev, tv.tag.value, e.deadline.usec) then
      var t := timers[tv.tag.value];
      after[t := Retimed(after[t], Tv(e.deadline.usec, None), true, now)]
    else after
  }

  /** The events after event_add_internal. */
  ghost function AddedTo(events: seq<Event>, timers: seq<Id>, ev: Id, tv: Option<Tv>, absolute: bool, now: int): seq<Event>
    requires ev < |events|
  {
    var e := events[ev];
    var listed := if Registers(e) then events[ev := e.(inserted := true, listed := true)] else events;
    if tv.Some? then Rearmed(listed, timers, ev, tv.value, absolute, now) else listed
  }

  ghost function TimerIds(timers: seq<Id>): (ids: set<Id>)
    ensures forall id :: id in ids <==> id in timers
  {
    set id | id in timers
  }

  lemma KeepsSame(queues: Queues, ids: set<Id>)
    ensures KeepsOthers(queues, queues, ids)
  {
  }

  lemma ActivatedMeans(e: Event, res: set<Cause>)
    ensures var r := Activated(e, res);
      && r.active && r.res == (if e.active then e.res + res else res) && r.pri == e.pri && (e.active ==> r == e.(res := e.res + res))
      && (forall q :: q != Active(e.pri) ==> (Is(r, q) <==> Is(e, q)))
  {
  }

  lemma KeepsTwice(was: Queues, mid: Queues, now: Queues, ids: set<Id>)
    requires KeepsOthers(was, mid, ids) && KeepsOthers(mid, now, ids)
    ensures KeepsOthers(was, now, ids)
  {
  }

  lemma HaveTimersOf(events: seq<Event>, timers: seq<Id>, pending: Option<nat>)
    requires Sound(events, timers, pending)
    ensures HaveTimers(events, timers)
  {
  }

  /** Registered for its source unless it was already, or was active; the rest of
      what it was made with is as before. */
  predicate IsListed(was: Event, now: Event) {
    && now.src == was.src && now.persist == was.persist && now.internal == was.internal && now.pri == was.pri
    && now.res == was.res
    && (now.inserted <==> was.inserted || (was.src != NoSource && !was.active))
    && (now.listed <==> was.listed || (was.src != NoSource && !was.inserted && !was.active))
  }

  predicate SameTiming(was: Event, now: Event) {
    && now.timeout == was.timeout && now.deadline == was.deadline
    && now.ioTimeout == was.ioTimeout && now.active == was.active
  }

  /** The timer of queue `k` waits for `ev` if all others in the queue are later, and
      is as before otherwise. */
  ghost predicate TimerFollows(was: seq<Event>, now: seq<Event>, timers: seq<Id>, ev: Id, k: nat) {
    && k < |timers| && timers[k] < |was| == |now| && ev < |now|
    && var t := timers[k];
       if forall id :: 0 <= id < |was| && id != ev && Is(was[id], Common(k)) ==> now[ev].deadline.usec < was[id].deadline.usec then
         && now[t].timeout && now[t].deadline == Tv(now[ev].deadline.usec, None) && KeepsBody(was[t], now[t])
         && (now[t].active <==> was[t].active && Timeout !in was[t].res)
       else now[t] == was[t]
  }

  /** The timeout of an event, field by field: due `tv` from now, or at `tv`; taken
      off the active queue if a timeout had put it there. */
  predicate IsTimed(was: Event, now: Event, tv: Tv, absolute: bool, clock: int) {
    && now.timeout && now.deadline == (if absolute then tv else Tv(clock + tv.usec, tv.tag))
    && (now.active <==> was.active && Timeout !in was.res)
    && now.ioTimeout == (if was.persist && !was.src.Signal? && !absolute then tv else was.ioTimeout)
  }

  lemma RetimedMeans(e: Event, tv: Tv, absolute: bool, now: int)
    ensures var r := Retimed(e, tv, absolute, now);
      && IsTimed(e, r, tv, absolute, now) && r.inserted == e.inserted && r.listed == e.listed
      && r.src == e.src && r.persist == e.persist && r.internal == e.internal && r.pri == e.pri && r.res == e.res
  {
  }

  /** What event_add_internal makes of the events, field by field. */
  lemma AddedMeans(events: seq<Event>, timers: seq<Id>, ev: Id, tv: Option<Tv>, absolute: bool, now: int)
    requires ev < |events| && ev !in timers && (tv.Some? ==> HaveTimers(events, timers))
    requires tv.Some? && tv.value.tag.Some? ==> tv.value.tag.value < |timers|
    ensures var after, e := AddedTo(events, timers, ev, tv, absolute, now), events[ev];
      && |after| == |events| && IsListed(e, after[ev])
      && (if tv.None? then SameTiming(e, after[ev]) else IsTimed(e, after[ev], tv.value, absolute, now))
      && (tv.Some? && tv.value.tag.Some? ==> TimerFollows(events, after, timers, ev, tv.value.tag.value))
      && forall id :: 0 <= id < |events| && id != ev && (tv.None? || tv.value.tag.None? || timers[tv.value.tag.value] != id) ==>
           after[id] == events[id]
  {
    hide Retimed, Is, TimerFollows;
    var e := events[ev];
    var e1 := if Registers(e) then e.(inserted := true, listed := true) else e;
    if tv.Some? {
      RetimedMeans(e1, tv.value, absolute, now);
      if tv.value.tag.Some? {
        assert events[ev := e] == events;
        TimerMeans(events, timers, ev, e1, tv.value, absolute, now);
      }
    }
  }

  lemma TimerMeans(events: seq<Event>, timers: seq<Id>, ev: Id, e: Event, tv: Tv, absolute: bool, now: int)
    requires ev < |events| && ev !in timers && HaveTimers(events, timers)
    requires tv.tag.Some? && tv.tag.value < |timers|
    ensures TimerFollows(events, Rearmed(events[ev := e], timers, ev, tv, absolute, now), timers, ev, tv.tag.value)
  {
    hide Retimed, Is;
    var after := events[ev := Retimed(e, tv, absolute, now)];
    assert events[ev := e][ev := Retimed(e, tv, absolute, now)] == after;
    var t := timers[tv.tag.value];
    RetimedMeans(after[t], Tv(after[ev].deadline.usec, None), true, now);
    assert forall id :: 0 <= id < |events| && id != ev ==> after[id] == events[id];
  }

  /** Nothing became active, and nothing changed its priority or its kind. */
  ghost predicate Quieter(was: seq<Event>, now: seq<Event>) {
    && |was| == |now|
    && forall id :: 0 <= id < |now| ==>
      (now[id].active ==> was[id].active) && now[id].pri == was[id].pri && now[id].internal == was[id].internal
  }

  lemma RetimedQuieter(e: Event, tv: Tv, absolute: bool, now: int)
    ensures var r := Retimed(e, tv, absolute, now);
      (r.active ==> e.active) && r.pri == e.pri && r.internal == e.internal
  {
  }

  lemma SettableTag(e: Event, tv: Tv, absolute: bool, now: int, nCommon: nat)
    requires Settable(e, tv, absolute, nCommon)
    ensures tv.tag.Some? ==> tv.tag.value < nCommon
    ensures var r := Retimed(e, tv, absolute, now); r.timeout && r.deadline.tag == tv.tag
  {
  }

  lemma RegisterSound(events: seq<Event>, timers: seq<Id>, pending: Option<nat>, ev: Id)
    requires Sound(events, timers, pending) && ev < |events| && ev !in timers && Registers(events[ev])
    ensures !events[ev].listed
    ensures Sound(events[ev := events[ev].(inserted := true, listed := true)], timers, pending)
  {
    assert Good(events[ev], |timers|);
  }

  lemma TimerIn(events: seq<Event>, timers: seq<Id>, pending: Option<nat>, k: nat)
    requires Sound(events, timers, pending) && k < |timers|
    ensures timers[k] < |events| && IsTimer(events[timers[k]]) && Good(events[timers[k]], |timers|)
  {
  }

  /** The first of a common timeout queue is due before the others. */
  lemma HeadIsLeast(queues: Queues, events: seq<Event>, count: int, active: int, nPri: nat, nCommon: nat, k: nat, ev: Id)
    requires Core(queues, events, count, active, nPri, nCommon) && k < nCommon
    requires ev < |events| && Is(events[ev], Common(k))
    ensures Common(k) in queues && queues[Common(k)] != []
    ensures var h := queues[Common(k)][0];
      && h < |events| && Is(events[h], Common(k))
      && forall id :: 0 <= id < |events| && Is(events[id], Common(k)) ==> events[h].deadline.usec <= events[id].deadline.usec
  {
    var q := queues[Common(k)];
    assert Holds(q, events, Common(k)) && Sorted(q, events);
    assert ev in q && q[0] in q;
    forall id | 0 <= id < |events| && Is(events[id], Common(k))
      ensures events[q[0]].deadline.usec <= events[id].deadline.usec
    {
      var i :| 0 <= i < |q| && q[i] == id;
      assert i > 0 ==> events[q[0]].deadline.usec <= events[q[i]].deadline.usec;
    }
  }

  lemma AloneSound(events: seq<Event>, timers: seq<Id>, pending: Option<nat>, ev: Id, tv: Tv, absolute: bool, now: int)
    requires Sound(events, timers, pending) && ev < |events| && ev !in timers
    requires Settable(events[ev], tv, absolute, |timers|) && tv.tag == None
    ensures Sound(events[ev := Retimed(events[ev], tv, absolute, now)], timers, pending)
  {
    assert Good(events[ev], |timers|);
  }

  lemma LaterSound(events: seq<Event>, timers: seq<Id>, pending: Option<nat>, ev: Id, tv: Tv, absolute: bool, now: int,
                   k: nat, head: Id)
    requires Sound(events, timers, pending) && ev < |events| && ev !in timers
    requires Settable(events[ev], tv, absolute, |timers|) && tv.tag == Some(k)
    requires var e := Retimed(events[ev], tv, absolute, now);
      head < |events| && head != ev && Is(events[head], Common(k)) && events[head].deadline.usec <= e.deadline.usec
    ensures Sound(events[ev := Retimed(events[ev], tv, absolute, now)], timers, pending)
  {
    assert Good(events[ev], |timers|);
    assert Awake(events[timers[k]], events[head].deadline.usec, pending == Some(k));
  }

  lemma FirstSound(events: seq<Event>, timers: seq<Id>, pending: Option<nat>, ev: Id, tv: Tv, absolute: bool, now: int, k: nat)
    requires Sound(events, timers, pending) && ev < |events| && ev !in timers
    requires Settable(events[ev], tv, absolute, |timers|) && tv.tag == Some(k) && timers[k] < |events|
    requires var e := Retimed(events[ev], tv, absolute, now);
      forall id :: 0 <= id < |events| && id != ev && Is(events[id], Common(k)) ==> e.deadline.usec <= events[id].deadline.usec
    ensures var e := Retimed(events[ev], tv, absolute, now);
      Sound(events[ev := e][timers[k] := Retimed(events[timers[k]], Tv(e.deadline.usec, None), true, now)], timers, pending)
  {
    assert Good(events[ev], |timers|) && Good(events[timers[k]], |timers|);
  }

  lemma PriQueue(queues: Queues, events: seq<Event>, count: int, active: int, nPri: nat, nCommon: nat, ev: Id)
    requires Core(queues, events, count, active, nPri, nCommon) && ev < |events|
    ensures events[ev].pri < nPri && Active(events[ev].pri) in queues
  {
  }

  lemma ListJoins(e: Event)
    ensures !e.listed ==> Joins(e, e.(listed := true), Listed(e.src))
    ensures e.listed ==> Joins(e.(listed := false), e, Listed(e.src))
    ensures SameBody(e, e.(listed := true)) && SameBody(e, e.(listed := false))
    ensures Weight(e.(listed := true)) == Weight(e.(listed := false)) == Weight(e)
  {
  }

  lemma KnownQueues(queues: Queues, events: seq<Event>, count: int, active: int, nPri: nat, nCommon: nat, ev: Id)
    requires Core(queues, events, count, active, nPri, nCommon) && ev < |events|
    ensures Inserted in queues && Heap in queues && Active(events[ev].pri) in queues && events[ev].pri < nPri
    ensures events[ev].src != NoSource ==> Listed(events[ev].src) in queues
    ensures forall k: nat :: Common(k) in queues <==> k < nCommon
    ensures forall p: nat :: Active(p) in queues <==> p < nPri
  {
  }

  lemma SortedQueue(queues: Queues, events: seq<Event>, count: int, active: int, nPri: nat, nCommon: nat, q: Queue)
    requires Core(queues, events, count, active, nPri, nCommon) && q in queues && q.Common?
    ensures Sorted(queues[q], events)
  {
  }

  lemma UniqueQueues(queues: Queues, events: seq<Event>, count: int, active: int, nPri: nat, nCommon: nat)
    requires Core(queues, events, count, active, nPri, nCommon)
    ensures forall q :: q in queues ==> Unique(queues[q])
  {
    forall q | q in queues
      ensures Unique(queues[q])
    {
      assert Holds(queues[q], events, q);
    }
  }

  /** An event with no flag set is on no queue. */
  lemma NowhereElse(queues: Queues, events: seq<Event>, count: int, active: int, nPri: nat, nCommon: nat, ev: Id)
    requires Core(queues, events, count, active, nPri, nCommon) && ev < |events| && forall q :: !Is(events[ev], q)
    ensures forall q :: q in queues ==> ev !in queues[q]
  {
    forall q | q in queues
      ensures ev !in queues[q]
    {
      assert Holds(queues[q], events, q);
    }
  }

  lemma NotThere(queues: Queues, events: seq<Event>, count: int, active: int, nPri: nat, nCommon: nat, ev: Id, q: Queue)
    requires Core(queues, events, count, active, nPri, nCommon) && q in queues && ev < |events| && !Is(events[ev], q)
    ensures ev !in queues[q] && (forall id :: id in queues[q] ==> id < |events|) && Holds(queues[q], events, q)
  {
    assert Holds(queues[q], events, q);
  }

  lemma PutLast(s: seq<Id>, id: Id)
    ensures Put(s, |s|, id) == s + [id]
  {
  }

  lemma FlagQueue(queues: Queues, events: seq<Event>, count: int, active: int, nPri: nat, nCommon: nat,
                  ev: Id, q: Queue, e: Event)
    requires Core(queues, events, count, active, nPri, nCommon) && ev < |events| && Joins(e, events[ev], q)
    ensures q in queues
  {
    assert Is(events[ev], q);
  }
}
