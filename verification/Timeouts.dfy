/** Timeouts: which events become active at a given time. */
module Timeouts {
  import opened Prelude
  import opened EventQueues
  import opened Scheduler

  predicate Due(e: Event, now: int) {
    e.timeout && e.deadline.usec <= now
  }

  /** The events with a timeout pending. */
  ghost function Waiting(events: seq<Event>): set<Id> {
    set id | 0 <= id < |events| && events[id].timeout
  }

  ghost predicate TopOf(events: seq<Event>, top: Option<Id>) {
    match top
    case None => forall id :: 0 <= id < |events| ==> !Is(events[id], Heap)
    case Some(t) =>
      && t < |events| && Is(events[t], Heap)
      && forall id :: 0 <= id < |events| && Is(events[id], Heap) ==>
        events[t].deadline.usec <= events[id].deadline.usec
  }

  /** min_heap_top: an event with the least deadline in the heap */
  method HeapTop(base: EventBase) returns (top: Option<Id>)
    requires base.Queued()
    ensures TopOf(base.events, top)
  {
    hide Core;
    QueueIds(base, Heap);
    var heap, events := base.queues[Heap], base.events;
    if heap == [] { return None; }
    var best := heap[0];
    for i := 1 to |heap|
      invariant best in heap
      invariant forall j :: 0 <= j < i ==> events[best].deadline.usec <= events[heap[j]].deadline.usec
    {
      if events[heap[i]].deadline.usec < events[best].deadline.usec {
        best := heap[i];
      }
    }
    assert forall id :: id in heap ==> events[best].deadline.usec <= events[id].deadline.usec;
    return Some(best);
  }

  /** What a timeout that fires leaves of an event: it is on the queue of its priority
      and on no other, active because of the timeout alone. */
  ghost predicate JustFired(was: Event, now: Event) {
    && (forall q :: Is(now, q) <==> q == Active(was.pri)) && now.res == {Timeout}
    && now.src == was.src && now.persist == was.persist && now.internal == was.internal && now.pri == was.pri
    && now.ioTimeout == was.ioTimeout && now.deadline == was.deadline
  }

  lemma FiredMeans(e: Event)
    ensures JustFired(e, Fired(e))
  {
  }

  /** The events that a timeout queue has due. */
  ghost function DueIn(events: seq<Event>, q: Queue, now: int): (ids: set<Id>)
    ensures forall id: Id :: id in ids <==> id < |events| && Is(events[id], q) && events[id].deadline.usec <= now
  {
    set id: Id | id < |events| && Is(events[id], q) && events[id].deadline.usec <= now
  }

  lemma KeepsOneMore(was: Queues, mid: Queues, now: Queues, ids: set<Id>, ev: Id)
    requires KeepsOthers(was, mid, ids) && KeepsOthers(mid, now, {ev}) && ev in ids
    ensures KeepsOthers(was, now, ids)
  {
    KeepsMore(mid, now, {ev}, ids);
    KeepsTwice(was, mid, now, ids);
  }

  /** A timeout fires; a timer that does is awake from then on. */
  lemma FiredSound(events: seq<Event>, timers: seq<Id>, pending: Option<nat>, ev: Id)
    requires Sound(events, timers, pending) && ev < |events|
    ensures Good(events[ev], |timers|) && Sound(events[ev := Fired(events[ev])], timers, pending)
  {
    assert Good(events[ev], |timers|);
  }

  lemma FiredWaits(events: seq<Event>, ev: Id)
    requires ev < |events| && events[ev].timeout
    ensures Waiting(events[ev := Fired(events[ev])]) == Waiting(events) - {ev} && ev in Waiting(events)
  {
  }

  /** Exactly the events that the heap has due by now have fired. */
  ghost predicate HeapFired(was: seq<Event>, events: seq<Event>, now: int) {
    && |was| == |events|
    && forall id :: 0 <= id < |was| ==>
      events[id] == if Is(was[id], Heap) && was[id].deadline.usec <= now then Fired(was[id]) else was[id]
  }

  /** timeout_process: exactly the events that the heap has due by now become active. */
  method TimeoutProcess(base: EventBase, now: int, ghost pending: Option<nat>)
    requires base.Queued() && Sound(base.events, base.timers, pending)
    modifies base`events, base`queues, base`eventCount, base`eventCountActive, base`eventContinue
    ensures base.Queued() && Sound(base.events, base.timers, pending) && |base.events| == old(|base.events|)
    ensures HeapFired(old(base.events), base.events, now)
    ensures Interrupts(old(base.eventContinue), base.eventContinue, old(base.events), base.events, base.running)
    ensures KeepsOthers(old(base.queues), base.queues, DueIn(old(base.events), Heap, now))
  {
    hide Core, Sound, Fired, KeepsOthers;
    ghost var was, due := base.events, DueIn(base.events, Heap, now);
    KeepsSame(base.queues, due);
    var top := HeapTop(base);
    while top.Some?
      invariant base.Queued() && Sound(base.events, base.timers, pending) && |base.events| == |was|
      invariant forall id :: 0 <= id < |was| ==>
        || base.events[id] == was[id]
        || (Is(was[id], Heap) && was[id].deadline.usec <= now && base.events[id] == Fired(was[id]))
      invariant TopOf(base.events, top)
      invariant Interrupts(old(base.eventContinue), base.eventContinue, was, base.events, base.running)
      invariant KeepsOthers(old(base.queues), base.queues, due)
      decreases Waiting(base.events)
    {
      var ev := top.value;
      if base.events[ev].deadline.usec > now { break; }
      FiredSound(base.events, base.timers, pending, ev);
      FiredWaits(base.events, ev);
      FiredIsDone(base.events[ev]);
      FiredIsDone(was[ev]);
      ghost var mid := base.queues;
      base.Fire(ev);
      KeepsOneMore(old(base.queues), mid, base.queues, due, ev);
      top := HeapTop(base);
    }
  }

  /** Kinds and priorities are kept.  event_continue is not reset; it is set exactly if
      a timeout fires for an event with a priority ahead of the running one. */
  ghost predicate Interrupts(before: bool, after: bool, was: seq<Event>, now: seq<Event>, running: int) {
    && |was| == |now|
    && (after <==> before || exists id :: 0 <= id < |now| && was[id].timeout && !now[id].timeout && now[id].pri < running)
    && (forall id :: 0 <= id < |now| ==> now[id].pri == was[id].pri && now[id].internal == was[id].internal)
    && (!after ==> forall id :: 0 <= id < |now| && now[id].active && now[id].pri < running ==> was[id].active)
  }

  lemma FiredIsDone(e: Event)
    ensures !Is(Fired(e), Heap) && (forall k: nat :: !Is(Fired(e), Common(k))) && !Fired(e).timeout
    ensures Fired(e).active && Fired(e).pri == e.pri && Fired(e).internal == e.internal
  {
  }

  /** The first of a common timeout queue, if there is one. */
  ghost predicate FirstOf(events: seq<Event>, k: nat, first: Option<Id>) {
    match first
    case None => forall id :: 0 <= id < |events| ==> !Is(events[id], Common(k))
    case Some(h) =>
      && h < |events| && Is(events[h], Common(k))
      && forall id :: 0 <= id < |events| && Is(events[id], Common(k)) ==>
        events[h].deadline.usec <= events[id].deadline.usec
  }

  method CommonFirst(base: EventBase, k: nat) returns (first: Option<Id>)
    requires base.Queued() && k < |base.timers|
    ensures FirstOf(base.events, k, first)
  {
    hide Core;
    QueueIds(base, Common(k));
    var q := base.queues[Common(k)];
    if q == [] { return None; }
    assert q[0] in q;
    HeadIsLeast(base.queues, base.events, base.eventCount, base.eventCountActive, base.nPri, |base.timers|, k, q[0]);
    return Some(q[0]);
  }

  /** The timer is put back for the first event that is left, or none is left. */
  lemma RescheduledSound(events: seq<Event>, timers: seq<Id>, k: nat, first: Option<Id>, now: int)
    requires Sound(events, timers, Some(k)) && k < |timers| && FirstOf(events, k, first)
    ensures timers[k] < |events|
    ensures first.None? ==> Sound(events, timers, None)
    ensures first.Some? ==>
      var t := Retimed(events[timers[k]], Tv(events[first.value].deadline.usec, None), true, now);
      Sound(events[timers[k] := t], timers, None)
  {
    assert Good(events[timers[k]], |timers|);
  }

  /** The event `h` is the first that queue `k` has left after `now`. */
  ghost predicate FirstLeft(events: seq<Event>, k: nat, now: int, h: Id) {
    && h < |events| && Is(events[h], Common(k)) && events[h].deadline.usec > now
    && forall id :: 0 <= id < |events| && Is(events[id], Common(k)) && events[id].deadline.usec > now ==>
      events[h].deadline.usec <= events[id].deadline.usec
  }

  /** The timer is set for the first event that is left, or stays as it is. */
  ghost predicate TimerSet(was: seq<Event>, events: seq<Event>, timer: Id, k: nat, now: int) {
    && timer < |was| == |events|
    && ((exists h: Id :: FirstLeft(was, k, now, h) && events[timer] == Retimed(was[timer], Tv(was[h].deadline.usec, None), true, now))
        || (events[timer] == was[timer] &&
            forall id :: 0 <= id < |was| && Is(was[id], Common(k)) ==> was[id].deadline.usec <= now))
  }

  /** Exactly the events that queue `k` has due by now have fired. */
  ghost predicate QueueFired(was: seq<Event>, events: seq<Event>, k: nat, now: int, except: Option<Id>) {
    && |was| == |events|
    && forall id :: 0 <= id < |was| && except != Some(id) ==>
      events[id] == if Is(was[id], Common(k)) && was[id].deadline.usec <= now then Fired(was[id]) else was[id]
  }

  /** The loop of common_timeout_callback. */
  method FireQueue(base: EventBase, k: nat, now: int) returns (first: Option<Id>)
    requires base.Queued() && k < |base.timers| && Sound(base.events, base.timers, Some(k))
    modifies base`events, base`queues, base`eventCount, base`eventCountActive, base`eventContinue
    ensures base.Queued() && Sound(base.events, base.timers, Some(k)) && QueueFired(old(base.events), base.events, k, now, None)
    ensures FirstOf(base.events, k, first) && (first.Some? ==> base.events[first.value].deadline.usec > now)
    ensures Interrupts(old(base.eventContinue), base.eventContinue, old(base.events), base.events, base.running)
    ensures KeepsOthers(old(base.queues), base.queues, DueIn(old(base.events), Common(k), now))
  {
    hide Core, Sound, Fired, KeepsOthers;
    ghost var was, due := base.events, DueIn(base.events, Common(k), now);
    KeepsSame(base.queues, due);
    first := CommonFirst(base, k);
    while first.Some?
      invariant base.Queued() && Sound(base.events, base.timers, Some(k)) && |base.events| == |was|
      invariant forall id :: 0 <= id < |was| ==>
        || base.events[id] == was[id]
        || (Is(was[id], Common(k)) && was[id].deadline.usec <= now && base.events[id] == Fired(was[id]))
      invariant FirstOf(base.events, k, first)
      invariant Interrupts(old(base.eventContinue), base.eventContinue, was, base.events, base.running)
      invariant KeepsOthers(old(base.queues), base.queues, due)
      decreases Waiting(base.events)
    {
      var ev := first.value;
      if base.events[ev].deadline.usec > now { break; }
      FiredSound(base.events, base.timers, Some(k), ev);
      FiredWaits(base.events, ev);
      FiredIsDone(base.events[ev]);
      FiredIsDone(was[ev]);
      ghost var mid := base.queues;
      base.Fire(ev);
      KeepsOneMore(old(base.queues), mid, base.queues, due, ev);
      first := CommonFirst(base, k);
    }
  }

  lemma SetTimer(was: seq<Event>, mid: seq<Event>, timer: Id, k: nat, now: int, first: Option<Id>)
    requires QueueFired(was, mid, k, now, None) && timer < |was| && !Is(was[timer], Common(k))
    requires FirstOf(mid, k, first) && (first.Some? ==> mid[first.value].deadline.usec > now)
    ensures first.None? ==> TimerSet(was, mid, timer, k, now)
    ensures first.Some? ==>
      TimerSet(was, mid[timer := Retimed(mid[timer], Tv(mid[first.value].deadline.usec, None), true, now)], timer, k, now)
  {
    hide Fired, Retimed;
    forall id | 0 <= id < |was|
      ensures Is(mid[id], Common(k)) <==> Is(was[id], Common(k)) && was[id].deadline.usec > now
      ensures Is(mid[id], Common(k)) ==> mid[id] == was[id]
    {
      FiredIsDone(was[id]);
    }
    if first.Some? {
      assert FirstLeft(was, k, now, first.value);
    }
  }

  /** common_timeout_callback: exactly the events that queue `k` has due by now
      become active, and the timer is set for the first one that is left. */
  method CommonTimeoutCallback(base: EventBase, k: nat, now: int)
    requires base.Queued() && k < |base.timers| && Sound(base.events, base.timers, Some(k))
    modifies base`events, base`queues, base`eventCount, base`eventCountActive, base`eventContinue
    ensures base.Queued() && Sound(base.events, base.timers, None)
    ensures QueueFired(old(base.events), base.events, k, now, Some(base.timers[k]))
    ensures TimerSet(old(base.events), base.events, base.timers[k], k, now)
    ensures Interrupts(old(base.eventContinue), base.eventContinue, old(base.events), base.events, base.running)
    ensures KeepsOthers(old(base.queues), base.queues, DueIn(old(base.events), Common(k), now) + {base.timers[k]})
  {
    hide Core, Sound, Fired, Retimed, TimerSet, KeepsOthers;
    ghost var due := DueIn(base.events, Common(k), now);
    ghost var was := base.events;
    NoTimerWaits(was, base.timers, Some(k), k);
    var first := FireQueue(base, k, now);
    KeepsMore(old(base.queues), base.queues, due, due + {base.timers[k]});
    SetTimer(was, base.events, base.timers[k], k, now, first);
    RescheduledSound(base.events, base.timers, k, first, now);
    if first.Some? {
      ghost var mid := base.events;
      var tv := Tv(base.events[first.value].deadline.usec, None);
      RetimedActive(base.events[base.timers[k]], tv, now);
      ghost var before := base.queues;
      base.AddTimeout(base.timers[k], tv, true, now);
      KeepsOneMore(old(base.queues), before, base.queues, due + {base.timers[k]}, base.timers[k]);
      StillInterrupts(old(base.eventContinue), base.eventContinue, was, mid, base.events, base.running, base.timers[k]);
    }
  }

  /** Setting a timer is no interruption. */
  lemma StillInterrupts(before: bool, after: bool, was: seq<Event>, mid: seq<Event>, now: seq<Event>, running: int, t: Id)
    requires Interrupts(before, after, was, mid, running) && t < |mid| == |now| && mid[t] == was[t] && now[t].timeout
    requires now == mid[t := now[t]] && now[t].pri == mid[t].pri && now[t].internal == mid[t].internal
    requires now[t].active ==> mid[t].active
    ensures Interrupts(before, after, was, now, running)
  {
    if after && !before {
      var id :| 0 <= id < |mid| && was[id].timeout && !mid[id].timeout && mid[id].pri < running;
      assert now[id] == mid[id];
    }
  }

  lemma NoTimerWaits(events: seq<Event>, timers: seq<Id>, pending: Option<nat>, k: nat)
    requires Sound(events, timers, pending) && k < |timers|
    ensures timers[k] < |events| && forall j: nat :: !Is(events[timers[k]], Common(j))
  {
  }

  lemma RetimedActive(e: Event, tv: Tv, now: int)
    ensures var r := Retimed(e, tv, true, now); r.timeout && (r.active ==> e.active) && r.pri == e.pri && r.internal == e.internal
  {
  }

  /** The timer leaves its queue and its callback is about to run. */
  lemma DequeuedSound(events: seq<Event>, timers: seq<Id>, k: nat)
    requires Sound(events, timers, None) && k < |timers|
    ensures timers[k] < |events| && Good(events[timers[k]], |timers|)
    ensures Sound(events[timers[k] := Deleted(events[timers[k]])], timers, Some(k))
  {
    assert Good(events[timers[k]], |timers|);
  }

  /** The heap and the first `n` common queues have been looked through. */
  predicate Handled(e: Event, now: int, n: nat) {
    Due(e, now) && (e.deadline.tag.Some? ==> e.deadline.tag.value < n)
  }

  ghost predicate AllHandled(was: seq<Event>, events: seq<Event>, timers: seq<Id>, now: int, n: nat) {
    && |was| == |events|
    && forall id :: 0 <= id < |was| && id !in timers ==>
      events[id] == if Handled(was[id], now, n) then Fired(was[id]) else was[id]
  }

  /** The timers from `n` on are not due; active ones have their callback to come. */
  ghost predicate NoTimerDue(events: seq<Event>, timers: seq<Id>, now: int, n: nat) {
    forall j :: n <= j < |timers| ==> timers[j] < |events| && !Due(events[timers[j]], now)
  }

  /** A queue whose timer sleeps has nothing due. */
  lemma NothingMissed(was: seq<Event>, events: seq<Event>, timers: seq<Id>, now: int, k: nat)
    requires Sound(events, timers, None) && AllHandled(was, events, timers, now, k) && NoTimerDue(events, timers, now, k)
    requires k < |timers| && !events[timers[k]].active
    ensures AllHandled(was, events, timers, now, k + 1)
  {
    hide Fired;
    forall id | 0 <= id < |was| && id !in timers && Handled(was[id], now, k + 1)
      ensures Handled(was[id], now, k)
    {
      assert Is(events[id], Common(k)) ==> Awake(events[timers[k]], events[id].deadline.usec, false);
    }
  }

  lemma OneHandled(was: seq<Event>, mid: seq<Event>, events: seq<Event>, timers: seq<Id>, now: int, k: nat)
    requires HaveTimers(mid, timers) && AllHandled(was, mid, timers, now, k) && k < |timers|
    requires NoTimerDue(mid, timers, now, k)
    requires |mid| == |events| && forall id :: 0 <= id < |mid| && id != timers[k] ==>
      events[id] == if Is(mid[id], Common(k)) && mid[id].deadline.usec <= now then Fired(mid[id]) else mid[id]
    ensures AllHandled(was, events, timers, now, k + 1) && NoTimerDue(events, timers, now, k + 1)
  {
    forall id | 0 <= id < |was| && id !in timers
      ensures events[id] == if Handled(was[id], now, k + 1) then Fired(was[id]) else was[id]
    {
      FiredIsDone(was[id]);
    }
  }

  lemma HeapHandled(was: seq<Event>, events: seq<Event>, timers: seq<Id>, now: int)
    requires HaveTimers(was, timers) && HeapFired(was, events, now)
    ensures AllHandled(was, events, timers, now, 0) && NoTimerDue(events, timers, now, 0)
  {
  }

  /** timeout_process and the callbacks of the timers that are active then: exactly
      the events with a deadline that has come, in the heap or in any common queue,
      become active, and no other event changes. */
  method ProcessDue(base: EventBase, now: int)
    requires base.Queued() && Sound(base.events, base.timers, None)
    modifies base`events, base`queues, base`eventCount, base`eventCountActive, base`eventContinue
    ensures base.Queued() && Sound(base.events, base.timers, None) && |base.events| == old(|base.events|)
    ensures forall id :: 0 <= id < |base.events| && id !in base.timers ==>
      base.events[id] == var e := old(base.events)[id]; if Due(e, now) then Fired(e) else e
    ensures forall id :: 0 <= id < |base.events| && id !in base.timers ==>
      var e := old(base.events)[id];
      if e.timeout && e.deadline.usec <= now then JustFired(e, base.events[id]) else base.events[id] == e
  {
    hide Core, Sound, JustFired, AllHandled, NoTimerDue, Good, Deleted, Fired;
    ghost var was := base.events;
    TimersThere(was, base.timers, None);
    TimeoutProcess(base, now, None);
    HeapHandled(was, base.events, base.timers, now);
    for k := 0 to |base.timers|
      invariant base.Queued() && Sound(base.events, base.timers, None)
      invariant AllHandled(was, base.events, base.timers, now, k) && NoTimerDue(base.events, base.timers, now, k)
    {
      TimersThere(base.events, base.timers, None);
      if base.events[base.timers[k]].active {
        ghost var mid := base.events;
        DequeuedSound(base.events, base.timers, k);
        base.EventDel(base.timers[k]);
        CommonTimeoutCallback(base, k, now);
        OneHandled(was, mid, base.events, base.timers, now, k);
      } else {
        NothingMissed(was, base.events, base.timers, now, k);
        FewerTimers(base.events, base.timers, now, k);
      }
    }
    EverythingHandled(was, base.events, base.timers, now);
    forall id | 0 <= id < |was|
      ensures JustFired(was[id], Fired(was[id]))
    {
      FiredMeans(was[id]);
    }
  }

  /** A timeout that is added relative to `now` makes its event active from time
      now + tv on, and not before; until then it is pending. */
  method AddThenWait(base: EventBase, ev: Id, tv: Tv, now: int, addOk: bool, later: int) returns (res: int)
    requires base.Queued() && Sound(base.events, base.timers, None) && ev < |base.events| && ev !in base.timers
    requires tv.tag.Some? ==> tv.tag.value < |base.timers|
    modifies base`events, base`queues, base`eventCount, base`eventCountActive, base`eventContinue
    ensures base.Queued() && Sound(base.events, base.timers, None) && |base.events| == old(|base.events|)
    ensures res == 0 ==> (base.events[ev].active && Timeout in base.events[ev].res <==> later >= now + tv.usec)
    ensures res == 0 ==> (base.events[ev].timeout <==> later < now + tv.usec)
  {
    hide Core, Sound, Fired, AddedTo, KeepsOthers;
    res := base.EventAdd(ev, Some(tv), false, now, addOk, None);
    ProcessDue(base, later);
    var e := base.events[ev];
    if res == 0 && later >= now + tv.usec {
      assert Is(e, Active(e.pri)) && !Is(e, Heap) && (tv.tag.Some? ==> !Is(e, Common(tv.tag.value)));
    }
  }

  lemma TimersThere(events: seq<Event>, timers: seq<Id>, pending: Option<nat>)
    requires Sound(events, timers, pending)
    ensures HaveTimers(events, timers) && AllGood(events, |timers|)
  {
  }

  lemma FewerTimers(events: seq<Event>, timers: seq<Id>, now: int, k: nat)
    requires NoTimerDue(events, timers, now, k)
    ensures NoTimerDue(events, timers, now, k + 1)
  {
  }

  lemma EverythingHandled(was: seq<Event>, events: seq<Event>, timers: seq<Id>, now: int)
    requires AllHandled(was, events, timers, now, |timers|) && AllGood(was, |timers|)
    ensures |was| == |events|
    ensures forall id :: 0 <= id < |was| && id !in timers ==>
      events[id] == if Due(was[id], now) then Fired(was[id]) else was[id]
  {
    assert forall id :: 0 <= id < |was| ==> Good(was[id], |timers|);
  }

  // ----- a clock that was set back -----

  function Earlier(e: Event, off: int): Event {
    e.(deadline := Tv(e.deadline.usec - off, e.deadline.tag))
  }

  /** The loops of timeout_correct over one queue. */
  method ShiftQueue(events: seq<Event>, ids: seq<Id>, off: int) returns (after: seq<Event>)
    requires Unique(ids) && forall i :: 0 <= i < |ids| ==> ids[i] < |events|
    ensures |after| == |events|
    ensures forall id :: 0 <= id < |events| ==> after[id] == if id in ids then Earlier(events[id], off) else events[id]
  {
    after := events;
    for i := 0 to |ids|
      invariant |after| == |events|
      invariant forall id :: 0 <= id < |events| ==>
        after[id] == if id in ids[..i] then Earlier(events[id], off) else events[id]
    {
      assert ids[i] !in ids[..i];
      after := after[ids[i] := Earlier(after[ids[i]], off)];
      assert ids[..i + 1] == ids[..i] + [ids[i]];
    }
    assert ids[..|ids|] == ids;
  }

  /** The heap and the first `n` common queues have been shifted. */
  ghost predicate Shifted(was: seq<Event>, events: seq<Event>, off: int, n: nat) {
    && |was| == |events|
    && forall id :: 0 <= id < |was| ==>
      var e := was[id];
      events[id] ==
        if e.timeout && (e.deadline.tag.Some? ==> e.deadline.tag.value < n) then Earlier(e, off) else e
  }

  lemma ShiftedNext(was: seq<Event>, mid: seq<Event>, events: seq<Event>, ids: seq<Id>, off: int, k: nat)
    requires Shifted(was, mid, off, k) && Holds(ids, was, Common(k)) && |events| == |mid|
    requires forall id :: 0 <= id < |mid| ==> events[id] == if id in ids then Earlier(mid[id], off) else mid[id]
    ensures Shifted(was, events, off, k + 1)
  {
  }

  lemma ShiftedFirst(was: seq<Event>, events: seq<Event>, ids: seq<Id>, off: int)
    requires Holds(ids, was, Heap) && |events| == |was|
    requires forall id :: 0 <= id < |was| ==> events[id] == if id in ids then Earlier(was[id], off) else was[id]
    ensures Shifted(was, events, off, 0)
  {
  }

  /** Shifting every deadline keeps all that holds of the queues. */
  lemma ShiftedCore(queues: Queues, was: seq<Event>, events: seq<Event>, count: int, active: int,
                    nPri: nat, nCommon: nat, off: int)
    requires Core(queues, was, count, active, nPri, nCommon) && AllGood(was, nCommon) && Shifted(was, events, off, nCommon)
    ensures Core(queues, events, count, active, nPri, nCommon)
  {
    assert forall id :: 0 <= id < |was| ==> Good(was[id], nCommon);
    assert AllShifted(was, events, off);
    hide Shifted, Good;
    SameMemberships(was, events, off);
    hide Holds, Sorted, AllShifted, Is;
    forall q | q in queues
      ensures Holds(queues[q], events, q) && (q.Common? ==> Sorted(queues[q], events))
    {
      ShiftedQueue(queues[q], was, events, q, off);
    }
    ShiftedShape(queues, was, events, nPri, nCommon, off);
  }

  lemma ShiftedQueue(s: seq<Id>, was: seq<Event>, events: seq<Event>, q: Queue, off: int)
    requires Holds(s, was, q) && AllShifted(was, events, off) && (q.Common? ==> Sorted(s, was))
    ensures Holds(s, events, q) && (q.Common? ==> Sorted(s, events))
  {
    assert forall i :: 0 <= i < |s| ==> s[i] in s;
  }

  lemma ShiftedShape(queues: Queues, was: seq<Event>, events: seq<Event>, nPri: nat, nCommon: nat, off: int)
    requires Shaped(queues, was, nPri, nCommon) && AllShifted(was, events, off)
    requires forall id, q :: 0 <= id < |was| && Is(was[id], q) ==> q in queues
    ensures Shaped(queues, events, nPri, nCommon)
    ensures forall id, q :: 0 <= id < |events| && Is(events[id], q) ==> q in queues
  {
    forall id, q | 0 <= id < |events| && Is(events[id], q)
      ensures q in queues
    {
      assert Is(was[id], q);
    }
  }

  ghost predicate AllShifted(was: seq<Event>, events: seq<Event>, off: int) {
    |was| == |events| && forall id :: 0 <= id < |was| ==> events[id] == if was[id].timeout then Earlier(was[id], off) else was[id]
  }

  lemma {:induction false} SameMemberships(was: seq<Event>, events: seq<Event>, off: int)
    requires AllShifted(was, events, off)
    ensures Memberships(events) == Memberships(was)
  {
    if was != [] {
      SameMemberships(was[..|was| - 1], events[..|was| - 1], off);
    }
  }

  lemma ShiftedSound(was: seq<Event>, events: seq<Event>, timers: seq<Id>, pending: Option<nat>, off: int)
    requires Sound(was, timers, pending) && Shifted(was, events, off, |timers|)
    ensures Sound(events, timers, pending) && AllShifted(was, events, off)
  {
    assert forall id :: 0 <= id < |was| ==> Good(was[id], |timers|);
    forall k, id | 0 <= k < |timers| && 0 <= id < |events| && Is(events[id], Common(k))
      ensures Awake(events[timers[k]], events[id].deadline.usec, pending == Some(k))
    {
      assert Is(was[id], Common(k)) && Awake(was[timers[k]], was[id].deadline.usec, pending == Some(k));
    }
  }

  /** timeout_correct: when time ran backwards every deadline moves back with it. */
  method TimeoutCorrect(base: EventBase, now: int, monotonic: bool, ghost pending: Option<nat>)
    requires base.Queued() && Sound(base.events, base.timers, pending)
    modifies base`events, base`eventTv
    ensures base.Queued() && Sound(base.events, base.timers, pending)
    ensures AllShifted(old(base.events), base.events,
                       if monotonic || now >= old(base.eventTv) then 0 else old(base.eventTv) - now)
    ensures !monotonic && now < old(base.eventTv) ==> TimeLeftKept(old(base.events), base.events, old(base.eventTv), now)
    ensures base.eventTv == if monotonic then old(base.eventTv) else now
  {
    hide Core, Sound, Shifted, Holds, Unique;
    if monotonic || now >= base.eventTv {
      ShiftedNone(base.events);
      if !monotonic { base.eventTv := now; }
      return;
    }
    var off := base.eventTv - now;
    QueueIds(base, Heap);
    var events := ShiftQueue(base.events, base.queues[Heap], off);
    ShiftedFirst(base.events, events, base.queues[Heap], off);
    for i := 0 to |base.timers|
      invariant |events| == |base.events| && Shifted(base.events, events, off, i)
      modifies {}
    {
      QueueIds(base, Common(i));
      ghost var mid := events;
      events := ShiftQueue(events, base.queues[Common(i)], off);
      ShiftedNext(base.events, mid, events, base.queues[Common(i)], off, i);
    }
    TimersThere(base.events, base.timers, pending);
    ShiftedCore(base.queues, base.events, events, base.eventCount, base.eventCountActive, base.nPri, |base.timers|, off);
    ShiftedSound(base.events, events, base.timers, pending, off);
    LeftKept(base.events, events, base.eventTv, now);
    base.events := events;
    base.eventTv := now;
  }

  lemma LeftKept(was: seq<Event>, events: seq<Event>, before: int, now: int)
    requires AllShifted(was, events, before - now)
    ensures TimeLeftKept(was, events, before, now)
  {
  }

  /** Every pending timeout is as far away as it was before the clock was set. */
  ghost predicate TimeLeftKept(was: seq<Event>, events: seq<Event>, before: int, now: int) {
    && |was| == |events|
    && forall id :: 0 <= id < |was| && was[id].timeout ==>
      && events[id].timeout && events[id].deadline.usec - now == was[id].deadline.usec - before
      && events[id].deadline.tag == was[id].deadline.tag
  }

  lemma ShiftedNone(events: seq<Event>)
    ensures AllShifted(events, events, 0)
  {
    assert forall e: Event :: Tv(e.deadline.usec, e.deadline.tag) == e.deadline;
  }

  lemma QueueIds(base: EventBase, q: Queue)
    requires base.Queued() && (q == Heap || (q.Common? && q.idx < |base.timers|))
    ensures q in base.queues && Unique(base.queues[q]) && Holds(base.queues[q], base.events, q)
    ensures forall i :: 0 <= i < |base.queues[q]| ==> base.queues[q][i] < |base.events|
  {
    assert q in base.queues;
    assert Holds(base.queues[q], base.events, q);
    assert forall i :: 0 <= i < |base.queues[q]| ==> base.queues[q][i] in base.queues[q];
  }
}
