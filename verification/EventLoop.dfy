/** Running active events by priority, while callbacks and other threads add,
    delete and activate events. */
module EventLoop {
  import opened Prelude
  import opened EventQueues
  import opened Scheduler
  import opened Timeouts

  /** No event is active with a priority ahead of `i`. */
  ghost predicate Clear(events: seq<Event>, i: int) {
    forall id :: 0 <= id < |events| && events[id].active ==> events[id].pri >= i
  }

  function Pending(phase: Phase): Option<nat> {
    if phase.InQueue? then phase.pending else None
  }

  /** event_running_priority says where processing is, and an event that came in
      ahead of it has set event_continue. */
  ghost predicate Ordered(phase: Phase, running: int, interrupted: bool, events: seq<Event>, nPri: nat, nCommon: nat) {
    match phase
    case Idle => running == -1
    case InQueue(i, _, pending) =>
      && running == i && i < nPri && (interrupted || Clear(events, i))
      && (pending.Some? ==> pending.value < nCommon)
  }

  ghost predicate Valid(base: EventBase)
    reads base
  {
    && base.Queued() && Sound(base.events, base.timers, Pending(base.phase))
    && Ordered(base.phase, base.running, base.eventContinue, base.events, base.nPri, |base.timers|)
  }

  /** The fields of an event base at one moment. */
  datatype Snap = Snap(
    events: seq<Event>,
    queues: Queues,
    eventCount: int,
    eventCountActive: int,
    running: int,
    eventContinue: bool,
    eventBreak: bool,
    eventTv: int,
    phase: Phase)

  function Shot(base: EventBase): Snap
    reads base
  {
    Snap(base.events, base.queues, base.eventCount, base.eventCountActive, base.running,
         base.eventContinue, base.eventBreak, base.eventTv, base.phase)
  }

  /** Nothing but events, their queues and the counters has changed. */
  predicate OnlyEvents(was: Snap, now: Snap) {
    && now.running == was.running && now.eventContinue == was.eventContinue
    && now.eventBreak == was.eventBreak && now.eventTv == was.eventTv && now.phase == was.phase
  }

  /** event_process_active goes on to a later queue although it was interrupted. */
  ghost predicate Skips(phase: Phase, interrupted: bool, events: seq<Event>) {
    phase.InQueue? && phase.count == 0 && interrupted && !Clear(events, phase.i + 1)
  }

  lemma QuietSound(events: seq<Event>, timers: seq<Id>, pending: Option<nat>, ev: Id)
    requires Sound(events, timers, pending) && ev < |events| && ev !in timers
    ensures Good(events[ev], |timers|) && Sound(events[ev := events[ev].(active := false)], timers, pending)
    ensures Sound(events[ev := Deleted(events[ev])], timers, pending)
  {
    assert Good(events[ev], |timers|);
  }

  /** When a recurring timeout is to run next, as event_persist_closure has it. */
  function RunAt(e: Event, now: int): Tv {
    var from := if Timeout in e.res then e.deadline.usec else now;
    var at := from + e.ioTimeout.usec;
    Tv(if at < now then now + e.ioTimeout.usec else at, e.deadline.tag)
  }

  method TimerIndex(base: EventBase, ev: Id) returns (k: Option<nat>)
    ensures k.None? ==> ev !in base.timers
    ensures k.Some? ==> k.value < |base.timers| && base.timers[k.value] == ev
  {
    for i := 0 to |base.timers|
      invariant forall j :: 0 <= j < i ==> base.timers[j] != ev
    {
      if base.timers[i] == ev { return Some(i); }
    }
    return None;
  }

  /** Where processing stands when the callback of `ev` is about to run. */
  ghost predicate Calling(phase: Phase, e: Event, ev: Id, i: nat, count: nat, timers: seq<Id>) {
    && phase.InQueue? && phase.i == i && phase.count == count + (if e.internal then 0 else 1)
    && (if phase.pending.None? then ev !in timers
        else phase.pending.value < |timers| && timers[phase.pending.value] == ev)
  }

  /** An event that leaves its active queue: one that does not persist is deleted. */
  function Taken(e: Event): Event {
    if e.persist then e.(active := false) else Deleted(e)
  }

  /** The events after event_persist_closure, up to the callback: a timeout that
      recurs is set again, relative to when it was due or to now. */
  ghost function Recurred(events: seq<Event>, timers: seq<Id>, ev: Id, now: int, addOk: bool): seq<Event>
    requires ev < |events|
  {
    var e := events[ev];
    if Recurs(e) && HasDelay(e) && (Registers(e) ==> addOk) then AddedTo(events, timers, ev, Some(RunAt(e, now)), true, now)
    else events
  }

  /** The events when the callback of `ev` is about to run. */
  ghost function Called(events: seq<Event>, timers: seq<Id>, ev: Id, now: int, addOk: bool): seq<Event>
    requires ev < |events|
  {
    Recurred(events[ev := Taken(events[ev])], timers, ev, now, addOk)
  }

  /** One round of the loop in event_process_active_single_queue, up to where the
      lock is given up for the callback. */
  method Dequeue(base: EventBase, i: nat, count: nat, now: int, addOk: bool) returns (ev: Id)
    requires base.Queued() && Sound(base.events, base.timers, None) && (base.eventContinue || Clear(base.events, i))
    requires i < base.nPri && Active(i) in base.queues && base.queues[Active(i)] != [] && base.running == i
    modifies base`events, base`queues, base`eventCount, base`eventCountActive, base`phase
    ensures Valid(base) && ev == old(base.queues[Active(i)][0]) && ev < |old(base.events)| && Is(old(base.events)[ev], Active(i))
    ensures Calling(base.phase, old(base.events)[ev], ev, i, count, base.timers)
    ensures base.events == Called(old(base.events), base.timers, ev, now, addOk) && Quieter(old(base.events), base.events)
    ensures OffQueue(old(base.events)[ev], base.events[ev], now, addOk)
    ensures KeepsOthers(old(base.queues), base.queues, {ev} + TimerIds(base.timers))
  {
    hide Core, Sound, Good, Deleted, Retimed, TakenOut, AddedTo, RunAt, Recurred, KeepsOthers, SetAgain, OffAll;
    ev := base.queues[Active(i)][0];
    FirstActive(base, i);
    var e := base.events[ev];
    var k := TimerIndex(base, ev);
    if k.Some? {
      DequeuedSound(base.events, base.timers, k.value);
      TimersThere(base.events, base.timers, None);
    } else {
      QuietSound(base.events, base.timers, None, ev);
    }
    DeletedQuieter(e);
    if e.persist {
      base.QueueRemove(ev, ACTIVE);
    } else {
      base.EventDel(ev);
    }
    assert base.events[ev] == Taken(e);
    ghost var mid := base.queues;
    KeepsMore(old(base.queues), mid, {ev}, {ev} + TimerIds(base.timers));
    Recur(base, ev, now, addOk, k);
    KeepsTwice(old(base.queues), mid, base.queues, {ev} + TimerIds(base.timers));
    TakenMeans(e, base.events[ev], now, addOk);
    base.phase := InQueue(i, count + (if e.internal then 0 else 1), k);
  }

  /** An event whose callback is to run: off every queue, unless it persists; then off
      the active queue, and set again if it recurs. */
  ghost predicate OffQueue(was: Event, now: Event, clock: int, addOk: bool) {
    && now.src == was.src && now.persist == was.persist && now.internal == was.internal && now.pri == was.pri
    && now.res == was.res && !now.active
    && if was.persist then SetAgain(was.(active := false), now, clock, addOk)
       else (forall q :: !Is(now, q)) && now.deadline == was.deadline && now.ioTimeout == was.ioTimeout
  }

  lemma TakenMeans(was: Event, now: Event, clock: int, addOk: bool)
    requires SetAgain(Taken(was), now, clock, addOk)
    ensures OffQueue(was, now, clock, addOk)
  {
  }

  lemma FirstActive(base: EventBase, i: nat)
    requires base.Queued() && Active(i) in base.queues && base.queues[Active(i)] != []
    ensures var ev := base.queues[Active(i)][0]; ev < |base.events| && Is(base.events[ev], Active(i))
  {
    assert Holds(base.queues[Active(i)], base.events, Active(i));
    assert base.queues[Active(i)][0] in base.queues[Active(i)];
  }

  lemma DeletedQuieter(e: Event)
    ensures !Deleted(e).active && Deleted(e).pri == e.pri && Deleted(e).internal == e.internal
    ensures Deleted(e).persist == e.persist
  {
  }

  /** A timeout that recurs is due one period after it was last due, if that was what
      made it run and the time has not passed yet, and one period from now otherwise.
      Other events stay as they are, and so does one that evmap cannot register. */
  predicate SetAgain(was: Event, now: Event, clock: int, addOk: bool) {
    if was.persist && !was.src.Signal? && was.ioTimeout != Tv(0, None) && (was.src == NoSource || was.inserted || was.active || addOk)
    then
      var next := was.deadline.usec + was.ioTimeout.usec;
      && now.timeout
      && now.deadline == Tv(if Timeout in was.res && next >= clock then next else clock + was.ioTimeout.usec, was.deadline.tag)
      && now.ioTimeout == was.ioTimeout && IsListed(was, now) && (now.active <==> was.active && Timeout !in was.res)
    else now == was
  }

  lemma RecurredMeans(events: seq<Event>, timers: seq<Id>, ev: Id, now: int, addOk: bool)
    requires ev < |events| && (Recurs(events[ev]) ==> ev !in timers && HaveTimers(events, timers))
    requires Recurs(events[ev]) && HasDelay(events[ev]) ==> Good(events[ev], |timers|)
    ensures var after := Recurred(events, timers, ev, now, addOk);
      |after| == |events| && SetAgain(events[ev], after[ev], now, addOk)
  {
    hide AddedTo, TimerFollows;
    var e := events[ev];
    if Recurs(e) && HasDelay(e) {
      AddedMeans(events, timers, ev, Some(RunAt(e, now)), true, now);
    }
  }

  /** A timeout that runs before it is due again does not drift: after `n` periods it
      is due exactly that much later. */
  lemma {:induction false} NoDrift(e: Event, clocks: seq<int>, n: nat)
    requires n <= |clocks| && e.ioTimeout.usec >= 0
    requires forall i :: 0 <= i < |clocks| ==> clocks[i] <= e.deadline.usec + (i + 1) * e.ioTimeout.usec
    ensures DueAfter(e, clocks[..n]) == e.deadline.usec + n * e.ioTimeout.usec
  {
    if n > 0 {
      NoDrift(e, clocks, n - 1);
      assert clocks[..n][..n - 1] == clocks[..n - 1];
      assert (n - 1) * e.ioTimeout.usec + e.ioTimeout.usec == n * e.ioTimeout.usec;
    }
  }

  /** When a recurring timeout is due after it ran at these times. */
  function DueAfter(e: Event, clocks: seq<int>): int {
    if clocks == [] then e.deadline.usec else
      var front := DueAfter(e, clocks[..|clocks| - 1]);
      RunAt(e.(deadline := Tv(front, e.deadline.tag), res := {Timeout}), clocks[|clocks| - 1]).usec
  }

  /** event_persist_closure, before the callback: a recurring timeout is set again,
      in its own queue.  The two timevals it asserts to be of one queue are. */
  method Recur(base: EventBase, ev: Id, now: int, addOk: bool, ghost pending: Option<nat>)
    requires base.Queued() && Sound(base.events, base.timers, pending) && ev < |base.events|
    requires Recurs(base.events[ev]) ==> ev !in base.timers
    modifies base`events, base`queues, base`eventCount, base`eventCountActive
    ensures base.Queued() && Sound(base.events, base.timers, pending)
    ensures base.events == Recurred(old(base.events), base.timers, ev, now, addOk) && Quieter(old(base.events), base.events)
    ensures SetAgain(old(base.events)[ev], base.events[ev], now, addOk)
    ensures KeepsOthers(old(base.queues), base.queues, {ev} + TimerIds(base.timers))
  {
    hide Core, Sound, AddedTo, KeepsOthers, TimerFollows;
    KeepsSame(base.queues, {ev} + TimerIds(base.timers));
    TimersThere(base.events, base.timers, pending);
    RecurredMeans(base.events, base.timers, ev, now, addOk);
    var e := base.events[ev];
    if Recurs(e) && HasDelay(e) {
      GoodOne(base.events, base.timers, pending, ev);
      assert e.ioTimeout.tag == e.deadline.tag;
      var _ := base.EventAdd(ev, Some(RunAt(e, now)), true, now, addOk, pending);
    }
  }

  lemma GoodOne(events: seq<Event>, timers: seq<Id>, pending: Option<nat>, ev: Id)
    requires Sound(events, timers, pending) && ev < |events|
    ensures Good(events[ev], |timers|)
  {
  }

  /** The loop in event_process_active from queue `from` on, up to the next callback. */
  method Scan(base: EventBase, from: nat, now: int, addOk: bool) returns (ran: Option<Id>, at: nat)
    requires base.Queued() && Sound(base.events, base.timers, None) && from <= base.nPri
    requires base.eventContinue || Clear(base.events, from)
    modifies base`events, base`queues, base`eventCount, base`eventCountActive, base`running, base`phase
    ensures Valid(base) && Quieter(old(base.events), base.events)
    ensures ran.None? ==> Shot(base) == old(Shot(base)).(running := -1, phase := Idle) && NoneFrom(old(base.events), from)
    ensures ran.Some? ==> from <= at && (Clear(old(base.events), at) <==> Clear(old(base.events), from))
    ensures ran.Some? ==> Ran(old(Shot(base)), Shot(base), ran.value, at, 0, base.timers, now, addOk)
  {
    hide Core, Sound, Is, Called, Calling, KeepsOthers, OffQueue;
    var i := from;
    while i < base.nPri
      invariant from <= i <= base.nPri && (Clear(base.events, i) <==> Clear(base.events, from))
      invariant NoneBetween(base.events, from, i)
      modifies {}
    {
      EmptyClear(base, i);
      if base.queues[Active(i)] != [] { break; }
      i := i + 1;
    }
    if i == base.nPri {
      PrioritiesBounded(base);
      base.running, base.phase := -1, Idle;
      return None, 0;
    }
    EmptyClear(base, i);
    base.running := i;
    var ev := Dequeue(base, i, 0, now, addOk);
    return Some(ev), i;
  }

  ghost predicate NoneBetween(events: seq<Event>, lo: int, hi: int) {
    forall id :: 0 <= id < |events| && events[id].active ==> !(lo <= events[id].pri < hi)
  }

  ghost predicate NoneFrom(events: seq<Event>, lo: int) {
    forall id :: 0 <= id < |events| && events[id].active ==> events[id].pri < lo
  }

  lemma PrioritiesBounded(base: EventBase)
    requires base.Queued()
    ensures forall id :: 0 <= id < |base.events| ==> base.events[id].pri < base.nPri
  {
  }

  lemma EmptyClear(base: EventBase, i: nat)
    requires base.Queued() && i < base.nPri
    ensures Active(i) in base.queues
    ensures base.queues[Active(i)] == [] ==> (Clear(base.events, i + 1) <==> Clear(base.events, i))
    ensures base.queues[Active(i)] == [] ==> NoneBetween(base.events, i, i + 1)
  {
    assert Active(i) in base.queues;
    assert Holds(base.queues[Active(i)], base.events, Active(i));
    if base.queues[Active(i)] == [] {
      assert forall id :: 0 <= id < |base.events| ==> !Is(base.events[id], Active(i));
    }
  }

  /** The first event of active queue `at` was dequeued: its callback is to run. */
  ghost predicate Ran(was: Snap, now: Snap, ev: Id, at: nat, count: nat, timers: seq<Id>, clock: int, addOk: bool) {
    && Active(at) in was.queues && was.queues[Active(at)] != [] && ev == was.queues[Active(at)][0]
    && ev < |was.events| && Is(was.events[ev], Active(at))
    && now.events == Called(was.events, timers, ev, clock, addOk) && |now.events| == |was.events|
    && OffQueue(was.events[ev], now.events[ev], clock, addOk) && KeepsOthers(was.queues, now.queues, {ev} + TimerIds(timers))
    && now.running == at && Calling(now.phase, was.events[ev], ev, at, count, timers)
    && now.eventBreak == was.eventBreak && now.eventTv == was.eventTv && now.eventContinue == was.eventContinue
  }

  /** No event was dequeued: after a break, in the callback of a timer, or with
      nothing (more) to do. */
  ghost predicate Paused(was: Snap, now: Snap, timers: seq<Id>, clock: int) {
    match was.phase
    case Idle =>
      if was.eventBreak then now == was.(eventContinue := false, eventBreak := false)
      else NoneFrom(was.events, 0) && now == was.(eventContinue := false, running := -1)
    case InQueue(i, count, pending) =>
      if pending.Some? then
        && pending.value < |timers| && QueueFired(was.events, now.events, pending.value, clock, Some(timers[pending.value]))
        && TimerSet(was.events, now.events, timers[pending.value], pending.value, clock)
        && KeepsOthers(was.queues, now.queues, DueIn(was.events, Common(pending.value), clock) + {timers[pending.value]})
        && Interrupts(was.eventContinue, now.eventContinue, was.events, now.events, was.running)
        && OnlyEvents(was.(eventContinue := now.eventContinue, phase := InQueue(i, count, None)), now)
      else if was.eventBreak then now == was.(running := -1, phase := Idle)
      else
        && now == was.(running := -1, phase := Idle) && (count > 0 || NoneFrom(was.events, i + 1))
        && Active(i) in was.queues && (was.eventContinue || was.queues[Active(i)] == [])
  }

  /** What one stretch of the loop did. */
  ghost predicate Went(was: Snap, now: Snap, ran: Option<Id>, at: nat, timers: seq<Id>, clock: int, addOk: bool) {
    match ran
    case None => Paused(was, now, timers, clock)
    case Some(ev) =>
      && !was.eventBreak && Pending(was.phase).None?
      && var start := was.(eventContinue := was.phase.InQueue? && was.eventContinue);
         var count := if was.phase.InQueue? && was.phase.i == at then was.phase.count else 0;
         Ran(start, now, ev, at, count, timers, clock, addOk)
  }

  /** The next stretch of event_base_loop that holds the lock: the callback that was
      running has returned.  The event that is run next is the first of its queue;
      no event is active ahead of it unless processing skipped on, and then there is. */
  method Turn(base: EventBase, now: int, addOk: bool) returns (ran: Option<Id>, at: nat)
    requires Valid(base)
    modifies base
    ensures Valid(base) && Went(old(Shot(base)), Shot(base), ran, at, base.timers, now, addOk)
    ensures ran.Some? ==>
      (Clear(old(base.events), at) <==> !Skips(old(base.phase), old(base.eventContinue), old(base.events)))
    ensures SameRanks(old(base.events), base.events) && (old(Ranked(base)) ==> Ranked(base))
  {
    hide Core, Sound, Called, QueueFired, TimerSet, KeepsOthers, OffQueue;
    at := 0;
    match base.phase
    case Idle =>
      base.eventContinue := false;
      if base.eventBreak {
        base.eventBreak := false;
        return None, 0;
      }
      ran, at := Scan(base, 0, now, addOk);
    case InQueue(i, count, pending) =>
      if pending.Some? {
        CommonTimeoutCallback(base, pending.value, now);
        base.phase := InQueue(i, count, None);
        return None, 0;
      }
      if base.eventBreak {
        base.running, base.phase := -1, Idle;
        return None, 0;
      }
      EmptyClear(base, i);
      if !base.eventContinue && base.queues[Active(i)] != [] {
        var ev := Dequeue(base, i, count, now, addOk);
        return Some(ev), i;
      }
      if count > 0 {
        base.running, base.phase := -1, Idle;
        return None, 0;
      }
      ran, at := Scan(base, i + 1, now, addOk);
  }

  // ----- whole runs -----

  /** What can happen between two callbacks, from any thread, and in the loop. */
  datatype Step =
    | Add(ev: Id, tv: Option<Tv>, now: int, addOk: bool)
    | Del(ev: Id)
    | Activate(ev: Id, res: set<Cause>)
    | SetPriority(ev: Id, pri: int)
    | LoopBreak
    | Expire(now: int)
    | Correct(now: int, monotonic: bool)
    | Go(now: int, addOk: bool)

  /** Callers do not touch the timers of the base, name queues that exist, and leave
      the priority of internal events alone. */
  predicate Legal(step: Step, events: seq<Event>, timers: seq<Id>) {
    match step
    case Add(ev, tv, _, _) =>
      ev < |events| && ev !in timers && (tv.Some? && tv.value.tag.Some? ==> tv.value.tag.value < |timers|)
    case Del(ev) => ev < |events| && ev !in timers
    case Activate(ev, _) => ev < |events| && ev !in timers
    case SetPriority(ev, _) => ev < |events| && ev !in timers && !events[ev].internal
    case LoopBreak => true
    case Expire(_) => true
    case Correct(_, _) => true
    case Go(_, _) => true
  }

  lemma ActivateKeeps(base: EventBase, ev: Id, res: set<Cause>)
    requires Valid(base) && ev < |base.events| && ev !in base.timers
    ensures var e := base.events[ev];
      var next := Activated(e, res);
      && next.pri == e.pri && next.internal == e.internal
      && Sound(base.events[ev := next], base.timers, Pending(base.phase))
      && Ordered(base.phase, base.running, base.eventContinue || (!e.active && e.pri < base.running),
                 base.events[ev := next], base.nPri, |base.timers|)
  {
    assert Good(base.events[ev], |base.timers|);
  }

  lemma PriorityKeeps(base: EventBase, ev: Id, pri: nat)
    requires Valid(base) && ev < |base.events| && ev !in base.timers && !base.events[ev].active
    ensures var events := base.events[ev := base.events[ev].(pri := pri)];
      && Sound(events, base.timers, Pending(base.phase))
      && Ordered(base.phase, base.running, base.eventContinue, events, base.nPri, |base.timers|)
  {
    assert Good(base.events[ev], |base.timers|);
  }

  /** The queue from which an event was dequeued, if one was. */
  datatype Outcome = Outcome(ran: Option<Id>, at: nat)

  /** What each step does to the base. */
  ghost predicate Did(step: Step, was: Snap, now: Snap, out: Outcome, nPri: nat, timers: seq<Id>) {
    match step
    case Add(ev, tv, clock, addOk) =>
      && OnlyEvents(was, now) && ev < |was.events|
      && now.events == (if Registers(was.events[ev]) && !addOk then was.events
                        else AddedTo(was.events, timers, ev, tv, false, clock))
      && |now.events| == |was.events| && KeepsOthers(was.queues, now.queues, {ev} + TimerIds(timers))
      && (!Registers(was.events[ev]) || addOk ==> IsListed(was.events[ev], now.events[ev]))
      && ((!Registers(was.events[ev]) || addOk) && tv.Some? ==>
            now.events[ev].timeout && now.events[ev].deadline == Tv(clock + tv.value.usec, tv.value.tag))
    case Del(ev) =>
      && OnlyEvents(was, now) && ev < |was.events| && now.events == was.events[ev := Deleted(was.events[ev])]
      && (forall q :: !Is(now.events[ev], q)) && OffAll(was.queues, now.queues, ev)
      && KeepsBody(was.events[ev], now.events[ev]) && now.events[ev].deadline == was.events[ev].deadline
    case Activate(ev, res) =>
      && ev < |was.events| && now.events == was.events[ev := Activated(was.events[ev], res)]
      && now.events[ev].active && now.events[ev].res == (if was.events[ev].active then was.events[ev].res + res else res)
      && OnlyEvents(was.(eventContinue := was.eventContinue || (!was.events[ev].active && was.events[ev].pri < was.running)), now)
      && (if was.events[ev].active then now.queues == was.queues
          else Appended(was.queues, now.queues, Active(was.events[ev].pri), ev))
    case SetPriority(ev, pri) =>
      && ev < |was.events|
      && now == if was.events[ev].active || pri < 0 || pri >= nPri then was
                else was.(events := was.events[ev := was.events[ev].(pri := pri)])
    case LoopBreak => now == was.(eventBreak := true)
    case Expire(clock) =>
      && HeapFired(was.events, now.events, clock) && KeepsOthers(was.queues, now.queues, DueIn(was.events, Heap, clock))
      && Interrupts(was.eventContinue, now.eventContinue, was.events, now.events, was.running)
      && OnlyEvents(was.(eventContinue := now.eventContinue), now)
    case Correct(clock, monotonic) =>
      && AllShifted(was.events, now.events, if monotonic || clock >= was.eventTv then 0 else was.eventTv - clock)
      && now == was.(events := now.events, eventTv := if monotonic then was.eventTv else clock)
    case Go(clock, addOk) =>
      && Went(was, now, out.ran, out.at, timers, clock, addOk)
      && (out.ran.Some? ==> Clear(was.events, out.at))
  }

  /** One step of a caller or of the loop. */
  method Perform(base: EventBase, step: Step) returns (out: Outcome)
    requires Valid(base) && Ranked(base) && Legal(step, base.events, base.timers)
    modifies base
    ensures Valid(base) && Ranked(base) && SameKinds(old(base.events), base.events)
    ensures Did(step, old(Shot(base)), Shot(base), out, base.nPri, base.timers)
  {
    hide Core, Sound, Is, Good, AddedTo, Went, Interrupts;
    out := Outcome(None, 0);
    match step
    case Add(ev, tv, now, addOk) =>
      var _ := base.EventAdd(ev, tv, false, now, addOk, Pending(base.phase));
    case Del(_) => Call(base, step);
    case Activate(_, _) => Call(base, step);
    case SetPriority(_, _) => Call(base, step);
    case LoopBreak =>
      base.eventBreak := true;
    case Expire(_) => Clock(base, step);
    case Correct(_, _) => Clock(base, step);
    case Go(now, addOk) =>
      var ran, at := Turn(base, now, addOk);
      out := Outcome(ran, at);
  }

  /** The steps that concern one event. */
  method Call(base: EventBase, step: Step)
    requires Valid(base) && Ranked(base) && Legal(step, base.events, base.timers)
    requires step.Del? || step.Activate? || step.SetPriority?
    modifies base
    ensures Valid(base) && Ranked(base) && SameKinds(old(base.events), base.events)
    ensures Did(step, old(Shot(base)), Shot(base), Outcome(None, 0), base.nPri, base.timers)
  {
    hide Core, Sound, Is, Good, Deleted, Activated, Appended;
    match step
    case Del(ev) =>
      QuietSound(base.events, base.timers, Pending(base.phase), ev);
      DeletedQuieter(base.events[ev]);
      base.EventDel(ev);
    case Activate(ev, res) =>
      ActivateKeeps(base, ev, res);
      base.EventActive(ev, res);
    case SetPriority(ev, pri) =>
      if !base.events[ev].active && 0 <= pri {
        PriorityKeeps(base, ev, pri);
      }
      var _ := base.SetPriority(ev, pri);
  }

  /** The steps that look at the clock. */
  method Clock(base: EventBase, step: Step)
    requires Valid(base) && Ranked(base) && (step.Expire? || step.Correct?)
    modifies base
    ensures Valid(base) && Ranked(base) && SameKinds(old(base.events), base.events)
    ensures Did(step, old(Shot(base)), Shot(base), Outcome(None, 0), base.nPri, base.timers)
  {
    hide Core, Sound, Is, Good, Fired, Interrupts;
    match step
    case Expire(now) =>
      TimeoutProcess(base, now, Pending(base.phase));
      InterruptsKeeps(old(base.eventContinue), base.eventContinue, old(base.events), base.events, base.running);
    case Correct(now, monotonic) =>
      TimeoutCorrect(base, now, monotonic, Pending(base.phase));
  }

  /** What the order of the queues needs to know about an interruption. */
  lemma InterruptsKeeps(before: bool, after: bool, was: seq<Event>, now: seq<Event>, running: int)
    requires Interrupts(before, after, was, now, running)
    ensures SameRanks(was, now) && (before ==> after) && (running <= 0 ==> after == before)
    ensures !after ==> forall id :: 0 <= id < |now| && now[id].active && now[id].pri < running ==> was[id].active
  {
  }

  ghost predicate SameRanks(was: seq<Event>, now: seq<Event>) {
    |was| == |now| && forall id :: 0 <= id < |was| ==> now[id].internal == was[id].internal && now[id].pri == was[id].pri
  }

  ghost predicate SameKinds(was: seq<Event>, now: seq<Event>) {
    |was| == |now| && forall id :: 0 <= id < |was| ==> now[id].internal == was[id].internal
  }

  /** Internal events have priority 0; then only queue 0 can have been left with
      nothing but internal events run, and nothing comes ahead of that queue. */
  ghost predicate Ranked(base: EventBase)
    reads base
  {
    && (forall id :: 0 <= id < |base.events| && base.events[id].internal ==> base.events[id].pri == 0)
    && (base.phase.InQueue? ==>
          (base.phase.count == 0 ==> base.phase.i == 0) && (base.phase.i == 0 ==> !base.eventContinue))
  }

  /** All that holds between two steps. */
  ghost predicate ValidAt(s: Snap, nPri: nat, timers: seq<Id>) {
    && Core(s.queues, s.events, s.eventCount, s.eventCountActive, nPri, |timers|)
    && Sound(s.events, timers, Pending(s.phase))
    && Ordered(s.phase, s.running, s.eventContinue, s.events, nPri, |timers|)
  }

  /** In every run, whatever callbacks and other threads add, delete and activate in
      between: before and after each step the flags, queues, counters, priorities and
      timers agree; each step has done what Did says; and each event that is dequeued
      is the first of its queue, with no active event of a more urgent priority. */
  method Run(events: seq<Event>, nPri: nat, timers: seq<Id>, steps: seq<Step>) returns (trace: seq<Snap>, log: seq<Outcome>)
    requires HaveTimers(events, timers) && nPri > 0
    requires forall id :: 0 <= id < |events| ==> events[id].pri < nPri && Unused(events[id])
    requires forall id :: 0 <= id < |events| && events[id].internal ==> events[id].pri == 0
    requires forall i :: 0 <= i < |steps| ==> Legal(steps[i], events, timers)
    ensures |trace| == |steps| + 1 && |log| == |steps| && trace[0].events == events && trace[0].phase == Idle
    ensures forall i :: 0 <= i < |trace| ==> ValidAt(trace[i], nPri, timers)
    ensures forall i :: 0 <= i < |steps| ==> Did(steps[i], trace[i], trace[i + 1], log[i], nPri, timers)
  {
    hide Core, Sound, Is, Unused, Did, Ordered;
    var base := new EventBase(events, nPri, timers);
    trace, log := [Shot(base)], [];
    StartsOrdered(base);
    for i := 0 to |steps|
      invariant fresh(base) && Valid(base) && Ranked(base) && SameKinds(events, base.events)
      invariant base.timers == timers && base.nPri == nPri
      invariant |trace| == i + 1 && |log| == i && trace[i] == Shot(base)
      invariant trace[0].events == events && trace[0].phase == Idle
      invariant forall j :: 0 <= j <= i ==> ValidAt(trace[j], nPri, timers)
      invariant forall j :: 0 <= j < i ==> Did(steps[j], trace[j], trace[j + 1], log[j], nPri, timers)
    {
      assert Legal(steps[i], events, timers);
      var out := Perform(base, steps[i]);
      trace, log := trace + [Shot(base)], log + [out];
    }
  }

  lemma StartsOrdered(base: EventBase)
    requires base.phase == Idle && base.running == -1
    ensures Ordered(base.phase, base.running, base.eventContinue, base.events, base.nPri, |base.timers|)
  {
  }

  /** In a run: where an event was dequeued, every active event has the priority of
      its queue or a later one. */
  lemma RunsMostUrgent(was: Snap, now: Snap, clock: int, addOk: bool, out: Outcome, nPri: nat, timers: seq<Id>, id: Id)
    requires Did(Go(clock, addOk), was, now, out, nPri, timers) && out.ran.Some? && id < |was.events| && was.events[id].active
    ensures out.ran.value < |was.events| && was.events[out.ran.value].active && was.events[out.ran.value].pri <= was.events[id].pri
  {
  }

  /** A base whose event 1 is internal and has priority 1; it and event 2 are active. */
  method Misplaced() returns (base: EventBase)
    ensures fresh(base) && Valid(base) && base.phase == Idle && !base.eventBreak && base.timers == [] && |base.events| == 3
    ensures forall id: nat :: id < 3 ==> base.events[id].pri == id && (base.events[id].active <==> id > 0) && !base.events[id].persist
    ensures base.events[1].internal
  {
    hide Core, Sound, Appended;
    var blank := Event(NoSource, false, false, 0, false, false, false, Tv(0, None), Tv(0, None), {}, false);
    base := new EventBase([blank, blank.(internal := true, pri := 1), blank.(pri := 2)], 3, []);
    ActivateKeeps(base, 1, {});
    base.EventActive(1, {});
    ActivateKeeps(base, 2, {});
    base.EventActive(2, {});
  }

  lemma CalledOnce(events: seq<Event>, timers: seq<Id>, ev: Id, now: int, addOk: bool)
    requires ev < |events| && !events[ev].persist
    ensures Called(events, timers, ev, now, addOk) == events[ev := Deleted(events[ev])]
  {
  }

  /** Event 1 has been dequeued: its callback is running. */
  method MisplacedRuns() returns (base: EventBase)
    ensures fresh(base) && Valid(base) && base.phase == InQueue(1, 0, None) && !base.eventBreak && base.timers == []
    ensures |base.events| == 3 && forall id: nat :: id < 3 ==>
      base.events[id].pri == id && (base.events[id].active <==> id == 2) && !base.events[id].persist
  {
    hide Core, Sound, Called, Deleted;
    base := Misplaced();
    CalledOnce(base.events, base.timers, 1, 0, true);
    DeletedQuieter(base.events[1]);
    var ran, at := Turn(base, 0, true);
    assert ran == Some(1) && at == 1;
  }

  /** An internal event with a priority other than 0 lets a later event run first:
      while it runs a more urgent event is activated, and the loop goes on behind it. */
  method InternalOutOfPlace() returns (base: EventBase, ran: Option<Id>, at: nat)
    ensures ran == Some(2) && at == 2
    ensures |base.events| == 3 && base.events[0].active && base.events[0].pri == 0
  {
    hide Core, Sound, Called, Deleted, Appended;
    base := MisplacedRuns();
    ActivateKeeps(base, 0, {});
    base.EventActive(0, {});
    assert base.events[0].active && !base.events[1].active && base.events[2].active;
    assert Skips(base.phase, base.eventContinue, base.events) && !NoneFrom(base.events, 2);
    CalledOnce(base.events, base.timers, 2, 0, true);
    ran, at := Turn(base, 0, true);
    assert ran.Some?;
  }
}
