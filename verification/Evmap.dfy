/** The per-fd event map of libevent/evmap.c, its queue of pending changes, and
    the two epoll back ends of libevent/epoll.c: one tells the kernel at once,
    one queues changes and flushes them before waiting. */
module Evmap {
  import opened Prelude

  /** An event on an fd: EV_READ, EV_WRITE and EV_ET of ev_events. */
  datatype Event = Event(id: nat, fd: int, read: bool, write: bool, et: bool)

  /** A set of EV_READ and EV_WRITE. */
  datatype Events = Events(read: bool, write: bool) {
    predicate Any() { read || write }
  }

  // ----- the kernel -----

  /** EPOLLIN, EPOLLOUT and EPOLLET for one fd. */
  datatype Interest = Interest(read: bool, write: bool, et: bool)

  type Kernel = map<int, Interest>

  datatype Op = CtlAdd | CtlMod | CtlDel
  datatype Errno = Success | EEXIST | ENOENT

  /** epoll_ctl on an open fd. */
  function EpollCtl(k: Kernel, op: Op, fd: int, what: Interest): (r: (Kernel, Errno))
  {
    match op
    case CtlAdd => if fd in k then (k, EEXIST) else (k[fd := what], Success)
    case CtlMod => if fd in k then (k[fd := what], Success) else (k, ENOENT)
    case CtlDel => if fd in k then (k - {fd}, Success) else (k, ENOENT)
  }

  /** What the kernel watches on an fd, edge-triggering aside. */
  function Seen(k: Kernel, fd: int): Events {
    if fd in k then Events(k[fd].read, k[fd].write) else Events(false, false)
  }

  // ----- one pending change -----

  /** The value of read_change or write_change. */
  datatype Mark = Keep | Added(et: bool) | Deleted

  datatype Change = Change(fd: int, was: Events, read: Mark, write: Mark) {
    /** What the fd should be watched for once the change is made. */
    function After(): Events {
      Events(if read.Keep? then was.read else read.Added?, if write.Keep? then was.write else write.Added?)
    }

    /** Only events that were there before are deleted. */
    predicate Sensible() {
      (read.Deleted? ==> was.read) && (write.Deleted? ==> was.write)
    }

    /** What event_changelist_add makes of it. */
    function Adding(add: Events, et: bool): Change {
      this.(read := if add.read then Added(et) else read, write := if add.write then Added(et) else write)
    }

    /** And event_changelist_del: taking back what was only queued leaves no mark. */
    function Deleting(del: Events): Change {
      this.(read := if !del.read then read else if !was.read && read.Added? then Keep else Deleted,
            write := if !del.write then write else if !was.write && write.Added? then Keep else Deleted)
    }

    predicate LevelOnly() {
      !(read.Added? && read.et) && !(write.Added? && write.et)
    }
  }

  /** The op and events chosen by epoll_apply_one_change; None when there is
      nothing to do. */
  datatype Choice = Nothing | Ctl(op: Op, what: Interest)

  function Choose(ch: Change): Choice {
    if ch.read.Added? || ch.write.Added? then
      var r := ch.read.Added? || (ch.read.Keep? && ch.was.read);
      var w := ch.write.Added? || (ch.write.Keep? && ch.was.write);
      var et := (ch.read.Added? && ch.read.et) || (ch.write.Added? && ch.write.et);
      Ctl(if ch.was.Any() then CtlMod else CtlAdd, Interest(r, w, et))
    else if ch.read.Deleted? then
      if ch.write.Deleted? then Ctl(CtlDel, Interest(true, true, false))
      else if ch.was.write then Ctl(CtlMod, Interest(false, true, false))
      else Ctl(CtlDel, Interest(true, false, false))
    else if ch.write.Deleted? then
      if ch.was.read then Ctl(CtlMod, Interest(true, false, false))
      else Ctl(CtlDel, Interest(false, true, false))
    else Nothing
  }

  /** epoll_apply_one_change: a MOD of an unknown fd is retried as an ADD, an ADD
      of a known one as a MOD, and a DEL of an unknown one is fine. */
  function ApplyOne(k: Kernel, ch: Change): (r: (Kernel, int)) {
    var c := Choose(ch);
    if c.Nothing? then (k, 0) else
      var (k1, err) := EpollCtl(k, c.op, ch.fd, c.what);
      if err.Success? then (k1, 0)
      else if c.op.CtlMod? && err.ENOENT? then
        var (k2, err2) := EpollCtl(k1, CtlAdd, ch.fd, c.what); (k2, if err2.Success? then 0 else -1)
      else if c.op.CtlAdd? && err.EEXIST? then
        var (k2, err2) := EpollCtl(k1, CtlMod, ch.fd, c.what); (k2, if err2.Success? then 0 else -1)
      else if c.op.CtlDel? && err.ENOENT? then (k1, 0)
      else (k1, -1)
  }

  /** A registered fd is watched for something. */
  predicate Registered(k: Kernel, fd: int) {
    fd in k <==> Seen(k, fd).Any()
  }

  /** A sensible change brings a truthful kernel entry to what is wanted, whatever
      the edge-trigger flags, and touches no other fd. */
  lemma ApplyOneRight(k: Kernel, ch: Change)
    requires ch.Sensible() && Seen(k, ch.fd) == ch.was && Registered(k, ch.fd)
    ensures var (k1, ret) := ApplyOne(k, ch);
      && ret == 0 && Seen(k1, ch.fd) == ch.After() && Registered(k1, ch.fd)
      && (forall fd :: fd != ch.fd ==> (fd in k1 <==> fd in k) && (fd in k ==> k1[fd] == k[fd]))
      && (ch.LevelOnly() && (ch.fd in k ==> !k[ch.fd].et) && ch.fd in k1 ==> !k1[ch.fd].et)
  {
  }

  /** Edge-triggering survives a change exactly when the change adds something or
      does nothing: the delete path never asks for EPOLLET. */
  lemma EdgeTriggerKept(k: Kernel, ch: Change)
    requires ch.Sensible() && Seen(k, ch.fd) == ch.was && Registered(k, ch.fd)
    requires ch.fd in k && k[ch.fd].et && ch.After().Any()
    requires (ch.read.Added? ==> ch.read.et) && (ch.write.Added? ==> ch.write.et)
    ensures var k1 := ApplyOne(k, ch).0;
      ch.fd in k1 && (k1[ch.fd].et <==> (ch.read.Added? || ch.write.Added? || (ch.read.Keep? && ch.write.Keep?)))
  {
  }

  /** The kernel once all changes are made, one after the other. */
  function ApplyAll(k: Kernel, changes: seq<Change>): Kernel {
    if changes == [] then k else ApplyOne(ApplyAll(k, changes[..|changes| - 1]), changes[|changes| - 1]).0
  }

  /** The kernel may know less or more of an fd than the map does, as when the fd was closed and
      opened again: a change that asks for something still succeeds, and the fd is then watched for
      just what is wanted, with the edge-triggering that was asked for. */
  lemma ApplyOneHeals(k: Kernel, ch: Change)
    requires ch.Sensible() && !(ch.read.Keep? && ch.write.Keep?)
    ensures var (k1, ret) := ApplyOne(k, ch);
      && ret == 0 && Seen(k1, ch.fd) == ch.After() && Registered(k1, ch.fd)
      && (ch.fd in k1 ==> k1[ch.fd].et == (ch.read == Added(true) || ch.write == Added(true)))
      && (forall fd :: fd != ch.fd ==> (fd in k1 <==> fd in k) && (fd in k ==> k1[fd] == k[fd]))
  {
    var r := ch.After();
    assert ch.fd in ApplyOne(k, ch).0 <==> r.read || r.write;
  }

  /** So a flush makes every change in it good, whatever the kernel knew before. */
  lemma {:induction false} FlushHeals(k: Kernel, changes: seq<Change>, j: nat)
    requires j < |changes| && forall i :: 0 <= i < |changes| ==> changes[i].Sensible()
    requires forall i :: 0 <= i < |changes| && i != j ==> changes[i].fd != changes[j].fd
    ensures var k1 := ApplyAll(k, changes); var ch := changes[j];
      if ch.read.Keep? && ch.write.Keep? then Seen(k1, ch.fd) == Seen(k, ch.fd) else Seen(k1, ch.fd) == ch.After()
  {
    var n := |changes| - 1;
    var before := ApplyAll(k, changes[..n]);
    if j == n {
      FlushLeaves(k, changes[..n], changes[j].fd);
      if !(changes[j].read.Keep? && changes[j].write.Keep?) {
        ApplyOneHeals(before, changes[j]);
      }
    } else {
      FlushHeals(k, changes[..n], j);
      FlushLeaves(before, [changes[n]], changes[j].fd);
    }
  }

  lemma {:induction false} FlushLeaves(k: Kernel, changes: seq<Change>, fd: int)
    requires forall i :: 0 <= i < |changes| ==> changes[i].fd != fd
    ensures Seen(ApplyAll(k, changes), fd) == Seen(k, fd)
  {
    if changes != [] {
      FlushLeaves(k, changes[..|changes| - 1], fd);
    }
  }

  // ----- the io map -----

  const MAX_EVENTS: nat := 0xffff

  /** A struct evmap_io, followed by its event_changelist_fdinfo; NoEntry is NULL. */
  datatype Slot = NoEntry | Entry(events: seq<Event>, nread: nat, nwrite: nat, idxplus1: nat) {
    function Wanted(): Events {
      if NoEntry? then Events(false, false) else Events(nread > 0, nwrite > 0)
    }

    /** The counters count, and the list holds events of this fd, each once. */
    ghost predicate Counts(fd: int) {
      Entry? ==>
        && nread == Readers(events) <= MAX_EVENTS && nwrite == Writers(events) <= MAX_EVENTS
        && (forall i :: 0 <= i < |events| ==> events[i].fd == fd)
        && (forall i, j :: 0 <= i < j < |events| ==> events[i] != events[j])
    }
  }

  function Readers(evs: seq<Event>): nat {
    if evs == [] then 0 else Readers(evs[..|evs| - 1]) + if evs[|evs| - 1].read then 1 else 0
  }

  function Writers(evs: seq<Event>): nat {
    if evs == [] then 0 else Writers(evs[..|evs| - 1]) + if evs[|evs| - 1].write then 1 else 0
  }

  lemma CountsAppend(evs: seq<Event>, e: Event)
    ensures Readers(evs + [e]) == Readers(evs) + if e.read then 1 else 0
    ensures Writers(evs + [e]) == Writers(evs) + if e.write then 1 else 0
  {
    assert (evs + [e])[..|evs|] == evs;
  }

  lemma {:induction false} CountsRemove(evs: seq<Event>, k: nat)
    requires k < |evs|
    ensures Readers(evs) == Readers(evs[..k] + evs[k + 1..]) + if evs[k].read then 1 else 0
    ensures Writers(evs) == Writers(evs[..k] + evs[k + 1..]) + if evs[k].write then 1 else 0
  {
    var n := |evs| - 1;
    if k < n {
      CountsRemove(evs[..n], k);
      assert evs[..k] + evs[k + 1..] == (evs[..n][..k] + evs[..n][k + 1..]) + [evs[n]];
      CountsAppend(evs[..n][..k] + evs[..n][k + 1..], evs[n]);
    } else {
      assert evs[..k] + evs[k + 1..] == evs[..n];
    }
  }

  lemma {:induction false} CountsPositive(evs: seq<Event>)
    ensures Readers(evs) > 0 <==> exists e :: e in evs && e.read
    ensures Writers(evs) > 0 <==> exists e :: e in evs && e.write
  {
    if evs != [] {
      var n := |evs| - 1;
      CountsPositive(evs[..n]);
      assert evs == evs[..n] + [evs[n]];
      assert forall e :: e in evs <==> e in evs[..n] || e == evs[n];
    }
  }

  lemma EmptyCounts()
    ensures forall fd: int :: NoEntry.Counts(fd) && Entry([], 0, 0, 0).Counts(fd)
  {
  }

  /** The events of `live` on an fd that read, or write. */
  function ReadersOf(live: set<Event>, fd: int): set<Event> {
    set e | e in live && e.fd == fd && e.read
  }

  function WritersOf(live: set<Event>, fd: int): set<Event> {
    set e | e in live && e.fd == fd && e.write
  }

  /** The 16-bit counters have no room for another event. */
  predicate Full(live: set<Event>, ev: Event) {
    || (ev.read && |ReadersOf(live, ev.fd)| >= MAX_EVENTS)
    || (ev.write && |WritersOf(live, ev.fd)| >= MAX_EVENTS)
  }

  lemma {:induction false} CountsAreSizes(evs: seq<Event>, fd: int, live: set<Event>)
    requires forall i, j :: 0 <= i < j < |evs| ==> evs[i] != evs[j]
    requires forall e :: e in evs <==> e in live && e.fd == fd
    ensures Readers(evs) == |ReadersOf(live, fd)| && Writers(evs) == |WritersOf(live, fd)|
  {
    if evs == [] {
      assert ReadersOf(live, fd) == {} == WritersOf(live, fd);
    } else {
      hide ReadersOf, WritersOf;
      var n := |evs| - 1;
      assert evs == evs[..n] + [evs[n]];
      SizesStep(live, evs[n]);
      CountsAreSizes(evs[..n], fd, live - {evs[n]});
    }
  }

  lemma SizesStep(live: set<Event>, e: Event)
    requires e in live
    ensures |ReadersOf(live, e.fd)| == |ReadersOf(live - {e}, e.fd)| + if e.read then 1 else 0
    ensures |WritersOf(live, e.fd)| == |WritersOf(live - {e}, e.fd)| + if e.write then 1 else 0
  {
    var r, w := ReadersOf(live - {e}, e.fd), WritersOf(live - {e}, e.fd);
    if e.read {
      assert ReadersOf(live, e.fd) == r + {e};
    } else {
      assert ReadersOf(live, e.fd) == r;
    }
    if e.write {
      assert WritersOf(live, e.fd) == w + {e};
    } else {
      assert WritersOf(live, e.fd) == w;
    }
  }

  /** The index entries and changes point at each other: an fd owns at most one
      change, found by its idxplus1. */
  ghost predicate Indexed(entries: seq<Slot>, changes: seq<Change>) {
    && (forall j :: 0 <= j < |changes| ==> Owner(entries, changes[j].fd, j))
    && (forall fd :: 0 <= fd < |entries| ==> Pointer(entries[fd], changes, fd))
  }

  predicate Owner(entries: seq<Slot>, fd: int, j: nat) {
    0 <= fd < |entries| && entries[fd].Entry? && entries[fd].idxplus1 == j + 1
  }

  predicate Pointer(slot: Slot, changes: seq<Change>, fd: int) {
    slot.Entry? ==>
      slot.idxplus1 <= |changes| && (slot.idxplus1 > 0 ==> changes[slot.idxplus1 - 1].fd == fd)
  }

  /** The index of the change of `fd`, plus 1; none if it has no entry. */
  function IdxOf(entries: seq<Slot>, fd: int): nat {
    if 0 <= fd < |entries| && entries[fd].Entry? then entries[fd].idxplus1 else 0
  }

  function WantedAt(entries: seq<Slot>, fd: int): Events {
    if 0 <= fd < |entries| then entries[fd].Wanted() else Events(false, false)
  }

  /** The queue with a change for `fd`, made if there was none, and its place. */
  function Opened(changes: seq<Change>, idxplus1: nat, fd: int, was: Events): seq<Change> {
    if idxplus1 == 0 then changes + [Change(fd, was, Keep, Keep)] else changes
  }

  function PlaceIn(changes: seq<Change>, idxplus1: nat): nat {
    if idxplus1 == 0 then |changes| else idxplus1 - 1
  }

  /** The queue after event_changelist_add and after event_changelist_del. */
  function QueueAdd(changes: seq<Change>, idxplus1: nat, fd: int, was: Events, add: Events, et: bool): seq<Change>
    requires idxplus1 <= |changes|
  {
    var cs, i := Opened(changes, idxplus1, fd, was), PlaceIn(changes, idxplus1);
    cs[i := cs[i].Adding(add, et)]
  }

  function QueueDel(changes: seq<Change>, idxplus1: nat, fd: int, was: Events, del: Events): seq<Change>
    requires idxplus1 <= |changes|
  {
    var cs, i := Opened(changes, idxplus1, fd, was), PlaceIn(changes, idxplus1);
    cs[i := cs[i].Deleting(del)]
  }

  /** What the kernel will watch on `fd` after the next flush. */
  function Target(entries: seq<Slot>, changes: seq<Change>, k: Kernel, fd: int): Events
    requires 0 <= fd < |entries|
  {
    if entries[fd].Entry? && 0 < entries[fd].idxplus1 <= |changes| then changes[entries[fd].idxplus1 - 1].After() else Seen(k, fd)
  }

  /** Every pending change knows what the kernel watches now. */
  ghost predicate Truthful(changes: seq<Change>, k: Kernel) {
    && (forall fd :: fd in k ==> Seen(k, fd).Any())
    && (forall j :: 0 <= j < |changes| ==> changes[j].Sensible() && changes[j].was == Seen(k, changes[j].fd))
  }

  ghost predicate LevelOnly(changes: seq<Change>, k: Kernel) {
    && (forall fd :: fd in k ==> !k[fd].et)
    && (forall j :: 0 <= j < |changes| ==> changes[j].LevelOnly())
  }

  datatype View = View(entries: seq<Slot>, changes: seq<Change>, kernel: Kernel)

  /** From `v` to `w`, what will be watched on `fd` became `t`; apart from the
      index of its change nothing else moved. */
  ghost predicate Retargeted(v: View, w: View, fd: int, t: Events)
    requires Indexed(v.entries, v.changes) && Indexed(w.entries, w.changes)
  {
    && |v.entries| == |w.entries| && 0 <= fd < |v.entries| && v.entries[fd].Entry? && w.entries[fd].Entry?
    && w.entries == v.entries[fd := v.entries[fd].(idxplus1 := w.entries[fd].idxplus1)]
    && Target(w.entries, w.changes, w.kernel, fd) == t
    && (forall g :: 0 <= g < |v.entries| && g != fd ==>
          Target(w.entries, w.changes, w.kernel, g) == Target(v.entries, v.changes, v.kernel, g))
  }

  /** A fresh change for an fd that had none. */
  lemma AppendIndexed(v: View, ch: Change)
    requires Indexed(v.entries, v.changes)
    requires 0 <= ch.fd < |v.entries| && v.entries[ch.fd].Entry? && v.entries[ch.fd].idxplus1 == 0
    ensures Indexed(v.entries[ch.fd := v.entries[ch.fd].(idxplus1 := |v.changes| + 1)], v.changes + [ch])
  {
  }

  lemma AppendTargets(v: View, ch: Change)
    requires Indexed(v.entries, v.changes)
    requires 0 <= ch.fd < |v.entries| && v.entries[ch.fd].Entry? && v.entries[ch.fd].idxplus1 == 0
    ensures var w := View(v.entries[ch.fd := v.entries[ch.fd].(idxplus1 := |v.changes| + 1)], v.changes + [ch], v.kernel);
      Indexed(w.entries, w.changes) && Retargeted(v, w, ch.fd, ch.After())
  {
    AppendIndexed(v, ch);
  }

  lemma IndexOf(v: View, fd: int)
    requires Indexed(v.entries, v.changes) && 0 <= fd < |v.entries| && v.entries[fd].Entry?
    ensures v.entries[fd].idxplus1 <= |v.changes|
    ensures v.entries[fd].idxplus1 > 0 ==> v.changes[v.entries[fd].idxplus1 - 1].fd == fd
    ensures Retargeted(v, v, fd, Target(v.entries, v.changes, v.kernel, fd))
  {
  }

  /** Another content for change `idx`. */
  lemma MarkTargets(v: View, idx: nat, ch: Change)
    requires Indexed(v.entries, v.changes) && idx < |v.changes| && ch.fd == v.changes[idx].fd
    ensures var w := v.(changes := v.changes[idx := ch]);
      Indexed(w.entries, w.changes) && Retargeted(v, w, ch.fd, ch.After())
  {
    assert forall j :: 0 <= j < |v.changes| ==> v.changes[idx := ch][j].fd == v.changes[j].fd;
  }

  lemma AddingAfter(ch: Change, add: Events, et: bool)
    requires ch.Sensible()
    ensures var was := ch.After(); var next := ch.Adding(add, et);
      && next.After() == Events(was.read || add.read, was.write || add.write) && next.Sensible()
      && (!et && ch.LevelOnly() ==> next.LevelOnly())
  {
  }

  lemma DeletingAfter(ch: Change, del: Events)
    requires ch.Sensible() && (del.read ==> ch.After().read) && (del.write ==> ch.After().write)
    ensures var was := ch.After(); var next := ch.Deleting(del);
      && next.After() == Events(was.read && !del.read, was.write && !del.write) && next.Sensible()
      && (ch.LevelOnly() ==> next.LevelOnly())
  {
  }

  /** The change of an fd tells what the fd will be watched for. */
  lemma FirstTarget(v: View, u: View, fd: int, was: Events, idx: nat)
    requires Indexed(v.entries, v.changes) && Indexed(u.entries, u.changes) && Retargeted(v, u, fd, was)
    requires idx < |u.changes| && u.entries[fd].idxplus1 == idx + 1
    ensures u.changes[idx].After() == was
  {
  }

  lemma RetargetTwice(v: View, u: View, w: View, fd: int, was: Events, t: Events)
    requires Indexed(v.entries, v.changes) && Indexed(u.entries, u.changes) && Indexed(w.entries, w.changes)
    requires Retargeted(v, u, fd, was) && Retargeted(u, w, fd, t)
    ensures Retargeted(v, w, fd, t)
  {
    hide Indexed, Target;
  }

  /** A change made at once, with no change pending. */
  lemma DirectTargets(v: View, ch: Change)
    requires Indexed(v.entries, v.changes) && v.changes == [] && Truthful([], v.kernel)
    requires 0 <= ch.fd < |v.entries| && v.entries[ch.fd].Entry? && ch.Sensible() && ch.was == Seen(v.kernel, ch.fd)
    ensures var k := ApplyOne(v.kernel, ch).0;
      Truthful([], k) && Retargeted(v, v.(kernel := k), ch.fd, ch.After())
  {
    ApplyOneRight(v.kernel, ch);
  }

  /** New list and counters in an entry do not change what will be watched. */
  lemma SlotUpdate(v: View, fd: int, slot: Slot)
    requires Indexed(v.entries, v.changes) && 0 <= fd < |v.entries| && v.entries[fd].Entry?
    requires slot.Entry? && slot.idxplus1 == v.entries[fd].idxplus1
    ensures Indexed(v.entries[fd := slot], v.changes)
    ensures forall g :: 0 <= g < |v.entries| ==>
      Target(v.entries[fd := slot], v.changes, v.kernel, g) == Target(v.entries, v.changes, v.kernel, g)
  {
    var after := v.entries[fd := slot];
    assert forall g :: 0 <= g < |after| ==>
      after[g].Entry? == v.entries[g].Entry? && (after[g].Entry? ==> after[g].idxplus1 == v.entries[g].idxplus1);
    SameIndexes(v.entries, after, v.changes);
  }

  lemma SameIndexes(entries: seq<Slot>, after: seq<Slot>, changes: seq<Change>)
    requires Indexed(entries, changes) && |after| == |entries|
    requires forall g :: 0 <= g < |after| ==>
      after[g].Entry? == entries[g].Entry? && (after[g].Entry? ==> after[g].idxplus1 == entries[g].idxplus1)
    ensures Indexed(after, changes)
  {
    forall j | 0 <= j < |changes|
      ensures 0 <= changes[j].fd < |after| && after[changes[j].fd].Entry? && after[changes[j].fd].idxplus1 == j + 1
    {
      assert entries[changes[j].fd].idxplus1 == j + 1;
    }
  }

  lemma NewEntry(v: View, fd: nat)
    requires Indexed(v.entries, v.changes) && fd < |v.entries| && v.entries[fd].NoEntry?
    ensures Indexed(v.entries[fd := Entry([], 0, 0, 0)], v.changes)
    ensures forall g :: 0 <= g < |v.entries| ==>
      Target(v.entries[fd := Entry([], 0, 0, 0)], v.changes, v.kernel, g) == Target(v.entries, v.changes, v.kernel, g)
  {
  }

  /** What is watched on `fd` after the first `i` changes of `v` were applied. */
  function Midway(v: View, fd: int, i: nat): Events
    requires 0 <= fd < |v.entries|
  {
    var slot := v.entries[fd];
    if slot.Entry? && 0 < slot.idxplus1 <= i && i <= |v.changes| then v.changes[slot.idxplus1 - 1].After() else Seen(v.kernel, fd)
  }

  ghost predicate Flushed(v: View, k: Kernel, i: nat) {
    && Truthful([], k)
    && (forall fd :: fd in k ==> 0 <= fd < |v.entries|)
    && (forall fd :: 0 <= fd < |v.entries| ==> Seen(k, fd) == Midway(v, fd, i))
  }

  lemma FlushStart(v: View)
    requires Truthful(v.changes, v.kernel) && forall fd :: fd in v.kernel ==> 0 <= fd < |v.entries|
    ensures Flushed(v, v.kernel, 0)
  {
  }

  lemma OwnedChange(v: View, i: nat)
    requires Indexed(v.entries, v.changes) && i < |v.changes|
    ensures var fd := v.changes[i].fd; 0 <= fd < |v.entries| && v.entries[fd].Entry? && v.entries[fd].idxplus1 == i + 1
    ensures forall fd :: 0 <= fd < |v.entries| && fd != v.changes[i].fd && v.entries[fd].Entry? ==> v.entries[fd].idxplus1 != i + 1
  {
  }

  lemma FlushStep(v: View, k: Kernel, i: nat)
    requires Indexed(v.entries, v.changes) && Truthful(v.changes, v.kernel)
    requires i < |v.changes| && Flushed(v, k, i)
    ensures var (k1, ret) := ApplyOne(k, v.changes[i]);
      && ret == 0 && Flushed(v, k1, i + 1)
      && (LevelOnly([], k) && v.changes[i].LevelOnly() ==> LevelOnly([], k1))
  {
    hide Choose, ApplyOne;
    var ch := v.changes[i];
    OwnedChange(v, i);
    MidwayStep(v, i);
    assert Seen(k, ch.fd) == Midway(v, ch.fd, i);
    hide Indexed, Midway;
    ApplyOneRight(k, ch);
    var k1 := ApplyOne(k, ch).0;
    forall fd | 0 <= fd < |v.entries|
      ensures Seen(k1, fd) == Midway(v, fd, i + 1)
    {
      assert Seen(k, fd) == Midway(v, fd, i);
    }
  }

  /** Change `i` decides for its fd, and for no other. */
  lemma MidwayStep(v: View, i: nat)
    requires Indexed(v.entries, v.changes) && i < |v.changes|
    ensures Owner(v.entries, v.changes[i].fd, i)
    ensures Midway(v, v.changes[i].fd, i) == Seen(v.kernel, v.changes[i].fd)
    ensures Midway(v, v.changes[i].fd, i + 1) == v.changes[i].After()
    ensures forall fd :: 0 <= fd < |v.entries| && fd != v.changes[i].fd ==> Midway(v, fd, i + 1) == Midway(v, fd, i)
  {
    OwnedChange(v, i);
  }

  /** With every change applied and every index cleared nothing is pending. */
  lemma FlushEnd(v: View, entries: seq<Slot>, k: Kernel)
    requires Indexed(v.entries, v.changes) && Flushed(v, k, |v.changes|) && |entries| == |v.entries|
    requires forall fd :: 0 <= fd < |entries| ==>
      entries[fd] == if v.entries[fd].Entry? then v.entries[fd].(idxplus1 := 0) else NoEntry
    ensures Indexed(entries, []) && Truthful([], k) && forall fd :: fd in k ==> 0 <= fd < |entries|
    ensures forall fd :: 0 <= fd < |entries| ==>
      Target(entries, [], k, fd) == Target(v.entries, v.changes, v.kernel, fd)
  {
    forall fd | 0 <= fd < |entries|
      ensures Target(entries, [], k, fd) == Target(v.entries, v.changes, v.kernel, fd)
    {
      assert Seen(k, fd) == Midway(v, fd, |v.changes|);
    }
  }

  class Base {
    const queued: bool           // epollops_changelist, not epollops
    ghost const level: bool      // no event is edge-triggered
    var entries: seq<Slot>
    var changes: seq<Change>
    var changesSize: nat
    var kernel: Kernel
    ghost var live: set<Event>   // the events in the map

    /** The part of the invariant that the back ends keep. */
    ghost predicate Wired()
      reads this
    {
      && |changes| <= changesSize && (!queued ==> changes == [])
      && Indexed(entries, changes) && Truthful(changes, kernel)
      && (forall fd :: fd in kernel ==> 0 <= fd < |entries|)
      && (level ==> LevelOnly(changes, kernel))
    }

    ghost predicate Valid()
      reads this
    {
      && Wired()
      && (forall fd :: 0 <= fd < |entries| ==>
            entries[fd].Counts(fd) && Target(entries, changes, kernel, fd) == entries[fd].Wanted())
      && (forall e :: e in live <==> 0 <= e.fd < |entries| && entries[e.fd].Entry? && e in entries[e.fd].events)
    }

    constructor (queued: bool, ghost level: bool)
      ensures Valid() && live == {} && kernel == map[] && changes == []
      ensures this.queued == queued && this.level == level
    {
      this.queued, this.level := queued, level;
      entries, changes, changesSize, kernel, live := [], [], 0, map[], {};
    }

    /** evmap_make_space */
    method MakeSpace(fd: nat)
      requires Valid()
      modifies `entries
      ensures Valid() && fd < |entries| && old(entries) <= entries
      ensures forall i :: |old(entries)| <= i < |entries| ==> entries[i].NoEntry?
      ensures fd < |old(entries)| ==> entries == old(entries)
      ensures fd >= |old(entries)| ==>
        var first := if |old(entries)| > 0 then |old(entries)| else 32;
        (exists k :: |entries| == first * Pow2(k)) && (|entries| == first || |entries| <= 2 * fd)
    {
      hide Slot.Counts;
      if fd >= |entries| {
        var first := if |entries| > 0 then |entries| else 32;
        var n := first;
        ghost var k := 0;
        while n <= fd
          invariant n >= |entries| && n > 0 && n == first * Pow2(k) && (n == first || n <= 2 * fd)
        {
          n, k := 2 * n, k + 1;
        }
        assert forall i :: |entries| <= i < n ==> NoEntry.Counts(i) by { EmptyCounts(); }
        entries := entries + seq(n - |entries|, _ => NoEntry);
      }
    }

    /** The construction of a missing entry by GET_IO_SLOT_AND_CTOR. */
    method Construct(fd: nat)
      requires Valid() && fd < |entries|
      modifies `entries
      ensures Valid() && |entries| == |old(entries)| && entries[fd].Entry?
      ensures entries == if old(entries[fd]).Entry? then old(entries) else old(entries)[fd := Entry([], 0, 0, 0)]
    {
      hide Slot.Counts, Indexed, Truthful;
      if entries[fd].NoEntry? {
        EmptyCounts();
        NewEntry(Now(), fd);
        entries := entries[fd := Entry([], 0, 0, 0)];
      }
    }

    /** The entry of an fd, made if it is not there. */
    method GetSlot(fd: nat)
      requires Valid()
      modifies `entries
      ensures Valid() && fd < |entries| && entries[fd].Entry?
      ensures IdxOf(entries, fd) == old(IdxOf(entries, fd)) && WantedAt(entries, fd) == old(WantedAt(entries, fd))
    {
      hide Slot.Counts, Indexed, Truthful;
      MakeSpace(fd);
      Construct(fd);
    }

    ghost function Now(): View
      reads this
    {
      View(entries, changes, kernel)
    }

    /** event_changelist_get_or_construct; the array grows by doubling from 64. */
    method GetOrConstruct(fd: int, was: Events) returns (idx: nat)
      requires Wired() && queued && 0 <= fd < |entries| && entries[fd].Entry?
      requires entries[fd].idxplus1 == 0 ==> was == Seen(kernel, fd)
      modifies `entries, `changes, `changesSize
      ensures Wired() && Retargeted(old(Now()), Now(), fd, old(Target(entries, changes, kernel, fd)))
      ensures idx < |changes| && changes[idx].fd == fd && entries[fd].idxplus1 == idx + 1
      ensures idx == PlaceIn(old(changes), old(entries[fd].idxplus1))
      ensures changes == Opened(old(changes), old(entries[fd].idxplus1), fd, was)
    {
      hide Indexed, Retargeted;
      IndexOf(Now(), fd);
      if entries[fd].idxplus1 == 0 {
        if |changes| == changesSize {
          changesSize := if changesSize < 64 then 64 else changesSize * 2;
        }
        idx := |changes|;
        AppendTargets(Now(), Change(fd, was, Keep, Keep));
        changes := changes + [Change(fd, was, Keep, Keep)];
        entries := entries[fd := entries[fd].(idxplus1 := idx + 1)];
      } else {
        idx := entries[fd].idxplus1 - 1;
      }
    }

    /** Store a new mark pair in change `idx`. */
    method SetMarks(idx: nat, read: Mark, write: Mark)
      requires Wired() && queued && idx < |changes|
      requires changes[idx].(read := read, write := write).Sensible()
      requires level ==> changes[idx].(read := read, write := write).LevelOnly()
      modifies `changes
      ensures Wired() && changes == old(changes)[idx := old(changes[idx]).(read := read, write := write)]
      ensures Retargeted(old(Now()), Now(), changes[idx].fd, changes[idx].After())
    {
      hide Indexed, Retargeted;
      var ch := changes[idx].(read := read, write := write);
      MarkTargets(Now(), idx, ch);
      changes := changes[idx := ch];
    }

    /** event_changelist_add */
    method ChangelistAdd(fd: int, was: Events, add: Events, et: bool)
      requires Wired() && queued && 0 <= fd < |entries| && entries[fd].Entry? && (level ==> !et)
      requires was == Target(entries, changes, kernel, fd)
      modifies `entries, `changes, `changesSize
      ensures Wired() && Retargeted(old(Now()), Now(), fd, Events(was.read || add.read, was.write || add.write))
      ensures old(IdxOf(entries, fd)) <= |old(changes)|
      ensures changes == QueueAdd(old(changes), old(IdxOf(entries, fd)), fd, was, add, et)
    {
      hide Indexed, Retargeted, Change.After;
      IndexOf(Now(), fd);
      ghost var v := Now();
      var idx := GetOrConstruct(fd, was);
      ghost var u := Now();
      FirstTarget(v, u, fd, was, idx);
      var ch := changes[idx];
      AddingAfter(ch, add, et);
      SetMarks(idx, if add.read then Added(et) else ch.read, if add.write then Added(et) else ch.write);
      RetargetTwice(v, u, Now(), fd, was, changes[idx].After());
    }

    /** event_changelist_del */
    method ChangelistDel(fd: int, was: Events, del: Events)
      requires Wired() && queued && 0 <= fd < |entries| && entries[fd].Entry?
      requires was == Target(entries, changes, kernel, fd) && (del.read ==> was.read) && (del.write ==> was.write)
      modifies `entries, `changes, `changesSize
      ensures Wired() && Retargeted(old(Now()), Now(), fd, Events(was.read && !del.read, was.write && !del.write))
      ensures old(IdxOf(entries, fd)) <= |old(changes)|
      ensures changes == QueueDel(old(changes), old(IdxOf(entries, fd)), fd, was, del)
    {
      hide Indexed, Retargeted, Change.After;
      IndexOf(Now(), fd);
      ghost var v := Now();
      var idx := GetOrConstruct(fd, was);
      ghost var u := Now();
      FirstTarget(v, u, fd, was, idx);
      var ch := changes[idx];
      DeletingAfter(ch, del);
      var read := if !del.read then ch.read else if !ch.was.read && ch.read.Added? then Keep else Deleted;
      var write := if !del.write then ch.write else if !ch.was.write && ch.write.Added? then Keep else Deleted;
      SetMarks(idx, read, write);
      RetargetTwice(v, u, Now(), fd, was, changes[idx].After());
    }

    /** epoll_nochangelist_add and epoll_nochangelist_del */
    method Direct(ch: Change) returns (ret: int)
      requires Wired() && !queued && 0 <= ch.fd < |entries| && entries[ch.fd].Entry?
      requires ch.was == Seen(kernel, ch.fd) && ch.Sensible() && (level ==> ch.LevelOnly())
      modifies `kernel
      ensures Wired() && ret == 0 && Retargeted(old(Now()), Now(), ch.fd, ch.After())
      ensures kernel == ApplyOne(old(kernel), ch).0
    {
      hide Indexed, Retargeted, Choose, ApplyOne;
      DirectTargets(Now(), ch);
      ApplyOneRight(kernel, ch);
      var (k, r) := ApplyOne(kernel, ch);
      kernel, ret := k, r;
    }

    /** What either back end does with an addition: queue it, or make it at once. */
    ghost predicate ToldAdd(cs: seq<Change>, k: Kernel, cs': seq<Change>, k': Kernel,
                            idxplus1: nat, fd: int, was: Events, add: Events, et: bool) {
      if queued then k' == k && idxplus1 <= |cs| && cs' == QueueAdd(cs, idxplus1, fd, was, add, et)
      else cs' == cs && k' == ApplyOne(k, Change(fd, was, Keep, Keep).Adding(add, et)).0
    }

    ghost predicate ToldDel(cs: seq<Change>, k: Kernel, cs': seq<Change>, k': Kernel,
                            idxplus1: nat, fd: int, was: Events, del: Events) {
      if queued then k' == k && idxplus1 <= |cs| && cs' == QueueDel(cs, idxplus1, fd, was, del)
      else cs' == cs && k' == ApplyOne(k, Change(fd, was, Keep, Keep).Deleting(del)).0
    }

    /** evsel->add */
    method BackendAdd(fd: int, was: Events, add: Events, et: bool) returns (ret: int)
      requires Wired() && 0 <= fd < |entries| && entries[fd].Entry? && (level ==> !et)
      requires was == Target(entries, changes, kernel, fd)
      modifies `entries, `changes, `changesSize, `kernel
      ensures Wired() && ret == 0
      ensures Retargeted(old(Now()), Now(), fd, Events(was.read || add.read, was.write || add.write))
      ensures ToldAdd(old(changes), old(kernel), changes, kernel, old(IdxOf(entries, fd)), fd, was, add, et)
    {
      ret := 0;
      if queued {
        ChangelistAdd(fd, was, add, et);
      } else {
        var read, write := if add.read then Added(et) else Keep, if add.write then Added(et) else Keep;
        ret := Direct(Change(fd, was, read, write));
      }
    }

    /** evsel->del */
    method BackendDel(fd: int, was: Events, del: Events) returns (ret: int)
      requires Wired() && 0 <= fd < |entries| && entries[fd].Entry?
      requires was == Target(entries, changes, kernel, fd) && (del.read ==> was.read) && (del.write ==> was.write)
      modifies `entries, `changes, `changesSize, `kernel
      ensures Wired() && ret == 0
      ensures Retargeted(old(Now()), Now(), fd, Events(was.read && !del.read, was.write && !del.write))
      ensures ToldDel(old(changes), old(kernel), changes, kernel, old(IdxOf(entries, fd)), fd, was, del)
    {
      ret := 0;
      if queued {
        ChangelistDel(fd, was, del);
      } else {
        var read, write := if del.read then Deleted else Keep, if del.write then Deleted else Keep;
        ret := Direct(Change(fd, was, read, write));
      }
    }

    /** The end of evmap_io_add and evmap_io_del: new list, new counters. */
    method SetSlot(fd: int, slot: Slot, ghost now: set<Event>)
      requires Wired() && 0 <= fd < |entries| && entries[fd].Entry?
      requires slot.Entry? && slot.Counts(fd) && slot.idxplus1 == entries[fd].idxplus1
      requires forall g :: 0 <= g < |entries| ==>
        && entries[g].Counts(g)
        && Target(entries, changes, kernel, g) == (if g == fd then slot else entries[g]).Wanted()
      requires forall e :: e in now <==>
        (if e.fd == fd then e in slot.events else 0 <= e.fd < |entries| && entries[e.fd].Entry? && e in entries[e.fd].events)
      modifies `entries, `live
      ensures Valid() && live == now && entries == old(entries)[fd := slot]
    {
      hide Indexed, Truthful, Slot.Counts, Target;
      SlotUpdate(Now(), fd, slot);
      entries, live := entries[fd := slot], now;
    }

    /** evmap_io_add: -1 on error, 1 if the back end was told something. */
    method IoAdd(ev: Event) returns (ret: int)
      requires Valid() && ev !in live && (level ==> !ev.et)
      modifies `entries, `changes, `changesSize, `kernel, `live
      ensures Valid() && ret in {-1, 0, 1}
      ensures ret == -1 <==> ev.fd >= 0 && Full(old(live), ev)
      ensures live == if ret == -1 || ev.fd < 0 then old(live) else old(live) + {ev}
      ensures ret != 1 ==> changes == old(changes) && kernel == old(kernel)
      ensures var was := old(WantedAt(entries, ev.fd)); var add := Events(ev.read && !was.read, ev.write && !was.write);
        && (ev.fd >= 0 && ret != -1 ==> (ret == 1 <==> add.Any()))
        && (ret == 1 ==> ToldAdd(old(changes), old(kernel), changes, kernel, old(IdxOf(entries, ev.fd)), ev.fd, was, add, ev.et))
    {
      hide Indexed, Truthful, Target, Retargeted, Readers, Writers, ReadersOf, WritersOf, ToldAdd;
      var fd := ev.fd;
      if fd < 0 { return 0; }
      GetSlot(fd);
      var ctx := entries[fd];
      var was := ctx.Wanted();
      CountsAppend(ctx.events, ev);
      CountsAreSizes(ctx.events, fd, live);
      var nread, nwrite := ctx.nread + (if ev.read then 1 else 0), ctx.nwrite + (if ev.write then 1 else 0);
      var add := Events(ev.read && nread == 1, ev.write && nwrite == 1);
      if nread > MAX_EVENTS || nwrite > MAX_EVENTS { return -1; }
      ret := 0;
      if add.Any() {
        var _ := BackendAdd(fd, was, add, ev.et);  // on an open fd epoll_ctl cannot fail
        ret := 1;
      }
      SetSlot(fd, Entry(ctx.events + [ev], nread, nwrite, entries[fd].idxplus1), live + {ev});
    }

    /** evmap_io_del, for an fd beyond the map or an event that is in the map */
    method IoDel(ev: Event) returns (ret: int)
      requires Valid() && (0 <= ev.fd < |entries| ==> ev in live)
      modifies `entries, `changes, `changesSize, `kernel, `live
      ensures Valid() && ret in {-1, 0, 1} && (ret == -1 <==> ev.fd >= |old(entries)|)
      ensures live == if ev.fd < 0 then old(live) else old(live) - {ev}
      ensures ret != 1 ==> changes == old(changes) && kernel == old(kernel)
      ensures 0 <= ev.fd < |old(entries)| ==> (ret == 1 <==> WantedAt(entries, ev.fd) != old(WantedAt(entries, ev.fd)))
      ensures ret == 1 ==>
        var was := old(WantedAt(entries, ev.fd));
        ToldDel(old(changes), old(kernel), changes, kernel, old(IdxOf(entries, ev.fd)), ev.fd, was,
                Events(was.read && !WantedAt(entries, ev.fd).read, was.write && !WantedAt(entries, ev.fd).write))
    {
      hide Indexed, Truthful, Target, Retargeted, Readers, Writers, ReadersOf, WritersOf, ToldDel;
      var fd := ev.fd;
      if fd < 0 { return 0; }
      if fd >= |entries| { return -1; }
      var ctx := entries[fd];
      var was := ctx.Wanted();
      var k := IndexOfEvent(ctx.events, ev);
      CountsRemove(ctx.events, k);
      var nread, nwrite := ctx.nread - (if ev.read then 1 else 0), ctx.nwrite - (if ev.write then 1 else 0);
      var del := Events(ev.read && nread == 0, ev.write && nwrite == 0);
      ret := 0;
      if del.Any() {
        var _ := BackendDel(fd, was, del);
        ret := 1;
      }
      SetSlot(fd, Entry(ctx.events[..k] + ctx.events[k + 1..], nread, nwrite, entries[fd].idxplus1), live - {ev});
    }

    /** epoll_apply_changes */
    method ApplyChanges() returns (ret: int)
      requires Wired()
      modifies `kernel
      ensures ret == 0 && Flushed(old(Now()), kernel, |changes|) && (level ==> LevelOnly([], kernel))
      ensures kernel == ApplyAll(old(kernel), changes)
    {
      hide Choose, ApplyOne, Indexed, Flushed;
      ret := 0;
      FlushStart(Now());
      assert changes[..|changes|] == changes;
      for i := 0 to |changes|
        invariant ret == 0 && Flushed(old(Now()), kernel, i) && (level ==> LevelOnly([], kernel))
        invariant kernel == ApplyAll(old(kernel), changes[..i])
      {
        assert changes[..i + 1][..i] == changes[..i];
        FlushStep(old(Now()), kernel, i);
        var (k, r) := ApplyOne(kernel, changes[i]);
        kernel := k;
        ret := if r < 0 then -1 else ret;
      }
    }

    /** event_changelist_remove_all */
    method RemoveAll()
      requires Indexed(entries, changes)
      modifies `entries, `changes
      ensures changes == [] && |entries| == |old(entries)|
      ensures forall fd :: 0 <= fd < |entries| ==>
        entries[fd] == if old(entries)[fd].Entry? then old(entries)[fd].(idxplus1 := 0) else NoEntry
    {
      ghost var e0 := entries;
      for i := 0 to |changes|
        invariant |entries| == |e0|
        invariant forall fd :: 0 <= fd < |entries| ==>
          entries[fd] == if e0[fd].Entry? && 0 < e0[fd].idxplus1 <= i then e0[fd].(idxplus1 := 0) else e0[fd]
        modifies `entries
      {
        var fd := changes[i].fd;
        entries := entries[fd := entries[fd].(idxplus1 := 0)];
      }
      changes := [];
    }

    /** The start of epoll_dispatch: flush the queue. */
    method Flush()
      requires Valid()
      modifies `entries, `changes, `kernel
      ensures Valid() && changes == [] && kernel == ApplyAll(old(kernel), old(changes)) && live == old(live)
    {
      hide ApplyAll, Readers, Writers, Indexed, Truthful, Target, Flushed;
      var _ := ApplyChanges();
      RemoveAll();
      FlushEnd(old(Now()), entries, kernel);
    }
  }

  method IndexOfEvent(evs: seq<Event>, e: Event) returns (k: nat)
    requires e in evs
    ensures k < |evs| && evs[k] == e
  {
    k := 0;
    while evs[k] != e
      invariant k < |evs| && e in evs[k..]
      decreases |evs| - k
    {
      k := k + 1;
    }
  }
}
