/** Whole runs of the event map: queuing the changes and flushing them tells the
    kernel the same as making every change at once. */
module EvmapRun {
  import opened Evmap

  /** What the event loop asks for: event_add, event_del, or a dispatch. */
  datatype Step = AddEvent(ev: Event) | DelEvent(ev: Event) | Dispatch

  /** The events registered after a script.  An event is added once; a counter
      that is full refuses it, and so does a negative fd. */
  function LiveAfter(script: seq<Step>): set<Event> {
    if script == [] then {} else
      var live := LiveAfter(script[..|script| - 1]);
      match script[|script| - 1]
      case AddEvent(ev) => if ev.fd < 0 || ev in live || Full(live, ev) then live else live + {ev}
      case DelEvent(ev) => live - {ev}
      case Dispatch => live
  }

  /** What the registered events ask the kernel to watch. */
  function Watched(live: set<Event>, fd: int): Events {
    Events(ReadersOf(live, fd) != {}, WritersOf(live, fd) != {})
  }

  ghost predicate LevelScript(script: seq<Step>) {
    forall i :: 0 <= i < |script| && script[i].AddEvent? ==> !script[i].ev.et
  }

  /** With nothing pending the kernel watches what the counters say. */
  lemma Settled(b: Base)
    requires b.Valid() && b.changes == []
    ensures forall fd :: Seen(b.kernel, fd) == Watched(b.live, fd)
    ensures forall fd :: fd in b.kernel <==> Watched(b.live, fd).Any()
    ensures b.level ==> forall fd :: fd in b.kernel ==> !b.kernel[fd].et
  {
    hide Readers, Writers, Indexed, ReadersOf, WritersOf;
    forall fd
      ensures Seen(b.kernel, fd) == Watched(b.live, fd)
    {
      SettledOne(b, fd);
    }
  }

  lemma SettledOne(b: Base, fd: int)
    requires b.Valid() && b.changes == []
    ensures Seen(b.kernel, fd) == Watched(b.live, fd)
  {
    hide Readers, Writers, ReadersOf, WritersOf;
    WantedIsWatched(b, fd);
  }

  /** The counters say what the registered events ask for. */
  lemma WantedIsWatched(b: Base, fd: int)
    requires b.Valid()
    ensures WantedAt(b.entries, fd) == Watched(b.live, fd)
  {
    hide Readers, Writers;
    if 0 <= fd < |b.entries| && b.entries[fd].Entry? {
      var s := b.entries[fd];
      CountsPositive(s.events);
      assert forall e :: e in s.events <==> e in b.live && e.fd == fd;
      assert s.nread > 0 <==> ReadersOf(b.live, fd) != {} by {
        if s.nread > 0 {
          var e :| e in s.events && e.read;
          assert e in ReadersOf(b.live, fd);
        }
      }
      assert s.nwrite > 0 <==> WritersOf(b.live, fd) != {} by {
        if s.nwrite > 0 {
          var e :| e in s.events && e.write;
          assert e in WritersOf(b.live, fd);
        }
      }
    } else {
      assert ReadersOf(b.live, fd) == {} && WritersOf(b.live, fd) == {};
    }
  }

  method Perform(b: Base, st: Step)
    requires b.Valid() && (b.level && st.AddEvent? ==> !st.ev.et)
    modifies b
    ensures b.Valid()
    ensures b.live ==
      match st
      case AddEvent(ev) => if ev.fd < 0 || ev in old(b.live) || Full(old(b.live), ev) then old(b.live) else old(b.live) + {ev}
      case DelEvent(ev) => old(b.live) - {ev}
      case Dispatch => old(b.live)
  {
    hide Indexed, Truthful, Target, Slot.Counts, Full;
    match st
    case AddEvent(ev) =>
      var here := 0 <= ev.fd < |b.entries| && b.entries[ev.fd].Entry? && ev in b.entries[ev.fd].events;
      if !here { var _ := b.IoAdd(ev); }
    case DelEvent(ev) =>
      var here := 0 <= ev.fd < |b.entries| && b.entries[ev.fd].Entry? && ev in b.entries[ev.fd].events;
      if here { var _ := b.IoDel(ev); }
    case Dispatch =>
      b.Flush();
  }

  /** Run a script on a queuing or a direct back end, and flush at the end. */
  method Run(queued: bool, script: seq<Step>) returns (kernel: Kernel)
    ensures forall fd :: Seen(kernel, fd) == Watched(LiveAfter(script), fd)
    ensures forall fd :: fd in kernel <==> Watched(LiveAfter(script), fd).Any()
    ensures LevelScript(script) ==> forall fd :: fd in kernel ==> !kernel[fd].et
  {
    hide Indexed, Truthful, Target, Slot.Counts, Full, ReadersOf, WritersOf;
    var b := new Base(queued, LevelScript(script));
    for i := 0 to |script|
      invariant fresh(b) && b.Valid() && b.live == LiveAfter(script[..i]) && b.level == LevelScript(script)
    {
      assert script[..i + 1][..i] == script[..i];
      Perform(b, script[i]);
    }
    assert script[..|script|] == script;
    b.Flush();
    Settled(b);
    kernel := b.kernel;
  }

  /** Queuing refines immediate updates: for every script, with dispatches
      anywhere in it, both kernels watch exactly READ for fds with a reader and
      WRITE for fds with a writer; they are equal maps if no event is
      edge-triggered. */
  method RunBoth(script: seq<Step>) returns (queued: Kernel, direct: Kernel)
    ensures forall fd :: Seen(queued, fd) == Seen(direct, fd) == Watched(LiveAfter(script), fd)
    ensures queued.Keys == direct.Keys
    ensures LevelScript(script) ==> queued == direct
  {
    hide LiveAfter, Watched;
    queued := Run(true, script);
    direct := Run(false, script);
    assert forall fd :: fd in queued.Keys <==> fd in direct.Keys;
    if LevelScript(script) {
      forall fd | fd in queued
        ensures queued[fd] == direct[fd]
      {
        assert Seen(queued, fd) == Seen(direct, fd);
      }
    }
  }

  const READER := Event(1, 3, true, false, true)
  const WRITER := Event(2, 3, false, true, true)

  /** A base that watches an edge-triggered reader, with nothing pending. */
  method WithReader(queued: bool) returns (b: Base)
    ensures fresh(b) && b.Valid() && b.queued == queued && !b.level && b.live == {READER} && b.changes == []
    ensures b.kernel == map[3 := Interest(true, false, true)]
    ensures WantedAt(b.entries, 3) == Events(true, false) && IdxOf(b.entries, 3) == 0
  {
    hide Readers, Writers, Full;
    b := new Base(queued, false);
    NeverFull(b.live, READER);
    var ret := b.IoAdd(READER);
    assert ret == 1;
    if queued {
      AppliedOne(b.kernel, b.changes);
    } else {
      AppliedNone(b.kernel);
    }
    b.Flush();
    AtRest(b, 3);
  }

  lemma NeverFull(live: set<Event>, ev: Event)
    requires |live| < MAX_EVENTS
    ensures !Full(live, ev)
  {
    SubsetSize(ReadersOf(live, ev.fd), live);
    SubsetSize(WritersOf(live, ev.fd), live);
  }

  lemma {:induction false} SubsetSize(a: set<Event>, b: set<Event>)
    requires a <= b
    ensures |a| <= |b|
  {
    if a != {} {
      var x :| x in a;
      SubsetSize(a - {x}, b - {x});
    }
  }

  lemma AppliedNone(k: Kernel)
    ensures ApplyAll(k, []) == k
  {
  }

  lemma AppliedOne(k: Kernel, changes: seq<Change>)
    requires |changes| == 1
    ensures ApplyAll(k, changes) == ApplyOne(k, changes[0]).0
  {
  }

  /** With nothing pending an entry has no change and wants what is watched. */
  lemma AtRest(b: Base, fd: int)
    requires b.Valid() && b.changes == []
    ensures WantedAt(b.entries, fd) == Seen(b.kernel, fd) && IdxOf(b.entries, fd) == 0
  {
  }

  lemma WatchedHere()
    ensures Watched({READER}, 3) == Events(true, false) && Watched({READER, WRITER}, 3) == Events(true, true)
  {
    assert READER in ReadersOf({READER}, 3) && WritersOf({READER}, 3) == {};
    assert READER in ReadersOf({READER, WRITER}, 3) && WRITER in WritersOf({READER, WRITER}, 3);
  }

  /** Then a writer was added. */
  method WithBoth(queued: bool) returns (b: Base)
    ensures fresh(b) && b.Valid() && b.queued == queued && b.live == {READER, WRITER}
    ensures WantedAt(b.entries, 3) == Events(true, true) && 3 < |b.entries|
    ensures if queued
      then b.changes == [Change(3, Events(true, false), Keep, Added(true))] && IdxOf(b.entries, 3) == 1 &&
           b.kernel == map[3 := Interest(true, false, true)]
      else b.changes == [] && IdxOf(b.entries, 3) == 0 && b.kernel == map[3 := Interest(true, true, true)]
  {
    hide Readers, Writers, ReadersOf, WritersOf, Full, Watched;
    WatchedHere();
    b := WithReader(queued);
    NeverFull(b.live, WRITER);
    var ret := b.IoAdd(WRITER);
    WantedIsWatched(b, 3);
    if queued {
      assert Owner(b.entries, b.changes[0].fd, 0);
    } else {
      AtRest(b, 3);
    }
  }

  /** With edge-triggered events the two back ends can part: adding and then deleting
      a writer beside the reader costs the direct back end the EPOLLET bit, while the
      queue folds both into nothing. */
  method WriterComesAndGoes(queued: bool) returns (kernel: Kernel)
    ensures Seen(kernel, 3) == Events(true, false) && 3 in kernel && (kernel[3].et <==> queued)
  {
    hide Readers, Writers, ReadersOf, WritersOf, Full, Watched;
    WatchedHere();
    var b := WithBoth(queued);
    assert {READER, WRITER} - {WRITER} == {READER};
    var ret := b.IoDel(WRITER);
    WantedIsWatched(b, 3);
    if queued {
      AppliedOne(b.kernel, b.changes);
    } else {
      AppliedNone(b.kernel);
    }
    b.Flush();
    kernel := b.kernel;
  }
}
