/** The rate-limit group of libevent/bufferevent_ratelim.c as a protocol between
    threads: the group lock nests inside the bufferevent locks, so sweeps over the
    members take those with try-lock and may fail.  Reading and writing have the
    same code on separate flags; this is one of the two. */
module RateGroup {

  type Bev = nat
  type Thread = nat

  /** What the holder of the group lock is doing to the members in `todo`. */
  datatype Phase =
    | Idle
    | Suspending(t: Thread, todo: seq<Bev>)
    | Unsuspending(t: Thread, todo: seq<Bev>, again: bool)

  datatype State = State(
    members: seq<Bev>,
    suspended: bool,              // read_suspended of the group
    pending: bool,                // pending_unsuspend_read
    flagged: set<Bev>,            // those with BEV_SUSPEND_BW_GROUP
    locks: map<Bev, Thread>,      // bufferevent locks that are held
    joining: map<Bev, bool>,      // between the two steps of a join; rsuspend
    leaving: set<Bev>,            // between the two steps of a leave
    phase: Phase)

  /** One atomic step; `taken` is the outcome of a try-lock. */
  datatype Action =
    | Lock(b: Bev, t: Thread)
    | Unlock(b: Bev)
    | JoinBegin(b: Bev)
    | JoinEnd(b: Bev)
    | LeaveBegin(b: Bev)
    | LeaveEnd(b: Bev)
    | CheckAllowance(b: Bev)
    | SuspendBegin(t: Thread)
    | UnsuspendBegin(t: Thread, which: nat)
    | Visit(taken: bool)
    | SweepEnd

  /** The order of FOREACH_RANDOM_ORDER that starts at member `which`. */
  function Rotated(members: seq<Bev>, which: nat): seq<Bev> {
    if members == [] then [] else members[which % |members|..] + members[..which % |members|]
  }

  function Without(s: seq<Bev>, b: Bev): seq<Bev> {
    if s == [] then [] else if s[0] == b then s[1..] else [s[0]] + Without(s[1..], b)
  }

  /** The thread is in the middle of joining or leaving. */
  predicate Busy(s: State, t: Thread) {
    exists b :: b in s.locks && s.locks[b] == t && (b in s.joining || b in s.leaving)
  }

  /** Another thread than `t` holds the lock of `b`. */
  predicate HeldElsewhere(s: State, b: Bev, t: Thread) {
    b in s.locks && s.locks[b] != t
  }

  predicate Enabled(s: State, a: Action) {
    match a
    case Lock(b, t) => b !in s.locks
    case Unlock(b) => b in s.locks && b !in s.joining && b !in s.leaving
    case JoinBegin(b) =>
      s.phase.Idle? && b in s.locks && b !in s.members && b !in s.joining && b !in s.leaving && !Busy(s, s.locks[b])
    case JoinEnd(b) => b in s.joining
    case LeaveBegin(b) =>
      s.phase.Idle? && b in s.locks && b in s.members && b !in s.joining && b !in s.leaving && !Busy(s, s.locks[b])
    case LeaveEnd(b) => b in s.leaving
    case CheckAllowance(b) =>
      s.phase.Idle? && b in s.locks && b in s.members && b !in s.joining && b !in s.leaving
    case SuspendBegin(t) => s.phase.Idle? && !Busy(s, t)
    case UnsuspendBegin(t, _) => s.phase.Idle? && !Busy(s, t)
    case Visit(taken) =>
      !s.phase.Idle? && s.phase.todo != [] && (taken <==> !HeldElsewhere(s, s.phase.todo[0], s.phase.t))
    case SweepEnd => !s.phase.Idle? && s.phase.todo == []
  }

  function Next(s: State, a: Action): State
    requires Enabled(s, a)
  {
    match a
    case Lock(b, t) => s.(locks := s.locks[b := t])
    case Unlock(b) => s.(locks := s.locks - {b})
    case JoinBegin(b) => s.(members := s.members + [b], joining := s.joining[b := s.suspended])
    case JoinEnd(b) =>
      s.(flagged := if s.joining[b] then s.flagged + {b} else s.flagged, joining := s.joining - {b})
    case LeaveBegin(b) => s.(members := Without(s.members, b), leaving := s.leaving + {b})
    case LeaveEnd(b) => s.(flagged := s.flagged - {b}, leaving := s.leaving - {b})
    case CheckAllowance(b) => if s.suspended then s.(flagged := s.flagged + {b}) else s
    case SuspendBegin(t) => s.(suspended := true, pending := false, phase := Suspending(t, s.members))
    case UnsuspendBegin(t, which) =>
      s.(suspended := false, phase := Unsuspending(t, Rotated(s.members, which), false))
    case Visit(taken) =>
      var b, rest := s.phase.todo[0], s.phase.todo[1..];
      if s.phase.Suspending? then
        s.(flagged := if taken then s.flagged + {b} else s.flagged, phase := Suspending(s.phase.t, rest))
      else
        s.(flagged := if taken then s.flagged - {b} else s.flagged,
           phase := Unsuspending(s.phase.t, rest, s.phase.again || !taken))
    case SweepEnd =>
      if s.phase.Suspending? then s.(phase := Idle) else s.(pending := s.phase.again, phase := Idle)
  }

  /** The flag is set, or the second step of the join will set it. */
  predicate Marked(s: State, b: Bev) {
    b in s.flagged || (b in s.joining && s.joining[b])
  }

  ghost predicate Distinct(s: seq<Bev>) {
    forall i, j :: 0 <= i < j < |s| ==> s[i] != s[j]
  }

  ghost predicate Inv(s: State) {
    && Distinct(s.members)
    // locks cover joins and leaves; flags are on members or on those just leaving
    && (forall b :: b in s.joining ==> b in s.locks && b in s.members && b !in s.leaving && b !in s.flagged)
    && (forall b :: b in s.leaving ==> b in s.locks && b !in s.members)
    && (forall b :: b in s.flagged ==> b in s.members || b in s.leaving)
    && match s.phase
       case Idle => forall b :: b in s.members && Marked(s, b) ==> s.suspended || s.pending
       case Suspending(t, todo) =>
         s.suspended && !Busy(s, t) && (forall b :: b in todo ==> b in s.members)
       case Unsuspending(t, todo, again) =>
         && !s.suspended && !Busy(s, t) && (forall b :: b in todo ==> b in s.members)
         && (forall b :: b in s.members && Marked(s, b) ==> b in todo || again)
  }

  lemma {:induction false} WithoutMembers(s: seq<Bev>, b: Bev)
    requires Distinct(s)
    ensures Distinct(Without(s, b)) && forall x :: x in Without(s, b) <==> x in s && x != b
  {
    if s != [] {
      WithoutMembers(s[1..], b);
      assert forall x :: x in s <==> x == s[0] || x in s[1..];
      if s[0] != b {
        DistinctCons(s[0], Without(s[1..], b));
      }
    }
  }

  lemma DistinctCons(x: Bev, s: seq<Bev>)
    requires Distinct(s) && x !in s
    ensures Distinct([x] + s)
  {
  }

  lemma RotatedMembers(s: seq<Bev>, which: nat)
    ensures multiset(Rotated(s, which)) == multiset(s) && forall x :: x in Rotated(s, which) <==> x in s
  {
    if s != [] {
      var k := which % |s|;
      assert s == s[..k] + s[k..];
      assert multiset(s) == multiset(s[..k]) + multiset(s[k..]) == multiset(Rotated(s, which));
      assert forall x :: x in Rotated(s, which) <==> x in s[k..] || x in s[..k];
    }
  }

  /** A sweep that could take the lock of a member found no join in progress. */
  lemma TakenIsSettled(s: State, b: Bev, t: Thread)
    requires Inv(s) && !HeldElsewhere(s, b, t) && !Busy(s, t)
    ensures b !in s.joining && b !in s.leaving
  {
  }

  /** Every step of every thread keeps the invariant. */
  lemma InvNext(s: State, a: Action)
    requires Inv(s) && Enabled(s, a)
    ensures Inv(Next(s, a))
  {
    hide Distinct, Without, Rotated;
    match a
    case Lock(b, t) => LockNext(s, b, t);
    case Unlock(b) =>
    case JoinBegin(b) => JoinNext(s, b);
    case JoinEnd(b) =>
    case LeaveBegin(b) => LeaveNext(s, b);
    case LeaveEnd(b) =>
    case CheckAllowance(b) =>
    case SuspendBegin(t) =>
    case UnsuspendBegin(t, which) => RotatedMembers(s.members, which);
    case Visit(taken) => VisitNext(s, taken);
    case SweepEnd =>
  }

  lemma LockNext(s: State, b: Bev, t: Thread)
    requires Inv(s) && Enabled(s, Lock(b, t))
    ensures Inv(Next(s, Lock(b, t)))
  {
  }

  lemma JoinNext(s: State, b: Bev)
    requires Inv(s) && Enabled(s, JoinBegin(b))
    ensures Inv(Next(s, JoinBegin(b)))
  {
  }

  lemma LeaveNext(s: State, b: Bev)
    requires Inv(s) && Enabled(s, LeaveBegin(b))
    ensures Inv(Next(s, LeaveBegin(b)))
  {
    WithoutMembers(s.members, b);
  }

  lemma VisitNext(s: State, taken: bool)
    requires Inv(s) && Enabled(s, Visit(taken))
    ensures Inv(Next(s, Visit(taken)))
  {
    var b := s.phase.todo[0];
    assert forall x :: x in s.phase.todo <==> x == b || x in s.phase.todo[1..];
    if taken {
      TakenIsSettled(s, b, s.phase.t);
    }
  }

  const START := State([], false, false, {}, map[], map[], {}, Idle)

  /** A run: each state follows from the one before by a possible step. */
  ghost predicate IsRun(states: seq<State>, actions: seq<Action>) {
    && |states| == |actions| + 1 && states[0] == START
    && forall i :: 0 <= i < |actions| ==> Enabled(states[i], actions[i]) && states[i + 1] == Next(states[i], actions[i])
  }

  /** In every state of every interleaving: with the group lock free, a member
      that the group has stopped is stopped by a suspended group, or an unsuspend
      is still pending. */
  lemma {:induction false} NeverForgotten(states: seq<State>, actions: seq<Action>, i: nat)
    requires IsRun(states, actions) && i < |states|
    ensures Inv(states[i])
    ensures states[i].phase.Idle? ==>
      forall b :: b in states[i].members && b in states[i].flagged ==> states[i].suspended || states[i].pending
  {
    hide Next, Enabled;
    if i == 0 {
      StartOk();
    } else {
      NeverForgotten(states, actions, i - 1);
      InvNext(states[i - 1], actions[i - 1]);
      assert states[i - 1 + 1] == Next(states[i - 1], actions[i - 1]);
    }
  }

  lemma StartOk()
    ensures Inv(START)
  {
  }

  // ----- what whole sweeps, joins and leaves do -----

  /** From `i` on the group lock is held for one sweep, up to step `j`. */
  ghost predicate Sweeps(states: seq<State>, actions: seq<Action>, i: nat, j: nat) {
    && IsRun(states, actions) && i < j <= |actions| && (actions[i].SuspendBegin? || actions[i].UnsuspendBegin?)
    && forall x :: i < x < j ==> !actions[x].SweepEnd?
  }

  /** How many members have been visited by steps `lo` to `hi`. */
  function Visits(actions: seq<Action>, lo: nat, hi: nat): nat
    requires lo <= hi <= |actions|
  {
    if lo == hi then 0 else Visits(actions, lo, hi - 1) + if actions[hi - 1].Visit? then 1 else 0
  }

  /** The order in which a sweep takes the members. */
  function OrderOf(members: seq<Bev>, begin: Action): seq<Bev>
    requires begin.SuspendBegin? || begin.UnsuspendBegin?
  {
    if begin.SuspendBegin? then members else Rotated(members, begin.which)
  }

  lemma RunStep(states: seq<State>, actions: seq<Action>, i: nat)
    requires IsRun(states, actions) && i < |actions|
    ensures Enabled(states[i], actions[i]) && states[i + 1] == Next(states[i], actions[i]) && Inv(states[i])
  {
    NeverForgotten(states, actions, i);
  }

  /** In a sweep that `begin` started in `was`, after `v` visits: the members stay, those not yet
      visited are the rest of its order, and `again` tells of a try-lock that failed. */
  predicate Midway(was: State, begin: Action, s: State, v: nat, failed: bool)
    requires begin.SuspendBegin? || begin.UnsuspendBegin?
  {
    var order := OrderOf(was.members, begin);
    && s.members == was.members && v <= |order| && !s.phase.Idle? && s.phase.t == begin.t && s.phase.todo == order[v..]
    && s.phase.Suspending? == begin.SuspendBegin? && s.suspended == begin.SuspendBegin?
    && (s.phase.Suspending? ==> !s.pending)
    && (s.phase.Unsuspending? ==> s.phase.again == failed)
  }

  lemma MidwayFirst(was: State, begin: Action)
    requires (begin.SuspendBegin? || begin.UnsuspendBegin?) && Inv(was) && Enabled(was, begin)
    ensures Midway(was, begin, Next(was, begin), 0, false)
  {
    hide Inv, Rotated, Busy;
    var order := OrderOf(was.members, begin);
    assert order[0..] == order;
  }

  lemma MidwayStep(was: State, begin: Action, s: State, v: nat, failed: bool, a: Action)
    requires (begin.SuspendBegin? || begin.UnsuspendBegin?) && Midway(was, begin, s, v, failed)
    requires Enabled(s, a) && !a.SweepEnd?
    ensures Midway(was, begin, Next(s, a), v + (if a.Visit? then 1 else 0), failed || a == Visit(false))
  {
    hide Rotated, Busy, OrderOf;
    var order := OrderOf(was.members, begin);
    if a.Visit? {
      assert order[v..][1..] == order[v + 1..];
    }
  }

  lemma {:induction false} Sweeping(states: seq<State>, actions: seq<Action>, i: nat, k: nat)
    requires Sweeps(states, actions, i, k)
    ensures Midway(states[i], actions[i], states[k], Visits(actions, i + 1, k),
                   exists x :: i < x < k && actions[x] == Visit(false))
    decreases k
  {
    hide Inv, Midway, Next, Enabled;
    RunStep(states, actions, k - 1);
    if k > i + 1 {
      Sweeping(states, actions, i, k - 1);
      MidwayStep(states[i], actions[i], states[k - 1], Visits(actions, i + 1, k - 1),
                 exists x :: i < x < k - 1 && actions[x] == Visit(false), actions[k - 1]);
      assert (exists x :: i < x < k && actions[x] == Visit(false)) ==
             ((exists x :: i < x < k - 1 && actions[x] == Visit(false)) || actions[k - 1] == Visit(false));
    } else {
      MidwayFirst(states[i], actions[i]);
    }
  }

  /** A visit is to the member whose turn it is. */
  lemma Visited(states: seq<State>, actions: seq<Action>, i: nat, k: nat)
    requires Sweeps(states, actions, i, k) && k < |actions| && actions[k].Visit?
    ensures var order, v := OrderOf(states[i].members, actions[i]), Visits(actions, i + 1, k);
      !states[k].phase.Idle? && states[k].phase.todo != [] && v < |order| && states[k].phase.todo[0] == order[v]
  {
    hide Inv, Rotated;
    Sweeping(states, actions, i, k);
    RunStep(states, actions, k);
  }

  lemma {:induction false} VisitsAll(actions: seq<Action>, lo: nat, hi: nat, v: nat) returns (k: nat)
    requires lo <= hi <= |actions| && v < Visits(actions, lo, hi)
    ensures lo <= k < hi && actions[k].Visit? && Visits(actions, lo, k) == v
    decreases hi
  {
    if v < Visits(actions, lo, hi - 1) {
      k := VisitsAll(actions, lo, hi - 1, v);
    } else {
      k := hi - 1;
    }
  }

  /** A whole sweep visits every member. */
  lemma EveryoneVisited(states: seq<State>, actions: seq<Action>, i: nat, j: nat, b: Bev) returns (k: nat)
    requires Sweeps(states, actions, i, j) && j < |actions| && actions[j].SweepEnd? && b in states[i].members
    ensures i < k < j && actions[k].Visit? && !states[k].phase.Idle? && states[k].phase.todo != [] && states[k].phase.todo[0] == b
  {
    hide Inv, Rotated;
    Sweeping(states, actions, i, j);
    RunStep(states, actions, j);
    var order := OrderOf(states[i].members, actions[i]);
    assert order[Visits(actions, i + 1, j)..] == [];
    if actions[i].UnsuspendBegin? {
      RotatedMembers(states[i].members, actions[i].which);
    }
    var v :| 0 <= v < |order| && order[v] == b;
    k := VisitsAll(actions, i + 1, j, v);
    Visited(states, actions, i, k);
  }

  /** In a sweep the flag of a member is touched only by the sweep itself, or by the
      end of a join that was under way. */
  lemma {:induction false} FlagStays(states: seq<State>, actions: seq<Action>, i: nat, k: nat, m: nat, b: Bev)
    requires Sweeps(states, actions, i, m) && i < k <= m && b in states[i].members
    ensures actions[i].SuspendBegin? && b in states[k].flagged ==> b in states[m].flagged
    ensures actions[i].UnsuspendBegin? && b !in states[k].flagged && b !in states[k].joining ==> b !in states[m].flagged
    ensures b !in states[k].joining ==> b !in states[m].joining
    decreases m
  {
    if k < m {
      hide Rotated, Busy;
      FlagStays(states, actions, i, k, m - 1, b);
      Sweeping(states, actions, i, m - 1);
      RunStep(states, actions, m - 1);
    }
  }

  /** The sweep that suspends a group: every member whose lock it got is flagged when
      it is over, and every member is flagged or was locked by another thread. */
  lemma SuspendSweep(states: seq<State>, actions: seq<Action>, i: nat, j: nat)
    requires Sweeps(states, actions, i, j) && j < |actions| && actions[i].SuspendBegin? && actions[j].SweepEnd?
    ensures var end := states[j + 1]; end.phase.Idle? && end.suspended && !end.pending && end.members == states[i].members
    ensures forall k :: i < k < j && actions[k] == Visit(true) ==>
      !states[k].phase.Idle? && states[k].phase.todo != [] && states[k].phase.todo[0] in states[j + 1].flagged
    ensures forall b :: b in states[i].members ==>
      (b in states[j + 1].flagged || exists k :: i < k < j && actions[k] == Visit(false) && HeldElsewhere(states[k], b, actions[i].t))
  {
    hide Inv, Rotated, Busy;
    Sweeping(states, actions, i, j);
    RunStep(states, actions, j);
    forall k | i < k < j && actions[k] == Visit(true)
      ensures !states[k].phase.Idle? && states[k].phase.todo != [] && states[k].phase.todo[0] in states[j + 1].flagged
    {
      TakenIsFlagged(states, actions, i, k, j);
    }
    forall b | b in states[i].members
      ensures b in states[j + 1].flagged ||
        exists k :: i < k < j && actions[k] == Visit(false) && HeldElsewhere(states[k], b, actions[i].t)
    {
      var k := EveryoneVisited(states, actions, i, j, b);
      if actions[k] == Visit(false) {
        Sweeping(states, actions, i, k);
        RunStep(states, actions, k);
        assert HeldElsewhere(states[k], b, actions[i].t);
      }
    }
  }

  lemma TakenIsFlagged(states: seq<State>, actions: seq<Action>, i: nat, k: nat, j: nat)
    requires Sweeps(states, actions, i, j) && i < k < j && actions[i].SuspendBegin? && actions[k] == Visit(true)
    ensures !states[k].phase.Idle? && states[k].phase.todo != [] && states[k].phase.todo[0] in states[j].flagged
  {
    hide Inv, Rotated, Busy;
    Sweeping(states, actions, i, k);
    Visited(states, actions, i, k);
    RunStep(states, actions, k);
    FlagStays(states, actions, i, k + 1, j, states[k].phase.todo[0]);
  }

  lemma TakenIsFree(states: seq<State>, actions: seq<Action>, i: nat, k: nat, j: nat)
    requires Sweeps(states, actions, i, j) && i < k < j && actions[i].UnsuspendBegin? && actions[k] == Visit(true)
    ensures !states[k].phase.Idle? && states[k].phase.todo != [] && states[k].phase.todo[0] !in states[j].flagged
  {
    hide Rotated, Busy;
    Sweeping(states, actions, i, k);
    Visited(states, actions, i, k);
    RunStep(states, actions, k);
    var b := states[k].phase.todo[0];
    TakenIsSettled(states[k], b, states[k].phase.t);
    FlagStays(states, actions, i, k + 1, j, b);
  }

  /** The sweep that unsuspends a group: no member whose lock it got is flagged when it
      is over, and another unsuspend is pending exactly if a lock was not to be had. */
  lemma UnsuspendSweep(states: seq<State>, actions: seq<Action>, i: nat, j: nat)
    requires Sweeps(states, actions, i, j) && j < |actions| && actions[i].UnsuspendBegin? && actions[j].SweepEnd?
    ensures var end := states[j + 1]; end.phase.Idle? && !end.suspended && end.members == states[i].members
    ensures forall k :: i < k < j && actions[k] == Visit(true) ==>
      !states[k].phase.Idle? && states[k].phase.todo != [] && states[k].phase.todo[0] !in states[j + 1].flagged
    ensures states[j + 1].pending <==> exists k :: i < k < j && actions[k] == Visit(false)
    ensures !states[j + 1].pending ==> forall b :: b in states[i].members ==> b !in states[j + 1].flagged
  {
    hide Inv, Rotated, Busy;
    Sweeping(states, actions, i, j);
    RunStep(states, actions, j);
    forall k | i < k < j && actions[k] == Visit(true)
      ensures !states[k].phase.Idle? && states[k].phase.todo != [] && states[k].phase.todo[0] !in states[j + 1].flagged
    {
      TakenIsFree(states, actions, i, k, j);
    }
    if !states[j + 1].pending {
      forall b | b in states[i].members
        ensures b !in states[j + 1].flagged
      {
        var k := EveryoneVisited(states, actions, i, j, b);
        TakenIsFree(states, actions, i, k, j);
      }
    }
  }

  /** A member that asks for its allowance while the group is suspended stops. */
  lemma AllowanceStops(states: seq<State>, actions: seq<Action>, i: nat, b: Bev)
    requires IsRun(states, actions) && i < |actions| && actions[i] == CheckAllowance(b)
    ensures states[i + 1].flagged == if states[i].suspended then states[i].flagged + {b} else states[i].flagged
    ensures states[i + 1].members == states[i].members && states[i + 1].suspended == states[i].suspended
  {
    hide Inv;
    RunStep(states, actions, i);
  }

  /** Between the two steps of a join. */
  lemma {:induction false} Joining(states: seq<State>, actions: seq<Action>, i: nat, k: nat, b: Bev)
    requires IsRun(states, actions) && i < k <= |actions| && actions[i] == JoinBegin(b)
    requires forall x :: i < x < k ==> actions[x] != JoinEnd(b)
    ensures b in states[k].joining && states[k].joining[b] == states[i].suspended
    decreases k
  {
    hide Inv, Next, Enabled;
    RunStep(states, actions, k - 1);
    if k > i + 1 {
      Joining(states, actions, i, k - 1, b);
    }
    JoiningStep(states[k - 1], actions[k - 1], b);
  }

  lemma JoiningStep(s: State, a: Action, b: Bev)
    requires Enabled(s, a)
    ensures a == JoinBegin(b) ==> b in Next(s, a).joining && Next(s, a).joining[b] == s.suspended
    ensures b in s.joining && a != JoinEnd(b) ==> b in Next(s, a).joining && Next(s, a).joining[b] == s.joining[b]
  {
    hide Rotated, Without, Busy;
  }

  /** A bufferevent that has joined is a member, and is stopped exactly if the group was
      suspended when it began to. */
  lemma JoinStops(states: seq<State>, actions: seq<Action>, i: nat, j: nat, b: Bev)
    requires IsRun(states, actions) && i < j < |actions| && actions[i] == JoinBegin(b) && actions[j] == JoinEnd(b)
    requires forall x :: i < x < j ==> actions[x] != JoinEnd(b)
    ensures b in states[j + 1].members && (b in states[j + 1].flagged <==> states[i].suspended)
  {
    hide Rotated, Busy;
    Joining(states, actions, i, j, b);
    RunStep(states, actions, j);
  }

  /** One that has left is neither. */
  lemma LeaveFrees(states: seq<State>, actions: seq<Action>, i: nat, b: Bev)
    requires IsRun(states, actions) && i < |actions| && actions[i] == LeaveEnd(b)
    ensures b !in states[i + 1].members && b !in states[i + 1].flagged
  {
    hide Rotated, Busy;
    RunStep(states, actions, i);
  }

  const ONE := START.(members := [0])

  lemma OneJoins()
    ensures var a := START.(locks := map[0 := 1]);
      var b := a.(members := [0], joining := map[0 := false]);
      var c := ONE.(locks := map[0 := 1]);
      && Enabled(START, Lock(0, 1)) && Next(START, Lock(0, 1)) == a
      && Enabled(a, JoinBegin(0)) && Next(a, JoinBegin(0)) == b
      && Enabled(b, JoinEnd(0)) && Next(b, JoinEnd(0)) == c
      && Enabled(c, Unlock(0)) && Next(c, Unlock(0)) == ONE
  {
  }

  lemma OneStops()
    ensures var a := ONE.(suspended := true, phase := Suspending(2, [0]));
      var b := ONE.(suspended := true, flagged := {0}, phase := Suspending(2, []));
      && Enabled(ONE, SuspendBegin(2)) && Next(ONE, SuspendBegin(2)) == a
      && Enabled(a, Visit(true)) && Next(a, Visit(true)) == b
      && Enabled(b, SweepEnd) && Next(b, SweepEnd) == ONE.(suspended := true, flagged := {0})
  {
    assert [0][1..] == [];
  }

  lemma OneGoes()
    ensures var s := ONE.(suspended := true, flagged := {0});
      var a := ONE.(flagged := {0}, phase := Unsuspending(2, [0], false)); var b := ONE.(phase := Unsuspending(2, [], false));
      && Enabled(s, UnsuspendBegin(2, 0)) && Next(s, UnsuspendBegin(2, 0)) == a
      && Enabled(a, Visit(true)) && Next(a, Visit(true)) == b
      && Enabled(b, SweepEnd) && Next(b, SweepEnd) == ONE
  {
    assert [0][1..] == [] && Rotated([0], 0) == [0];
  }

  /** A member that joins, is stopped with its group and goes on with it. */
  lemma StopAndGo() returns (states: seq<State>, actions: seq<Action>)
    ensures IsRun(states, actions) && |actions| == 10
    ensures actions[4] == SuspendBegin(2) && actions[6] == SweepEnd && actions[7] == UnsuspendBegin(2, 0) && actions[9] == SweepEnd
    ensures states[7].suspended && states[7].members == [0] && states[7].flagged == {0}
    ensures !states[10].suspended && states[10].members == [0] && states[10].flagged == {}
  {
    hide Next, Enabled;
    OneJoins();
    OneStops();
    OneGoes();
    actions := [Lock(0, 1), JoinBegin(0), JoinEnd(0), Unlock(0), SuspendBegin(2), Visit(true), SweepEnd,
                UnsuspendBegin(2, 0), Visit(true), SweepEnd];
    var a := START.(locks := map[0 := 1]);
    var stopped := ONE.(suspended := true, flagged := {0});
    states := [START, a, a.(members := [0], joining := map[0 := false]), ONE.(locks := map[0 := 1]), ONE,
               ONE.(suspended := true, phase := Suspending(2, [0])), stopped.(phase := Suspending(2, [])), stopped,
               ONE.(flagged := {0}, phase := Unsuspending(2, [0], false)), ONE.(phase := Unsuspending(2, [], false)), ONE];
  }

  /** _bev_group_random_element and FOREACH_RANDOM_ORDER: from a random member to
      the end, then from the front up to it.  Every member is visited once. */
  method VisitAll(members: seq<Bev>, random: nat) returns (visited: seq<Bev>)
    requires Distinct(members)
    ensures visited == Rotated(members, random) && multiset(visited) == multiset(members)
    ensures forall i, j :: 0 <= i < j < |visited| ==> visited[i] != visited[j]
  {
    visited := [];
    if |members| == 0 { return; }
    var first := random % |members|;
    var i := first;
    while i < |members|
      invariant first <= i <= |members| && visited == members[first..i]
    {
      visited := visited + [members[i]];
      i := i + 1;
    }
    i := 0;
    while i != first
      invariant 0 <= i <= first && visited == members[first..] + members[..i]
    {
      visited := visited + [members[i]];
      i := i + 1;
    }
    RotatedMembers(members, random);
  }
}
