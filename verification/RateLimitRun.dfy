/** Whole runs of one bufferevent under a rate limit. */
module RateLimitRun {
  import opened Prelude
  import opened RateLimit
  import opened RateLimitBev

  datatype Step =
    | Enable(d: Dir)
    | Disable(d: Dir)
    | Suspend(d: Dir, what: Flag)
    | Unsuspend(d: Dir, what: Flag)
    | Ask(d: Dir, tick: nat)
    | Charge(d: Dir, bytes: int)
    | Decrement(d: Dir, bytes: int)
    | Fire(tick: nat)
    | Configure(to: Option<Cfg>, tick: nat)

  /** The flags of others: watermarks, groups, lookups and filters. */
  predicate Allowed(step: Step) {
    (step.Suspend? || step.Unsuspend?) ==> step.what != BW
  }

  /** The fields of a bufferevent at one moment. */
  datatype Snap = Snap(
    limited: bool,
    cfg: Option<Cfg>,
    limit: Sides<int>,
    lastUpdated: nat,
    suspended: Sides<set<Flag>>,
    enabled: Sides<bool>,
    running: Sides<bool>,
    timerPending: bool)

  function Shot(bev: Bev): Snap
    reads bev
  {
    Snap(bev.limited, bev.cfg, bev.limit, bev.lastUpdated, bev.suspended, bev.enabled, bev.running, bev.timerPending)
  }

  const START := Snap(false, None, Sides(0, 0), 0, Sides({}, {}), Sides(false, false), Sides(false, false), false)

  /** A direction runs exactly when it is enabled and nothing suspends it; the timer
      is pending exactly when bandwidth suspends one. */
  function Settled(s: Snap): Snap {
    s.(running := Sides(s.enabled.read && s.suspended.read == {}, s.enabled.write && s.suspended.write == {}),
       timerPending := BW in s.suspended.read || BW in s.suspended.write)
  }

  /** The bucket holds the amount, and a refund does not lift it over its maximum. */
  predicate Payable(s: Snap, d: Dir, bytes: int) {
    s.cfg.Some? && IsSsize(s.limit.Get(d) - bytes) && s.limit.Get(d) - bytes <= s.cfg.value.rates.Get(d).maximum
  }

  /** The buckets filled up to now. */
  function ToppedUp(s: Snap, tick: nat): Snap {
    if s.cfg.None? then s else
      s.(limit := Topped(s.limit, s.cfg.value, s.lastUpdated, tick),
         lastUpdated := if Ticks(s.lastUpdated, tick) == 0 then s.lastUpdated else tick)
  }

  function StoppedSides(s: Snap): Sides<set<Flag>> {
    Sides(Stopped(s.suspended.read, s.limit.read <= 0), Stopped(s.suspended.write, s.limit.write <= 0))
  }

  /** One step.  Amounts that are not payable and a timer that is not pending leave
      everything as it is. */
  function Next(s: Snap, step: Step): Snap {
    match step
    case Enable(d) => Settled(s.(enabled := s.enabled.Put(d, true)))
    case Disable(d) => Settled(s.(enabled := s.enabled.Put(d, false)))
    case Suspend(d, what) => Settled(s.(suspended := s.suspended.Put(d, s.suspended.Get(d) + {what})))
    case Unsuspend(d, what) => Settled(s.(suspended := s.suspended.Put(d, s.suspended.Get(d) - {what})))
    case Ask(d, tick) => ToppedUp(s, tick)
    case Charge(d, bytes) =>
      if !Payable(s, d, bytes) then s else
        var left := s.limit.Get(d) - bytes;
        Settled(s.(limit := s.limit.Put(d, left), suspended := s.suspended.Put(d, Stopped(s.suspended.Get(d), left <= 0))))
    case Decrement(d, bytes) =>
      if !Payable(s, d, bytes) then s else
        var left := s.limit.Get(d) - bytes;
        var flags := s.suspended.Put(d, Stopped(s.suspended.Get(d), left <= 0));
        Settled(s.(limit := s.limit.Put(d, left),
                   suspended := if (s.limit.Get(d) > 0) != (left > 0) then flags else s.suspended))
    case Fire(tick) =>
      if !s.timerPending then s else
        var t := ToppedUp(s, tick);
        Settled(t.(suspended := Sides(Resumed(s.suspended.read, t.limit.read), Resumed(s.suspended.write, t.limit.write))))
    case Configure(to, tick) =>
      if to.None? then
        Settled(s.(cfg := None, suspended := Sides(s.suspended.read - {BW}, s.suspended.write - {BW})))
      else if to == s.cfg then s
      else
        var t := s.(limited := true, cfg := to, limit := Installed(to.value, if s.cfg.Some? then Some(s.limit) else None),
                    lastUpdated := if s.cfg.Some? then s.lastUpdated else tick);
        Settled(t.(suspended := StoppedSides(t)))
  }

  /** The methods do what Next says. */
  method Perform(bev: Bev, step: Step)
    requires bev.Valid() && bev.Capped() && Allowed(step)
    modifies bev
    ensures bev.Valid() && bev.Capped() && Shot(bev) == Next(old(Shot(bev)), step)
  {
    hide Refill, Topped, Installed, Bev.Valid, Bev.SideOk;
    match step {
      case Enable(d) => bev.Enable(d);
      case Disable(d) => bev.Disable(d);
      case Suspend(d, what) => PerformFlag(bev, step);
      case Unsuspend(d, what) => PerformFlag(bev, step);
      case Fire(_) => PerformRefill(bev, step);
      case Configure(_, _) => PerformRefill(bev, step);
      case _ => PerformBytes(bev, step);
    }
    AlreadySettled(bev);
  }

  /** The steps that concern the flags of others. */
  method PerformFlag(bev: Bev, step: Step)
    requires bev.Valid() && bev.Capped() && (step.Suspend? || step.Unsuspend?) && step.what != BW
    modifies bev
    ensures bev.Valid() && bev.Capped() && Shot(bev) == Next(old(Shot(bev)), step)
  {
    match step {
      case Suspend(d, what) => bev.Suspend(d, what);
      case Unsuspend(d, what) => bev.Unsuspend(d, what);
    }
    AlreadySettled(bev);
  }

  /** The steps that move bytes. */
  method PerformBytes(bev: Bev, step: Step)
    requires bev.Valid() && bev.Capped() && (step.Ask? || step.Charge? || step.Decrement?)
    modifies bev
    ensures bev.Valid() && bev.Capped() && Shot(bev) == Next(old(Shot(bev)), step)
  {
    hide Refill, Topped, Installed, Stopped, Resumed, IsSsize, Bev.Valid, Bev.SideOk, Bev.Capped;
    AlreadySettled(bev);
    match step {
      case Ask(d, tick) => var _ := bev.Allowance(d, tick);
      case Charge(d, bytes) =>
        if Payable(Shot(bev), d, bytes) { bev.Charge(d, bytes); }
      case Decrement(d, bytes) =>
        if Payable(Shot(bev), d, bytes) { bev.DecrementLimit(d, bytes); }
    }
    AlreadySettled(bev);
  }

  /** The steps that set the buckets. */
  method PerformRefill(bev: Bev, step: Step)
    requires bev.Valid() && bev.Capped() && (step.Fire? || step.Configure?)
    modifies bev
    ensures bev.Valid() && bev.Capped() && Shot(bev) == Next(old(Shot(bev)), step)
  {
    assert bev.timerPending ==> bev.cfg.Some?;
    hide Refill, Topped, Installed, Stopped, Resumed, IsSsize, Bev.Valid, Bev.SideOk, Bev.Capped;
    AlreadySettled(bev);
    match step {
      case Fire(tick) =>
        if bev.timerPending { bev.RefillCallback(tick); }
      case Configure(to, tick) => bev.SetRateLimit(to, tick);
    }
    AlreadySettled(bev);
  }

  lemma AlreadySettled(bev: Bev)
    requires bev.Valid()
    ensures Shot(bev) == Settled(Shot(bev))
  {
    assert bev.SideOk(Read) && bev.SideOk(Write);
  }

  ghost predicate IsRun(trace: seq<Snap>, steps: seq<Step>) {
    && |trace| == |steps| + 1 && trace[0] == START
    && forall i :: 0 <= i < |steps| ==> trace[i + 1] == Next(trace[i], steps[i])
  }

  /** An empty bucket has stopped its direction, no bucket is fuller than its maximum,
      whatever bandwidth has stopped waits for a pending timer, and a direction runs
      exactly when it is enabled and nothing suspends it. */
  ghost predicate NoneForgotten(s: Snap) {
    && (forall d :: s.cfg.Some? && s.limit.Get(d) <= 0 ==> BW in s.suspended.Get(d))
    && (forall d :: s.cfg.Some? ==> s.limit.Get(d) <= s.cfg.value.rates.Get(d).maximum)
    && (s.timerPending <==> exists d :: BW in s.suspended.Get(d))
    && (forall d :: BW in s.suspended.Get(d) ==> s.cfg.Some?)
    && (forall d :: s.running.Get(d) <==> s.enabled.Get(d) && s.suspended.Get(d) == {})
  }

  lemma ValidForgetsNone(bev: Bev)
    requires bev.Valid() && bev.Capped()
    ensures NoneForgotten(Shot(bev))
  {
    assert bev.SideOk(Read) && bev.SideOk(Write);
    assert bev.suspended.Get(Read) == bev.suspended.read && bev.suspended.Get(Write) == bev.suspended.write;
  }

  /** The states of a run, made by the methods: each follows from the one before as
      Next says, and none of them forgets a wake-up. */
  method Run(steps: seq<Step>) returns (trace: seq<Snap>)
    requires forall i :: 0 <= i < |steps| ==> Allowed(steps[i])
    ensures IsRun(trace, steps) && forall i :: 0 <= i < |trace| ==> NoneForgotten(trace[i])
  {
    hide Allowed, Next, NoneForgotten;
    var bev := new Bev();
    trace := [Shot(bev)];
    ValidForgetsNone(bev);
    for i := 0 to |steps|
      invariant fresh(bev) && bev.Valid() && bev.Capped()
      invariant |trace| == i + 1 && trace[0] == START && trace[i] == Shot(bev)
      invariant forall j :: 0 <= j < i ==> trace[j + 1] == Next(trace[j], steps[j])
      invariant forall j :: 0 <= j <= i ==> NoneForgotten(trace[j])
    {
      Perform(bev, steps[i]);
      ValidForgetsNone(bev);
      trace := trace + [Shot(bev)];
    }
  }

  /** Without Payable: a refund over the maximum, then one tick, and reading goes on
      although its bucket is empty and no timer will wake it. */
  method RefundForgets() returns (bev: Bev)
    ensures bev.cfg.Some? && bev.limit.read < 0 && BW !in bev.suspended.read && !bev.timerPending
  {
    hide Refill;
    bev := new Bev();
    var r: Rate := RateRec(5, 10);
    bev.SetRateLimit(Some(Cfg(0, Sides(r, r))), 0);
    bev.Charge(Read, 5 - EV_SSIZE_MAX);
    FullBucketEmpties();
    RefillIsCapped(5, r, 1);
    bev.Update(1);
  }
}
