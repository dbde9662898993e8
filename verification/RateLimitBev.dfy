/** The rate limit of one bufferevent: charging, lazy refills, the refill timer,
    and the flags that suspend reading and writing. */
module RateLimitBev {
  import opened Prelude
  import opened RateLimit

  datatype Dir = Read | Write

  function Other(d: Dir): Dir {
    if d.Read? then Write else Read
  }

  const MAX_TO_MOVE_EVER: int := 16384   // MAX_TO_READ_EVER, MAX_TO_WRITE_EVER

  /** A pair of read_... and write_... fields. */
  datatype Sides<T> = Sides(read: T, write: T) {
    function Get(d: Dir): T { if d.Read? then read else write }

    function Put(d: Dir, x: T): (r: Sides<T>)
      ensures r.Get(d) == x && forall e :: e != d ==> r.Get(e) == Get(e)
    {
      if d.Read? then this.(read := x) else this.(write := x)
    }
  }

  /** The BEV_SUSPEND_... flags. */
  datatype Flag = WM | BW | BW_GROUP | LOOKUP | FILT_READ

  /** A struct ev_token_bucket_cfg; `id` stands for its address. */
  datatype Cfg = Cfg(id: nat, rates: Sides<Rate>)

  /** The ticks that an update counts: the 32-bit difference, unless time ran back. */
  function Ticks(last: nat, tick: nat): (n: nat)
    ensures n == if (tick - last) % TWO_32 > INT_MAX then 0 else (tick - last) % TWO_32
  {
    var n := TicksBetween(last, tick);
    if n > INT_MAX then 0 else n
  }

  /** Both buckets after an update. */
  function Topped(limit: Sides<int>, cfg: Cfg, last: nat, tick: nat): (r: Sides<int>)
    ensures var n := Ticks(last, tick);
      forall d :: r.Get(d) == if n == 0 then limit.Get(d) else Refill(limit.Get(d), cfg.rates.Get(d), n)
  {
    var n := Ticks(last, tick);
    if n == 0 then limit
    else Sides(Refill(limit.read, cfg.rates.read, n), Refill(limit.write, cfg.rates.write, n))
  }

  /** Each bucket that was not too full has gained its rate for every tick, up to its
      maximum. */
  ghost predicate Gained(was: Sides<int>, now: Sides<int>, cfg: Cfg, last: nat, tick: nat) {
    var n := (tick - last) % TWO_32;
    forall d :: was.Get(d) <= cfg.rates.Get(d).maximum ==>
      now.Get(d) == if n > INT_MAX then was.Get(d) else Min(cfg.rates.Get(d).maximum, was.Get(d) + n * cfg.rates.Get(d).rate)
  }

  lemma ToppedGains(limit: Sides<int>, cfg: Cfg, last: nat, tick: nat)
    requires IsSsize(limit.read) && IsSsize(limit.write)
    ensures Gained(limit, Topped(limit, cfg, last, tick), cfg, last, tick)
  {
    hide Refill, TicksBetween, Topped;
    var n := Ticks(last, tick);
    forall d | limit.Get(d) <= cfg.rates.Get(d).maximum && n > 0
      ensures Refill(limit.Get(d), cfg.rates.Get(d), n) == Min(cfg.rates.Get(d).maximum, limit.Get(d) + n * cfg.rates.Get(d).rate)
    {
      RefillIsCapped(limit.Get(d), cfg.rates.Get(d), n);
    }
  }

  /** A new limit is clipped by the old bucket or starts with one tick's rate. */
  function Installed(to: Cfg, was: Option<Sides<int>>): (r: Sides<int>)
    ensures forall d :: r.Get(d) == if was.Some? then Min(was.value.Get(d), to.rates.Get(d).maximum) else to.rates.Get(d).rate
  {
    if was.Some? then Sides(Min(was.value.read, to.rates.read.maximum), Min(was.value.write, to.rates.write.maximum))
    else Sides(to.rates.read.rate, to.rates.write.rate)
  }

  /** The flags with the one for bandwidth set exactly for an empty bucket. */
  function Stopped(flags: set<Flag>, empty: bool): (r: set<Flag>)
    ensures (BW in r <==> empty) && forall f :: f != BW ==> (f in r <==> f in flags)
  {
    if empty then flags + {BW} else flags - {BW}
  }

  /** What the refill timer leaves of the flags of one direction. */
  function Resumed(flags: set<Flag>, limit: int): (r: set<Flag>)
    ensures (BW in r <==> BW in flags && limit <= 0) && forall f :: f != BW ==> (f in r <==> f in flags)
  {
    if limit > 0 then flags - {BW} else flags
  }

  lemma BothSides(limit: Sides<int>, flags: Sides<set<Flag>>)
    ensures (forall d :: limit.Get(d) <= 0 ==> BW in flags.Get(d)) <==>
      (limit.read <= 0 ==> BW in flags.read) && (limit.write <= 0 ==> BW in flags.write)
  {
    assert limit.Get(Read) == limit.read && limit.Get(Write) == limit.write;
  }

  /** A bucket is empty after a refill exactly when the refill does not make up for
      what was owed. */
  lemma EmptyStays(was: Sides<int>, now: Sides<int>, cfg: Cfg, last: nat, tick: nat)
    requires Gained(was, now, cfg, last, tick)
    requires was.read <= cfg.rates.read.maximum && was.write <= cfg.rates.write.maximum
    ensures var n := (tick - last) % TWO_32;
      forall d :: now.Get(d) <= 0 <==> was.Get(d) + (if n > INT_MAX then 0 else n * cfg.rates.Get(d).rate) <= 0
  {
    var n := (tick - last) % TWO_32;
    forall d
      ensures now.Get(d) <= 0 <==> was.Get(d) + (if n > INT_MAX then 0 else n * cfg.rates.Get(d).rate) <= 0
    {
      assert was.Get(d) <= cfg.rates.Get(d).maximum;
    }
  }

  lemma NotStopped(flags: Sides<set<Flag>>, d: Dir)
    requires BW !in flags.Get(d)
    ensures flags.Put(d, Stopped(flags.Get(d), false)) == flags
  {
    assert flags.Get(d) - {BW} == flags.Get(d);
  }

  lemma NeverLess(limit: int, r: Rate, n: nat)
    requires limit <= r.maximum
    ensures limit <= Min(r.maximum, limit + n * r.rate)
  {
  }

  class Bev {
    var limited: bool                  // rate_limiting is not NULL
    var cfg: Option<Cfg>
    var limit: Sides<int>
    var lastUpdated: nat
    var suspended: Sides<set<Flag>>
    var enabled: Sides<bool>
    var running: Sides<bool>           // what be_ops was last told
    var timerPending: bool             // refill_bucket_event

    /** One direction: the back end runs exactly when it should, and an empty
        bucket has stopped it. */
    ghost predicate SideOk(d: Dir)
      reads this
    {
      && (running.Get(d) <==> enabled.Get(d) && suspended.Get(d) == {})
      && (cfg.Some? ==> IsSsize(limit.Get(d)) && (limit.Get(d) <= 0 ==> BW in suspended.Get(d)))
      && (cfg.None? ==> BW !in suspended.Get(d))
    }

    /** No wake-up is lost: what bandwidth has stopped, a pending timer restarts; and
        the timer is pending only for that. */
    ghost predicate Valid()
      reads this
    {
      && SideOk(Read) && SideOk(Write) && (cfg.Some? ==> limited)
      && (timerPending <==> BW in suspended.read || BW in suspended.write)
    }

    /** No bucket is fuller than its maximum. */
    ghost predicate Capped()
      reads this
    {
      cfg.Some? ==> limit.read <= cfg.value.rates.read.maximum && limit.write <= cfg.value.rates.write.maximum
    }

    constructor ()
      ensures Valid() && Capped() && !limited && cfg.None? && limit == Sides(0, 0) && lastUpdated == 0 && !timerPending
      ensures suspended == Sides({}, {}) && enabled == running == Sides(false, false)
    {
      limited, cfg, limit, lastUpdated := false, None, Sides(0, 0), 0;
      suspended, enabled, running, timerPending := Sides({}, {}), Sides(false, false), Sides(false, false), false;
    }

    /** bufferevent_suspend_read and bufferevent_suspend_write */
    method Suspend(d: Dir, what: Flag)
      modifies `suspended, `running
      ensures suspended == old(suspended.Put(d, suspended.Get(d) + {what}))
      ensures old(running.Get(d) <==> enabled.Get(d) && suspended.Get(d) == {}) ==> running == old(running).Put(d, false)
    {
      if suspended.Get(d) == {} {
        running := running.Put(d, false);
      }
      assert running.Get(d) == false ==> running == running.Put(d, false);
      suspended := suspended.Put(d, suspended.Get(d) + {what});
    }

    /** bufferevent_unsuspend_read and bufferevent_unsuspend_write */
    method Unsuspend(d: Dir, what: Flag)
      requires running.Get(d) <==> enabled.Get(d) && suspended.Get(d) == {}
      modifies `suspended, `running
      ensures suspended == old(suspended.Put(d, suspended.Get(d) - {what}))
      ensures running == old(running).Put(d, enabled.Get(d) && suspended.Get(d) == {})
    {
      suspended := suspended.Put(d, suspended.Get(d) - {what});
      if suspended.Get(d) == {} && enabled.Get(d) {
        running := running.Put(d, true);
      }
    }

    /** bufferevent_enable and bufferevent_disable of one direction */
    method Enable(d: Dir)
      requires Valid()
      modifies `enabled, `running
      ensures Valid() && enabled == old(enabled).Put(d, true)
    {
      enabled := enabled.Put(d, true);
      if suspended.Get(d) == {} {
        running := running.Put(d, true);
      }
    }

    method Disable(d: Dir)
      requires Valid()
      modifies `enabled, `running
      ensures Valid() && enabled == old(enabled).Put(d, false)
    {
      enabled := enabled.Put(d, false);
      running := running.Put(d, false);
    }

    /** ev_token_bucket_update.  Buckets within their maximum are topped up; for
        fuller ones the arithmetic wraps, and no wake-up is lost only as long as it
        leaves no bucket empty that was not. */
    method Update(tick: nat)
      requires Valid() && cfg.Some?
      modifies `limit, `lastUpdated
      ensures limit == Topped(old(limit), cfg.value, old(lastUpdated), tick)
      ensures lastUpdated == if Ticks(old(lastUpdated), tick) == 0 then old(lastUpdated) else tick
      ensures Valid() <==> forall d :: limit.Get(d) <= 0 ==> BW in suspended.Get(d)
      ensures old(Capped()) ==> Valid() && Capped() && forall d :: old(limit).Get(d) <= limit.Get(d)
      ensures Gained(old(limit), limit, cfg.value, old(lastUpdated), tick)
    {
      hide Refill, TicksBetween, Gained;
      ToppedGains(limit, cfg.value, lastUpdated, tick);
      var n, r := TicksBetween(lastUpdated, tick), cfg.value.rates;
      if n == 0 || n > INT_MAX { return; }
      RefillIsCapped(limit.read, r.read, n);
      RefillIsCapped(limit.write, r.write, n);
      RefillIsSsize(limit.read, r.read, n);
      RefillIsSsize(limit.write, r.write, n);
      if Capped() {
        NeverLess(limit.read, r.read, n);
        NeverLess(limit.write, r.write, n);
      }
      limit := Sides(Refill(limit.read, r.read, n), Refill(limit.write, r.write, n));
      lastUpdated := tick;
      BothSides(limit, suspended);
    }

    /** _bufferevent_get_rlim_max for a bufferevent in no group: the cap for one
        operation, or, under a rate limit, the refilled bucket, which exceeds the cap
        exactly when it holds more. */
    method Allowance(d: Dir, tick: nat) returns (n: int)
      requires Valid()
      modifies `limit, `lastUpdated
      ensures n == if cfg.None? then MAX_TO_MOVE_EVER else Max(limit.Get(d), 0)
      ensures n > MAX_TO_MOVE_EVER <==> cfg.Some? && limit.Get(d) > MAX_TO_MOVE_EVER
      ensures cfg.None? ==> limit == old(limit) && lastUpdated == old(lastUpdated)
      ensures cfg.Some? ==>
        && limit == Topped(old(limit), cfg.value, old(lastUpdated), tick)
        && lastUpdated == (if Ticks(old(lastUpdated), tick) == 0 then old(lastUpdated) else tick)
        && Gained(old(limit), limit, cfg.value, old(lastUpdated), tick)
      ensures old(Capped()) ==> Valid() && Capped() && (cfg.Some? ==> forall e :: old(limit).Get(e) <= limit.Get(e))
    {
      hide Refill, Topped, Gained;
      n := MAX_TO_MOVE_EVER;
      if cfg.Some? {
        Update(tick);
        n := limit.Get(d);
      }
      if n < 0 { n := 0; }
    }

    /** _bufferevent_decrement_read_buckets and ..._write_buckets, without the group.
        The direction is stopped exactly when its bucket is empty.  A refund
        (negative `bytes`) can fill a bucket over its maximum. */
    method Charge(d: Dir, bytes: int)
      requires Valid() && (cfg.Some? ==> IsSsize(limit.Get(d) - bytes))
      modifies `limit, `suspended, `running, `timerPending
      ensures Valid()
      ensures cfg.None? ==> limit == old(limit) && suspended == old(suspended)
      ensures cfg.Some? ==>
        && limit == old(limit.Put(d, limit.Get(d) - bytes))
        && suspended == old(suspended).Put(d, Stopped(old(suspended).Get(d), limit.Get(d) <= 0))
        && (BW in suspended.Get(d) <==> limit.Get(d) <= 0)
      ensures cfg.Some? && old(Capped()) ==> (Capped() <==> limit.Get(d) <= cfg.value.rates.Get(d).maximum)
    {
      if cfg.Some? {
        limit := limit.Put(d, limit.Get(d) - bytes);
        if limit.Get(d) <= 0 {
          Suspend(d, BW);
          timerPending := true;
        } else if BW in suspended.Get(d) {
          if BW !in suspended.Get(Other(d)) {
            timerPending := false;
          }
          Unsuspend(d, BW);
        } else {
          NotStopped(suspended, d);
        }
      }
    }

    /** bufferevent_decrement_read_limit and ..._write_limit: only where the bucket
        becomes empty, or is no longer, does the direction stop or go on. */
    method DecrementLimit(d: Dir, decr: int)
      requires Valid() && cfg.Some? && IsSsize(limit.Get(d) - decr)
      modifies `limit, `suspended, `running, `timerPending
      ensures Valid() && limit == old(limit.Put(d, limit.Get(d) - decr))
      ensures var was, now := old(limit).Get(d), limit.Get(d);
        suspended == if (was > 0) != (now > 0) then old(suspended).Put(d, Stopped(old(suspended).Get(d), now <= 0)) else old(suspended)
      ensures old(Capped()) ==> (Capped() <==> limit.Get(d) <= cfg.value.rates.Get(d).maximum)
    {
      var before := limit.Get(d);
      limit := limit.Put(d, before - decr);
      if before > 0 && limit.Get(d) <= 0 {
        Suspend(d, BW);
        timerPending := true;
      } else if before <= 0 && limit.Get(d) > 0 {
        if BW !in suspended.Get(Other(d)) {
          timerPending := false;
        }
        Unsuspend(d, BW);
      }
    }

    /** _bev_refill_callback: the timer has fired.  A direction stays stopped
        exactly while its bucket is empty. */
    method RefillCallback(tick: nat)
      requires Valid() && timerPending
      modifies `limit, `lastUpdated, `suspended, `running, `timerPending
      ensures Valid() <==> forall d :: limit.Get(d) <= 0 ==> BW in suspended.Get(d)
      ensures old(Capped()) ==> Valid() && Capped()
      ensures limit == Topped(old(limit), cfg.value, old(lastUpdated), tick)
      ensures Gained(old(limit), limit, cfg.value, old(lastUpdated), tick)
      ensures old(Capped()) ==>
        var n := (tick - old(lastUpdated)) % TWO_32;
        forall d :: BW in old(suspended).Get(d) ==>
          (BW !in suspended.Get(d) <==> old(limit).Get(d) + (if n > INT_MAX then 0 else n * cfg.value.rates.Get(d).rate) > 0)
      ensures lastUpdated == if Ticks(old(lastUpdated), tick) == 0 then old(lastUpdated) else tick
      ensures suspended == Sides(Resumed(old(suspended).read, limit.read), Resumed(old(suspended).write, limit.write))
    {
      hide Refill, IsSsize, Topped, Gained;
      Update(tick);
      if old(Capped()) {
        EmptyStays(old(limit), limit, cfg.value, old(lastUpdated), tick);
      }
      WakeSides();
      BothSides(limit, suspended);
    }

    /** Restart what can go on, and wait again for what cannot. */
    method WakeSides()
      requires forall d :: running.Get(d) <==> enabled.Get(d) && suspended.Get(d) == {}
      modifies `suspended, `running, `timerPending
      ensures forall d :: running.Get(d) <==> enabled.Get(d) && suspended.Get(d) == {}
      ensures suspended == Sides(Resumed(old(suspended).read, limit.read), Resumed(old(suspended).write, limit.write))
      ensures timerPending <==> BW in suspended.read || BW in suspended.write
    {
      timerPending := false;
      var again := false;
      if BW in suspended.read {
        if limit.read > 0 { Unsuspend(Read, BW); } else { again := true; }
      }
      if BW in suspended.write {
        if limit.write > 0 { Unsuspend(Write, BW); } else { again := true; }
      }
      if again {
        timerPending := true;
      }
      assert suspended.read == Resumed(old(suspended).read, limit.read);
      assert suspended.write == Resumed(old(suspended).write, limit.write);
    }

    /** bufferevent_set_rate_limit */
    method SetRateLimit(to: Option<Cfg>, tick: nat)
      requires Valid()
      modifies `limited, `cfg, `limit, `lastUpdated, `suspended, `running, `timerPending
      ensures Valid() && cfg == to && (to != old(cfg) || old(Capped()) ==> Capped())
      ensures to == old(cfg) ==> limited == old(limited) && limit == old(limit) && lastUpdated == old(lastUpdated)
      ensures to.None? ==>
        && limited == old(limited) && limit == old(limit) && lastUpdated == old(lastUpdated)
        && suspended == Sides(old(suspended).read - {BW}, old(suspended).write - {BW})
      ensures to.Some? && to == old(cfg) ==> suspended == old(suspended)
      ensures to.Some? && to != old(cfg) ==>
        && limited && limit == Installed(to.value, old(if cfg.Some? then Some(limit) else None))
        && lastUpdated == (if old(cfg).Some? then old(lastUpdated) else tick)
        && suspended == Sides(Stopped(old(suspended).read, limit.read <= 0), Stopped(old(suspended).write, limit.write <= 0))
      ensures to.Some? && to != old(cfg) ==> forall d ::
        && limit.Get(d) == (if old(cfg).Some? then Min(old(limit).Get(d), to.value.rates.Get(d).maximum) else to.value.rates.Get(d).rate)
        && (BW in suspended.Get(d) <==> limit.Get(d) <= 0)
    {
      if to.None? {
        cfg := None;
        Unsuspend(Read, BW);
        Unsuspend(Write, BW);
        timerPending := false;
      } else if cfg != to {
        Install(to.value, tick);
      }
    }

    method Install(to: Cfg, tick: nat)
      requires Valid()
      modifies `limited, `cfg, `limit, `lastUpdated, `suspended, `running, `timerPending
      ensures Valid() && Capped() && cfg == Some(to) && limited
      ensures limit == Installed(to, old(if cfg.Some? then Some(limit) else None))
      ensures lastUpdated == if old(cfg).Some? then old(lastUpdated) else tick
      ensures suspended == Sides(Stopped(old(suspended).read, limit.read <= 0), Stopped(old(suspended).write, limit.write <= 0))
    {
      hide Refill;
      var r := to.rates;
      if cfg.Some? {
        limit := Sides(Min(limit.read, r.read.maximum), Min(limit.write, r.write.maximum));
      } else {
        limit, lastUpdated := Sides(r.read.rate, r.write.rate), tick;
      }
      limited, cfg, timerPending := true, Some(to), false;
      SettleSides();
      if limit.read <= 0 || limit.write <= 0 {
        timerPending := true;
      }
    }

    method SettleSides()
      requires forall d :: running.Get(d) <==> enabled.Get(d) && suspended.Get(d) == {}
      modifies `suspended, `running
      ensures forall d :: running.Get(d) <==> enabled.Get(d) && suspended.Get(d) == {}
      ensures suspended == Sides(Stopped(old(suspended).read, limit.read <= 0), Stopped(old(suspended).write, limit.write <= 0))
    {
      SettleSide(Read);
      SettleSide(Write);
    }

    /** Stop or restart one direction after its bucket was set. */
    method SettleSide(d: Dir)
      requires running.Get(d) <==> enabled.Get(d) && suspended.Get(d) == {}
      modifies `suspended, `running
      ensures suspended == old(suspended).Put(d, Stopped(old(suspended).Get(d), limit.Get(d) <= 0))
      ensures running == old(running).Put(d, enabled.Get(d) && suspended.Get(d) == {})
    {
      if limit.Get(d) > 0 {
        Unsuspend(d, BW);
      } else {
        Suspend(d, BW);
      }
    }
  }
}
