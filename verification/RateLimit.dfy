/** Token buckets and the rate limit of one bufferevent
    (libevent/bufferevent_ratelim.c, libevent/bufferevent.c). */
module RateLimit {

  const TWO_32: int := 0x1_0000_0000
  const TWO_64: int := 0x1_0000_0000_0000_0000
  const INT_MAX: int := 0x7fff_ffff
  const EV_SSIZE_MAX: int := 0x7fff_ffff_ffff_ffff

  /** Conversion to size_t, and from there to ev_ssize_t. */
  function Unsigned(x: int): nat {
    x % TWO_64
  }

  function Signed(x: int): int {
    if Unsigned(x) > EV_SSIZE_MAX then Unsigned(x) - TWO_64 else Unsigned(x)
  }

  predicate IsSsize(x: int) {
    -EV_SSIZE_MAX - 1 <= x <= EV_SSIZE_MAX
  }

  function Min(a: int, b: int): int {
    if a < b then a else b
  }

  function Max(a: int, b: int): int {
    if a < b then b else a
  }

  /** One direction of a token bucket configuration, as ev_token_bucket_cfg_new
      admits it. */
  datatype RateRec = RateRec(rate: nat, maximum: nat)

  type Rate = r: RateRec | 1 <= r.rate <= r.maximum <= EV_SSIZE_MAX witness RateRec(1, 1)

  /** The refill of ev_token_bucket_update for one direction, in the machine
      arithmetic of the source: maximum and rate are size_t, the limit is signed. */
  function Refill(limit: int, r: Rate, n: nat): int
    requires 0 < n
  {
    if Unsigned(r.maximum - limit) / n < r.rate then r.maximum
    else Signed(limit + Unsigned(n * r.rate))
  }

  lemma DivLess(x: nat, n: nat, r: nat)
    requires 0 < n
    ensures x / n < r <==> x < n * r
  {
    var q := x / n;
    assert n * q <= x < n * (q + 1);
    if q < r {
      assert n * (q + 1) <= n * r;
    } else {
      assert n * r <= n * q;
    }
  }

  lemma Wrap(x: int, k: int)
    requires 0 <= x + k * TWO_64 < TWO_64
    ensures Unsigned(x) == x + k * TWO_64
  {
  }

  /** The refill computes what the plain formula says exactly when the limit is
      not above the maximum, or is so far above that the refill covers the
      unsigned difference. */
  lemma RefillIsCapped(limit: int, r: Rate, n: nat)
    requires IsSsize(limit) && 0 < n <= INT_MAX
    ensures Refill(limit, r, n) == Min(r.maximum, limit + n * r.rate)
      <==> (limit <= r.maximum || TWO_64 + r.maximum - limit <= n * r.rate)
  {
    var p := n * r.rate;
    assert 0 < p;
    if limit <= r.maximum {
      Wrap(r.maximum - limit, 0);
      DivLess(r.maximum - limit, n, r.rate);
      if p <= r.maximum - limit {
        Wrap(p, 0);
        SignedId(limit + p);
      }
    } else {
      var diff := TWO_64 + r.maximum - limit;
      Wrap(r.maximum - limit, 1);
      DivLess(diff, n, r.rate);
      if p <= diff {
        Wrap(p, 0);
        if p == diff {
          SignedShift(r.maximum);
        } else if limit + p <= EV_SSIZE_MAX {
          SignedId(limit + p);
        } else {
          assert limit + p - TWO_64 < r.maximum;
          SignedShift(limit + p - TWO_64);
        }
      }
    }
  }

  lemma SignedId(x: int)
    requires IsSsize(x)
    ensures Signed(x) == x
  {
    if x >= 0 { Wrap(x, 0); } else { Wrap(x, 1); }
  }

  lemma SignedShift(x: int)
    requires IsSsize(x)
    ensures Signed(x + TWO_64) == x
  {
    if x >= 0 { Wrap(x + TWO_64, -1); } else { Wrap(x + TWO_64, 0); }
  }

  lemma RefillIsSsize(limit: int, r: Rate, n: nat)
    requires 0 < n
    ensures IsSsize(Refill(limit, r, n))
  {
  }

  /** A bucket with something in it is left empty by a refill exactly when it was
      above its maximum and the sum wraps below zero. */
  lemma RefillEmpties(limit: int, r: Rate, n: nat)
    requires IsSsize(limit) && limit > 0 && 0 < n <= INT_MAX
    ensures Refill(limit, r, n) <= 0 <==>
      limit > r.maximum && EV_SSIZE_MAX < limit + n * r.rate <= TWO_64
  {
    var p := n * r.rate;
    assert 0 < p;
    RefillIsCapped(limit, r, n);
    if limit > r.maximum && p < TWO_64 + r.maximum - limit {
      Wrap(r.maximum - limit, 1);
      DivLess(TWO_64 + r.maximum - limit, n, r.rate);
      Wrap(p, 0);
      if limit + p <= EV_SSIZE_MAX {
        SignedId(limit + p);
      } else {
        SignedShift(limit + p - TWO_64);
      }
    }
  }

  /** A refund over the maximum, then one tick: the bucket counts as empty. */
  lemma FullBucketEmpties()
    ensures Refill(EV_SSIZE_MAX, RateRec(5, 10), 1) == 4 - EV_SSIZE_MAX - 1
  {
    Wrap(10 - EV_SSIZE_MAX, 1);
    Wrap(5, 0);
    SignedShift(4 - EV_SSIZE_MAX - 1);
  }

  /** Above the maximum the refill can grow the bucket without bound. */
  lemma RefillAboveMaximum()
    ensures Refill(11, RateRec(5, 10), 1) == 16
  {
    Wrap(-1, 1);
    Wrap(5, 0);
    SignedId(16);
  }

  /** n_ticks of ev_token_bucket_update: the tick counter is 32 bits wide. */
  function TicksBetween(last: nat, now: nat): nat {
    (now - last) % TWO_32
  }

  /** Across a wrap of the counter the difference is still the time that passed. */
  lemma TicksAcrossWrap(t0: nat, t1: nat)
    requires t0 <= t1 < t0 + TWO_32
    ensures TicksBetween(t0 % TWO_32, t1 % TWO_32) == t1 - t0
  {
    var q0, q1 := t0 / TWO_32, t1 / TWO_32;
    assert t0 == q0 * TWO_32 + t0 % TWO_32 && t1 == q1 * TWO_32 + t1 % TWO_32;
    assert q0 <= q1 <= q0 + 1;
  }

  // ----- how much can pass in a window -----

  /** Ticks pass, or bytes are charged. */
  datatype Step = Wait(n: nat) | Charge(bytes: nat)

  function After(limit: int, r: Rate, s: Step): int {
    match s
    case Wait(n) => if n == 0 || n > INT_MAX then limit else Refill(limit, r, n)
    case Charge(b) => limit - b
  }

  function LimitAfter(limit: int, r: Rate, run: seq<Step>): int {
    if run == [] then limit else After(LimitAfter(limit, r, run[..|run| - 1]), r, run[|run| - 1])
  }

  function Charged(run: seq<Step>): nat {
    if run == [] then 0 else
      Charged(run[..|run| - 1]) + match run[|run| - 1] case Wait(_) => 0 case Charge(b) => b
  }

  function Waited(run: seq<Step>): nat {
    if run == [] then 0 else
      Waited(run[..|run| - 1]) + match run[|run| - 1] case Wait(n) => n case Charge(_) => 0
  }

  /** Every charge stays within the allowance, the positive part of the limit. */
  predicate Allowed(limit: int, r: Rate, run: seq<Step>) {
    run == [] ||
    var before := LimitAfter(limit, r, run[..|run| - 1]);
    && Allowed(limit, r, run[..|run| - 1])
    && match run[|run| - 1] case Wait(_) => true case Charge(b) => b <= Max(before, 0)
  }

  /** From a limit not above the maximum: the limit stays there, falls no lower
      than zero or where it was, and what is charged is paid for. */
  lemma {:induction false} Paid(limit: int, r: Rate, run: seq<Step>)
    requires limit <= r.maximum && IsSsize(limit) && Allowed(limit, r, run)
    ensures var end := LimitAfter(limit, r, run);
      && Min(limit, 0) <= end <= r.maximum
      && Charged(run) + end <= limit + Waited(run) * r.rate
  {
    if run != [] {
      hide Refill;
      var front, s := run[..|run| - 1], run[|run| - 1];
      Paid(limit, r, front);
      var before := LimitAfter(limit, r, front);
      match s
      case Charge(_) =>
      case Wait(n) =>
        Distribute(Waited(front), n, r.rate);
        if 0 < n <= INT_MAX {
          RefillIsCapped(before, r, n);
        }
    }
  }

  lemma Distribute(a: nat, b: nat, r: nat)
    ensures (a + b) * r == a * r + b * r && 0 <= b * r
  {
  }

  /** In any window of a run, however it is cut, at most the burst plus the rate
      times its length is charged. */
  lemma WindowBound(limit: int, r: Rate, run: seq<Step>, i: nat, j: nat)
    requires limit <= r.maximum && IsSsize(limit) && Allowed(limit, r, run) && i <= j <= |run|
    ensures Charged(run[i..j]) <= r.maximum + Waited(run[i..j]) * r.rate
  {
    AllowedPrefix(limit, r, run, j);
    AllowedPrefix(limit, r, run, i);
    Paid(limit, r, run[..i]);
    var start := LimitAfter(limit, r, run[..i]);
    AllowedWindow(limit, r, run[..j], i);
    assert run[..j][i..] == run[i..j] && run[..j][..i] == run[..i];
    Paid(start, r, run[i..j]);
  }

  lemma {:induction false} AllowedPrefix(limit: int, r: Rate, run: seq<Step>, i: nat)
    requires Allowed(limit, r, run) && i <= |run|
    ensures Allowed(limit, r, run[..i])
    decreases |run|
  {
    if i == |run| {
      assert run[..i] == run;
    } else {
      AllowedPrefix(limit, r, run[..|run| - 1], i);
      assert run[..|run| - 1][..i] == run[..i];
    }
  }

  lemma {:induction false} AllowedWindow(limit: int, r: Rate, run: seq<Step>, i: nat)
    requires Allowed(limit, r, run) && i <= |run|
    ensures Allowed(LimitAfter(limit, r, run[..i]), r, run[i..])
    ensures LimitAfter(LimitAfter(limit, r, run[..i]), r, run[i..]) == LimitAfter(limit, r, run)
  {
    if i < |run| {
      var front := run[..|run| - 1];
      AllowedWindow(limit, r, front, i);
      assert front[..i] == run[..i] && run[i..][..|run[i..]| - 1] == front[i..];
    } else {
      assert run[..i] == run && run[i..] == [];
    }
  }
}
