/** The Generic Cell Rate Algorithm: one theoretical arrival time (TAT) per key. */
module Gcra {
  import opened Ratelimit
  import opened Arith

  datatype Config = Config(limit: int, burst: int, interval: int, idleClean: int)

  /** What `New` derives from a limit, a burst and a window. A window shorter than
      `limit` nanoseconds truncates to a zero interval, and the first admitted
      request then divides by zero, so the interval is required to be positive. */
  predicate ValidConfig(c: Config) {
    c.limit > 0 && c.burst >= 1 && c.interval > 0
  }

  function Derive(limit: int, burst: int, window: int, idleClean: int): Config
    requires limit > 0 && window > 0
  {
    Config(limit, if burst < 1 then 1 else burst, window / limit, idleClean)
  }

  /** `tat` is `None` for the zero time of a key that was never admitted. */
  datatype Entry = Entry(tat: Option<int>, lastAccess: int)

  function Fresh(now: int): Entry {
    Entry(None, now)
  }

  /** How far the stored TAT leads the clock. */
  function Backlog(e: Entry, now: int): int {
    if e.tat.Some? then Max(e.tat.value - now, 0) else 0
  }

  /** What an admission decision amounts to: the backlog the request would leave
      must not exceed `burst` intervals. */
  predicate Admits(c: Config, e: Entry, n: int, now: int) {
    1 <= n <= c.burst && Backlog(e, now) + c.interval * n <= c.interval * c.burst
  }

  function After(c: Config, e: Entry, n: int, now: int): Entry {
    if !(1 <= n <= c.burst) then e
    else if Admits(c, e, n, now) then Entry(Some(now + Backlog(e, now) + c.interval * n), now)
    else e.(lastAccess := now)
  }

  /** Whole requests that fit right now. */
  function Remaining(c: Config, e: Entry, now: int): int
    requires ValidConfig(c)
  {
    Max(0, (c.interval * c.burst - Backlog(e, now)) / c.interval)
  }

  function RetryAfter(c: Config, e: Entry, n: int, now: int): int {
    if Admits(c, e, n, now) || n > c.burst || n < 1 then 0
    else Backlog(e, now) + c.interval * n - c.interval * c.burst
  }

  /** What a caller is told. */
  function Answer(c: Config, e: Entry, n: int, now: int): Result
    requires ValidConfig(c)
  {
    Result(Admits(c, e, n, now), c.limit, if Admits(c, e, n, now) then Remaining(c, After(c, e, n, now), now) else 0, 0,
           RetryAfter(c, e, n, now))
  }

  /** A backlog never exceeds the burst window, counted from the last access. */
  predicate Bounded(c: Config, e: Entry) {
    e.tat.Some? ==> e.tat.value <= e.lastAccess + c.interval * c.burst
  }

  /** The limiter: a table of entries, each updated under its own lock. */
  class Limiter {
    const cfg: Config
    var entries: map<string, Entry>

    constructor (limit: int, burst: int, window: int, idleClean: int)
      requires 0 < limit <= window
      ensures cfg == Derive(limit, burst, window, idleClean) && ValidConfig(cfg)
      ensures cfg.limit == limit && cfg.burst == Max(1, burst) && cfg.idleClean == idleClean
      ensures cfg.interval * limit <= window < (cfg.interval + 1) * limit
      ensures entries == map[]
    {
      cfg := Derive(limit, burst, window, idleClean);
      entries := map[];
      IntervalPositive(limit, window);
      DerivedInterval(limit, window);
    }

    function Get(key: string, now: int): Entry
      reads this
    {
      if key in entries then entries[key] else Fresh(now)
    }

    method Consume(e: Entry, n: int, now: int) returns (res: Result, e': Entry)
      requires ValidConfig(cfg) && 1 <= n <= cfg.burst
      ensures e' == After(cfg, e, n, now) && res == Answer(cfg, e, n, now)
    {
      var storedTat := if e.tat.None? then now else e.tat.value;
      var tat := Max(storedTat, now) + cfg.interval * n;
      var limitWindow := now + cfg.interval * cfg.burst;
      if tat > limitWindow {
        return Result(false, cfg.limit, 0, 0, tat - limitWindow), e.(lastAccess := now);
      }
      var remaining := (limitWindow - tat) / cfg.interval;
      if remaining < 0 {
        remaining := 0;
      }
      Quotient(limitWindow - tat, cfg.interval, cfg.burst);
      MulMono(cfg.interval, 0, n);
      if remaining > cfg.burst {
        remaining := cfg.burst;
      }
      return Result(true, cfg.limit, remaining, 0, 0), Entry(Some(tat), now);
    }

    method AllowN(key: string, n: int, now: int) returns (res: Result)
      requires ValidConfig(cfg)
      modifies this
      ensures res.allowed == (ValidKey(key) && Admits(cfg, old(Get(key, now)), n, now))
      ensures res.allowed ==> res.limit == cfg.limit && res.remaining == Remaining(cfg, Get(key, now), now) && res.retryAfter == 0
      ensures ValidKey(key) && n >= 1 && !res.allowed ==> res.limit == cfg.limit && res.remaining == 0
      ensures ValidKey(key) && 1 <= n <= cfg.burst && !res.allowed ==>
        forall later | later >= now :: Admits(cfg, Get(key, now), n, later) <==> later >= now + res.retryAfter
      ensures ValidKey(key) && 1 <= n <= cfg.burst ==> Get(key, now).lastAccess == now
      ensures res == if ValidKey(key) && n >= 1 then Answer(cfg, old(Get(key, now)), n, now) else REJECTED
      ensures entries ==
        if ValidKey(key) && 1 <= n <= cfg.burst
        then old(entries)[key := After(cfg, old(Get(key, now)), n, now)] else old(entries)
    {
      if !ValidKey(key) || n < 1 {
        return REJECTED;
      }
      if n > cfg.burst {
        return Result(false, cfg.limit, 0, 0, 0);
      }
      var e := Get(key, now);
      hide Backlog, Remaining;
      assert After(cfg, e, n, now).lastAccess == now;
      if !Admits(cfg, e, n, now) {
        DeniedUntil(cfg, e, n, now);
      }
      hide Admits, After, RetryAfter;
      res, e := Consume(e, n, now);
      entries := entries[key := e];
    }

    method Peek(key: string, now: int) returns (remaining: int, retryAfter: int, resetAt: Option<int>)
      requires ValidConfig(cfg)
      modifies this
      ensures remaining == Remaining(cfg, old(Get(key, now)), now)
      ensures retryAfter == RetryAfter(cfg, old(Get(key, now)), 1, now)
      ensures var tat := old(Get(key, now)).tat; resetAt == if tat.None? then None else Some(tat.value + cfg.interval)
      ensures entries == old(entries)[key := old(Get(key, now))]
    {
      var e := Get(key, now);
      RemainingIsExact(cfg, e, 1, now);
      RemainingRange(cfg, e, now);
      entries := entries[key := e];
      remaining, retryAfter := 0, 0;
      resetAt := if e.tat.None? then None else Some(e.tat.value + cfg.interval);
      var effectiveTat := if e.tat.None? then now else e.tat.value;
      var tatAfterNext := Max(effectiveTat, now) + cfg.interval;
      var limitWindow := now + cfg.interval * cfg.burst;
      if tatAfterNext <= limitWindow {
        var slack := limitWindow - effectiveTat;
        if slack >= 0 {
          remaining := slack / cfg.interval;
        }
        Quotient(slack, cfg.interval, cfg.burst);
        if remaining > cfg.burst {
          remaining := cfg.burst;
        }
        if remaining < 0 {
          remaining := 0;
        }
      } else {
        retryAfter := tatAfterNext - limitWindow;
      }
    }
  }

  lemma DerivedInterval(limit: int, window: int)
    requires limit > 0
    ensures (window / limit) * limit <= window < (window / limit + 1) * limit
  {
    Quotient(window, limit, window / limit);
    Quotient(window, limit, window / limit + 1);
  }

  lemma IntervalPositive(limit: int, window: int)
    requires 0 < limit <= window
    ensures window / limit >= 1
  {
  }

  /** `Remaining` is the largest request that would be admitted. */
  lemma RemainingIsExact(c: Config, e: Entry, n: int, now: int)
    requires ValidConfig(c) && n >= 1
    ensures Remaining(c, e, now) >= n <==> Admits(c, e, n, now)
  {
    Quotient(c.interval * c.burst - Backlog(e, now), c.interval, n);
    if n > c.burst {
      MulMono(c.interval, c.burst + 1, n);
    }
  }

  lemma RemainingRange(c: Config, e: Entry, now: int)
    requires ValidConfig(c)
    ensures 0 <= Remaining(c, e, now) <= c.burst
    ensures Backlog(e, now) == 0 ==> Remaining(c, e, now) == c.burst
  {
    RemainingIsExact(c, e, c.burst, now);
    RemainingIsExact(c, e, c.burst + 1, now);
  }

  /** The law the check-then-commit chains rest on: `Peek` says exactly how much
      one request may take, and taking it lowers `Remaining` by as much. */
  lemma PeekAllowLaw(c: Config, e: Entry, n: int, now: int)
    requires ValidConfig(c) && n >= 1
    ensures Admits(c, e, n, now) <==> Remaining(c, e, now) >= n
    ensures Admits(c, e, n, now) ==> Remaining(c, After(c, e, n, now), now) == Remaining(c, e, now) - n
    ensures !Admits(c, e, n, now) ==> After(c, e, n, now).tat == e.tat
  {
    RemainingIsExact(c, e, n, now);
    if Admits(c, e, n, now) {
      MulMono(c.interval, 0, n);
      QuotientShift(c.interval * c.burst - Backlog(e, now), c.interval, n);
    }
  }

  /** A denial's `RetryAfter` is the least wait after which the same request is
      admitted if nothing intervenes; a request above the burst never is. */
  lemma RetryAfterIsLeast(c: Config, e: Entry, n: int, now: int, wait: int)
    requires ValidConfig(c) && n >= 1 && !Admits(c, e, n, now) && wait >= 0
    ensures n <= c.burst ==>
      (Admits(c, After(c, e, n, now), n, now + wait) <==> wait >= RetryAfter(c, e, n, now) > 0)
    ensures n > c.burst ==> !Admits(c, After(c, e, n, now), n, now + wait)
  {
    if n <= c.burst {
      MulMono(c.interval, n, c.burst);
    }
  }

  lemma DeniedUntil(c: Config, e: Entry, n: int, now: int)
    requires ValidConfig(c) && 1 <= n <= c.burst && !Admits(c, e, n, now)
    ensures forall later | later >= now ::
      Admits(c, After(c, e, n, now), n, later) <==> later >= now + RetryAfter(c, e, n, now)
  {
    forall later | later >= now
      ensures Admits(c, After(c, e, n, now), n, later) <==> later >= now + RetryAfter(c, e, n, now)
    {
      RetryAfterIsLeast(c, e, n, now, later - now);
    }
  }

  lemma BoundedPreserved(c: Config, e: Entry, n: int, now: int)
    requires ValidConfig(c) && Bounded(c, e) && e.lastAccess <= now
    ensures Bounded(c, After(c, e, n, now))
    ensures Bounded(c, Fresh(now))
  {
  }

  // Whole runs

  /** The answers a run gives. */
  function Decisions(c: Config, e: Entry, rs: seq<Request>): seq<bool>
    decreases |rs|
  {
    if rs == [] then []
    else [Admits(c, e, rs[0].n, rs[0].now)] + Decisions(c, After(c, e, rs[0].n, rs[0].now), rs[1..])
  }

  /** The requests admitted during [s, t] by a run that starts from `e`. */
  function AdmittedIn(c: Config, e: Entry, rs: seq<Request>, s: int, t: int): int
    decreases |rs|
  {
    if rs == [] then 0
    else
      var r := rs[0];
      (if Admits(c, e, r.n, r.now) && s <= r.now <= t then r.n else 0)
      + AdmittedIn(c, After(c, e, r.n, r.now), rs[1..], s, t)
  }

  /** In every interval [s, t] of every run, from any state: at most
      burst + (t - s) / interval. */
  lemma {:induction false} BurstBound(c: Config, e: Entry, rs: seq<Request>, s: int, t: int)
    requires ValidConfig(c) && Monotone(rs) && s <= t
    ensures c.interval * AdmittedIn(c, e, rs, s, t) <= c.interval * c.burst + (t - s)
    decreases |rs|
  {
    if rs == [] {
      MulMono(c.interval, 0, c.burst);
    } else if rs[0].now >= s {
      BurstBoundFrom(c, e, rs, s, t);
      MulMono(c.interval, 0, c.burst);
    } else {
      BurstBound(c, After(c, e, rs[0].n, rs[0].now), rs[1..], s, t);
    }
  }

  /** The sharper form for a run that begins inside the interval: what is admitted
      is paid for by free burst and by elapsed time. */
  lemma {:induction false} BurstBoundFrom(c: Config, e: Entry, rs: seq<Request>, s: int, t: int)
    requires ValidConfig(c) && Monotone(rs) && (forall r | r in rs :: s <= r.now)
    ensures t < s ==> AdmittedIn(c, e, rs, s, t) == 0
    ensures s <= t ==>
      c.interval * AdmittedIn(c, e, rs, s, t)
      <= c.interval * c.burst - Min(Backlog(e, s), c.interval * c.burst) + (t - s)
    decreases |rs|
  {
    if rs != [] {
      var r := rs[0];
      var e' := After(c, e, r.n, r.now);
      AdmittedFromLater(c, e', rs[1..], s, r.now, t);
      BurstBoundFrom(c, e', rs[1..], r.now, t);
      MulDistrib(c.interval, r.n, AdmittedIn(c, e', rs[1..], s, t));
    }
  }

  /** Nothing is lost by starting the count at the first request's time. */
  lemma {:induction false} AdmittedFromLater(c: Config, e: Entry, rs: seq<Request>, s: int, u: int, t: int)
    requires s <= u && forall r | r in rs :: u <= r.now
    ensures AdmittedIn(c, e, rs, s, t) == AdmittedIn(c, e, rs, u, t)
    decreases |rs|
  {
    if rs != [] {
      AdmittedFromLater(c, After(c, e, rs[0].n, rs[0].now), rs[1..], s, u, t);
    }
  }

  // Exactly what is admitted

  function Final(c: Config, e: Entry, rs: seq<Request>): Entry
    decreases |rs|
  {
    if rs == [] then e else Final(c, After(c, e, rs[0].n, rs[0].now), rs[1..])
  }

  lemma {:induction false} OneMore(c: Config, e: Entry, rs: seq<Request>, r: Request, s: int, t: int)
    ensures Final(c, e, rs + [r]) == After(c, Final(c, e, rs), r.n, r.now)
    ensures AdmittedIn(c, e, rs + [r], s, t) ==
      AdmittedIn(c, e, rs, s, t) + if Admits(c, Final(c, e, rs), r.n, r.now) && s <= r.now <= t then r.n else 0
    decreases |rs|
  {
    hide Admits, After;
    if rs == [] {
      assert rs + [r] == [r];
    } else {
      assert (rs + [r])[1..] == rs[1..] + [r];
      OneMore(c, After(c, e, rs[0].n, rs[0].now), rs[1..], r, s, t);
    }
  }

  lemma {:induction false} AdmittedUpTo(c: Config, e: Entry, rs: seq<Request>, s: int, t: int, later: int)
    requires t <= later && forall r | r in rs :: r.now <= t
    ensures 0 <= AdmittedIn(c, e, rs, s, t) == AdmittedIn(c, e, rs, s, later)
    decreases |rs|
  {
    if rs != [] {
      AdmittedUpTo(c, After(c, e, rs[0].n, rs[0].now), rs[1..], s, t, later);
    }
  }

  /** A backlog is what was admitted since some instant, less the time since. */
  lemma {:induction false} BusySince(c: Config, start: int, rs: seq<Request>, now: int) returns (s: int)
    requires ValidConfig(c) && Monotone(rs) && forall r | r in rs :: r.now <= now
    ensures s <= now
    ensures Backlog(Final(c, Fresh(start), rs), now) == 0
         || Backlog(Final(c, Fresh(start), rs), now) <= c.interval * AdmittedIn(c, Fresh(start), rs, s, now) - (now - s)
    decreases |rs|
  {
    s := now;
    if rs != [] {
      var e0, rest, r := Fresh(start), rs[..|rs| - 1], rs[|rs| - 1];
      assert rs == rest + [r];
      var e := Final(c, e0, rest);
      hide Final, AdmittedIn;
      if Admits(c, e, r.n, r.now) {
        s := BusySince(c, start, rest, r.now);
        if Backlog(e, r.now) == 0 {
          s := r.now;
        }
        OneMore(c, e0, rest, r, s, now);
        AdmittedUpTo(c, e0, rest, s, r.now, now);
        MulDistrib(c.interval, AdmittedIn(c, e0, rest, s, now), r.n);
        MulMono(c.interval, 0, AdmittedIn(c, e0, rest, s, now));
      } else {
        s := BusySince(c, start, rest, now);
        OneMore(c, e0, rest, r, s, now);
      }
    }
  }

  /** Room for n more in the interval from `s` to `now`. */
  predicate Conforms(c: Config, admitted: int, n: int, s: int, now: int) {
    c.interval * (admitted + n) <= c.interval * c.burst + (now - s)
  }

  /** With n more, every interval that ends now holds at most burst + length / interval. */
  ghost predicate AllConform(c: Config, start: int, rs: seq<Request>, n: int, now: int) {
    forall s | s <= now :: Conforms(c, AdmittedIn(c, Fresh(start), rs, s, now), n, s, now)
  }

  /** After every run a request is admitted if and only if it keeps the burst bound: the
      limiter denies nothing that the bound allows. */
  lemma AdmittedExactly(c: Config, start: int, rs: seq<Request>, n: int, now: int)
    requires ValidConfig(c) && Monotone(rs) && (forall r | r in rs :: r.now <= now) && n >= 1
    ensures Admits(c, Final(c, Fresh(start), rs), n, now) <==> AllConform(c, start, rs, n, now)
  {
    var e0, e := Fresh(start), Final(c, Fresh(start), rs);
    if Admits(c, e, n, now) {
      forall s | s <= now
        ensures Conforms(c, AdmittedIn(c, e0, rs, s, now), n, s, now)
      {
        var r := Request(now, n);
        OneMore(c, e0, rs, r, s, now);
        BurstBound(c, e0, rs + [r], s, now);
      }
    }
    if AllConform(c, start, rs, n, now) {
      var s := BusySince(c, start, rs, now);
      AdmittedUpTo(c, e0, rs, now, now, now);
      hide Admits, Conforms, AdmittedIn, Final, Backlog;
      assert Conforms(c, AdmittedIn(c, e0, rs, s, now), n, s, now);
      assert Conforms(c, AdmittedIn(c, e0, rs, now, now), n, now, now);
      NotDenied(c, e, n, now, AdmittedIn(c, e0, rs, s, now), s, AdmittedIn(c, e0, rs, now, now));
    }
  }

  lemma NotDenied(c: Config, e: Entry, n: int, now: int, since: int, s: int, atOnce: int)
    requires ValidConfig(c) && n >= 1 && atOnce >= 0 && Conforms(c, since, n, s, now) && Conforms(c, atOnce, n, now, now)
    requires Backlog(e, now) == 0 || Backlog(e, now) <= c.interval * since - (now - s)
    ensures Admits(c, e, n, now)
  {
    MulDistrib(c.interval, since, n);
    MulMono(c.interval, n, atOnce + n);
    if n > c.burst {
      MulMono(c.interval, c.burst + 1, n);
      MulDistrib(c.interval, c.burst, 1);
    }
  }

  // The rate that was asked for

  /** Never more than the burst and `limit` per `window`, in any interval of any run. */
  ghost predicate KeepsRate(limit: int, window: int, c: Config) {
    forall e, rs, s, t | Monotone(rs) && s <= t :: WithinRate(limit, window, c, AdmittedIn(c, e, rs, s, t), t - s)
  }

  predicate WithinRate(limit: int, window: int, c: Config, admitted: int, length: int) {
    window * (admitted - c.burst) <= limit * length
  }

  /** The interval is window / limit rounded down, so the limiter keeps the rate it was
      given if and only if the limit divides the window. */
  lemma KeepsRateIff(limit: int, burst: int, window: int, idleClean: int)
    requires 0 < limit <= window
    ensures KeepsRate(limit, window, Derive(limit, burst, window, idleClean)) <==> window % limit == 0
  {
    var c := Derive(limit, burst, window, idleClean);
    IntervalPositive(limit, window);
    DerivedInterval(limit, window);
    if window % limit == 0 {
      forall e, rs, s, t | Monotone(rs) && s <= t
        ensures WithinRate(limit, window, c, AdmittedIn(c, e, rs, s, t), t - s)
      {
        BurstBound(c, e, rs, s, t);
        ScaledRate(limit, window, c.interval, AdmittedIn(c, e, rs, s, t), c.burst, t - s);
      }
    } else {
      ExceedsRate(c, limit, window);
    }
  }

  lemma ScaledRate(limit: int, window: int, interval: int, admitted: int, burst: int, length: int)
    requires limit > 0 && interval > 0 && window == interval * limit
    requires interval * admitted <= interval * burst + length
    ensures window * (admitted - burst) <= limit * length
  {
    MulDistrib(interval, admitted, burst);
    MulMono(limit, interval * (admitted - burst), length);
    assert window * (admitted - burst) == limit * (interval * (admitted - burst));
  }

  /** Otherwise two calls exceed it: a full burst, and one more after one interval. */
  lemma ExceedsRate(c: Config, limit: int, window: int)
    requires ValidConfig(c) && c.interval * limit < window
    ensures var rs := [Request(0, c.burst), Request(c.interval, 1)];
            Monotone(rs) && !WithinRate(limit, window, c, AdmittedIn(c, Fresh(0), rs, 0, c.interval), c.interval - 0)
  {
    var r1, r2 := Request(0, c.burst), Request(c.interval, 1);
    MulMono(c.interval, 1, c.burst);
    MulDistrib(c.interval, c.burst, 1);
    assert Admits(c, Fresh(0), r1.n, r1.now);
    var e := After(c, Fresh(0), r1.n, r1.now);
    assert Admits(c, e, 1, c.interval);
    assert [r1, r2][1..] == [r2] && [r2][1..] == [];
    assert AdmittedIn(c, e, [r2], 0, c.interval) == 1;
  }

  // Eviction of idle keys

  predicate Idle(c: Config, e: Entry, now: int) {
    c.idleClean > 0 && e.lastAccess < now - c.idleClean
  }

  /** Forgetting any idle key is invisible to every later request. */
  ghost predicate EvictionSafe(c: Config) {
    forall e, now, n, later | Bounded(c, e) && Idle(c, e, now) && now <= later ::
      Admits(c, e, n, later) == Admits(c, Fresh(now), n, later)
  }

  /** Exactly when forgetting is safe. The default idle time is five minutes
      whatever the rate, so one request an hour does not meet the condition. */
  lemma EvictionSafeIff(c: Config)
    requires ValidConfig(c) && c.idleClean > 0
    ensures EvictionSafe(c) <==> c.interval * c.burst <= c.idleClean + 1
  {
    if c.interval * c.burst > c.idleClean + 1 {
      MulMono(c.interval, 1, c.burst);
      var e := After(c, Fresh(0), c.burst, 0);
      var now := c.idleClean + 1;
      assert Bounded(c, e) && Idle(c, e, now);
      assert !Admits(c, e, c.burst, now) && Admits(c, Fresh(now), c.burst, now);
    }
  }

  /** One request an hour, no burst, default clean-up: the second request is
      admitted after five minutes, from a state the limiter really reaches. */
  lemma EvictionForgetsHourlyLimit()
    ensures var c := Derive(1, 1, 3600_000_000_000, 300_000_000_000);
            var e := After(c, Fresh(0), 1, 0);
            var now := 300_000_000_001;
            && Admits(c, Fresh(0), 1, 0) && Idle(c, e, now)
            && !Admits(c, e, 1, now) && Admits(c, Fresh(now), 1, now)
            && !EvictionSafe(c)
  {
    var c := Derive(1, 1, 3600_000_000_000, 300_000_000_000);
    EvictionSafeIff(c);
  }
}
