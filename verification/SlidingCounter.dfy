/** The approximate sliding window: two fixed-window counters per key, the previous
    one weighted by how much of it the window still covers. Weights are exact reals;
    clocks do not precede the epoch. */
module SlidingCounter {
  import opened Ratelimit
  import opened Arith
  import opened History

  datatype Config = Config(limit: int, window: int)

  predicate ValidConfig(c: Config) {
    c.limit > 0 && c.window > 0
  }

  /** The current bucket (its start and count), and the count of the bucket before. */
  datatype KeyCounter = KeyCounter(start: int, current: int, previous: int, lastAccess: int)

  function WindowStart(c: Config, now: int): int
    requires ValidConfig(c)
  {
    c.window * (now / c.window)
  }

  function Elapsed(c: Config, now: int): int
    requires ValidConfig(c)
  {
    now - WindowStart(c, now)
  }

  function Fresh(c: Config, now: int): KeyCounter
    requires ValidConfig(c)
  {
    KeyCounter(WindowStart(c, now), 0, 0, now)
  }

  /** The counter moved to the window of `now`. */
  function Rolled(c: Config, k: KeyCounter, now: int): KeyCounter
    requires ValidConfig(c)
  {
    var ws := WindowStart(c, now);
    if k.start == ws then k
    else KeyCounter(ws, 0, if k.start == ws - c.window then k.current else 0, k.lastAccess)
  }

  /** The weighted count, times the window length. */
  function Load(c: Config, k: KeyCounter, now: int): int
    requires ValidConfig(c)
  {
    var r := Rolled(c, k, now);
    r.previous * (c.window - Elapsed(c, now)) + c.window * r.current
  }

  predicate Admits(c: Config, k: KeyCounter, n: int, now: int)
    requires ValidConfig(c)
  {
    n >= 1 && Load(c, k, now) + c.window * n <= c.window * c.limit
  }

  function After(c: Config, k: KeyCounter, n: int, now: int): KeyCounter
    requires ValidConfig(c)
  {
    if n < 1 then k
    else
      var r := Rolled(c, k, now).(lastAccess := now);
      if Admits(c, k, n, now) then r.(current := r.current + n) else r
  }

  function Remaining(c: Config, k: KeyCounter, now: int): int
    requires ValidConfig(c)
  {
    Max(0, (c.window * c.limit - Load(c, k, now)) / c.window)
  }

  ghost predicate Valid(c: Config, k: KeyCounter)
    requires ValidConfig(c)
  {
    && k.start == WindowStart(c, k.start)
    && 0 <= k.current <= c.limit && 0 <= k.previous <= c.limit
    && (k.current > 0 ==> k.start <= k.lastAccess)
    && (k.previous > 0 ==> k.start - c.window <= k.lastAccess)
  }

  /** The weighted count as the limiter computes it. */
  function Effective(c: Config, k: KeyCounter, now: int): real
    requires ValidConfig(c)
  {
    k.previous as real * (1.0 - Elapsed(c, now) as real / c.window as real) + k.current as real
  }

  /** `effective` is the weighted count at `now`, after rolling. */
  ghost predicate Weighs(c: Config, k: KeyCounter, now: int, effective: real)
    requires ValidConfig(c)
  {
    effective * c.window as real == Load(c, k, now) as real
  }

  /** The hint of a denial: no shorter wait would have been enough, and one nanosecond more
      is, or the window is over; the window has to roll if its own count is in the way. */
  ghost predicate WaitsFor(c: Config, k: KeyCounter, n: int, now: int, wait: int)
    requires ValidConfig(c)
  {
    && 0 <= wait <= c.window - Elapsed(c, now)
    && (forall later | now <= later < now + wait :: !Admits(c, k, n, later))
    && (k.current + n > c.limit || k.previous == 0 ==> wait == c.window - Elapsed(c, now))
    && (wait + 1 < c.window - Elapsed(c, now) ==> Admits(c, k, n, now + wait + 1))
  }

  class Limiter {
    const cfg: Config
    var counters: map<string, KeyCounter>

    ghost predicate Consistent(now: int)
      reads this
    {
      ValidConfig(cfg) && forall k | k in counters ::
        Valid(cfg, counters[k]) && counters[k].start <= now && counters[k].lastAccess <= now
    }

    constructor (limit: int, window: int)
      requires limit > 0 && window > 0
      ensures cfg == Config(limit, window) && counters == map[] && ValidConfig(cfg)
    {
      cfg := Config(limit, window);
      counters := map[];
    }

    function Get(key: string, now: int): KeyCounter
      requires ValidConfig(cfg)
      reads this
    {
      if key in counters then counters[key] else Fresh(cfg, now)
    }

    method EffectiveCount(counter: KeyCounter, now: int) returns (k: KeyCounter, effective: real)
      requires ValidConfig(cfg)
      ensures k == Rolled(cfg, counter, now)
      ensures Weighs(cfg, counter, now, effective)
      ensures Remaining(cfg, counter, now) == Max(0, (cfg.limit as real - effective).Floor)
    {
      k := counter;
      var windowStart := WindowStart(cfg, now);
      var elapsedFrac := (now - windowStart) as real / cfg.window as real;
      if k.start != windowStart {
        if k.start == windowStart - cfg.window {
          k := k.(previous := k.current);
        } else {
          k := k.(previous := 0);
        }
        k := k.(start := windowStart, current := 0);
      }
      effective := k.previous as real * (1.0 - elapsedFrac) + k.current as real;
      assert effective == Effective(cfg, k, now);
      RolledAgain(cfg, counter, 1, now);
      ScaledEffective(cfg, k, now);
      assert Load(cfg, k, now) == Load(cfg, counter, now);
      FloorOfRemaining(cfg, counter, now, effective);
    }

    method AllowN(key: string, n: int, now: int) returns (res: Result)
      requires Consistent(now)
      modifies this
      ensures Consistent(now)
      ensures res.allowed == (ValidKey(key) && Admits(cfg, old(Get(key, now)), n, now))
      ensures ValidKey(key) && n >= 1 ==> res.limit == cfg.limit && res.remaining == Remaining(cfg, Get(key, now), now)
      ensures ValidKey(key) && n >= 1 && !res.allowed ==>
        res.resetAfter == cfg.window - Elapsed(cfg, now) && WaitsFor(cfg, Get(key, now), n, now, res.retryAfter)
      ensures res.allowed ==> res.resetAfter == 0 == res.retryAfter
      ensures ValidKey(key) && n >= 1 ==> Get(key, now).lastAccess == now
      ensures counters ==
        if ValidKey(key) && n >= 1 then old(counters)[key := After(cfg, old(Get(key, now)), n, now)] else old(counters)
    {
      if !ValidKey(key) || n < 1 {
        return REJECTED;
      }
      var k, effective := EffectiveCount(Get(key, now), now);
      Decision(cfg, Get(key, now), n, now, effective);
      FreshValid(cfg, now);
      ValidPreserved(cfg, Get(key, now), n, now);
      k := k.(lastAccess := now);
      if effective + n as real > cfg.limit as real {
        counters := counters[key := k];
        var remaining := cfg.limit as real - effective;
        if remaining < 0.0 {
          remaining := 0.0;
        }
        RolledAgain(cfg, old(Get(key, now)), n, now);
        var retryAfter := RetryAfter(k, n, now);
        return Result(false, cfg.limit, remaining.Floor, cfg.window - (now - WindowStart(cfg, now)), retryAfter);
      }
      k := k.(current := k.current + n);
      counters := counters[key := k];
      var remaining := cfg.limit as real - effective - n as real;
      if remaining < 0.0 {
        remaining := 0.0;
      }
      res := Result(true, cfg.limit, remaining.Floor, 0, 0);
    }

    method Peek(key: string, now: int) returns (remaining: int, resetAt: int)
      requires Consistent(now)
      modifies this
      ensures Consistent(now)
      ensures remaining == Remaining(cfg, old(Get(key, now)), now)
      ensures resetAt == WindowStart(cfg, now) + cfg.window
      ensures counters == old(counters)[key := Rolled(cfg, old(Get(key, now)), now)]
    {
      var before := Get(key, now);
      FreshValid(cfg, now);
      RolledValid(cfg, before, now);
      var k, effective := EffectiveCount(before, now);
      counters := counters[key := k];
      var left := cfg.limit as real - effective;
      if left < 0.0 {
        left := 0.0;
      }
      remaining := left.Floor;
      resetAt := WindowStart(cfg, now) + cfg.window;
    }

    /** Until the window rolls, or until enough of the previous window has decayed. */
    method RetryAfter(k: KeyCounter, n: int, now: int) returns (retryAfter: int)
      requires ValidConfig(cfg) && n >= 1 && k.start == WindowStart(cfg, now) && k.previous >= 0
      requires !Admits(cfg, k, n, now)
      ensures WaitsFor(cfg, k, n, now, retryAfter)
    {
      hide WindowStart, Load, Rolled, Admits, WaitsFor;
      var elapsed := now - WindowStart(cfg, now);
      WindowFacts(cfg, now, now);
      if k.current + n > cfg.limit || k.previous == 0 {
        retryAfter := cfg.window - elapsed;
        WaitsForRoll(cfg, k, n, now);
      } else {
        var neededFrac := 1.0 - (cfg.limit - n - k.current) as real / k.previous as real;
        NeededFraction(cfg, k, n, now, neededFrac);
        if neededFrac < 0.0 {
          neededFrac := 0.0;
        }
        if neededFrac > 1.0 {
          neededFrac := 1.0;
        }
        var needed := neededFrac * cfg.window as real;
        retryAfter := (needed - elapsed as real).Floor;
        WaitsForDecay(cfg, k, n, now, neededFrac, needed, retryAfter);
      }
      if retryAfter < 0 {
        retryAfter := 1_000_000;
      }
    }
  }

  lemma WaitsForRoll(c: Config, k: KeyCounter, n: int, now: int)
    requires ValidConfig(c) && n >= 1 && k.start == WindowStart(c, now) && k.previous >= 0
    requires !Admits(c, k, n, now) && (k.current + n > c.limit || k.previous == 0)
    ensures WaitsFor(c, k, n, now, c.window - Elapsed(c, now))
  {
    hide WindowStart, Load, Rolled, Admits;
    WindowFacts(c, now, now);
    forall later | now <= later < WindowStart(c, now) + c.window
      ensures !Admits(c, k, n, later)
    {
      WindowFacts(c, now, later);
      MulMono(k.previous, 0, c.window - Elapsed(c, later));
      StillDenied(c, k, n, now, later);
    }
  }

  lemma WaitsForDecay(c: Config, k: KeyCounter, n: int, now: int, f: real, needed: real, wait: int)
    requires ValidConfig(c) && n >= 1 && k.start == WindowStart(c, now) && k.previous > 0 && k.current + n <= c.limit
    requires f == 1.0 - (c.limit - n - k.current) as real / k.previous as real && needed == f * c.window as real
    requires Elapsed(c, now) as real < needed <= c.window as real
    requires wait as real <= needed - Elapsed(c, now) as real < (wait + 1) as real
    ensures WaitsFor(c, k, n, now, wait) && wait >= 0
  {
    hide WindowStart, Load, Rolled, Admits;
    WindowFacts(c, now, now);
    forall later | now <= later <= now + wait + 1 && later < WindowStart(c, now) + c.window
      ensures Admits(c, k, n, later) <==> (later - WindowStart(c, now)) as real >= needed
    {
      WindowFacts(c, now, later);
      DecayedIff(c, k, n, later, f);
    }
  }

  lemma WindowFacts(c: Config, now: int, later: int)
    requires ValidConfig(c)
    ensures 0 <= Elapsed(c, now) < c.window
    ensures WindowStart(c, now) <= later < WindowStart(c, now) + c.window ==> WindowStart(c, later) == WindowStart(c, now)
  {
    var q := now / c.window;
    MulDistrib(c.window, q, 1);
    Quotient(now, c.window, q);
    Quotient(now, c.window, q + 1);
    Quotient(later, c.window, q);
    Quotient(later, c.window, q + 1);
  }

  lemma StillDenied(c: Config, k: KeyCounter, n: int, now: int, later: int)
    requires ValidConfig(c) && n >= 1 && k.previous >= 0 && k.start == WindowStart(c, now) == WindowStart(c, later)
    requires k.previous * (c.window - Elapsed(c, later)) >= 0
    requires k.current + n > c.limit || k.previous == 0
    requires !Admits(c, k, n, now)
    ensures !Admits(c, k, n, later)
  {
    MulDistrib(c.window, k.current, n);
    if k.current + n > c.limit {
      MulMono(c.window, c.limit + 1, k.current + n);
      MulDistrib(c.window, c.limit, 1);
    }
  }

  /** A denial means the needed fraction has not elapsed, and lies in (0, 1]. */
  lemma NeededFraction(c: Config, k: KeyCounter, n: int, now: int, f: real)
    requires ValidConfig(c) && n >= 1 && k.previous > 0 && k.start == WindowStart(c, now)
    requires k.current + n <= c.limit && !Admits(c, k, n, now)
    requires f == 1.0 - (c.limit - n - k.current) as real / k.previous as real
    ensures Elapsed(c, now) as real < f * c.window as real <= c.window as real
    ensures 0.0 <= f <= 1.0
  {
    DecayedIff(c, k, n, now, f);
    WindowFacts(c, now, now);
    hide WindowStart, Admits;
    assert (c.limit - n - k.current) as real / k.previous as real >= 0.0;
    var w := c.window as real;
    RMulMono(w, f, 1.0);
    if f < 0.0 {
      RMulMono(w, f, 0.0);
    }
  }

  lemma DecayedIff(c: Config, k: KeyCounter, n: int, later: int, f: real)
    requires ValidConfig(c) && n >= 1 && k.previous > 0 && k.start == WindowStart(c, later)
    requires f == 1.0 - (c.limit - n - k.current) as real / k.previous as real
    ensures Admits(c, k, n, later) <==> Elapsed(c, later) as real >= f * c.window as real
  {
    hide WindowStart;
    var p, w, el, a := k.previous as real, c.window as real, Elapsed(c, later) as real, (c.limit - n - k.current) as real;
    assert p * f == p - a by { assert p * (a / p) == a; }
    assert p * (f * w - el) == (p - a) * w - p * el by { assert p * (f * w) == (p * f) * w; }
    assert (k.previous * (c.window - Elapsed(c, later))) as real == p * (w - el);
    MulDistrib(c.window, c.limit - n, k.current);
    MulDistrib(c.window, c.limit, n);
    assert (c.window * (c.limit - n - k.current)) as real == w * a;
    if el >= f * w {
      RMulMono(p, f * w - el, 0.0);
    } else {
      RMulStrict(p, 0.0, f * w - el);
    }
  }

  /** The comparison the limiter makes, in terms of the scaled load. */
  lemma Decision(c: Config, k: KeyCounter, n: int, now: int, effective: real)
    requires ValidConfig(c) && n >= 1 && Weighs(c, k, now, effective)
    ensures effective + n as real <= c.limit as real <==> Admits(c, k, n, now)
    ensures Remaining(c, k, now) == Max(0, (c.limit as real - effective).Floor)
    ensures Remaining(c, After(c, k, n, now), now)
         == if Admits(c, k, n, now) then (c.limit as real - effective - n as real).Floor else Remaining(c, k, now)
  {
    Scale(effective, c.limit - n, Load(c, k, now), c.window);
    MulDistrib(c.window, c.limit, n);
    ScaledRemaining(effective, c.limit, Load(c, k, now), c.window);
    PeekAllowLaw(c, k, n, now);
  }

  lemma ScaledEffective(c: Config, k: KeyCounter, now: int)
    requires ValidConfig(c) && k.start == WindowStart(c, now)
    ensures Weighs(c, k, now, Effective(c, k, now))
  {
    hide WindowStart;
    var w, el := c.window as real, Elapsed(c, now) as real;
    assert (1.0 - el / w) * w == w - el;
    assert k.previous as real * (1.0 - el / w) * w == k.previous as real * (w - el);
    assert (k.previous * (c.window - Elapsed(c, now))) as real == k.previous as real * (w - el);
  }

  lemma Scale(x: real, bound: int, load: int, w: int)
    requires w > 0 && x * w as real == load as real
    ensures x <= bound as real <==> load <= w * bound
  {
    assert (w * bound) as real == bound as real * w as real;
    if x <= bound as real {
      RMulMono(w as real, x, bound as real);
    } else {
      assert (x - bound as real) * w as real > 0.0;
    }
  }

  lemma ScaledRemaining(x: real, limit: int, load: int, w: int)
    requires w > 0 && x * w as real == load as real
    ensures (limit as real - x).Floor == (w * limit - load) / w
  {
    var q := (w * limit - load) / w;
    Quotient(w * limit - load, w, q);
    Quotient(w * limit - load, w, q + 1);
    MulDistrib(w, limit, q);
    MulDistrib(w, limit, q + 1);
    Scale(x, limit - q, load, w);
    Scale(x, limit - q - 1, load, w);
  }

  lemma RolledAgain(c: Config, k: KeyCounter, n: int, now: int)
    requires ValidConfig(c)
    ensures Rolled(c, Rolled(c, k, now), now) == Rolled(c, k, now)
    ensures n >= 1 ==> Rolled(c, After(c, k, n, now), now) == After(c, k, n, now)
  {
  }

  lemma LoadAfter(c: Config, k: KeyCounter, n: int, now: int)
    requires ValidConfig(c) && n >= 1
    ensures Load(c, After(c, k, n, now), now) == Load(c, k, now) + if Admits(c, k, n, now) then c.window * n else 0
  {
    RolledAgain(c, k, n, now);
    MulDistrib(c.window, Rolled(c, k, now).current, n);
  }

  lemma PeekAllowLaw(c: Config, k: KeyCounter, n: int, now: int)
    requires ValidConfig(c) && n >= 1
    ensures Admits(c, k, n, now) <==> Remaining(c, k, now) >= n
    ensures Admits(c, k, n, now) ==> Remaining(c, After(c, k, n, now), now) == Remaining(c, k, now) - n
    ensures !Admits(c, k, n, now) ==> Load(c, After(c, k, n, now), now) == Load(c, k, now)
  {
    LoadAfter(c, k, n, now);
    var free := c.window * c.limit - Load(c, k, now);
    Quotient(free, c.window, n);
    QuotientShift(free, c.window, n);
  }

  lemma FloorOfRemaining(c: Config, k: KeyCounter, now: int, effective: real)
    requires ValidConfig(c) && Weighs(c, k, now, effective)
    ensures Remaining(c, k, now) == Max(0, (c.limit as real - effective).Floor)
  {
    ScaledRemaining(effective, c.limit, Load(c, k, now), c.window);
  }

  lemma FreshValid(c: Config, now: int)
    requires ValidConfig(c)
    ensures Valid(c, Fresh(c, now)) && Fresh(c, now).start <= now
  {
    WindowFacts(c, now, WindowStart(c, now));
  }

  lemma RolledValid(c: Config, k: KeyCounter, now: int)
    requires ValidConfig(c) && Valid(c, k) && k.start <= now
    ensures Valid(c, Rolled(c, k, now)) && Rolled(c, k, now).start <= now
  {
    WindowFacts(c, now, WindowStart(c, now));
  }

  lemma ValidPreserved(c: Config, k: KeyCounter, n: int, now: int)
    requires ValidConfig(c) && Valid(c, k) && k.start <= now && k.lastAccess <= now
    ensures Valid(c, After(c, k, n, now)) && After(c, k, n, now).start <= now
  {
    RolledValid(c, k, now);
    if Admits(c, k, n, now) {
      CountsWithinLimit(c, Rolled(c, k, now), n, now);
    }
  }

  /** An admission keeps the current window's count within the limit. */
  lemma CountsWithinLimit(c: Config, k: KeyCounter, n: int, now: int)
    requires ValidConfig(c) && Admits(c, k, n, now) && k.previous >= 0 && k.start == WindowStart(c, now)
    ensures k.current + n <= c.limit
  {
    WindowFacts(c, now, now);
    MulMono(k.previous, 0, c.window - Elapsed(c, now));
    MulDistrib(c.window, k.current, n);
    if k.current + n > c.limit {
      MulMono(c.window, c.limit + 1, k.current + n);
      MulDistrib(c.window, c.limit, 1);
    }
  }

  /** Rolling early and again later is rolling once, later. */
  lemma RollComposes(c: Config, k: KeyCounter, early: int, late: int)
    requires ValidConfig(c) && Valid(c, k) && k.start <= early <= late
    ensures var once, twice := Rolled(c, k, late), Rolled(c, Rolled(c, k, early), late);
            once.start == twice.start && once.current == twice.current && once.previous == twice.previous
  {
    WindowsApart(c, k.start, early);
    WindowsApart(c, early, late);
    WindowsApart(c, k.start, late);
  }

  /** Distinct windows are at least one window apart. */
  lemma WindowsApart(c: Config, a: int, b: int)
    requires ValidConfig(c) && a <= b
    ensures WindowStart(c, a) == WindowStart(c, b) || WindowStart(c, a) + c.window <= WindowStart(c, b)
  {
    var p, q := a / c.window, b / c.window;
    Quotient(b, c.window, p);
    Quotient(a, c.window, p);
    if p < q {
      MulMono(c.window, p + 1, q);
      MulDistrib(c.window, p, 1);
    }
  }

  // Whole runs

  function Admissions(c: Config, k: KeyCounter, rs: seq<Request>): seq<int>
    requires ValidConfig(c)
    decreases |rs|
  {
    if rs == [] then []
    else
      var r := rs[0];
      (if Admits(c, k, r.n, r.now) then Copies(r.now, r.n) else [])
      + Admissions(c, After(c, k, r.n, r.now), rs[1..])
  }

  /** The two counts are the admissions of the current and the previous window. */
  ghost predicate Records(c: Config, k: KeyCounter, history: seq<int>, now: int)
    requires ValidConfig(c)
  {
    && Valid(c, k) && k.start <= now && k.lastAccess <= now && AtMost(history, now)
    && AtMost(history, k.start + c.window - 1)
    && k.current == CountIn(history, k.start, k.start + c.window - 1)
    && k.previous == CountIn(history, k.start - c.window, k.start - 1)
  }

  lemma RecordsRolled(c: Config, k: KeyCounter, history: seq<int>, before: int, now: int)
    requires ValidConfig(c) && Records(c, k, history, before) && before <= now
    ensures Records(c, Rolled(c, k, now), history, now)
  {
    RolledValid(c, k, now);
    WindowsApart(c, k.start, now);
    var r := Rolled(c, k, now);
    if k.start != r.start {
      CountNone(history, r.start, r.start + c.window - 1);
      if k.start != r.start - c.window {
        assert k.start + c.window <= r.start - c.window by {
          WindowFacts(c, now, now);
          WindowsApart(c, k.start + c.window, now);
          NextWindow(c, k.start);
        }
        CountNone(history, r.start - c.window, r.start - 1);
      }
    }
  }

  lemma NextWindow(c: Config, start: int)
    requires ValidConfig(c) && start == WindowStart(c, start)
    ensures WindowStart(c, start + c.window) == start + c.window
  {
    var q := start / c.window;
    MulDistrib(c.window, q, 1);
    Quotient(start + c.window, c.window, q + 1);
    Quotient(start + c.window, c.window, q + 2);
    MulDistrib(c.window, q + 1, 1);
  }

  lemma RecordsStep(c: Config, k: KeyCounter, history: seq<int>, before: int, n: int, now: int)
    requires ValidConfig(c) && Records(c, k, history, before) && before <= now
    ensures Records(c, After(c, k, n, now), history + if Admits(c, k, n, now) then Copies(now, n) else [], now)
  {
    hide WindowStart, Load, CountIn;
    RecordsRolled(c, k, history, before, now);
    ValidPreserved(c, k, n, now);
    if Admits(c, k, n, now) {
      WindowFacts(c, now, now);
      CountsExtended(history, now, n, Rolled(c, k, now).start, c.window);
    } else {
      assert history + [] == history;
    }
  }

  lemma CountsExtended(h: seq<int>, now: int, n: nat, start: int, w: int)
    requires start <= now < start + w
    ensures CountIn(h + Copies(now, n), start, start + w - 1) == CountIn(h, start, start + w - 1) + n
    ensures CountIn(h + Copies(now, n), start - w, start - 1) == CountIn(h, start - w, start - 1)
  {
    CountConcat(h, Copies(now, n), start, start + w - 1);
    CountConcat(h, Copies(now, n), start - w, start - 1);
    CountCopies(now, n, start, start + w - 1);
    CountCopies(now, n, start - w, start - 1);
  }

  /** At an admission: whatever interval one window long it falls in, that interval
      holds at most limit + P * f admissions so far, where P is the previous
      window's count and f = elapsed / window. */
  lemma BoundAtAdmission(c: Config, k: KeyCounter, history: seq<int>, before: int, n: int, now: int, s: int)
    requires ValidConfig(c) && Records(c, k, history, before) && before <= now
    requires Admits(c, k, n, now) && s <= now <= s + c.window
    ensures var p := After(c, k, n, now).previous;
            && 0 <= p <= c.limit
            && c.window * CountIn(history + Copies(now, n), s, s + c.window) <= c.window * c.limit + p * Elapsed(c, now)
  {
    hide WindowStart, CountIn, Copies;
    RecordsStep(c, k, history, before, n, now);
    RecordsRolled(c, k, history, before, now);
    var h, k' := history + Copies(now, n), After(c, k, n, now);
    WindowFacts(c, now, now);
    CountSplit(h, s, now + 1, s + c.window);
    CountNone(h, now + 1, s + c.window);
    CountWiden(h, s, now, k'.start - c.window, k'.start + c.window - 1);
    CountSplit(h, k'.start - c.window, k'.start, k'.start + c.window - 1);
    LoadAfter(c, k, n, now);
    RolledAgain(c, k, n, now);
    ScaledBound(c.window, CountIn(h, s, s + c.window), k'.previous, k'.current, c.limit, Elapsed(c, now));
  }

  lemma ScaledBound(w: int, count: int, p: int, current: int, limit: int, elapsed: int)
    requires w > 0 && count <= p + current && p * (w - elapsed) + w * current <= w * limit
    ensures w * count <= w * limit + p * elapsed
  {
    MulMono(w, count, p + current);
    MulDistrib(w, p, current);
    MulDistrib(p, w, elapsed);
  }

  lemma {:induction false} WindowBoundFrom(c: Config, k: KeyCounter, history: seq<int>, rs: seq<Request>, before: int, s: int)
    requires ValidConfig(c) && Monotone(rs) && (forall r | r in rs :: before <= r.now)
    requires Records(c, k, history, before)
    requires WithinBound(c, CountIn(history, s, s + c.window))
    ensures WithinBound(c, CountIn(history + Admissions(c, k, rs), s, s + c.window))
    decreases |rs|
  {
    if rs == [] {
      assert history + [] == history;
    } else {
      var r := rs[0];
      var added := if Admits(c, k, r.n, r.now) then Copies(r.now, r.n) else [];
      assert history + Admissions(c, k, rs) == history + added + Admissions(c, After(c, k, r.n, r.now), rs[1..]);
      IntervalStep(c, k, history, before, r.n, r.now, s);
      RecordsStep(c, k, history, before, r.n, r.now);
      WindowBoundFrom(c, After(c, k, r.n, r.now), history + added, rs[1..], r.now, s);
    }
  }

  lemma IntervalStep(c: Config, k: KeyCounter, history: seq<int>, before: int, n: int, now: int, s: int)
    requires ValidConfig(c) && Records(c, k, history, before) && before <= now
    requires WithinBound(c, CountIn(history, s, s + c.window))
    ensures WithinBound(c, CountIn(history + if Admits(c, k, n, now) then Copies(now, n) else [], s, s + c.window))
  {
    if !Admits(c, k, n, now) {
      assert history + [] == history;
    } else if s <= now <= s + c.window {
      BoundAtAdmission(c, k, history, before, n, now, s);
      WindowFacts(c, now, now);
      BelowTwice(c, After(c, k, n, now).previous, Elapsed(c, now), CountIn(history + Copies(now, n), s, s + c.window));
    } else {
      CountConcat(history, Copies(now, n), s, s + c.window);
      CountCopies(now, n, s, s + c.window);
    }
  }

  lemma BelowTwice(c: Config, p: int, elapsed: int, count: int)
    requires ValidConfig(c) && 0 <= p <= c.limit && 0 <= elapsed < c.window
    requires c.window * count <= c.window * c.limit + p * elapsed
    ensures WithinBound(c, count)
  {
    MulMono(elapsed, p, c.limit);
    MulMono(c.limit, elapsed, c.window - 1);
  }

  /** At most limit + limit * (window - 1) / window. */
  predicate WithinBound(c: Config, count: int) {
    c.window * count <= c.window * c.limit + c.limit * (c.window - 1)
  }

  lemma WithinBoundIsBelowTwice(c: Config, count: int)
    requires ValidConfig(c) && WithinBound(c, count)
    ensures count < 2 * c.limit
  {
    MulDistrib(c.limit, c.window, 1);
    MulDistrib(c.window, c.limit, c.limit);
    if count >= 2 * c.limit {
      MulMono(c.window, 2 * c.limit, count);
    }
  }

  /** Every closed interval one window long holds at most limit + P * f admissions for
      the largest P and f there are, and so fewer than twice the limit, in every run. */
  lemma WindowBound(c: Config, rs: seq<Request>, start: int, s: int)
    requires ValidConfig(c) && Monotone(rs) && forall r | r in rs :: start <= r.now
    ensures var count := CountIn(Admissions(c, Fresh(c, start), rs), s, s + c.window);
            WithinBound(c, count) && count < 2 * c.limit
  {
    WindowFacts(c, start, WindowStart(c, start));
    MulMono(c.limit, 0, c.window - 1);
    MulMono(c.window, 0, c.limit);
    WindowBoundFrom(c, Fresh(c, start), [], rs, start, s);
    assert [] + Admissions(c, Fresh(c, start), rs) == Admissions(c, Fresh(c, start), rs);
    WithinBoundIsBelowTwice(c, CountIn(Admissions(c, Fresh(c, start), rs), s, s + c.window));
  }

  function Final(c: Config, k: KeyCounter, rs: seq<Request>): KeyCounter
    requires ValidConfig(c)
    decreases |rs|
  {
    if rs == [] then k else Final(c, After(c, k, rs[0].n, rs[0].now), rs[1..])
  }

  lemma {:induction false} RecordsRun(c: Config, k: KeyCounter, history: seq<int>, rs: seq<Request>, before: int, now: int)
    requires ValidConfig(c) && Monotone(rs) && (forall r | r in rs :: before <= r.now <= now) && before <= now
    requires Records(c, k, history, before)
    ensures Records(c, Final(c, k, rs), history + Admissions(c, k, rs), now)
    decreases |rs|
  {
    hide After, Load, WindowStart, CountIn;
    if rs == [] {
      assert history + [] == history;
    } else {
      var r := rs[0];
      var added := if Admits(c, k, r.n, r.now) then Copies(r.now, r.n) else [];
      var k' := After(c, k, r.n, r.now);
      assert history + Admissions(c, k, rs) == history + added + Admissions(c, k', rs[1..]);
      RecordsStep(c, k, history, before, r.n, r.now);
      RecordsRun(c, k', history + added, rs[1..], r.now, now);
    }
  }

  /** After every run a request is admitted if and only if it fits beside the admissions
      of the fixed window `now` falls in and those of the window before, weighted by the
      part of it that is less than one window old. */
  lemma AdmittedExactly(c: Config, rs: seq<Request>, start: int, n: int, now: int, ws: int)
    requires ValidConfig(c) && Monotone(rs) && (forall r | r in rs :: start <= r.now <= now) && start <= now
    requires ws % c.window == 0 && ws <= now < ws + c.window
    ensures var history := Admissions(c, Fresh(c, start), rs);
            var previous, current := CountIn(history, ws - c.window, ws - 1), CountIn(history, ws, now);
            Admits(c, Final(c, Fresh(c, start), rs), n, now) <==>
              n >= 1 && previous * (c.window - (now - ws)) + c.window * (current + n) <= c.window * c.limit
  {
    hide Final, Admissions, Records, CountIn, Admits, Fresh;
    var history := Admissions(c, Fresh(c, start), rs);
    FirstRecord(c, start);
    assert [] + history == history;
    RecordsRun(c, Fresh(c, start), [], rs, start, now);
    AdmitsRecorded(c, Final(c, Fresh(c, start), rs), history, n, now, ws);
  }

  lemma AdmitsRecorded(c: Config, k: KeyCounter, history: seq<int>, n: int, now: int, ws: int)
    requires ValidConfig(c) && Records(c, k, history, now) && ws % c.window == 0 && ws <= now < ws + c.window
    ensures var previous, current := CountIn(history, ws - c.window, ws - 1), CountIn(history, ws, now);
            Admits(c, k, n, now) <==>
              n >= 1 && previous * (c.window - (now - ws)) + c.window * (current + n) <= c.window * c.limit
  {
    hide WindowStart, CountIn;
    RecordsRolled(c, k, history, now, now);
    StartOf(c, now, ws);
    CountUpTo(history, ws, now, ws + c.window - 1);
    MulDistrib(c.window, CountIn(history, ws, now), n);
  }

  lemma FirstRecord(c: Config, start: int)
    requires ValidConfig(c)
    ensures Records(c, Fresh(c, start), [], start)
  {
    WindowFacts(c, start, WindowStart(c, start));
  }

  lemma StartOf(c: Config, now: int, ws: int)
    requires ValidConfig(c) && ws % c.window == 0 && ws <= now < ws + c.window
    ensures WindowStart(c, now) == ws
  {
    var q := ws / c.window;
    assert ws == c.window * q;
    MulDistrib(c.window, q, 1);
    Quotient(now, c.window, q);
    Quotient(now, c.window, q + 1);
  }

  /** limit / window, rounded up. */
  function Ceiling(c: Config): int
    requires ValidConfig(c)
  {
    (c.limit + c.window - 1) / c.window
  }

  lemma CeilingFacts(c: Config)
    requires ValidConfig(c)
    ensures var d := Ceiling(c);
            1 <= d <= c.limit && c.window * (c.limit - d) + c.limit <= c.window * c.limit
            && WithinBound(c, 2 * c.limit - d) && !WithinBound(c, 2 * c.limit - d + 1)
  {
    var d := Ceiling(c);
    Quotient(c.limit + c.window - 1, c.window, 1);
    Quotient(c.limit + c.window - 1, c.window, d);
    Quotient(c.limit + c.window - 1, c.window, d + 1);
    MulDistrib(c.window, d, 1);
    hide Ceiling;
    CeilingArith(c.limit, c.window, d);
  }

  lemma CeilingArith(l: int, w: int, d: int)
    requires l >= 1 && w >= 1 && l <= w * d < l + w
    ensures d <= l && w * (l - d) + l <= w * l
    ensures w * (2 * l - d) <= w * l + l * (w - 1) < w * (2 * l - d + 1)
  {
    MulMono(l, 1, w);
    MulDistrib(l, w, 1);
    MulDistrib(w, l, d);
    MulDistrib(w, l, l - d);
    MulDistrib(w, 2 * l - d, 1);
    if d > l {
      MulMono(w, l + 1, d);
      MulDistrib(w, l, 1);
    }
  }

  /** The bound is attained, for every configuration: a full window just before a
      boundary, and all that still fits just before the next, are as many admissions
      as the bound allows. */
  lemma WindowBoundTight(c: Config)
    requires ValidConfig(c)
    ensures var w := c.window;
            var rs := [Request(w - 1, c.limit), Request(2 * w - 1, c.limit - Ceiling(c))];
            var count := CountIn(Admissions(c, Fresh(c, 0), rs), w - 1, w - 1 + w);
            Monotone(rs) && count == 2 * c.limit - Ceiling(c) && WithinBound(c, count) && !WithinBound(c, count + 1)
  {
    var w, n := c.window, c.limit - Ceiling(c);
    CeilingFacts(c);
    hide WindowStart, Ceiling, WithinBound, Admits, After, Admissions, CountIn, Copies, Fresh;
    TwoFullWindows(c, n);
    TwoBatches(w - 1, c.limit, 2 * w - 1, n);
    assert w - 1 + w == 2 * w - 1;
  }

  lemma TwoBatches(t: int, m: nat, u: int, n: nat)
    requires t <= u
    ensures CountIn(Copies(t, m) + Copies(u, n), t, u) == m + n
  {
    CountConcat(Copies(t, m), Copies(u, n), t, u);
    CountCopies(t, m, t, u);
    CountCopies(u, n, t, u);
  }

  lemma TwoFullWindows(c: Config, n: nat)
    requires ValidConfig(c) && c.window * n + c.limit <= c.window * c.limit
    ensures var w := c.window;
            Admissions(c, Fresh(c, 0), [Request(w - 1, c.limit), Request(2 * w - 1, n)])
            == Copies(w - 1, c.limit) + Copies(2 * w - 1, n)
  {
    var w := c.window;
    var r1, r2 := Request(w - 1, c.limit), Request(2 * w - 1, n);
    var k0 := Fresh(c, 0);
    assert WindowStart(c, 0) == 0 && WindowStart(c, w - 1) == 0 by { WindowFacts(c, 0, w - 1); }
    assert WindowStart(c, 2 * w - 1) == w by { NextWindow(c, 0); WindowFacts(c, w, 2 * w - 1); }
    hide WindowStart;
    assert Admits(c, k0, r1.n, r1.now);
    var k1 := After(c, k0, r1.n, r1.now);
    assert k1 == KeyCounter(0, c.limit, 0, w - 1);
    assert Load(c, k1, r2.now) == c.limit;
    assert Admits(c, k1, r2.n, r2.now) <==> n >= 1;
    hide Admits, After, Load;
    assert [r1, r2][1..] == [r2] && [r2][1..] == [];
    assert Admissions(c, k1, [r2]) == Copies(r2.now, r2.n);
  }

  // Eviction of idle keys

  /** The clean-up loop forgets keys not consumed for five windows. */
  predicate Idle(c: Config, k: KeyCounter, now: int) {
    k.lastAccess < now - 5 * c.window
  }

  lemma EvictionUnobservable(c: Config, k: KeyCounter, now: int, later: int)
    requires ValidConfig(c) && Valid(c, k) && Idle(c, k, now) && now <= later
    ensures var old', new' := Rolled(c, k, later), Rolled(c, Fresh(c, now), later);
            old'.start == new'.start && old'.current == new'.current == 0 && old'.previous == new'.previous == 0
  {
    WindowFacts(c, later, later);
  }

  // The shared counter of the distributed limiter

  const MILLION := 1_000_000

  /** The elapsed fraction the caller sends, truncated to millionths. */
  function FractionMillionths(c: Config, now: int): int
    requires ValidConfig(c)
  {
    Elapsed(c, now) * MILLION / c.window
  }

  /** The script's decision from the two stored counts, its estimate in millionths, and
      the time to live it gives a window it has just begun. */
  method CounterScript(limit: int, n: int, millionths: int, ttlMs: int, current: int, previous: int)
    returns (allowed: bool, newCurrent: int, estimatedScaled: int, ttl: Option<int>)
    requires 0 <= millionths <= MILLION
    ensures allowed <==> MILLION * (current + n) + previous * (MILLION - millionths) <= MILLION * limit
    ensures newCurrent == if allowed then current + n else current
    ensures estimatedScaled == MILLION * current + previous * (MILLION - millionths)
    ensures ttl == if allowed && current == 0 then Some(ttlMs) else None
  {
    var fraction := millionths as real / 1000000.0;
    var estimated := current as real + previous as real * (1.0 - fraction);
    assert estimated * 1000000.0 == (MILLION * current + previous * (MILLION - millionths)) as real by {
      assert (1.0 - fraction) * 1000000.0 == (MILLION - millionths) as real;
      assert previous as real * (1.0 - fraction) * 1000000.0 == previous as real * (MILLION - millionths) as real;
      assert (previous * (MILLION - millionths)) as real == previous as real * (MILLION - millionths) as real;
    }
    Scale(estimated, limit - n, MILLION * current + previous * (MILLION - millionths), MILLION);
    estimatedScaled := (estimated * 1000000.0).Floor;
    if estimated + n as real > limit as real {
      return false, current, estimatedScaled, None;
    }
    ttl := if current == 0 then Some(ttlMs) else None;
    return true, current + n, estimatedScaled, ttl;
  }

  /** Truncating the fraction is conservative: the script admits only what the local
      limiter would admit from the same counts. */
  lemma ScriptIsConservative(c: Config, k: KeyCounter, n: int, now: int)
    requires ValidConfig(c) && n >= 1 && k.start == WindowStart(c, now) && k.previous >= 0
    requires MILLION * (k.current + n) + k.previous * (MILLION - FractionMillionths(c, now)) <= MILLION * c.limit
    ensures Admits(c, k, n, now)
  {
    var el, m, w, p := Elapsed(c, now), FractionMillionths(c, now), c.window, k.previous;
    WindowFacts(c, now, now);
    Quotient(el * MILLION, w, m);
    MulDistrib(w, MILLION, m);
    MulMono(p, MILLION * (w - el), w * (MILLION - m));
    MulMono(w, MILLION * (k.current + n) + p * (MILLION - m), MILLION * c.limit);
    MulDistrib(w, MILLION * (k.current + n), p * (MILLION - m));
    MulDistrib(w, k.current, n);
    assert w * (p * (MILLION - m)) == p * (w * (MILLION - m));
    assert p * (MILLION * (w - el)) == MILLION * (p * (w - el));
    assert w * (MILLION * (k.current + n)) == MILLION * (w * (k.current + n));
    assert w * (MILLION * c.limit) == MILLION * (w * c.limit);
  }

  /** It can deny what the local limiter admits: a third of the window elapsed. */
  lemma ScriptCanDenyMore()
    ensures var c, k := Config(3, 3), KeyCounter(0, 0, 3, 0);
            && k.start == WindowStart(c, 1) && Admits(c, k, 1, 1)
            && MILLION * (k.current + 1) + k.previous * (MILLION - FractionMillionths(c, 1)) > MILLION * c.limit
  {
    assert 1_000_000 / 3 == 333_333;
  }
}
