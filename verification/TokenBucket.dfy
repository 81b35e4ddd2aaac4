/** The token bucket: a balance refilled lazily on each access. Balances are exact
    reals and the refill rate is in tokens per nanosecond. */
module TokenBucket {
  import opened Ratelimit
  import opened Arith

  datatype Config = Config(capacity: real, rate: real, idleClean: int)

  predicate ValidConfig(c: Config) {
    c.capacity >= 0.0 && c.rate > 0.0
  }

  datatype Bucket = Bucket(tokens: real, lastRefill: int, lastAccess: int)

  function Fresh(c: Config, now: int): Bucket {
    Bucket(c.capacity, now, now)
  }

  predicate Valid(c: Config, b: Bucket) {
    0.0 <= b.tokens <= c.capacity && b.lastRefill <= b.lastAccess
  }

  function RMin(a: real, b: real): real {
    if a < b then a else b
  }

  function Gain(c: Config, elapsed: int): real {
    elapsed as real * c.rate
  }

  /** The balance a refill at `now` would leave. */
  function Level(c: Config, b: Bucket, now: int): real {
    if now > b.lastRefill then RMin(c.capacity, b.tokens + Gain(c, now - b.lastRefill)) else b.tokens
  }

  function Refilled(c: Config, b: Bucket, now: int): Bucket {
    Bucket(Level(c, b, now), Max(b.lastRefill, now), now)
  }

  /** A request may cost any positive number of tokens. */
  predicate AdmitsCost(c: Config, b: Bucket, cost: real, now: int) {
    0.0 < cost <= c.capacity && cost <= Level(c, b, now)
  }

  function AfterCost(c: Config, b: Bucket, cost: real, now: int): Bucket {
    if cost <= 0.0 || cost > c.capacity then b
    else if AdmitsCost(c, b, cost, now) then
      var r := Refilled(c, b, now);
      r.(tokens := r.tokens - cost)
    else Refilled(c, b, now)
  }

  predicate Admits(c: Config, b: Bucket, n: int, now: int) {
    AdmitsCost(c, b, n as real, now)
  }

  function After(c: Config, b: Bucket, n: int, now: int): Bucket {
    AfterCost(c, b, n as real, now)
  }

  function Remaining(c: Config, b: Bucket, now: int): int {
    Level(c, b, now).Floor
  }

  /** Nanoseconds, truncated, until `tokens` more have accrued. */
  function Wait(c: Config, tokens: real): int
    requires ValidConfig(c)
  {
    (tokens / c.rate).Floor
  }

  /** What a caller is told: the balance left, how long until the bucket is full, and
      how long until what is missing has accrued. */
  function Answer(c: Config, b: Bucket, cost: real, now: int): Result
    requires ValidConfig(c)
  {
    var left := Level(c, AfterCost(c, b, cost, now), now);
    if cost > c.capacity then Result(false, c.capacity.Floor, 0, 0, Wait(c, cost - c.capacity))
    else Result(AdmitsCost(c, b, cost, now), c.capacity.Floor, left.Floor, Wait(c, c.capacity - left),
                if AdmitsCost(c, b, cost, now) then 0 else Wait(c, cost - left))
  }

  /** What an answer says of the bucket the call leaves: the whole tokens in it, the time
      until it is full and, of a denial, the time until the cost is covered, both within a
      nanosecond. A cost above the capacity is told how long the excess would take. */
  predicate Told(c: Config, b: Bucket, res: Result, cost: real, now: int) {
    && res.limit == c.capacity.Floor
    && (cost <= c.capacity ==> res.remaining == Remaining(c, b, now))
    && (cost <= c.capacity ==> Accrues(c, res.resetAfter, c.capacity - Level(c, b, now)))
    && (res.allowed ==> res.retryAfter == 0)
    && (!res.allowed && cost <= c.capacity ==> Accrues(c, res.retryAfter, cost - Level(c, b, now)))
    && (cost > c.capacity ==> !res.allowed && res.remaining == 0 == res.resetAfter)
    && (cost > c.capacity ==> Accrues(c, res.retryAfter, cost - c.capacity))
  }

  /** The last whole nanosecond by which no more than `tokens` have accrued. */
  predicate Accrues(c: Config, wait: int, tokens: real) {
    wait >= 0 && c.rate * wait as real <= tokens < c.rate * (wait + 1) as real
  }

  class Limiter {
    var cfg: Config
    var buckets: map<string, Bucket>

    ghost predicate Consistent()
      reads this
    {
      ValidConfig(cfg) && forall k | k in buckets :: Valid(cfg, buckets[k])
    }

    constructor (capacity: real, rate: real, idleClean: int)
      requires capacity >= 0.0 && rate > 0.0
      ensures Consistent() && cfg == Config(capacity, rate, idleClean) && buckets == map[]
    {
      cfg := Config(capacity, rate, idleClean);
      buckets := map[];
    }

    function Get(key: string, now: int): Bucket
      reads this
    {
      if key in buckets then buckets[key] else Fresh(cfg, now)
    }

    method Refill(bucket: Bucket, now: int) returns (b: Bucket)
      requires ValidConfig(cfg) && Valid(cfg, bucket)
      ensures b == Refilled(cfg, bucket, now)
    {
      b := bucket;
      var elapsed := now - b.lastRefill;
      if elapsed > 0 {
        b := b.(tokens := b.tokens + Gain(cfg, elapsed));
        if b.tokens > cfg.capacity {
          b := b.(tokens := cfg.capacity);
        }
        b := b.(lastRefill := now);
      }
      b := b.(lastAccess := now);
    }

    method Peek(key: string, now: int) returns (remaining: int, resetAfter: int)
      requires Consistent() && Get(key, now).lastAccess <= now
      modifies this`buckets
      ensures Consistent()
      ensures remaining == Remaining(cfg, old(Get(key, now)), now)
      ensures resetAfter == Wait(cfg, cfg.capacity - Level(cfg, old(Get(key, now)), now)) >= 0
      ensures Accrues(cfg, resetAfter, cfg.capacity - Level(cfg, old(Get(key, now)), now))
      ensures buckets == old(buckets)[key := Refilled(cfg, old(Get(key, now)), now)]
    {
      var b := Get(key, now);
      ValidPreserved(cfg, b, 1.0, now);
      LevelRange(cfg, b, now);
      b := Refill(b, now);
      buckets := buckets[key := b];
      remaining := b.tokens.Floor;
      if remaining < 0 {
        remaining := 0;
      }
      WaitAccrues(cfg, cfg.capacity - b.tokens);
      resetAfter := Wait(cfg, cfg.capacity - b.tokens);
      if resetAfter < 0 {
        resetAfter := 0;
      }
    }

    /** All of the cost is taken or none; a denial says how long to wait. The clock is
        monotone: no bucket was accessed after `now`. */
    method Consume(key: string, cost: real, now: int) returns (res: Result)
      requires Consistent() && Get(key, now).lastAccess <= now && cost > 0.0
      modifies this`buckets
      ensures Consistent()
      ensures buckets == old(buckets)[key := AfterCost(cfg, old(Get(key, now)), cost, now)]
      ensures res == Answer(cfg, old(Get(key, now)), cost, now)
      ensures res.allowed == AdmitsCost(cfg, old(Get(key, now)), cost, now)
      ensures Told(cfg, Get(key, now), res, cost, now)
      ensures !res.allowed && cost <= cfg.capacity ==>
        && (forall later | now <= later < now + res.retryAfter :: !AdmitsCost(cfg, Get(key, now), cost, later))
        && AdmitsCost(cfg, Get(key, now), cost, now + res.retryAfter + 1)
    {
      var b := Get(key, now);
      buckets := buckets[key := b];
      ValidPreserved(cfg, b, cost, now);
      AnswerTells(cfg, b, cost, now);
      if cost <= cfg.capacity && !AdmitsCost(cfg, b, cost, now) {
        RetryAfterBrackets(cfg, b, cost, now);
      }
      if cost > cfg.capacity {
        return Result(false, cfg.capacity.Floor, 0, 0, Wait(cfg, cost - cfg.capacity));
      }
      b := Refill(b, now);
      var current := b.tokens;
      if current < cost {
        buckets := buckets[key := b];
        return Result(false, cfg.capacity.Floor, current.Floor, Wait(cfg, cfg.capacity - current), Wait(cfg, cost - current));
      }
      b := b.(tokens := b.tokens - cost);
      buckets := buckets[key := b];
      res := Result(true, cfg.capacity.Floor, b.tokens.Floor, Wait(cfg, cfg.capacity - b.tokens), 0);
    }

    method AllowN(key: string, n: int, now: int) returns (res: Result)
      requires Consistent() && Get(key, now).lastAccess <= now
      modifies this`buckets
      ensures Consistent()
      ensures res.allowed == (ValidKey(key) && Admits(cfg, old(Get(key, now)), n, now))
      ensures ValidKey(key) && n >= 1 ==> Told(cfg, Get(key, now), res, n as real, now)
      ensures ValidKey(key) && n >= 1 && n as real <= cfg.capacity ==> Get(key, now).lastAccess == now
      ensures res == if ValidKey(key) && n >= 1 then Answer(cfg, old(Get(key, now)), n as real, now) else REJECTED
      ensures buckets ==
        if ValidKey(key) && n >= 1 then old(buckets)[key := After(cfg, old(Get(key, now)), n, now)] else old(buckets)
    {
      if !ValidKey(key) || n < 1 {
        return REJECTED;
      }
      res := Consume(key, n as real, now);
    }

    /** The variant for fractional costs. */
    method AllowCost(key: string, cost: real, now: int) returns (res: Result)
      requires Consistent() && Get(key, now).lastAccess <= now
      modifies this`buckets
      ensures Consistent()
      ensures res.allowed == (ValidKey(key) && AdmitsCost(cfg, old(Get(key, now)), cost, now))
      ensures ValidKey(key) && cost > 0.0 ==> Told(cfg, Get(key, now), res, cost, now)
      ensures ValidKey(key) && 0.0 < cost <= cfg.capacity ==> Get(key, now).lastAccess == now
      ensures res == if ValidKey(key) && cost > 0.0 then Answer(cfg, old(Get(key, now)), cost, now) else REJECTED
      ensures buckets ==
        if ValidKey(key) && cost > 0.0 then old(buckets)[key := AfterCost(cfg, old(Get(key, now)), cost, now)] else old(buckets)
    {
      if !ValidKey(key) || cost <= 0.0 {
        return REJECTED;
      }
      res := Consume(key, cost, now);
    }

    /** Retunes the limiter in place: balances survive, clamped to the new capacity. */
    method SetLimit(capacity: real, rate: real)
      requires Consistent() && capacity >= 0.0 && rate > 0.0
      modifies this
      ensures Consistent() && cfg == Config(capacity, rate, old(cfg).idleClean)
      ensures buckets.Keys == old(buckets).Keys
      ensures forall k | k in buckets ::
        buckets[k] == old(buckets)[k].(tokens := RMin(old(buckets)[k].tokens, capacity))
    {
      cfg := Config(capacity, rate, cfg.idleClean);
      var todo := buckets.Keys;
      while todo != {}
        invariant cfg == Config(capacity, rate, old(cfg).idleClean)
        invariant todo <= buckets.Keys == old(buckets).Keys
        invariant forall k | k in todo :: buckets[k] == old(buckets)[k]
        invariant forall k | k in buckets && k !in todo ::
          buckets[k] == old(buckets)[k].(tokens := RMin(old(buckets)[k].tokens, capacity))
        decreases todo
      {
        var k :| k in todo;
        if buckets[k].tokens > capacity {
          buckets := buckets[k := buckets[k].(tokens := capacity)];
        }
        todo := todo - {k};
      }
    }
  }

  lemma GainNonNegative(c: Config, elapsed: int)
    requires ValidConfig(c) && elapsed >= 0
    ensures Gain(c, elapsed) >= 0.0
  {
  }

  lemma GainAtLeast(c: Config, elapsed: int)
    requires ValidConfig(c) && elapsed >= 1
    ensures Gain(c, elapsed) >= c.rate > 0.0
  {
    RMulMono(c.rate, 1.0, elapsed as real);
  }

  lemma GainIs(c: Config, elapsed: int)
    ensures Gain(c, elapsed) == c.rate * elapsed as real
  {
  }

  lemma GainAdds(c: Config, a: int, b: int)
    ensures Gain(c, a + b) == Gain(c, a) + Gain(c, b)
  {
  }

  lemma LevelRange(c: Config, b: Bucket, now: int)
    requires ValidConfig(c) && Valid(c, b)
    ensures 0.0 <= Level(c, b, now) <= c.capacity
  {
    if now > b.lastRefill {
      GainNonNegative(c, now - b.lastRefill);
    }
  }

  lemma ValidPreserved(c: Config, b: Bucket, cost: real, now: int)
    requires ValidConfig(c) && Valid(c, b) && b.lastAccess <= now
    ensures Valid(c, AfterCost(c, b, cost, now)) && Valid(c, Refilled(c, b, now)) && Valid(c, Fresh(c, now))
  {
    LevelRange(c, b, now);
  }

  /** A balance grows by what accrues, up to the capacity. */
  lemma LevelLater(c: Config, b: Bucket, now: int, later: int)
    requires ValidConfig(c) && Valid(c, b) && b.lastRefill <= now <= later
    ensures Level(c, b, later) == RMin(c.capacity, Level(c, b, now) + c.rate * (later - now) as real)
  {
    GainAdds(c, now - b.lastRefill, later - now);
    GainNonNegative(c, later - now);
  }

  /** Refilling in two steps is refilling once. */
  lemma RefillComposes(c: Config, b: Bucket, t: int, later: int)
    requires ValidConfig(c) && Valid(c, b) && t <= later
    ensures Level(c, Refilled(c, b, t), later) == Level(c, b, later)
  {
    if t > b.lastRefill {
      GainAdds(c, t - b.lastRefill, later - t);
      GainNonNegative(c, later - t);
    }
  }

  lemma PeekAllowLaw(c: Config, b: Bucket, n: int, now: int)
    requires ValidConfig(c) && Valid(c, b) && n >= 1
    ensures Admits(c, b, n, now) <==> Remaining(c, b, now) >= n
    ensures Admits(c, b, n, now) ==> Remaining(c, After(c, b, n, now), now) == Remaining(c, b, now) - n
    ensures !Admits(c, b, n, now) ==> Level(c, After(c, b, n, now), now) == Level(c, b, now)
    ensures Remaining(c, b, now) >= 0
  {
    LevelRange(c, b, now);
    FloorShift(Level(c, b, now), n);
  }

  lemma FloorShift(x: real, n: int)
    ensures (x - n as real).Floor == x.Floor - n
    ensures n as real <= x <==> n <= x.Floor
  {
  }

  /** A wait is long enough exactly when it covers the missing tokens. */
  lemma AdmittedAfterWaitIff(c: Config, b: Bucket, n: int, now: int, wait: int)
    requires ValidConfig(c) && Valid(c, b) && b.lastRefill <= now && wait >= 0
    requires 1 <= n && n as real <= c.capacity && !Admits(c, b, n, now)
    ensures Admits(c, After(c, b, n, now), n, now + wait) <==> c.rate * wait as real >= n as real - Level(c, b, now)
  {
    GainNonNegative(c, wait);
  }

  lemma MissingTokens(c: Config, b: Bucket, n: int, now: int)
    requires 1 <= n && n as real <= c.capacity && !Admits(c, b, n, now)
    ensures n as real > Level(c, b, now)
  {
  }

  /** `RetryAfter` is truncated to whole nanoseconds: no shorter wait is enough, it
      is enough itself exactly when nothing was truncated, and one more nanosecond
      always is. */
  lemma RetryAfterSufficesIff(c: Config, b: Bucket, n: int, now: int, shorter: int)
    requires ValidConfig(c) && Valid(c, b) && b.lastRefill <= now
    requires 1 <= n && n as real <= c.capacity && !Admits(c, b, n, now)
    ensures var missing := n as real - Level(c, b, now);
            var w := Wait(c, missing);
            && w >= 0
            && (Admits(c, After(c, b, n, now), n, now + w) <==> c.rate * w as real == missing)
            && Admits(c, After(c, b, n, now), n, now + (w + 1))
            && (0 <= shorter < w ==> !Admits(c, After(c, b, n, now), n, now + shorter))
  {
    hide AdmitsCost, AfterCost, Refilled, Level, Gain, Wait;
    var missing := n as real - Level(c, b, now);
    var w := Wait(c, missing);
    assert missing > 0.0 by { MissingTokens(c, b, n, now); }
    WaitBrackets(c, missing);
    GainIs(c, w);
    GainIs(c, w + 1);
    AdmittedAfterWaitIff(c, b, n, now, w);
    AdmittedAfterWaitIff(c, b, n, now, w + 1);
    if 0 <= shorter < w {
      AdmittedAfterWaitIff(c, b, n, now, shorter);
      GainIs(c, shorter);
      GainAdds(c, shorter, w - shorter);
      GainAtLeast(c, w - shorter);
    }
  }

  /** An input for which it is not: one token at three per second is a third of a
      second away, and the third does not come out in nanoseconds. */
  lemma RetryAfterFallsShort()
    ensures var c := Config(1.0, 0.000000003, 300_000_000_000);
            var b := After(c, Fresh(c, 0), 1, 0);
            var w := Wait(c, 1.0 - Level(c, b, 0));
            && Admits(c, Fresh(c, 0), 1, 0) && !Admits(c, b, 1, 0)
            && w == 333_333_333 && !Admits(c, After(c, b, 1, 0), 1, w)
  {
  }

  lemma AnswerTells(c: Config, b: Bucket, cost: real, now: int)
    requires ValidConfig(c) && Valid(c, b) && b.lastAccess <= now && cost > 0.0
    ensures Told(c, AfterCost(c, b, cost, now), Answer(c, b, cost, now), cost, now)
  {
    hide Gain, Wait, Accrues;
    var b' := AfterCost(c, b, cost, now);
    ValidPreserved(c, b, cost, now);
    LevelRange(c, b', now);
    if cost > c.capacity {
      WaitAccrues(c, cost - c.capacity);
    } else {
      WaitAccrues(c, c.capacity - Level(c, b', now));
      if !AdmitsCost(c, b, cost, now) {
        WaitAccrues(c, cost - Level(c, b', now));
      }
    }
  }

  lemma WaitAccrues(c: Config, tokens: real)
    requires ValidConfig(c) && tokens >= 0.0
    ensures Accrues(c, Wait(c, tokens), tokens)
  {
    RQuotient(tokens, c.rate);
  }

  /** A denied cost stays denied for `RetryAfter` and fits one nanosecond later. */
  lemma RetryAfterBrackets(c: Config, b: Bucket, cost: real, now: int)
    requires ValidConfig(c) && Valid(c, b) && b.lastAccess <= now && 0.0 < cost <= c.capacity && !AdmitsCost(c, b, cost, now)
    ensures var b', w := AfterCost(c, b, cost, now), Answer(c, b, cost, now).retryAfter;
            && (forall later | now <= later < now + w :: !AdmitsCost(c, b', cost, later))
            && AdmitsCost(c, b', cost, now + w + 1)
  {
    var b', w := AfterCost(c, b, cost, now), Answer(c, b, cost, now).retryAfter;
    ValidPreserved(c, b, cost, now);
    LevelRange(c, b', now);
    WaitBrackets(c, cost - Level(c, b', now));
    forall later | now <= later < now + w
      ensures !AdmitsCost(c, b', cost, later)
    {
      GainAdds(c, later - now, now + w - later);
      GainAtLeast(c, now + w - later);
    }
  }

  lemma WaitBrackets(c: Config, tokens: real)
    requires ValidConfig(c) && tokens >= 0.0
    ensures Wait(c, tokens) >= 0
    ensures Gain(c, Wait(c, tokens)) <= tokens < Gain(c, Wait(c, tokens) + 1)
  {
    hide Gain;
    RQuotient(tokens, c.rate);
    GainIs(c, Wait(c, tokens));
    GainIs(c, Wait(c, tokens) + 1);
  }

  // Whole runs

  /** One request of any cost. */
  datatype Charge = Charge(now: int, cost: real)

  ghost predicate Later(rs: seq<Charge>) {
    forall i, j | 0 <= i < j < |rs| :: rs[i].now <= rs[j].now
  }

  function AdmittedIn(c: Config, b: Bucket, rs: seq<Charge>, s: int, t: int): real
    decreases |rs|
  {
    if rs == [] then 0.0
    else
      var r := rs[0];
      (if AdmitsCost(c, b, r.cost, r.now) && s <= r.now <= t then r.cost else 0.0)
      + AdmittedIn(c, AfterCost(c, b, r.cost, r.now), rs[1..], s, t)
  }

  /** In every interval [s, t] of every run: at most capacity + rate * (t - s). */
  lemma BurstBound(c: Config, b: Bucket, rs: seq<Charge>, s: int, t: int)
    requires ValidConfig(c) && Valid(c, b) && Later(rs) && s <= t
    requires rs != [] ==> b.lastAccess <= rs[0].now
    ensures AdmittedIn(c, b, rs, s, t) <= c.capacity + c.rate * (t - s) as real
  {
    hide *;
    GainBound(c, b, rs, s, t);
    GainIs(c, t - s);
  }

  /** What is admitted is paid for by the balance at the first request and by
      what accrues afterwards. */
  lemma BurstBoundFrom(c: Config, b: Bucket, rs: seq<Charge>, s: int, t: int)
    requires ValidConfig(c) && Valid(c, b) && Later(rs) && rs != []
    requires b.lastAccess <= rs[0].now && s <= rs[0].now
    ensures t < rs[0].now ==> AdmittedIn(c, b, rs, s, t) == 0.0
    ensures rs[0].now <= t ==>
      AdmittedIn(c, b, rs, s, t) <= Level(c, b, rs[0].now) + c.rate * (t - rs[0].now) as real
  {
    hide *;
    GainBoundFrom(c, b, rs, s, t);
    GainIs(c, t - rs[0].now);
  }

  lemma {:induction false} GainBound(c: Config, b: Bucket, rs: seq<Charge>, s: int, t: int)
    requires ValidConfig(c) && Valid(c, b) && Later(rs) && s <= t
    requires rs != [] ==> b.lastAccess <= rs[0].now
    ensures AdmittedIn(c, b, rs, s, t) <= c.capacity + Gain(c, t - s)
    decreases |rs|
  {
    if rs == [] {
      GainNonNegative(c, t - s);
    } else {
      var r := rs[0];
      ValidPreserved(c, b, r.cost, r.now);
      if s <= r.now {
        GainBoundFrom(c, b, rs, s, t);
        GainNonNegative(c, t - s);
        if r.now <= t {
          LevelRange(c, b, r.now);
          GainAdds(c, r.now - s, t - r.now);
          GainNonNegative(c, r.now - s);
        }
      } else {
        GainBound(c, AfterCost(c, b, r.cost, r.now), rs[1..], s, t);
      }
    }
  }

  lemma {:induction false} GainBoundFrom(c: Config, b: Bucket, rs: seq<Charge>, s: int, t: int)
    requires ValidConfig(c) && Valid(c, b) && Later(rs) && rs != []
    requires b.lastAccess <= rs[0].now && s <= rs[0].now
    ensures t < rs[0].now ==> AdmittedIn(c, b, rs, s, t) == 0.0
    ensures rs[0].now <= t ==>
      AdmittedIn(c, b, rs, s, t) <= Level(c, b, rs[0].now) + Gain(c, t - rs[0].now)
    decreases |rs|
  {
    var r := rs[0];
    var b' := AfterCost(c, b, r.cost, r.now);
    ValidPreserved(c, b, r.cost, r.now);
    LevelRange(c, b, r.now);
    if r.now <= t {
      GainNonNegative(c, t - r.now);
    }
    if |rs| > 1 {
      var u := rs[1].now;
      GainBoundFrom(c, b', rs[1..], s, t);
      if u <= t {
        GainAdds(c, u - r.now, t - u);
        LevelGrowth(c, b', r.now, u);
      } else if r.now <= t {
        LevelGrowth(c, b', r.now, r.now);
      }
    } else {
      assert rs[1..] == [];
    }
  }

  lemma LevelGrowth(c: Config, b: Bucket, t: int, later: int)
    requires ValidConfig(c) && Valid(c, b) && t <= later
    ensures Level(c, b, later) <= Level(c, b, t) + Gain(c, later - t)
  {
    GainNonNegative(c, later - t);
    if t > b.lastRefill {
      GainAdds(c, t - b.lastRefill, later - t);
    } else if later > b.lastRefill {
      GainAdds(c, b.lastRefill - t, later - b.lastRefill);
      GainNonNegative(c, b.lastRefill - t);
    }
  }

  // Eviction of idle keys

  predicate Idle(c: Config, b: Bucket, now: int) {
    c.idleClean > 0 && b.lastAccess < now - c.idleClean
  }

  /** Forgetting any idle key is invisible to every later request, of whatever cost. */
  ghost predicate EvictionSafe(c: Config) {
    forall b, now, later, cost | Valid(c, b) && Idle(c, b, now) && now <= later ::
      AdmitsCost(c, b, cost, later) == AdmitsCost(c, Fresh(c, now), cost, later)
  }

  /** An idle bucket that has had time to fill is full. */
  lemma FullAgain(c: Config, b: Bucket, now: int, later: int)
    requires ValidConfig(c) && Valid(c, b) && Idle(c, b, now) && now <= later
    requires c.capacity <= Gain(c, c.idleClean + 1)
    ensures Level(c, b, later) == Level(c, Fresh(c, now), later)
  {
    var extra := later - b.lastRefill - (c.idleClean + 1);
    GainAdds(c, c.idleClean + 1, extra);
    GainNonNegative(c, extra);
    GainNonNegative(c, later - now);
  }

  /** Forgetting is safe exactly when a bucket fills up within the idle time. The
      bucket that shows it otherwise is reached: a full one, emptied by one request. */
  lemma EvictionSafeIff(c: Config)
    requires ValidConfig(c) && c.idleClean > 0
    ensures EvictionSafe(c) <==> c.capacity <= c.rate * (c.idleClean + 1) as real
  {
    if c.capacity <= Gain(c, c.idleClean + 1) {
      forall b, now, later, cost | Valid(c, b) && Idle(c, b, now) && now <= later
        ensures AdmitsCost(c, b, cost, later) == AdmitsCost(c, Fresh(c, now), cost, later)
      {
        FullAgain(c, b, now, later);
      }
    } else {
      var b := AfterCost(c, Fresh(c, 0), c.capacity, 0);
      var now := c.idleClean + 1;
      GainNonNegative(c, now);
      assert Valid(c, b) && Idle(c, b, now);
      assert AdmitsCost(c, b, c.capacity, now) != AdmitsCost(c, Fresh(c, now), c.capacity, now);
    }
  }

  /** One request an hour, default clean-up: the second is admitted after five minutes. */
  lemma EvictionForgetsHourlyLimit()
    ensures var c := Config(1.0, 1.0 / 3600_000_000_000.0, 300_000_000_000);
            var b := After(c, Fresh(c, 0), 1, 0);
            var now := 300_000_000_001;
            && Admits(c, Fresh(c, 0), 1, 0) && Idle(c, b, now)
            && !Admits(c, b, 1, now) && Admits(c, Fresh(c, now), 1, now)
            && !EvictionSafe(c)
  {
    EvictionSafeIff(Config(1.0, 1.0 / 3600_000_000_000.0, 300_000_000_000));
  }
}
