/** GCRA, the token bucket and the leaky-bucket script are three forms of one
    meter: they decide every run alike. */
module MeterEquivalence {
  import opened Ratelimit
  import opened Arith
  import G = Gcra
  import B = TokenBucket
  import L = TatScripts

  /** The bucket that holds `burst` tokens and earns one per interval. */
  function Twin(c: G.Config): B.Config
    requires G.ValidConfig(c)
  {
    B.Config(c.burst as real, 1.0 / c.interval as real, c.idleClean)
  }

  /** tokens = burst - max(0, TAT - now) / interval, without the division. */
  ghost predicate Dual(c: G.Config, e: G.Entry, b: B.Bucket, now: int)
    requires G.ValidConfig(c)
  {
    B.Level(Twin(c), b, now) * c.interval as real == (c.interval * c.burst - G.Backlog(e, now)) as real
  }

  ghost predicate Coupled(c: G.Config, e: G.Entry, b: B.Bucket, now: int)
    requires G.ValidConfig(c)
  {
    Dual(c, e, b, now) && B.Valid(Twin(c), b) && b.lastAccess <= now
  }

  lemma TwinGain(c: G.Config, elapsed: int)
    requires G.ValidConfig(c)
    ensures B.Gain(Twin(c), elapsed) * c.interval as real == elapsed as real
    ensures B.ValidConfig(Twin(c))
  {
    var t := c.interval as real;
    assert 1.0 / t * t == 1.0;
    assert elapsed as real * (1.0 / t) * t == elapsed as real * (1.0 / t * t);
  }

  /** The passage of time preserves the coupling. */
  lemma CoupledLater(c: G.Config, e: G.Entry, b: B.Bucket, now: int, later: int)
    requires G.ValidConfig(c) && Coupled(c, e, b, now) && now <= later
    ensures Coupled(c, e, b, later)
  {
    hide B.Level, B.Gain;
    var w := Twin(c);
    TwinGain(c, later - now);
    B.LevelLater(w, b, now, later);
    DualLater(B.Level(w, b, now), B.Gain(w, later - now), B.Level(w, b, later),
              c.interval, c.burst, G.Backlog(e, now), later - now);
  }

  lemma DualLater(level: real, gain: real, level': real, t: int, burst: int, backlog: int, d: int)
    requires t > 0 && backlog >= 0 && d >= 0
    requires level * t as real == (t * burst - backlog) as real && gain * t as real == d as real
    requires level' == B.RMin(burst as real, level + gain)
    ensures level' * t as real == (t * burst - Max(backlog - d, 0)) as real
  {
    Cancel(burst as real, level + gain, t as real);
    assert (level + gain) * t as real == level * t as real + gain * t as real;
    assert burst as real * t as real == (t * burst) as real;
  }

  lemma Cancel(a: real, b: real, t: real)
    requires t > 0.0
    ensures a < b <==> a * t < b * t
  {
    if a < b {
      assert (b - a) * t > 0.0;
    } else {
      RMulMono(t, b, a);
    }
  }

  /** Coupled meters decide alike, and every step preserves the coupling. */
  lemma CoupledStep(c: G.Config, e: G.Entry, b: B.Bucket, n: int, now: int)
    requires G.ValidConfig(c) && Coupled(c, e, b, now)
    ensures G.Admits(c, e, n, now) == B.Admits(Twin(c), b, n, now)
    ensures Coupled(c, G.After(c, e, n, now), B.After(Twin(c), b, n, now), now)
  {
    hide B.Level, B.Gain;
    var w := Twin(c);
    TwinGain(c, 0);
    B.ValidPreserved(w, b, n as real, now);
    DualAdmits(B.Level(w, b, now), c.interval, c.burst, G.Backlog(e, now), n);
    LevelAfter(w, b, n, now);
    if 1 <= n <= c.burst {
      MulMono(c.interval, 0, n);
    }
  }

  lemma DualAdmits(level: real, t: int, burst: int, backlog: int, n: int)
    requires t > 0 && level * t as real == (t * burst - backlog) as real
    ensures n as real <= level <==> backlog + t * n <= t * burst
    ensures (level - n as real) * t as real == (t * burst - (backlog + t * n)) as real
  {
    Cancel(level, n as real, t as real);
    assert n as real * t as real == (t * n) as real;
    assert (level - n as real) * t as real == level * t as real - n as real * t as real;
  }

  lemma LevelAfter(w: B.Config, b: B.Bucket, n: int, now: int)
    requires B.ValidConfig(w) && B.Valid(w, b) && b.lastAccess <= now
    ensures B.Level(w, B.After(w, b, n, now), now)
         == B.Level(w, b, now) - if B.Admits(w, b, n, now) then n as real else 0.0
  {
  }

  function BucketDecisions(c: B.Config, b: B.Bucket, rs: seq<Request>): seq<bool>
    decreases |rs|
  {
    if rs == [] then []
    else [B.Admits(c, b, rs[0].n, rs[0].now)] + BucketDecisions(c, B.After(c, b, rs[0].n, rs[0].now), rs[1..])
  }

  /** On every monotone run GCRA and its twin bucket give the same answers. */
  lemma {:induction false} GcraIsTokenBucket(c: G.Config, e: G.Entry, b: B.Bucket, rs: seq<Request>, now: int)
    requires G.ValidConfig(c) && Monotone(rs) && Coupled(c, e, b, now)
    requires forall r | r in rs :: now <= r.now
    ensures G.Decisions(c, e, rs) == BucketDecisions(Twin(c), b, rs)
    decreases |rs|
  {
    if rs != [] {
      var r := rs[0];
      CoupledLater(c, e, b, now, r.now);
      CoupledStep(c, e, b, r.n, r.now);
      GcraIsTokenBucket(c, G.After(c, e, r.n, r.now), B.After(Twin(c), b, r.n, r.now), rs[1..], r.now);
    }
  }

  /** From fresh keys, all three decide every run alike, the script although its key
      expires. */
  lemma ThreeFormsOneMeter(c: G.Config, rs: seq<Request>, now: int)
    requires G.ValidConfig(c) && Monotone(rs) && forall r | r in rs :: now <= r.now
    ensures G.Decisions(c, G.Fresh(now), rs) == BucketDecisions(Twin(c), B.Fresh(Twin(c), now), rs)
    ensures L.Decisions(c, L.LeakyTtl(c), L.Absent, rs) == G.Decisions(c, G.Fresh(now), rs)
  {
    TwinGain(c, 0);
    GcraIsTokenBucket(c, G.Fresh(now), B.Fresh(Twin(c), now), rs, now);
    L.LeakyIsGcra(c, L.Absent, G.Fresh(now), rs, now);
  }
}
