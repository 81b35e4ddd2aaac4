/** The two store scripts that keep a TAT under an expiring key: the leaky bucket
    and GCRA, with the arguments their distributed limiters pass. Arithmetic is
    exact where the scripts round above 2^53. */
module TatScripts {
  import opened Ratelimit
  import opened Arith
  import G = Gcra

  const MILLISECOND := 1_000_000

  /** A stored TAT and the instant after which the store forgets it. */
  datatype Stored = Absent | Tat(tat: int, expiresAt: int)

  /** What the script reads: an expired key is absent. */
  function Load(s: Stored, now: int): Option<int> {
    if s.Absent? || now > s.expiresAt then None else Some(s.tat)
  }

  function SetTtl(tat: int, ttlMs: int, now: int): Stored {
    Tat(tat, now + ttlMs * MILLISECOND)
  }

  /** The key expiry the distributed leaky bucket asks for: the time to drain a
      full queue plus one second. */
  function LeakyTtl(c: G.Config): int {
    Max(c.interval * c.burst / MILLISECOND + 1000, 1000)
  }

  /** The expiry the distributed GCRA asks for has no margin. */
  function GcraTtl(c: G.Config): int {
    Max(c.interval * c.burst / MILLISECOND, 1000)
  }

  function ClampDepth(depth: int, capacity: int): int {
    Max(0, Min(depth, capacity))
  }

  /** The leaky-bucket script; `c.burst` is the queue capacity. */
  method LeakyScript(c: G.Config, s: Stored, n: int, now: int, ttlMs: int)
    returns (allowed: bool, depth: int, retryAfter: int, s': Stored)
    requires G.ValidConfig(c) && ttlMs > 0 && 1 <= n <= c.burst
    ensures var e := G.Entry(Load(s, now), now);
            && allowed == G.Admits(c, e, n, now)
            && retryAfter == G.RetryAfter(c, e, n, now)
            && s' == (if allowed then SetTtl(now + G.Backlog(e, now) + c.interval * n, ttlMs, now)
                      else if Load(s, now).Some? then s else Absent)
            && depth == ClampDepth(G.Backlog(G.After(c, e, n, now), now) / c.interval, c.burst)
  {
    s' := if s.Tat? && now > s.expiresAt then Absent else s;
    var stored := if s'.Tat? then s'.tat else now;
    var base := if now > stored then now else stored;
    var newTat := base + c.interval * n;
    var limitWindow := now + c.interval * c.burst;
    MulMono(c.interval, 0, n);
    if newTat > limitWindow {
      return false, ClampDepth((base - now) / c.interval, c.burst), newTat - limitWindow, s';
    }
    s' := SetTtl(newTat, ttlMs, now);
    return true, ClampDepth((newTat - now) / c.interval, c.burst), 0, s';
  }

  /** What one `AllowN` of the distributed leaky bucket decides and stores. */
  function LeakyAllowN(c: G.Config, s: Stored, n: int, now: int): (bool, Stored) {
    AllowN(c, LeakyTtl(c), s, n, now)
  }

  function AllowN(c: G.Config, ttlMs: int, s: Stored, n: int, now: int): (bool, Stored) {
    var e := G.Entry(Load(s, now), now);
    if !(1 <= n <= c.burst) then (false, s)
    else if G.Admits(c, e, n, now) then (true, SetTtl(now + G.Backlog(e, now) + c.interval * n, ttlMs, now))
    else (false, if Load(s, now).Some? then s else Absent)
  }

  /** The `Remaining` a distributed leaky bucket reports for a backlog. */
  function Reported(c: G.Config, e: G.Entry, now: int): int
    requires G.ValidConfig(c)
  {
    c.burst - ClampDepth(G.Backlog(e, now) / c.interval, c.burst)
  }

  method LeakyAllow(c: G.Config, key: string, s: Stored, n: int, now: int)
    returns (allowed: bool, remaining: int, retryAfter: int, s': Stored)
    requires G.ValidConfig(c)
    ensures (allowed, s') == if ValidKey(key) then LeakyAllowN(c, s, n, now) else (false, s)
    ensures var e := G.Entry(Load(s, now), now);
            (remaining, retryAfter) ==
              if ValidKey(key) && 1 <= n <= c.burst then (Reported(c, G.After(c, e, n, now), now), G.RetryAfter(c, e, n, now))
              else (0, 0)
  {
    if !ValidKey(key) || n < 1 || n > c.burst {
      return false, 0, 0, s;
    }
    var ttlMs := c.interval * c.burst / MILLISECOND + 1000;
    if ttlMs < 1000 {
      ttlMs := 1000;
    }
    var depth;
    allowed, depth, retryAfter, s' := LeakyScript(c, s, n, now, ttlMs);
    remaining := c.burst - depth;
    if remaining < 0 {
      remaining := 0;
    }
  }

  /** The stored key stands for the entry `e` of an undisturbed GCRA. */
  ghost predicate Tracks(s: Stored, e: G.Entry, now: int) {
    && G.Backlog(G.Entry(Load(s, now), now), now) == G.Backlog(e, now)
    && (s.Tat? ==> s.tat <= s.expiresAt + 1)
  }

  /** The backlog of a full queue has drained, and at most a second more has passed. */
  lemma LeakyTtlCovers(c: G.Config)
    ensures LeakyTtl(c) * MILLISECOND >= c.interval * c.burst
    ensures c.interval * c.burst >= 0 ==>
      c.interval * c.burst + 999 * MILLISECOND < LeakyTtl(c) * MILLISECOND <= c.interval * c.burst + 1000 * MILLISECOND
  {
  }

  /** A key that expires no earlier than its backlog drains loses nothing. */
  lemma TracksStep(c: G.Config, ttlMs: int, s: Stored, e: G.Entry, n: int, before: int, now: int)
    requires G.ValidConfig(c) && Tracks(s, e, before) && before <= now
    requires ttlMs * MILLISECOND + 1 >= c.interval * c.burst
    ensures AllowN(c, ttlMs, s, n, now).0 == G.Admits(c, e, n, now)
    ensures Tracks(AllowN(c, ttlMs, s, n, now).1, G.After(c, e, n, now), now)
  {
  }

  /** The GCRA script. */
  method GcraScript(c: G.Config, s: Stored, n: int, now: int, ttlMs: int)
    returns (allowed: bool, retryAfter: int, s': Stored)
    requires G.ValidConfig(c) && ttlMs > 0 && 1 <= n <= c.burst
    ensures (allowed, s') == AllowN(c, ttlMs, s, n, now)
    ensures retryAfter == G.RetryAfter(c, G.Entry(Load(s, now), now), n, now)
  {
    s' := if s.Tat? && now > s.expiresAt then Absent else s;
    var storedTat := if s'.Tat? then s'.tat else now;
    var tat := Max(storedTat, now) + c.interval * n;
    var limitWindow := now + c.interval * c.burst;
    if tat > limitWindow {
      return false, tat - limitWindow, s';
    }
    return true, 0, SetTtl(tat, ttlMs, now);
  }

  // Whole runs

  /** The answers a script gives over a run, its key expiring after `ttlMs`. */
  function Decisions(c: G.Config, ttlMs: int, s: Stored, rs: seq<Request>): seq<bool>
    decreases |rs|
  {
    if rs == [] then []
    else
      var (allowed, s') := AllowN(c, ttlMs, s, rs[0].n, rs[0].now);
      [allowed] + Decisions(c, ttlMs, s', rs[1..])
  }

  /** A key that outlives its backlog decides every run as one that never expires. */
  lemma {:induction false} TracksRun(c: G.Config, ttlMs: int, s: Stored, e: G.Entry, rs: seq<Request>, now: int)
    requires G.ValidConfig(c) && Monotone(rs) && Tracks(s, e, now)
    requires ttlMs * MILLISECOND + 1 >= c.interval * c.burst
    requires forall r | r in rs :: now <= r.now
    ensures Decisions(c, ttlMs, s, rs) == G.Decisions(c, e, rs)
    decreases |rs|
  {
    if rs != [] {
      var r := rs[0];
      TracksStep(c, ttlMs, s, e, r.n, now, r.now);
      TracksRun(c, ttlMs, AllowN(c, ttlMs, s, r.n, r.now).1, G.After(c, e, r.n, r.now), rs[1..], r.now);
    }
  }

  ghost predicate From(rs: seq<Request>, start: int) {
    Monotone(rs) && forall r | r in rs :: start <= r.now
  }

  /** Letting the key expire is invisible: every run from an absent key is decided as
      a GCRA that forgets nothing decides it. */
  ghost predicate ExpirySafe(c: G.Config, ttlMs: int) {
    forall rs, start | From(rs, start) :: Decisions(c, ttlMs, Absent, rs) == G.Decisions(c, G.Fresh(start), rs)
  }

  /** Exactly when that is so. */
  lemma ExpirySafeIff(c: G.Config, ttlMs: int)
    requires G.ValidConfig(c) && ttlMs > 0
    ensures ExpirySafe(c, ttlMs) <==> c.interval * c.burst <= ttlMs * MILLISECOND + 1
  {
    if c.interval * c.burst <= ttlMs * MILLISECOND + 1 {
      forall rs, start | From(rs, start)
        ensures Decisions(c, ttlMs, Absent, rs) == G.Decisions(c, G.Fresh(start), rs)
      {
        TracksRun(c, ttlMs, Absent, G.Fresh(start), rs, start);
      }
    } else {
      ForgottenTooEarly(c, ttlMs);
    }
  }

  /** The run that shows it otherwise: a full burst, and another as soon as the key is
      forgotten. */
  lemma ForgottenTooEarly(c: G.Config, ttlMs: int)
    requires G.ValidConfig(c) && ttlMs > 0 && c.interval * c.burst > ttlMs * MILLISECOND + 1
    ensures var rs := [Request(0, c.burst), Request(ttlMs * MILLISECOND + 1, c.burst)];
            From(rs, 0) && Decisions(c, ttlMs, Absent, rs) == [true, true] && G.Decisions(c, G.Fresh(0), rs) == [true, false]
  {
    var later := ttlMs * MILLISECOND + 1;
    var rs := [Request(0, c.burst), Request(later, c.burst)];
    MulMono(c.interval, 1, c.burst);
    assert rs[1..] == [Request(later, c.burst)] && rs[1..][1..] == [];
    var (first, s) := AllowN(c, ttlMs, Absent, c.burst, 0);
    assert first && AllowN(c, ttlMs, s, c.burst, later).0;
    var e := G.After(c, G.Fresh(0), c.burst, 0);
    assert G.Admits(c, G.Fresh(0), c.burst, 0) && !G.Admits(c, e, c.burst, later);
    assert Decisions(c, ttlMs, s, rs[1..]) == [true];
    assert G.Decisions(c, e, rs[1..]) == [false];
  }

  /** The leaky-bucket script decides every run as GCRA does. */
  lemma LeakyIsGcra(c: G.Config, s: Stored, e: G.Entry, rs: seq<Request>, now: int)
    requires G.ValidConfig(c) && Tracks(s, e, now) && From(rs, now)
    ensures Decisions(c, LeakyTtl(c), s, rs) == G.Decisions(c, e, rs)
  {
    LeakyTtlCovers(c);
    TracksRun(c, LeakyTtl(c), s, e, rs, now);
  }

  /** The leaky bucket's expiry is always safe. GCRA's truncated one is not: with
      one request per 1.0005 s the key is forgotten half a millisecond early. */
  lemma OnlyLeakyTtlAlwaysSafe(c: G.Config)
    requires G.ValidConfig(c)
    ensures ExpirySafe(c, LeakyTtl(c))
    ensures !ExpirySafe(G.Config(1, 1, 1_000_500_000, 0), GcraTtl(G.Config(1, 1, 1_000_500_000, 0)))
  {
    MulMono(c.interval, 1, c.burst);
    LeakyTtlCovers(c);
    ExpirySafeIff(c, LeakyTtl(c));
    ExpirySafeIff(G.Config(1, 1, 1_000_500_000, 0), GcraTtl(G.Config(1, 1, 1_000_500_000, 0)));
  }

  /** Exactly when the distributed GCRA's expiry is safe: the burst window is a whole
      number of milliseconds or one nanosecond more, or no longer than a second and one. */
  lemma GcraExpirySafeIff(c: G.Config)
    requires G.ValidConfig(c)
    ensures ExpirySafe(c, GcraTtl(c)) <==> c.interval * c.burst <= 1_000_000_001 || (c.interval * c.burst) % MILLISECOND <= 1
  {
    ExpirySafeIff(c, GcraTtl(c));
  }

  /** The reported `Remaining` counts a partly drained slot as free: it is what
      would be admitted only at whole slots, and one too many otherwise. */
  lemma ReportedRemainingExactIff(c: G.Config, e: G.Entry, now: int)
    requires G.ValidConfig(c) && G.Backlog(e, now) <= c.interval * c.burst
    ensures Reported(c, e, now) ==
      G.Remaining(c, e, now) + if G.Backlog(e, now) % c.interval == 0 then 0 else 1
  {
    var b, q := G.Backlog(e, now), G.Backlog(e, now) / c.interval;
    assert b == c.interval * q + b % c.interval;
    Quotient(b, c.interval, 0);
    Quotient(b, c.interval, c.burst + 1);
    MulDistrib(c.interval, c.burst, 1);
    MulDistrib(c.interval, c.burst - q, 1);
    MulDistrib(c.interval, c.burst, q);
    Quotient(c.interval * c.burst - b, c.interval, c.burst - q);
    Quotient(c.interval * c.burst - b, c.interval, c.burst - q - 1);
    Quotient(c.interval * c.burst - b, c.interval, c.burst - q + 1);
    Quotient(c.interval * c.burst - b, c.interval, 0);
  }

  /** An input for which it is one too many: interval 2, capacity 2, one unit at 0 and
      one at 1. One slot is reported free and the next unit is denied. */
  lemma ReportedRemainingOneTooMany()
    ensures var c := G.Config(1, 2, 2, 0);
            var e := G.After(c, G.After(c, G.Fresh(0), 1, 0), 1, 1);
            && G.Admits(c, G.Fresh(0), 1, 0) && G.Admits(c, G.After(c, G.Fresh(0), 1, 0), 1, 1)
            && Reported(c, e, 1) == 1 && !G.Admits(c, e, 1, 1)
  {
  }
}
