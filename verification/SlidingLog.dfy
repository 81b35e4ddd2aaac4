/** The exact sliding window: a sorted log of admission times per key. */
module SlidingLog {
  import opened Ratelimit
  import opened History

  datatype Config = Config(limit: int, window: int)

  predicate ValidConfig(c: Config) {
    c.limit > 0 && c.window >= 0
  }

  datatype KeyLog = KeyLog(timestamps: seq<int>, lastAccess: int)

  function Fresh(now: int): KeyLog {
    KeyLog([], now)
  }

  ghost predicate Sorted(ts: seq<int>) {
    forall i, j | 0 <= i < j < |ts| :: ts[i] <= ts[j]
  }

  ghost predicate Valid(l: KeyLog) {
    Sorted(l.timestamps) && AtMost(l.timestamps, l.lastAccess)
  }

  /** Everything at or after the cutoff, in order. */
  function From(ts: seq<int>, cutoff: int): seq<int> {
    if ts == [] then []
    else From(ts[..|ts| - 1], cutoff) + if ts[|ts| - 1] >= cutoff then [ts[|ts| - 1]] else []
  }

  /** The entries still inside the window that ends at `now`. */
  function Live(c: Config, l: KeyLog, now: int): seq<int> {
    From(l.timestamps, now - c.window)
  }

  predicate Admits(c: Config, l: KeyLog, n: int, now: int) {
    n >= 1 && |Live(c, l, now)| + n <= c.limit
  }

  function After(c: Config, l: KeyLog, n: int, now: int): KeyLog {
    if n < 1 then l
    else KeyLog(Live(c, l, now) + if Admits(c, l, n, now) then Copies(now, n) else [], now)
  }

  function Remaining(c: Config, l: KeyLog, now: int): int {
    Max(0, c.limit - |Live(c, l, now)|)
  }

  /** The hint of a denial: when the oldest live entry will be one window old. */
  function RetryAfter(c: Config, l: KeyLog, now: int): int {
    var live := Live(c, l, now);
    if live == [] then 0 else live[0] + c.window - now
  }

  /** What a caller is told. */
  function Answer(c: Config, l: KeyLog, n: int, now: int): Result {
    var wait := if Admits(c, l, n, now) then 0 else RetryAfter(c, l, now);
    Result(Admits(c, l, n, now), c.limit, Remaining(c, After(c, l, n, now), now), wait, wait)
  }

  /** What an answer says of the log the call leaves. The hint of a denial is the last
      instant at which the oldest live entry still counts: the request is denied until
      then, and one nanosecond later the log is shorter. */
  ghost predicate Told(c: Config, l: KeyLog, res: Result, n: int, now: int) {
    && res.limit == c.limit && res.remaining == Remaining(c, l, now) && res.resetAfter == res.retryAfter
    && (res.allowed || Live(c, l, now) == [] ==> res.retryAfter == 0)
    && (!res.allowed ==> forall later | now <= later <= now + res.retryAfter :: !Admits(c, l, n, later))
    && (!res.allowed && Live(c, l, now) != [] ==>
          |Live(c, l, now + res.retryAfter)| == |Live(c, l, now)| > |Live(c, l, now + res.retryAfter + 1)|)
  }

  class Limiter {
    const cfg: Config
    var logs: map<string, KeyLog>

    ghost predicate Consistent(now: int)
      reads this
    {
      ValidConfig(cfg) && forall k | k in logs :: Valid(logs[k]) && logs[k].lastAccess <= now
    }

    constructor (limit: int, window: int)
      requires limit > 0 && window > 0
      ensures cfg == Config(limit, window) && logs == map[] && ValidConfig(cfg)
    {
      cfg := Config(limit, window);
      logs := map[];
    }

    function Get(key: string, now: int): KeyLog
      reads this
    {
      if key in logs then logs[key] else Fresh(now)
    }

    /** Binary search for the first entry not before the cutoff; what is cut off
        is exactly what a filter would drop. */
    method Prune(ts: seq<int>, cutoff: int) returns (kept: seq<int>)
      requires Sorted(ts)
      ensures kept == From(ts, cutoff)
    {
      var i, j := 0, |ts|;
      while i < j
        invariant 0 <= i <= j <= |ts|
        invariant forall k | 0 <= k < i :: ts[k] < cutoff
        invariant forall k | j <= k < |ts| :: ts[k] >= cutoff
      {
        var h := (i + j) / 2;
        if ts[h] < cutoff {
          i := h + 1;
        } else {
          j := h;
        }
      }
      FromIsSuffix(ts, cutoff, i);
      kept := if i > 0 then ts[i..] else ts;
    }

    method Consume(l: KeyLog, n: int, now: int) returns (res: Result, l': KeyLog)
      requires ValidConfig(cfg) && Valid(l) && n >= 1
      ensures l' == After(cfg, l, n, now) && res == Answer(cfg, l, n, now)
    {
      hide From;
      PeekAllowLaw(cfg, l, n, now);
      var ts := Prune(l.timestamps, now - cfg.window);
      var count := |ts|;
      if count + n > cfg.limit {
        assert ts + [] == ts;
        var retryAfter := if count > 0 then ts[0] + cfg.window - now else 0;
        var remaining := if cfg.limit - count < 0 then 0 else cfg.limit - count;
        return Result(false, cfg.limit, remaining, retryAfter, retryAfter), KeyLog(ts, now);
      }
      var i := 0;
      while i < n
        invariant 0 <= i <= n && ts == Live(cfg, l, now) + Copies(now, i)
      {
        ts := ts + [now];
        i := i + 1;
      }
      return Result(true, cfg.limit, cfg.limit - count - n, 0, 0), KeyLog(ts, now);
    }

    method AllowN(key: string, n: int, now: int) returns (res: Result)
      requires Consistent(now)
      modifies this
      ensures Consistent(now)
      ensures res.allowed == (ValidKey(key) && Admits(cfg, old(Get(key, now)), n, now))
      ensures ValidKey(key) && n >= 1 ==> Told(cfg, Get(key, now), res, n, now) && Get(key, now).lastAccess == now
      ensures res == if ValidKey(key) && n >= 1 then Answer(cfg, old(Get(key, now)), n, now) else REJECTED
      ensures logs ==
        if ValidKey(key) && n >= 1 then old(logs)[key := After(cfg, old(Get(key, now)), n, now)] else old(logs)
    {
      if !ValidKey(key) || n < 1 {
        return REJECTED;
      }
      hide From, Sorted, AtMost, Told;
      var l := Get(key, now);
      FreshValid(now);
      AnswerTells(cfg, l, n, now);
      ValidPreserved(cfg, l, n, now);
      res, l := Consume(l, n, now);
      logs := logs[key := l];
    }

    method Peek(key: string, now: int) returns (remaining: int, resetAfter: int)
      requires Consistent(now)
      modifies this
      ensures Consistent(now)
      ensures remaining == Remaining(cfg, old(Get(key, now)), now)
      ensures resetAfter == RetryAfter(cfg, old(Get(key, now)), now)
      ensures logs == old(logs)[key := old(Get(key, now)).(timestamps := Live(cfg, old(Get(key, now)), now))]
    {
      var l := Get(key, now);
      var ts := Prune(l.timestamps, now - cfg.window);
      FromFacts(l.timestamps, now - cfg.window, l.lastAccess);
      logs := logs[key := l.(timestamps := ts)];
      remaining := cfg.limit - |ts|;
      if remaining < 0 {
        remaining := 0;
      }
      resetAfter := if |ts| > 0 then ts[0] + cfg.window - now else 0;
    }
  }

  lemma {:induction false} FromIsSuffix(ts: seq<int>, cutoff: int, idx: nat)
    requires idx <= |ts|
    requires forall k | 0 <= k < idx :: ts[k] < cutoff
    requires forall k | idx <= k < |ts| :: ts[k] >= cutoff
    ensures From(ts, cutoff) == ts[idx..]
  {
    if |ts| > idx {
      FromIsSuffix(ts[..|ts| - 1], cutoff, idx);
      assert ts[idx..] == ts[..|ts| - 1][idx..] + [ts[|ts| - 1]];
    } else if ts != [] {
      FromIsSuffix(ts[..|ts| - 1], cutoff, idx - 1);
    }
  }

  lemma {:induction false} FromFacts(ts: seq<int>, cutoff: int, top: int)
    requires Sorted(ts) && AtMost(ts, top)
    ensures Sorted(From(ts, cutoff)) && AtMost(From(ts, cutoff), top) && AtLeast(From(ts, cutoff), cutoff)
  {
    if ts != [] {
      FromFacts(ts[..|ts| - 1], cutoff, ts[|ts| - 1]);
    }
  }

  lemma {:induction false} FromAtLeast(ts: seq<int>, cutoff: int)
    ensures AtLeast(From(ts, cutoff), cutoff)
  {
    if ts != [] {
      FromAtLeast(ts[..|ts| - 1], cutoff);
    }
  }

  lemma {:induction false} FromConcat(a: seq<int>, b: seq<int>, cutoff: int)
    ensures From(a + b, cutoff) == From(a, cutoff) + From(b, cutoff)
  {
    if b == [] {
      assert a + b == a;
    } else {
      assert (a + b)[..|a + b| - 1] == a + b[..|b| - 1];
      FromConcat(a, b[..|b| - 1], cutoff);
    }
  }

  /** Pruning early and again later is pruning once, later. */
  lemma {:induction false} FromComposes(ts: seq<int>, early: int, late: int)
    requires early <= late
    ensures From(From(ts, early), late) == From(ts, late)
  {
    if ts != [] {
      var rest, last := ts[..|ts| - 1], ts[|ts| - 1];
      FromComposes(rest, early, late);
      FromConcat(From(rest, early), if last >= early then [last] else [], late);
    }
  }

  lemma FromIdempotent(ts: seq<int>, cutoff: int)
    ensures From(From(ts, cutoff), cutoff) == From(ts, cutoff)
  {
    FromComposes(ts, cutoff, cutoff);
  }

  lemma FromAll(ts: seq<int>, cutoff: int)
    requires AtLeast(ts, cutoff)
    ensures From(ts, cutoff) == ts
  {
    FromIsSuffix(ts, cutoff, 0);
  }

  lemma LiveAfterAdmission(c: Config, l: KeyLog, n: int, now: int)
    requires ValidConfig(c) && Admits(c, l, n, now)
    ensures Live(c, After(c, l, n, now), now) == Live(c, l, now) + Copies(now, n)
  {
    FromAtLeast(l.timestamps, now - c.window);
    FromAll(After(c, l, n, now).timestamps, now - c.window);
  }

  lemma FreshValid(now: int)
    ensures Valid(Fresh(now))
  {
  }

  lemma ValidPreserved(c: Config, l: KeyLog, n: int, now: int)
    requires Valid(l) && l.lastAccess <= now
    ensures Valid(After(c, l, n, now))
  {
    FromFacts(l.timestamps, now - c.window, l.lastAccess);
  }

  lemma PeekAllowLaw(c: Config, l: KeyLog, n: int, now: int)
    requires ValidConfig(c) && n >= 1
    ensures Admits(c, l, n, now) <==> Remaining(c, l, now) >= n
    ensures Admits(c, l, n, now) ==> Remaining(c, After(c, l, n, now), now) == Remaining(c, l, now) - n
    ensures !Admits(c, l, n, now) ==> Live(c, After(c, l, n, now), now) == Live(c, l, now)
  {
    if Admits(c, l, n, now) {
      LiveAfterAdmission(c, l, n, now);
    } else {
      FromIdempotent(l.timestamps, now - c.window);
      assert After(c, l, n, now).timestamps == Live(c, l, now);
    }
  }

  /** Exactly how long a denied request has to wait if nothing intervenes: until the last
      of the entries that stand in its way is more than one window old. */
  lemma SufficientWaitIff(c: Config, l: KeyLog, n: int, now: int, wait: int)
    requires ValidConfig(c) && Valid(l) && l.lastAccess <= now && !Admits(c, l, n, now) && wait >= 0
    requires 1 <= n <= c.limit
    ensures var live := Live(c, l, now);
            && 0 <= |live| + n - c.limit - 1 < |live|
            && (Admits(c, After(c, l, n, now), n, now + wait) <==> wait > live[|live| + n - c.limit - 1] + c.window - now)
  {
    hide From, Valid, After, Sorted;
    var live := Live(c, l, now);
    DeniedLog(c, l, n, now);
    FromLeaves(live, now + wait - c.window, |live| + n - c.limit - 1);
  }

  /** Of a sorted log at most the entries after position `i` are left if and only if that
      one is gone. */
  lemma FromLeaves(ts: seq<int>, cutoff: int, i: nat)
    requires Sorted(ts) && i < |ts|
    ensures |From(ts, cutoff)| <= |ts| - i - 1 <==> ts[i] < cutoff
  {
    var k := 0;
    while k < |ts| && ts[k] < cutoff
      invariant k <= |ts| && forall j | 0 <= j < k :: ts[j] < cutoff
    {
      k := k + 1;
    }
    FromIsSuffix(ts, cutoff, k);
  }

  /** The hint names the instant at which the oldest entry is exactly one window old,
      when it still counts: nothing has left the log by then and the request is denied
      again. One nanosecond later the oldest entry is gone. */
  lemma RetryAfterIsShort(c: Config, l: KeyLog, n: int, now: int, wait: int)
    requires ValidConfig(c) && Valid(l) && l.lastAccess <= now && n >= 1 && !Admits(c, l, n, now)
    requires 0 <= wait <= RetryAfter(c, l, now)
    ensures Live(c, After(c, l, n, now), now + wait) == Live(c, l, now)
    ensures !Admits(c, After(c, l, n, now), n, now + wait)
    ensures Live(c, l, now) != [] ==>
      |Live(c, After(c, l, n, now), now + RetryAfter(c, l, now) + 1)| < |Live(c, l, now)|
  {
    hide From, Valid, After, Admits, Sorted;
    var live := Live(c, l, now);
    DeniedLog(c, l, n, now);
    StillLive(live, now + wait - c.window);
    StillDenied(c, l, n, now, now + wait);
    if live != [] {
      FromDrops(live, live[0] + 1);
    }
  }

  lemma AnswerTells(c: Config, l: KeyLog, n: int, now: int)
    requires ValidConfig(c) && Valid(l) && l.lastAccess <= now && n >= 1
    ensures Told(c, After(c, l, n, now), Answer(c, l, n, now), n, now)
  {
    hide From, Valid;
    var l', res := After(c, l, n, now), Answer(c, l, n, now);
    PeekAllowLaw(c, l, n, now);
    if Admits(c, l, n, now) {
      LiveAfterAdmission(c, l, n, now);
    } else {
      HintInRange(c, l, n, now);
      forall later | now <= later <= now + res.retryAfter
        ensures !Admits(c, l', n, later)
      {
        RetryAfterIsShort(c, l, n, now, later - now);
      }
      RetryAfterIsShort(c, l, n, now, res.retryAfter);
    }
  }

  lemma HintInRange(c: Config, l: KeyLog, n: int, now: int)
    requires ValidConfig(c) && Valid(l) && n >= 1 && !Admits(c, l, n, now)
    ensures RetryAfter(c, l, now) >= 0
  {
    hide From;
    DeniedLog(c, l, n, now);
  }

  lemma DeniedLog(c: Config, l: KeyLog, n: int, now: int)
    requires ValidConfig(c) && Valid(l) && n >= 1 && !Admits(c, l, n, now)
    ensures After(c, l, n, now).timestamps == Live(c, l, now) && Sorted(Live(c, l, now))
    ensures Live(c, l, now) != [] ==> Live(c, l, now)[0] >= now - c.window
  {
    FromFacts(l.timestamps, now - c.window, l.lastAccess);
    hide From;
  }

  lemma StillDenied(c: Config, l: KeyLog, n: int, now: int, later: int)
    requires n >= 1 && !Admits(c, l, n, now) && Live(c, After(c, l, n, now), later) == Live(c, l, now)
    ensures !Admits(c, After(c, l, n, now), n, later)
  {
    hide From;
  }

  lemma StillLive(ts: seq<int>, cutoff: int)
    requires Sorted(ts) && (ts != [] ==> ts[0] >= cutoff)
    ensures From(ts, cutoff) == ts
  {
    FromIsSuffix(ts, cutoff, 0);
  }

  lemma {:induction false} FromDrops(ts: seq<int>, cutoff: int)
    requires ts != [] && ts[0] < cutoff
    ensures |From(ts, cutoff)| < |ts|
  {
    if |ts| > 1 {
      FromDrops(ts[..|ts| - 1], cutoff);
    } else {
      assert ts[..0] == [];
    }
  }

  // Whole runs

  /** The admission times of a run, with multiplicity. */
  function Admissions(c: Config, l: KeyLog, rs: seq<Request>): seq<int>
    decreases |rs|
  {
    if rs == [] then []
    else
      var r := rs[0];
      (if Admits(c, l, r.n, r.now) then Copies(r.now, r.n) else [])
      + Admissions(c, After(c, l, r.n, r.now), rs[1..])
  }

  /** The log holds the recent end of the full admission history. */
  ghost predicate Records(c: Config, l: KeyLog, history: seq<int>, now: int) {
    && AtMost(history, now)
    && (forall cutoff | cutoff >= now - c.window :: From(history, cutoff) == From(l.timestamps, cutoff))
  }

  lemma {:induction false} FromCounts(h: seq<int>, cutoff: int, now: int)
    requires AtMost(h, now)
    ensures |From(h, cutoff)| == CountIn(h, cutoff, now)
  {
    if h != [] {
      FromCounts(h[..|h| - 1], cutoff, now);
    }
  }

  lemma RecordsStep(c: Config, l: KeyLog, history: seq<int>, before: int, n: int, now: int)
    requires ValidConfig(c) && Records(c, l, history, before) && before <= now
    ensures Records(c, After(c, l, n, now), history + if Admits(c, l, n, now) then Copies(now, n) else [], now)
  {
    var added := if Admits(c, l, n, now) then Copies(now, n) else [];
    forall cutoff | cutoff >= now - c.window
      ensures From(history + added, cutoff) == From(After(c, l, n, now).timestamps, cutoff)
    {
      FromConcat(history, added, cutoff);
      FromComposes(l.timestamps, now - c.window, cutoff);
      FromConcat(Live(c, l, now), added, cutoff);
    }
  }

  lemma BoundAtAdmission(c: Config, l: KeyLog, history: seq<int>, before: int, n: int, now: int, s: int)
    requires ValidConfig(c) && Records(c, l, history, before) && before <= now && Admits(c, l, n, now)
    requires CountIn(history, s, s + c.window) <= c.limit
    ensures CountIn(history + Copies(now, n), s, s + c.window) <= c.limit
  {
    CountConcat(history, Copies(now, n), s, s + c.window);
    CountCopies(now, n, s, s + c.window);
    if s <= now <= s + c.window {
      CountSplit(history, s, now + 1, s + c.window);
      CountNone(history, now + 1, s + c.window);
      CountWiden(history, s, now, now - c.window, now);
      FromCounts(history, now - c.window, now);
    }
  }

  lemma {:induction false} WindowBoundFrom(c: Config, l: KeyLog, history: seq<int>, rs: seq<Request>, before: int, s: int)
    requires ValidConfig(c) && Monotone(rs) && (forall r | r in rs :: before <= r.now)
    requires Records(c, l, history, before)
    requires CountIn(history, s, s + c.window) <= c.limit
    ensures CountIn(history + Admissions(c, l, rs), s, s + c.window) <= c.limit
    decreases |rs|
  {
    if rs == [] {
      assert history + [] == history;
    } else {
      var r := rs[0];
      var added := if Admits(c, l, r.n, r.now) then Copies(r.now, r.n) else [];
      var rest := Admissions(c, After(c, l, r.n, r.now), rs[1..]);
      assert history + Admissions(c, l, rs) == history + added + rest;
      if Admits(c, l, r.n, r.now) {
        BoundAtAdmission(c, l, history, before, r.n, r.now, s);
      } else {
        assert history + added == history;
      }
      RecordsStep(c, l, history, before, r.n, r.now);
      WindowBoundFrom(c, After(c, l, r.n, r.now), history + added, rs[1..], r.now, s);
    }
  }

  /** Every closed interval one window long holds at most `limit` admissions, in
      every run. */
  lemma WindowBound(c: Config, rs: seq<Request>, start: int, s: int)
    requires ValidConfig(c) && Monotone(rs) && forall r | r in rs :: start <= r.now
    ensures CountIn(Admissions(c, Fresh(start), rs), s, s + c.window) <= c.limit
  {
    WindowBoundFrom(c, Fresh(start), [], rs, start, s);
    assert [] + Admissions(c, Fresh(start), rs) == Admissions(c, Fresh(start), rs);
  }

  function Final(c: Config, l: KeyLog, rs: seq<Request>): KeyLog
    decreases |rs|
  {
    if rs == [] then l else Final(c, After(c, l, rs[0].n, rs[0].now), rs[1..])
  }

  lemma {:induction false} RecordsRun(c: Config, l: KeyLog, history: seq<int>, rs: seq<Request>, before: int, now: int)
    requires ValidConfig(c) && Monotone(rs) && (forall r | r in rs :: before <= r.now <= now) && before <= now
    requires Records(c, l, history, before)
    ensures Records(c, Final(c, l, rs), history + Admissions(c, l, rs), now)
    decreases |rs|
  {
    hide After, Live, From;
    if rs == [] {
      assert history + [] == history;
    } else {
      var r := rs[0];
      var added := if Admits(c, l, r.n, r.now) then Copies(r.now, r.n) else [];
      var l' := After(c, l, r.n, r.now);
      assert history + Admissions(c, l, rs) == history + added + Admissions(c, l', rs[1..]);
      RecordsStep(c, l, history, before, r.n, r.now);
      RecordsRun(c, l', history + added, rs[1..], r.now, now);
    }
  }

  /** After every run a request is admitted if and only if it keeps the bound: the
      window that ends now has room for it. */
  lemma AdmittedExactly(c: Config, rs: seq<Request>, start: int, n: int, now: int)
    requires ValidConfig(c) && Monotone(rs) && (forall r | r in rs :: start <= r.now <= now) && start <= now
    ensures Admits(c, Final(c, Fresh(start), rs), n, now) <==>
      n >= 1 && CountIn(Admissions(c, Fresh(start), rs), now - c.window, now) + n <= c.limit
  {
    var history := Admissions(c, Fresh(start), rs);
    assert [] + history == history;
    RecordsRun(c, Fresh(start), [], rs, start, now);
    FromCounts(history, now - c.window, now);
  }

  // Eviction of idle keys

  /** The clean-up loop forgets keys not consumed for two windows. */
  predicate Idle(c: Config, l: KeyLog, now: int) {
    l.lastAccess < now - 2 * c.window
  }

  lemma EvictionUnobservable(c: Config, l: KeyLog, now: int, later: int)
    requires ValidConfig(c) && Valid(l) && Idle(c, l, now) && now <= later
    ensures Live(c, l, later) == Live(c, Fresh(now), later)
  {
    FromIsSuffix(l.timestamps, later - c.window, |l.timestamps|);
  }
}
