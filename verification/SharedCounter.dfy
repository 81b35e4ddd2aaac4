/** Whole runs of the distributed sliding counter: one stored count per fixed window,
    under keys that expire, read by the script with a truncated fraction. */
module SharedCounter {
  import opened Ratelimit
  import opened Arith
  import opened History
  import C = SlidingCounter

  const MILLISECOND := 1_000_000

  /** The counts of the current and the previous window as written, and the instants at
      which their keys were. */
  datatype Shared = Shared(counts: C.KeyCounter, born: int, bornBefore: int)

  /** The time to live of a key written at `now`, in milliseconds. */
  function TtlMs(c: C.Config, now: int): int
    requires C.ValidConfig(c)
  {
    Max((2 * c.window - C.Elapsed(c, now)) / MILLISECOND, c.window / MILLISECOND)
  }

  /** A key given no whole millisecond is kept. */
  predicate Expired(c: C.Config, born: int, now: int)
    requires C.ValidConfig(c)
  {
    TtlMs(c, born) > 0 && now > born + TtlMs(c, born) * MILLISECOND
  }

  function Seen(c: C.Config, count: int, born: int, now: int): int
    requires C.ValidConfig(c)
  {
    if count > 0 && Expired(c, born, now) then 0 else count
  }

  function Fresh(c: C.Config, now: int): Shared
    requires C.ValidConfig(c)
  {
    Shared(C.Fresh(c, now), 0, 0)
  }

  /** The keys a call at `now` looks at. */
  function Rolled(c: C.Config, st: Shared, now: int): Shared
    requires C.ValidConfig(c)
  {
    var r := C.Rolled(c, st.counts, now);
    if r.start == st.counts.start then st
    else Shared(r, 0, if st.counts.start == r.start - c.window then st.born else 0)
  }

  /** What the script finds in them. */
  function Found(c: C.Config, st: Shared, now: int): C.KeyCounter
    requires C.ValidConfig(c)
  {
    var r := Rolled(c, st, now);
    r.counts.(current := Seen(c, r.counts.current, r.born, now), previous := Seen(c, r.counts.previous, r.bornBefore, now))
  }

  predicate Admits(c: C.Config, st: Shared, n: int, now: int)
    requires C.ValidConfig(c)
  {
    var k := Found(c, st, now);
    n >= 1 && C.MILLION * (k.current + n) + k.previous * (C.MILLION - C.FractionMillionths(c, now)) <= C.MILLION * c.limit
  }

  function After(c: C.Config, st: Shared, n: int, now: int): Shared
    requires C.ValidConfig(c)
  {
    if !Admits(c, st, n, now) then st
    else
      var r, k := Rolled(c, st, now), Found(c, st, now);
      Shared(r.counts.(current := k.current + n, lastAccess := now), if k.current == 0 then now else r.born, r.bornBefore)
  }

  /** One call of the limiter: its arguments, and the script on the two counts. */
  method AllowN(c: C.Config, key: string, st: Shared, n: int, now: int) returns (allowed: bool, st': Shared)
    requires C.ValidConfig(c)
    ensures allowed == (ValidKey(key) && Admits(c, st, n, now))
    ensures st' == if ValidKey(key) then After(c, st, n, now) else st
  {
    if !ValidKey(key) || n < 1 {
      return false, st;
    }
    C.WindowFacts(c, now, now);
    FractionInRange(c, now);
    var elapsed := C.Elapsed(c, now);
    var ttlMs := Max((2 * c.window - elapsed) / MILLISECOND, c.window / MILLISECOND);
    var r, k := Rolled(c, st, now), Found(c, st, now);
    var ok, newCurrent, _, ttl := C.CounterScript(c.limit, n, C.FractionMillionths(c, now), ttlMs, k.current, k.previous);
    if !ok {
      return false, st;
    }
    return true, Shared(r.counts.(current := newCurrent, lastAccess := now), if ttl.Some? then now else r.born, r.bornBefore);
  }

  lemma FractionInRange(c: C.Config, now: int)
    requires C.ValidConfig(c)
    ensures 0 <= C.FractionMillionths(c, now) <= C.MILLION
  {
    C.WindowFacts(c, now, now);
    var el := C.Elapsed(c, now);
    Quotient(el * C.MILLION, c.window, 0);
    Quotient(el * C.MILLION, c.window, C.MILLION + 1);
    MulMono(C.MILLION, el, c.window);
    MulDistrib(c.window, C.MILLION, 1);
  }

  function Admissions(c: C.Config, st: Shared, rs: seq<Request>): seq<int>
    requires C.ValidConfig(c)
    decreases |rs|
  {
    if rs == [] then []
    else
      (if Admits(c, st, rs[0].n, rs[0].now) then Copies(rs[0].now, rs[0].n) else [])
      + Admissions(c, After(c, st, rs[0].n, rs[0].now), rs[1..])
  }

  // Lifetimes

  lemma Lifetime(c: C.Config, born: int)
    requires C.ValidConfig(c)
    ensures TtlMs(c, born) > 0 ==> C.WindowStart(c, born) + c.window <= born + TtlMs(c, born) * MILLISECOND + 1
  {
    C.WindowFacts(c, born, born);
  }

  /** A key lives at least one window from its first write. */
  predicate Covers(c: C.Config) {
    c.window + 1 < MILLISECOND || (c.window + 1) % MILLISECOND <= 1
  }

  lemma CoversOneWindow(c: C.Config, born: int)
    requires C.ValidConfig(c) && Covers(c)
    ensures TtlMs(c, born) > 0 ==> TtlMs(c, born) * MILLISECOND >= c.window
  {
    C.WindowFacts(c, born, born);
  }

  // What every call keeps

  /** A count and the instant its key was written, against the admissions from `start`. */
  ghost predicate Written(c: C.Config, count: int, born: int, start: int, history: seq<int>) {
    count > 0 ==> start <= born < start + c.window && CountIn(history, born, born) >= 1
  }

  ghost predicate Books(c: C.Config, st: Shared, history: seq<int>, now: int)
    requires C.ValidConfig(c)
  {
    && C.Records(c, st.counts, history, now)
    && Written(c, st.counts.current, st.born, st.counts.start, history)
    && Written(c, st.counts.previous, st.bornBefore, st.counts.start - c.window, history)
  }

  lemma BooksRolled(c: C.Config, st: Shared, history: seq<int>, before: int, now: int)
    requires C.ValidConfig(c) && Books(c, st, history, before) && before <= now
    ensures Books(c, Rolled(c, st, now), history, now)
    ensures Rolled(c, st, now).counts == C.Rolled(c, st.counts, now)
    ensures Rolled(c, st, now).counts.start == C.WindowStart(c, now)
  {
    C.RecordsRolled(c, st.counts, history, before, now);
    hide CountIn, C.WindowStart;
  }

  /** The current count is always found: its key outlives its window. */
  lemma CurrentIsFound(c: C.Config, st: Shared, history: seq<int>, now: int)
    requires C.ValidConfig(c) && Books(c, st, history, now) && st.counts.start == C.WindowStart(c, now)
    ensures Seen(c, st.counts.current, st.born, now) == st.counts.current
  {
    C.WindowFacts(c, now, now);
    if st.counts.current > 0 {
      C.WindowFacts(c, now, st.born);
      Lifetime(c, st.born);
      hide TtlMs, C.WindowStart, CountIn;
    }
  }

  /** What the script finds is what the window counts, less a previous count whose key
      has expired; and an admission leaves the current count within the limit. */
  lemma FoundIs(c: C.Config, st: Shared, history: seq<int>, before: int, n: int, now: int)
    requires C.ValidConfig(c) && Books(c, st, history, before) && before <= now
    ensures var r, k := Rolled(c, st, now), Found(c, st, now);
            && k.start == C.WindowStart(c, now) && k.current == r.counts.current && 0 <= k.previous <= c.limit
            && (k.previous == r.counts.previous || (k.previous == 0 && r.counts.previous > 0 && Expired(c, r.bornBefore, now)))
            && (Admits(c, st, n, now) ==> C.Admits(c, k, n, now) && k.current + n <= c.limit)
  {
    BooksRolled(c, st, history, before, now);
    CurrentIsFound(c, Rolled(c, st, now), history, now);
    hide C.WindowStart, CountIn, TtlMs, C.FractionMillionths, C.Load;
    if Admits(c, st, n, now) {
      C.ScriptIsConservative(c, Found(c, st, now), n, now);
      C.CountsWithinLimit(c, Found(c, st, now), n, now);
    }
  }

  lemma BooksStep(c: C.Config, st: Shared, history: seq<int>, before: int, n: int, now: int)
    requires C.ValidConfig(c) && Books(c, st, history, before) && before <= now
    ensures Books(c, After(c, st, n, now), history + if Admits(c, st, n, now) then Copies(now, n) else [], now)
  {
    if !Admits(c, st, n, now) {
      assert history + [] == history;
      BooksLater(c, st, history, before, now);
    } else {
      FoundIs(c, st, history, before, n, now);
      BooksRolled(c, st, history, before, now);
      C.WindowFacts(c, now, now);
      var r := Rolled(c, st, now);
      hide C.WindowStart, CountIn, TtlMs, Expired, Admits, C.Admits, Copies;
      BooksAdmitted(c, r, history, n, now);
    }
  }

  lemma BooksLater(c: C.Config, st: Shared, history: seq<int>, before: int, now: int)
    requires C.ValidConfig(c) && Books(c, st, history, before) && before <= now
    ensures Books(c, st, history, now)
  {
    hide CountIn, C.WindowStart;
  }

  lemma BooksAdmitted(c: C.Config, r: Shared, history: seq<int>, n: int, now: int)
    requires C.ValidConfig(c) && Books(c, r, history, now) && r.counts.start <= now < r.counts.start + c.window
    requires n >= 1 && r.counts.current + n <= c.limit
    ensures Books(c, Shared(r.counts.(current := r.counts.current + n, lastAccess := now),
                            if r.counts.current == 0 then now else r.born, r.bornBefore), history + Copies(now, n), now)
  {
    hide CountIn, C.WindowStart, Copies, AtMost;
    C.CountsExtended(history, now, n, r.counts.start, c.window);
    var born := if r.counts.current == 0 then now else r.born;
    CountConcat(history, Copies(now, n), born, born);
    CountConcat(history, Copies(now, n), r.bornBefore, r.bornBefore);
    CountCopies(now, n, born, born);
    AtMostMore(history, now, n, now);
    AtMostMore(history, now, n, r.counts.start + c.window - 1);
  }

  lemma AtMostMore(h: seq<int>, now: int, n: nat, t: int)
    requires AtMost(h, t) && now <= t
    ensures AtMost(h + Copies(now, n), t)
  {
  }

  // The bound

  /** At an admission, where every key lives for a window: a previous count that is found
      bounds the interval as in the local limiter; one that is not was written by a call
      that lies outside it. */
  lemma BoundAtAdmission(c: C.Config, st: Shared, history: seq<int>, before: int, n: int, now: int, s: int)
    requires C.ValidConfig(c) && Covers(c) && Books(c, st, history, before) && before <= now
    requires Admits(c, st, n, now) && s <= now <= s + c.window
    ensures CountIn(history + Copies(now, n), s, s + c.window) < 2 * c.limit
  {
    hide CountIn, C.WindowStart, Copies, TtlMs, Admits, Covers, C.FractionMillionths;
    FoundIs(c, st, history, before, n, now);
    BooksRolled(c, st, history, before, now);
    BooksStep(c, st, history, before, n, now);
    C.WindowFacts(c, now, now);
    var r, k, h := Rolled(c, st, now), Found(c, st, now), history + Copies(now, n);
    var ws, w, current := r.counts.start, c.window, r.counts.current + n;
    assert After(c, st, n, now).counts.start == ws && After(c, st, n, now).counts.current == current;
    assert After(c, st, n, now).counts.previous == r.counts.previous && After(c, st, n, now).bornBefore == r.bornBefore;
    CountUpTo(h, s, now, s + w);
    RecentIsCurrent(h, s, ws, w, now);
    if k.previous == r.counts.previous {
      assert k.previous * (w - C.Elapsed(c, now)) + w * current <= w * c.limit by { LoadOf(c, k, n, now); }
      C.ScaledBound(w, CountIn(h, s, now), k.previous, current, c.limit, C.Elapsed(c, now));
      C.BelowTwice(c, k.previous, C.Elapsed(c, now), CountIn(h, s, now));
      C.WithinBoundIsBelowTwice(c, CountIn(h, s, now));
    } else {
      CoversOneWindow(c, r.bornBefore);
      FirstIsOut(h, r.bornBefore, s, ws, w);
    }
  }

  lemma LoadOf(c: C.Config, k: C.KeyCounter, n: int, now: int)
    requires C.ValidConfig(c) && k.start == C.WindowStart(c, now) && C.Admits(c, k, n, now)
    ensures k.previous * (c.window - C.Elapsed(c, now)) + c.window * (k.current + n) <= c.window * c.limit
  {
    MulDistrib(c.window, k.current, n);
  }

  /** An interval that ends in the current window is covered by the two windows. */
  lemma RecentIsCurrent(h: seq<int>, s: int, ws: int, w: int, now: int)
    requires ws <= now < ws + w && now - w <= s <= now
    ensures CountIn(h, s, now) <= CountIn(h, ws - w, ws - 1) + CountIn(h, ws, ws + w - 1)
    ensures s <= ws ==> CountIn(h, s, now) <= CountIn(h, s, ws - 1) + CountIn(h, ws, ws + w - 1)
    ensures s > ws ==> CountIn(h, s, now) <= CountIn(h, ws, ws + w - 1)
  {
    CountWiden(h, ws, now, ws, ws + w - 1);
    if s <= ws {
      CountSplit(h, s, ws, now);
      CountWiden(h, s, ws - 1, ws - w, ws - 1);
    } else {
      CountWiden(h, s, now, ws, ws + w - 1);
    }
  }

  lemma FirstIsOut(h: seq<int>, born: int, s: int, ws: int, w: int)
    requires ws - w <= born < s && CountIn(h, born, born) >= 1
    ensures s <= ws ==> CountIn(h, s, ws - 1) < CountIn(h, ws - w, ws - 1)
  {
    if s <= ws {
      CountSplit(h, ws - w, s, ws - 1);
      CountWiden(h, born, born, ws - w, s - 1);
    }
  }

  lemma {:induction false} BoundFrom(c: C.Config, st: Shared, history: seq<int>, rs: seq<Request>, before: int, s: int)
    requires C.ValidConfig(c) && Covers(c) && Monotone(rs) && (forall r | r in rs :: before <= r.now)
    requires Books(c, st, history, before) && CountIn(history, s, s + c.window) < 2 * c.limit
    ensures CountIn(history + Admissions(c, st, rs), s, s + c.window) < 2 * c.limit
    decreases |rs|
  {
    if rs == [] {
      assert history + [] == history;
    } else {
      var r := rs[0];
      var added := if Admits(c, st, r.n, r.now) then Copies(r.now, r.n) else [];
      assert history + Admissions(c, st, rs) == history + added + Admissions(c, After(c, st, r.n, r.now), rs[1..]);
      hide CountIn, Copies, Books, Covers;
      BooksStep(c, st, history, before, r.n, r.now);
      IntervalStep(c, st, history, before, r.n, r.now, s);
      BoundFrom(c, After(c, st, r.n, r.now), history + added, rs[1..], r.now, s);
    }
  }

  lemma IntervalStep(c: C.Config, st: Shared, history: seq<int>, before: int, n: int, now: int, s: int)
    requires C.ValidConfig(c) && Covers(c) && Books(c, st, history, before) && before <= now
    requires CountIn(history, s, s + c.window) < 2 * c.limit
    ensures CountIn(history + if Admits(c, st, n, now) then Copies(now, n) else [], s, s + c.window) < 2 * c.limit
  {
    hide CountIn, Books, Covers;
    if !Admits(c, st, n, now) {
      assert history + [] == history;
    } else if s <= now <= s + c.window {
      BoundAtAdmission(c, st, history, before, n, now, s);
    } else {
      CountConcat(history, Copies(now, n), s, s + c.window);
      CountCopies(now, n, s, s + c.window);
    }
  }

  ghost predicate From(rs: seq<Request>, start: int) {
    Monotone(rs) && forall r | r in rs :: start <= r.now
  }

  /** The admissions of a run in the closed interval one window long from `s`. */
  function InInterval(c: C.Config, rs: seq<Request>, start: int, s: int): nat
    requires C.ValidConfig(c)
  {
    CountIn(Admissions(c, Fresh(c, start), rs), s, s + c.window)
  }

  /** Every such interval of every run holds fewer than twice the limit. */
  ghost predicate Bounded(c: C.Config)
    requires C.ValidConfig(c)
  {
    forall rs, start, s | From(rs, start) :: InInterval(c, rs, start, s) < 2 * c.limit
  }

  lemma FreshBooks(c: C.Config, start: int)
    requires C.ValidConfig(c)
    ensures Books(c, Fresh(c, start), [], start)
  {
    C.WindowFacts(c, start, C.WindowStart(c, start));
  }

  lemma ShortLife(c: C.Config)
    requires C.ValidConfig(c) && !Covers(c) && C.WindowStart(c, c.window - 1) == 0
    ensures TtlMs(c, c.window - 1) > 0 && TtlMs(c, c.window - 1) * MILLISECOND < c.window
  {
  }

  /** The run that shows it otherwise: a full window written just before a boundary is
      forgotten just before the next, where another full one is admitted. */
  lemma ForgottenWindow(c: C.Config)
    requires C.ValidConfig(c) && !Covers(c)
    ensures var w := c.window;
            var rs := [Request(w - 1, c.limit), Request(2 * w - 1, c.limit)];
            From(rs, 0) && InInterval(c, rs, 0, w - 1) == 2 * c.limit
  {
    var w, l := c.window, c.limit;
    var r1, r2 := Request(w - 1, l), Request(2 * w - 1, l);
    assert C.WindowStart(c, 0) == 0 && C.WindowStart(c, w - 1) == 0 by { C.WindowFacts(c, 0, w - 1); }
    assert C.WindowStart(c, 2 * w - 1) == w by { C.NextWindow(c, 0); C.WindowFacts(c, w, 2 * w - 1); }
    var st0 := Fresh(c, 0);
    ShortLife(c);
    hide C.WindowStart, TtlMs, Covers, C.FractionMillionths;
    assert Found(c, st0, w - 1) == C.KeyCounter(0, 0, 0, 0);
    assert Admits(c, st0, l, w - 1);
    var st1 := After(c, st0, l, w - 1);
    assert st1 == Shared(C.KeyCounter(0, l, 0, w - 1), w - 1, 0);
    assert Found(c, st1, 2 * w - 1) == C.KeyCounter(w, 0, 0, w - 1);
    assert Admits(c, st1, l, 2 * w - 1);
    hide Admits, After, Found;
    assert [r1, r2][1..] == [r2] && [r2][1..] == [];
    assert Admissions(c, st1, [r2]) == Copies(2 * w - 1, l);
    C.TwoBatches(w - 1, l, 2 * w - 1, l);
  }

  lemma WindowBound(c: C.Config, rs: seq<Request>, start: int, s: int)
    requires C.ValidConfig(c) && Covers(c) && From(rs, start)
    ensures InInterval(c, rs, start, s) < 2 * c.limit
  {
    hide Covers, Books;
    FreshBooks(c, start);
    BoundFrom(c, Fresh(c, start), [], rs, start, s);
    assert [] + Admissions(c, Fresh(c, start), rs) == Admissions(c, Fresh(c, start), rs);
  }

  /** Exactly when the bound holds in every run: the window is a whole number of
      milliseconds or a nanosecond less, or shorter than one. */
  lemma BoundedIff(c: C.Config)
    requires C.ValidConfig(c)
    ensures Bounded(c) <==> Covers(c)
  {
    hide InInterval, From, Covers;
    if Covers(c) {
      forall rs, start, s | From(rs, start)
        ensures InInterval(c, rs, start, s) < 2 * c.limit
      {
        WindowBound(c, rs, start, s);
      }
    } else {
      ForgottenWindow(c);
    }
  }
}
