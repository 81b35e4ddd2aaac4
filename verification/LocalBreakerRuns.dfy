/** Every run of the in-process breaker: when it trips, how long it stays open and
    what closes it again. */
module LocalBreakerRuns {
  import opened Arith
  import opened LocalBreaker
  import opened Ratelimit
  import CW = CountWindow
  import TW = TimeWindow

  datatype Step =
    | Enter(allowance: int, now: int)
    | Leave(probe: bool, failed: bool, now: int)

  /** `plain` and `probes` count the calls admitted and not yet back, by how they were
      admitted. */
  datatype World = World(b: Breaker, clock: int, plain: nat, probes: nat)

  function Start(c: Config, now: int): World {
    World(Breaker(Closed, 0, 0, 0, Empty(c, now)), now, 0, 0)
  }

  /** Only a call that was admitted comes back. */
  predicate Enabled(w: World, s: Step) {
    w.clock <= s.now && 0 < s.now && (s.Leave? ==> if s.probe then w.probes > 0 else w.plain > 0)
  }

  function Apply(c: Config, w: World, s: Step): World
    requires ValidConfig(c) && Fits(c, w.b.metrics) && Enabled(w, s)
  {
    match s
    case Enter(allowance, now) =>
      var a := Decide(c, w.b, allowance, now);
      World(Entered(c, w.b, allowance, now), now, if a.Plain? then w.plain + 1 else w.plain, if a.Probe? then w.probes + 1 else w.probes)
    case Leave(probe, failed, now) =>
      World(Left(c, w.b, probe, failed, now), now, if probe then w.plain else w.plain - 1, if probe then w.probes - 1 else w.probes)
  }

  /** What every reachable breaker satisfies: its counter is the number of probes out,
      and a closed one is below its threshold. */
  ghost predicate Inv(c: Config, w: World)
    requires ValidConfig(c)
  {
    var b := w.b;
    && Fits(c, b.metrics) && (b.metrics.Slots? ==> b.metrics.newest <= w.clock)
    && b.inflight == w.probes <= c.halfOpenMax
    && match b.state
       case Closed => b.openedAt == 0 && b.successes == 0 && !ShouldOpen(c, b.metrics)
       case HalfOpen => 0 <= b.successes < c.successThreshold && 0 < b.openedAt <= w.clock
       case Open => b.successes == 0 && 0 < b.openedAt <= w.clock
  }

  lemma EmptyStaysClosed(c: Config, now: int)
    requires ValidConfig(c)
    ensures Fits(c, Empty(c, now)) && !ShouldOpen(c, Empty(c, now))
    ensures Empty(c, now).Slots? ==> Empty(c, now).newest == now
  {
  }

  /** The newest bucket is the one the outcome falls in. */
  lemma NewestKept(c: Config, m: Metrics, failed: bool, before: int, now: int)
    requires ValidConfig(c) && Fits(c, m) && (m.Slots? ==> m.newest <= before) && before <= now
    ensures var m' := Recorded(c, m, failed, now); m'.Slots? ==> m'.newest <= now < m'.newest + c.rule.width
  {
    if m.Slots? {
      TW.SlidCovers(m.newest, c.rule.width, now);
    }
  }

  /** In a count-based window a success never raises the failure count and a failure
      raises it by at most one. */
  lemma CountGrowth(c: Config, m: Metrics, failed: bool, now: int)
    requires ValidConfig(c) && c.rule.CountBased? && m.Ring?
    ensures Failures(c, Recorded(c, m, failed, now)) <= Failures(c, m) + if failed then 1 else 0
  {
    CW.RecentStep(m.outcomes, failed, c.rule.size);
  }

  lemma InvStep(c: Config, w: World, s: Step)
    requires ValidConfig(c) && Inv(c, w) && Enabled(w, s)
    ensures Inv(c, Apply(c, w, s))
  {
    hide Failures, Requests, Recorded, Empty;
    EmptyStaysClosed(c, s.now);
    if s.Leave? {
      NewestKept(c, w.b.metrics, s.failed, w.clock, s.now);
      if c.rule.CountBased? {
        CountGrowth(c, w.b.metrics, s.failed, s.now);
      }
    }
  }

  ghost predicate Legal(c: Config, w: World, steps: seq<Step>)
    requires ValidConfig(c) && Fits(c, w.b.metrics)
    decreases |steps|
  {
    steps != [] ==> Enabled(w, steps[0]) && Legal(c, Apply(c, w, steps[0]), steps[1..])
  }

  ghost function Run(c: Config, w: World, steps: seq<Step>): (w': World)
    requires ValidConfig(c) && Fits(c, w.b.metrics) && Legal(c, w, steps)
    ensures Fits(c, w'.b.metrics)
    decreases |steps|
  {
    if steps == [] then w else Run(c, Apply(c, w, steps[0]), steps[1..])
  }

  lemma {:induction false} InvRun(c: Config, w: World, steps: seq<Step>)
    requires ValidConfig(c) && Inv(c, w) && Legal(c, w, steps)
    ensures Inv(c, Run(c, w, steps))
    decreases |steps|
  {
    if steps != [] {
      InvStep(c, w, steps[0]);
      InvRun(c, Apply(c, w, steps[0]), steps[1..]);
    }
  }

  lemma InvStart(c: Config, now: int)
    requires ValidConfig(c)
    ensures Inv(c, Start(c, now))
  {
    EmptyStaysClosed(c, now);
  }

  // When it trips

  /** The outcomes recorded by a run, in order: true for a failure. */
  function Outcomes(steps: seq<Step>): seq<bool>
    decreases |steps|
  {
    if steps == [] then []
    else (if steps[0].Leave? then [steps[0].failed] else []) + Outcomes(steps[1..])
  }

  function Flags(events: seq<TW.Event>): seq<bool> {
    seq(|events|, i requires 0 <= i < |events| => events[i].failed)
  }

  /** What is remembered after a step: nothing after one that closes the breaker. */
  function Remembered(c: Config, w: World, past: seq<TW.Event>, s: Step): seq<TW.Event>
    requires ValidConfig(c) && Fits(c, w.b.metrics) && Enabled(w, s)
  {
    if w.b.state != Closed && Apply(c, w, s).b.state == Closed then []
    else if s.Leave? then past + [TW.Event(s.now, s.failed)] else past
  }

  /** The outcomes recorded by a run since the breaker last closed, after `past`. */
  ghost function SinceClose(c: Config, w: World, past: seq<TW.Event>, steps: seq<Step>): seq<TW.Event>
    requires ValidConfig(c) && Fits(c, w.b.metrics) && Legal(c, w, steps)
    decreases |steps|
  {
    if steps == [] then past else SinceClose(c, Apply(c, w, steps[0]), Remembered(c, w, past, steps[0]), steps[1..])
  }

  predicate Reflects(m: Metrics, past: seq<TW.Event>) {
    match m
    case Ring(outcomes) => outcomes == Flags(past)
    case Slots(events, _) => events == past
  }

  lemma MetricsStep(c: Config, w: World, past: seq<TW.Event>, s: Step)
    requires ValidConfig(c) && Fits(c, w.b.metrics) && Enabled(w, s) && Reflects(w.b.metrics, past)
    ensures Reflects(Apply(c, w, s).b.metrics, Remembered(c, w, past, s))
  {
    hide ShouldOpen, TW.Slid;
    if s.Leave? {
      assert Flags(past + [TW.Event(s.now, s.failed)]) == Flags(past) + [s.failed];
    }
  }

  /** The metrics are exactly what the run recorded since the breaker last closed,
      whichever window keeps them. */
  lemma {:induction false} MetricsAreHistory(c: Config, w: World, past: seq<TW.Event>, steps: seq<Step>)
    requires ValidConfig(c) && Fits(c, w.b.metrics) && Legal(c, w, steps) && Reflects(w.b.metrics, past)
    ensures Reflects(Run(c, w, steps).b.metrics, SinceClose(c, w, past, steps))
    decreases |steps|
  {
    if steps != [] {
      MetricsStep(c, w, past, steps[0]);
      hide Apply, Remembered, Reflects;
      MetricsAreHistory(c, Apply(c, w, steps[0]), Remembered(c, w, past, steps[0]), steps[1..]);
    }
  }

  /** The count-based breaker trips exactly when it should. Take what a run recorded
      since the breaker last closed: in a closed one fewer than `failureThreshold` of the
      last `size` are failures, and the next outcome trips it if and only if it makes
      exactly that many. */
  lemma TripsExactly(c: Config, now: int, steps: seq<Step>, s: Step)
    requires ValidConfig(c) && c.rule.CountBased? && Legal(c, Start(c, now), steps)
    requires var w := Run(c, Start(c, now), steps); w.b.state == Closed && s.Leave? && Enabled(w, s)
    ensures var w := Run(c, Start(c, now), steps);
            var past := Flags(SinceClose(c, Start(c, now), [], steps));
            var after := CW.Failures(CW.Recent(past + [s.failed], c.rule.size));
            && CW.Failures(CW.Recent(past, c.rule.size)) < c.failureThreshold
            && after <= c.failureThreshold
            && (Apply(c, w, s).b.state == Open <==> after == c.failureThreshold)
            && (Apply(c, w, s).b.state == Closed <==> after < c.failureThreshold)
  {
    InvStart(c, now);
    InvRun(c, Start(c, now), steps);
    MetricsAreHistory(c, Start(c, now), [], steps);
    var w := Run(c, Start(c, now), steps);
    CountGrowth(c, w.b.metrics, s.failed, s.now);
    hide Run, Legal, SinceClose, Flags, CW.Failures, CW.Recent;
  }

  /** A closing clears them. */
  lemma ClosingForgets(c: Config, w: World, s: Step)
    requires ValidConfig(c) && Fits(c, w.b.metrics) && Enabled(w, s) && w.b.state != Closed && Apply(c, w, s).b.state == Closed
    ensures Apply(c, w, s).b.metrics == Empty(c, s.now)
  {
  }

  // The grid of a time-based window

  /** The instant from which the buckets of a run are laid out: that of the last close,
      or `origin`. */
  ghost function LastClose(c: Config, w: World, origin: int, steps: seq<Step>): int
    requires ValidConfig(c) && Fits(c, w.b.metrics) && Legal(c, w, steps)
    decreases |steps|
  {
    if steps == [] then origin
    else
      var w' := Apply(c, w, steps[0]);
      LastClose(c, w', if w.b.state != Closed && w'.b.state == Closed then steps[0].now else origin, steps[1..])
  }

  /** From the clock on, the window slides as one laid out at `origin` does. */
  ghost predicate OnGrid(c: Config, w: World, origin: int)
    requires ValidConfig(c)
  {
    c.rule.TimeBased? && w.b.metrics.Slots? ==>
      forall t | t >= w.clock :: TW.Slid(w.b.metrics.newest, c.rule.width, t) == TW.Slid(origin, c.rule.width, t)
  }

  lemma GridStep(c: Config, w: World, origin: int, s: Step)
    requires ValidConfig(c) && Fits(c, w.b.metrics) && Enabled(w, s) && OnGrid(c, w, origin)
    ensures var w' := Apply(c, w, s);
            OnGrid(c, w', if w.b.state != Closed && w'.b.state == Closed then s.now else origin)
  {
    hide ShouldOpen, TW.Slid;
    if c.rule.TimeBased? && s.Leave? {
      forall t | t >= s.now
        ensures TW.Slid(TW.Slid(w.b.metrics.newest, c.rule.width, s.now), c.rule.width, t)
             == TW.Slid(w.b.metrics.newest, c.rule.width, t)
      {
        TW.SlidTwice(w.b.metrics.newest, c.rule.width, s.now, t);
      }
    }
  }

  lemma {:induction false} GridRun(c: Config, w: World, origin: int, steps: seq<Step>)
    requires ValidConfig(c) && Fits(c, w.b.metrics) && Legal(c, w, steps) && OnGrid(c, w, origin)
    ensures OnGrid(c, Run(c, w, steps), LastClose(c, w, origin, steps))
    decreases |steps|
  {
    hide OnGrid;
    if steps != [] {
      GridStep(c, w, origin, steps[0]);
      var w' := Apply(c, w, steps[0]);
      GridRun(c, w', if w.b.state != Closed && w'.b.state == Closed then steps[0].now else origin, steps[1..]);
    }
  }

  lemma TimedCondition(c: Config, failed: int, all: int)
    requires ValidConfig(c) && c.rule.TimeBased?
    ensures ShouldOpenCounts(c, failed, all) <==>
      all >= c.rule.minimumRequests && failed >= c.failureThreshold && failed as real >= c.rule.rate * all as real
  {
    if all >= c.rule.minimumRequests {
      var f, a := failed as real, all as real;
      assert f / a * a == f;
      if f / a >= c.rule.rate {
        RMulMono(a, c.rule.rate, f / a);
      } else {
        assert (c.rule.rate - f / a) * a > 0.0;
      }
    }
  }

  /** The time-based breaker trips exactly when it should. Take what a run recorded since
      the breaker last closed, and the buckets laid out at that instant: the next outcome
      trips a closed breaker if and only if the row of buckets that ends at this instant
      has enough outcomes, enough failures among them, and a large enough share of them. */
  lemma TimedTripsExactly(c: Config, now: int, steps: seq<Step>, s: Step)
    requires ValidConfig(c) && c.rule.TimeBased? && Legal(c, Start(c, now), steps)
    requires var w := Run(c, Start(c, now), steps); w.b.state == Closed && s.Leave? && Enabled(w, s)
    ensures var w := Run(c, Start(c, now), steps);
            var past := SinceClose(c, Start(c, now), [], steps) + [TW.Event(s.now, s.failed)];
            var newest := TW.Slid(LastClose(c, Start(c, now), now, steps), c.rule.width, s.now);
            var failed := TW.Counted(past, newest, c.rule.width, c.rule.buckets, true);
            var all := TW.Counted(past, newest, c.rule.width, c.rule.buckets, false);
            && newest <= s.now < newest + c.rule.width
            && (Apply(c, w, s).b.state == Open <==>
                all >= c.rule.minimumRequests && failed >= c.failureThreshold && failed as real >= c.rule.rate * all as real)
            && (Apply(c, w, s).b.state == Open || Apply(c, w, s).b.state == Closed)
  {
    hide ShouldOpenCounts, TW.Slid, TW.Counted, Apply, Run, Legal, SinceClose, LastClose;
    InvStart(c, now);
    InvRun(c, Start(c, now), steps);
    MetricsAreHistory(c, Start(c, now), [], steps);
    StartOnGrid(c, now);
    GridRun(c, Start(c, now), now, steps);
    var w := Run(c, Start(c, now), steps);
    NewestKept(c, w.b.metrics, s.failed, w.clock, s.now);
    TimedLeave(c, w, s);
    var m := Recorded(c, w.b.metrics, s.failed, s.now);
    TimedCondition(c, Failures(c, m), Requests(c, m));
  }

  lemma StartOnGrid(c: Config, now: int)
    requires ValidConfig(c)
    ensures OnGrid(c, Start(c, now), now)
  {
  }

  lemma TimedLeave(c: Config, w: World, s: Step)
    requires ValidConfig(c) && c.rule.TimeBased? && Fits(c, w.b.metrics) && w.b.state == Closed && s.Leave? && Enabled(w, s)
    ensures var m := Recorded(c, w.b.metrics, s.failed, s.now);
            && (Apply(c, w, s).b.state == Open <==> ShouldOpenCounts(c, Failures(c, m), Requests(c, m)))
            && (Apply(c, w, s).b.state == Open || Apply(c, w, s).b.state == Closed)
  {
  }

  /** A breaker that can never trip: one whose window is smaller than its threshold. */
  lemma {:induction false} SmallWindowNeverTrips(c: Config, w: World, steps: seq<Step>)
    requires ValidConfig(c) && c.rule.CountBased? && c.rule.size < c.failureThreshold
    requires Inv(c, w) && w.b.state == Closed && Legal(c, w, steps)
    ensures Run(c, w, steps).b.state == Closed
    decreases |steps|
  {
    if steps != [] {
      InvStep(c, w, steps[0]);
      if steps[0].Leave? {
        CW.FailuresBound(CW.Recent(w.b.metrics.outcomes + [steps[0].failed], c.rule.size));
      }
      SmallWindowNeverTrips(c, Apply(c, w, steps[0]), steps[1..]);
    }
  }

  /** Calls that enter and fail, one after the other. */
  function FailingCalls(n: nat, now: int): seq<Step> {
    if n == 0 then [] else FailingCalls(n - 1, now) + [Enter(1, now)] + [Leave(false, true, now)]
  }

  function FailedTimes(n: nat, now: int): World {
    World(Breaker(Closed, 0, 0, 0, Ring(seq(n, _ => true))), now, 0, 0)
  }

  /** Any other one trips after that many failures in a row. */
  lemma {:induction false} FailuresInARowTrip(c: Config, n: nat, now: int)
    requires ValidConfig(c) && c.rule.CountBased? && n <= c.failureThreshold <= c.rule.size && now > 0
    ensures Legal(c, Start(c, now), FailingCalls(n, now))
    ensures var w := Run(c, Start(c, now), FailingCalls(n, now));
            if n < c.failureThreshold then w == FailedTimes(n, now) else w.b.state == Open
  {
    if n > 0 {
      FailuresInARowTrip(c, n - 1, now);
      var calls := FailingCalls(n - 1, now);
      FailingCall(c, n, now);
      hide Apply;
      RunSnoc(c, Start(c, now), calls, Enter(1, now));
      RunSnoc(c, Start(c, now), calls + [Enter(1, now)], Leave(false, true, now));
    } else {
      assert seq(0, _ => true) == [];
    }
  }

  lemma FailingCall(c: Config, n: nat, now: int)
    requires ValidConfig(c) && c.rule.CountBased? && 1 <= n <= c.failureThreshold <= c.rule.size && now > 0
    ensures var w := FailedTimes(n - 1, now);
            var entered := Apply(c, w, Enter(1, now));
            && entered == w.(plain := 1)
            && var left := Apply(c, entered, Leave(false, true, now));
               if n < c.failureThreshold then left == FailedTimes(n, now) else left.b.state == Open
  {
    assert seq(n - 1, _ => true) + [true] == seq(n, _ => true);
    CW.AllFailures(n);
  }

  lemma {:induction false} RunSnoc(c: Config, w: World, steps: seq<Step>, last: Step)
    requires ValidConfig(c) && Fits(c, w.b.metrics) && Legal(c, w, steps) && Enabled(Run(c, w, steps), last)
    ensures Legal(c, w, steps + [last]) && Run(c, w, steps + [last]) == Apply(c, Run(c, w, steps), last)
    decreases |steps|
  {
    if steps == [] {
      assert steps + [last] == [last];
    } else {
      assert (steps + [last])[1..] == steps[1..] + [last];
      RunSnoc(c, Apply(c, w, steps[0]), steps[1..], last);
    }
  }

  /** Hence the exact condition. */
  lemma CanTripIff(c: Config, now: int)
    requires ValidConfig(c) && c.rule.CountBased? && now > 0
    ensures (exists steps :: Legal(c, Start(c, now), steps) && Run(c, Start(c, now), steps).b.state == Open)
            <==> c.failureThreshold <= c.rule.size
  {
    InvStart(c, now);
    if c.failureThreshold <= c.rule.size {
      FailuresInARowTrip(c, c.failureThreshold, now);
    } else {
      forall steps | Legal(c, Start(c, now), steps)
        ensures Run(c, Start(c, now), steps).b.state == Closed
      {
        SmallWindowNeverTrips(c, Start(c, now), steps);
      }
    }
  }

  // Open and recovery

  ghost predicate Before(steps: seq<Step>, t: int) {
    forall i | 0 <= i < |steps| :: steps[i].now < t
  }

  /** What the calls of a run are told on entry. */
  ghost function Replies(c: Config, w: World, steps: seq<Step>): seq<Admission>
    requires ValidConfig(c) && Fits(c, w.b.metrics) && Legal(c, w, steps)
    decreases |steps|
  {
    if steps == [] then []
    else (if steps[0].Enter? then [Decide(c, w.b, steps[0].allowance, steps[0].now)] else [])
         + Replies(c, Apply(c, w, steps[0]), steps[1..])
  }

  ghost predicate AllRejected(replies: seq<Admission>) {
    forall i | 0 <= i < |replies| :: replies[i] == CircuitOpen
  }

  lemma {:induction false} StaysOpen(c: Config, w: World, steps: seq<Step>)
    requires ValidConfig(c) && Fits(c, w.b.metrics) && Legal(c, w, steps)
    requires w.b.state == Open && Before(steps, w.b.openedAt + c.openTimeout)
    ensures var b := Run(c, w, steps).b; b.state == Open && b.openedAt == w.b.openedAt
    ensures AllRejected(Replies(c, w, steps))
    decreases |steps|
  {
    if steps != [] {
      StaysOpen(c, Apply(c, w, steps[0]), steps[1..]);
    }
  }

  /** After a trip, whatever the run before it, no call is admitted until the open
      timeout has passed: outcomes that arrive meanwhile change neither the state nor
      the time of the trip. */
  lemma OpenSafety(c: Config, start: int, before: seq<Step>, trip: Step, after: seq<Step>)
    requires ValidConfig(c) && Legal(c, Start(c, start), before)
    requires var w := Run(c, Start(c, start), before);
             Enabled(w, trip) && w.b.state != Open && Apply(c, w, trip).b.state == Open && Legal(c, Apply(c, w, trip), after)
    requires Before(after, trip.now + c.openTimeout)
    ensures var w := Apply(c, Run(c, Start(c, start), before), trip);
            && w.b.openedAt == trip.now
            && Run(c, w, after).b.state == Open && Run(c, w, after).b.openedAt == trip.now
            && AllRejected(Replies(c, w, after))
  {
    StaysOpen(c, Apply(c, Run(c, Start(c, start), before), trip), after);
  }

  ghost predicate StaysHalfOpen(c: Config, w: World, steps: seq<Step>)
    requires ValidConfig(c) && Fits(c, w.b.metrics) && Legal(c, w, steps)
    decreases |steps|
  {
    w.b.state == HalfOpen && (steps != [] ==> StaysHalfOpen(c, Apply(c, w, steps[0]), steps[1..]))
  }

  lemma HalfOpenStep(c: Config, w: World, s: Step)
    requires ValidConfig(c) && Inv(c, w) && Enabled(w, s) && w.b.state == HalfOpen
    ensures var b := Apply(c, w, s).b;
            if s.Enter? then b.state == HalfOpen && b.successes == w.b.successes
            else if s.failed then b.state == Open && b.openedAt == s.now
            else if w.b.successes + 1 == c.successThreshold then b.state == Closed
            else b.state == HalfOpen && b.successes == w.b.successes + 1
  {
    hide ShouldOpen, Recorded, Empty;
  }

  /** While a breaker stays half-open its success counter is the number of outcomes
      recorded, and none of them is a failure. */
  lemma {:induction false} HalfOpenCounts(c: Config, w: World, steps: seq<Step>)
    requires ValidConfig(c) && Inv(c, w) && Legal(c, w, steps) && StaysHalfOpen(c, w, steps)
    ensures var w' := Run(c, w, steps);
            w'.b.state == HalfOpen && Inv(c, w') && w'.b.successes == w.b.successes + |Outcomes(steps)|
    ensures forall i | 0 <= i < |Outcomes(steps)| :: !Outcomes(steps)[i]
    decreases |steps|
  {
    if steps != [] {
      HalfOpenStep(c, w, steps[0]);
      InvStep(c, w, steps[0]);
      hide Left, Entered;
      HalfOpenCounts(c, Apply(c, w, steps[0]), steps[1..]);
    }
  }

  /** An episode from the entry that begins it to the step that ends it: it closes
      exactly on the success that makes `successThreshold` of them with no failure
      recorded since it began, and reopens exactly on a failure. */
  lemma Recovery(c: Config, w: World, first: Step, steps: seq<Step>, last: Step)
    requires ValidConfig(c) && Inv(c, w) && Enabled(w, first) && w.b.state == Open
    requires Apply(c, w, first).b.state == HalfOpen
    requires var w' := Apply(c, w, first);
             Legal(c, w', steps) && StaysHalfOpen(c, w', steps) && Enabled(Run(c, w', steps), last)
    ensures var b := Apply(c, Run(c, Apply(c, w, first), steps), last).b;
            var recorded := Outcomes(steps);
            && (forall i | 0 <= i < |recorded| :: !recorded[i])
            && |recorded| < c.successThreshold
            && (b.state == Closed <==> last.Leave? && !last.failed && |recorded| + 1 == c.successThreshold)
            && (b.state == Open <==> last.Leave? && last.failed)
  {
    InvStep(c, w, first);
    Promotion(c, w, first);
    HalfOpenCounts(c, Apply(c, w, first), steps);
    hide Left, Entered, Run, Legal, StaysHalfOpen;
    HalfOpenStep(c, Run(c, Apply(c, w, first), steps), last);
  }

  lemma Promotion(c: Config, w: World, s: Step)
    requires ValidConfig(c) && Inv(c, w) && Enabled(w, s) && w.b.state == Open && Apply(c, w, s).b.state == HalfOpen
    ensures Apply(c, w, s).b.successes == 0 && s.now >= w.b.openedAt + c.openTimeout
  {
  }

  // Probes of an earlier episode

  function ProbesAdmitted(replies: seq<Admission>): nat {
    if replies == [] then 0 else (if replies[0].Probe? then 1 else 0) + ProbesAdmitted(replies[1..])
  }

  function ProbesBack(steps: seq<Step>): nat {
    if steps == [] then 0 else (if steps[0].Leave? && steps[0].probe then 1 else 0) + ProbesBack(steps[1..])
  }

  /** The probes still out are those admitted less those back. */
  lemma {:induction false} ProbesOut(c: Config, w: World, steps: seq<Step>)
    requires ValidConfig(c) && Fits(c, w.b.metrics) && Legal(c, w, steps)
    ensures Run(c, w, steps).probes == w.probes + ProbesAdmitted(Replies(c, w, steps)) - ProbesBack(steps)
    decreases |steps|
  {
    if steps != [] {
      var s, w' := steps[0], Apply(c, w, steps[0]);
      ProbesOut(c, w', steps[1..]);
      if s.Enter? {
        assert Replies(c, w, steps)[1..] == Replies(c, w', steps[1..]);
      } else {
        assert Replies(c, w, steps) == Replies(c, w', steps[1..]);
      }
    }
  }

  /** In every run, the entry that begins an episode finds the counter at the number of
      probes admitted so far less those back. It finds zero if and only if every admitted
      probe is back, and it gets a slot itself if and only if the others leave one of
      those allowed. */
  lemma StragglersKeepTheirSlots(c: Config, start: int, steps: seq<Step>, s: Step)
    requires ValidConfig(c) && Legal(c, Start(c, start), steps)
    requires var w := Run(c, Start(c, start), steps);
             s.Enter? && Enabled(w, s) && w.b.state == Open && Apply(c, w, s).b.state == HalfOpen
    ensures var w := Run(c, Start(c, start), steps);
            var found := Promoted(c, w.b, s.now).inflight;
            var admitted, back := ProbesAdmitted(Replies(c, Start(c, start), steps)), ProbesBack(steps);
            && found == w.probes == admitted - back && (found == 0 <==> admitted == back)
            && Decide(c, w.b, s.allowance, s.now) ==
               if admitted - back < (if s.allowance > c.halfOpenMax then c.halfOpenMax else s.allowance) then Probe else TooManyRequests
  {
    InvStart(c, start);
    InvRun(c, Start(c, start), steps);
    ProbesOut(c, Start(c, start), steps);
    hide Run, Legal, ShouldOpen, Replies, ProbesAdmitted, ProbesBack;
  }

  /** When the breaker last opened, or `t`. */
  ghost function LastTrip(c: Config, w: World, t: int, steps: seq<Step>): int
    requires ValidConfig(c) && Fits(c, w.b.metrics) && Legal(c, w, steps)
    decreases |steps|
  {
    if steps == [] then t
    else
      var w' := Apply(c, w, steps[0]);
      LastTrip(c, w', if w.b.state != Open && w'.b.state == Open then steps[0].now else t, steps[1..])
  }

  lemma {:induction false} OpenedAtLastTrip(c: Config, w: World, t: int, steps: seq<Step>)
    requires ValidConfig(c) && Fits(c, w.b.metrics) && Legal(c, w, steps) && (w.b.state == Open ==> w.b.openedAt == t)
    ensures var b := Run(c, w, steps).b; b.state == Open ==> b.openedAt == LastTrip(c, w, t, steps)
    decreases |steps|
  {
    if steps != [] {
      var w' := Apply(c, w, steps[0]);
      OpenedAtStep(c, w, steps[0]);
      hide Apply;
      OpenedAtLastTrip(c, w', if w.b.state != Open && w'.b.state == Open then steps[0].now else t, steps[1..]);
    }
  }

  lemma OpenedAtStep(c: Config, w: World, s: Step)
    requires ValidConfig(c) && Fits(c, w.b.metrics) && Enabled(w, s)
    ensures var b := Apply(c, w, s).b; b.state == Open ==> b.openedAt == if w.b.state != Open then s.now else w.b.openedAt
  {
    hide ShouldOpen, Recorded, Empty;
  }

  /** Over every run, exactly what the next call is told: it runs when the breaker is
      closed; it is refused when it is open, until the open timeout after the trip; and
      otherwise it is a probe if and only if the probes admitted and not yet back are
      fewer than both the strategy and the limit allow. */
  lemma EntryIsTold(c: Config, start: int, steps: seq<Step>, s: Step)
    requires ValidConfig(c) && Legal(c, Start(c, start), steps)
    requires s.Enter? && Enabled(Run(c, Start(c, start), steps), s)
    ensures var w := Run(c, Start(c, start), steps);
            var out := ProbesAdmitted(Replies(c, Start(c, start), steps)) - ProbesBack(steps);
            Decide(c, w.b, s.allowance, s.now) ==
              if w.b.state == Closed then Plain
              else if w.b.state == Open && s.now < LastTrip(c, Start(c, start), 0, steps) + c.openTimeout then CircuitOpen
              else if out < s.allowance && out < c.halfOpenMax then Probe else TooManyRequests
  {
    InvStart(c, start);
    InvRun(c, Start(c, start), steps);
    ProbesOut(c, Start(c, start), steps);
    OpenedAtLastTrip(c, Start(c, start), 0, steps);
    hide Run, Legal, ShouldOpen, Replies, ProbesAdmitted, ProbesBack, LastTrip;
  }

  function Entries(now: int, allowance: int, n: nat): seq<Step> {
    seq(n, _ => Enter(allowance, now))
  }

  /** From a half-open breaker exactly the free slots are given out: as many entries are
      probes as the strategy and the limit leave, and the next is refused. */
  lemma {:induction false} FillingUp(c: Config, w: World, allowance: int)
    requires ValidConfig(c) && Inv(c, w) && w.b.state == HalfOpen && 0 < w.clock
    ensures var n := Max(0, Min(allowance, c.halfOpenMax) - w.b.inflight);
            var steps := Entries(w.clock, allowance, n);
            && Legal(c, w, steps) && Replies(c, w, steps) == seq(n, _ => Probe)
            && var w' := Run(c, w, steps);
               w'.b.inflight == w'.probes == w.b.inflight + n && Decide(c, w'.b, allowance, w.clock) == TooManyRequests
    decreases c.halfOpenMax - w.b.inflight
  {
    var n, s := Max(0, Min(allowance, c.halfOpenMax) - w.b.inflight), Enter(allowance, w.clock);
    if n > 0 {
      InvStep(c, w, s);
      assert Entries(w.clock, allowance, n)[1..] == Entries(w.clock, allowance, n - 1);
      assert [Probe] + seq(n - 1, _ => Probe) == seq(n, _ => Probe);
      FillingUp(c, Apply(c, w, s), allowance);
    }
  }

  const ONE_SLOT := Config(CountBased(1), 10, 1, 1, 1)

  /** The states of the run below. */
  function Stage(i: nat): World {
    match i
    case 0 => Start(ONE_SLOT, 1)
    case 1 => World(Breaker(Closed, 0, 0, 0, Ring([])), 1, 1, 0)
    case 2 => World(Breaker(Closed, 0, 0, 0, Ring([])), 1, 2, 0)
    case 3 => World(Breaker(Open, 1, 0, 0, Ring([true])), 1, 1, 0)
    case 4 => World(Breaker(HalfOpen, 1, 0, 1, Ring([true])), 11, 1, 1)
    case 5 => World(Breaker(Open, 12, 0, 1, Ring([true, true])), 12, 0, 1)
    case _ => World(Breaker(HalfOpen, 12, 0, 1, Ring([true, true])), 22, 0, 1)
  }

  /** Two calls enter, the first fails and trips; a probe enters after the timeout; the
      second call fails and reopens; the next call enters. */
  const STRAGGLER := [Enter(1, 1), Enter(1, 1), Leave(false, true, 1), Enter(1, 11), Leave(false, true, 12), Enter(1, 22)]
  const ANSWERED := [Plain, Plain, Probe, TooManyRequests]

  /** How many answers the first `i` steps have had. */
  function Answered(i: nat): nat {
    if i <= 2 then i else if i == 3 then 2 else if i <= 5 then 3 else 4
  }

  lemma StageStep(i: nat)
    requires i < 6
    ensures Enabled(Stage(i), STRAGGLER[i]) && Apply(ONE_SLOT, Stage(i), STRAGGLER[i]) == Stage(i + 1)
    ensures if STRAGGLER[i].Enter? then
              && Answered(i + 1) == Answered(i) + 1 <= 4
              && ANSWERED[Answered(i)] == Decide(ONE_SLOT, Stage(i).b, STRAGGLER[i].allowance, STRAGGLER[i].now)
            else Answered(i + 1) == Answered(i)
  {
    if i == 2 {
      assert CW.Recent([true], 1) == [true] && [true][..0] == [];
    }
  }

  lemma Sizes()
    ensures |STRAGGLER| == 6 && |ANSWERED| == 4
    ensures forall i: nat | i <= 6 :: Fits(ONE_SLOT, Stage(i).b.metrics)
  {
  }

  lemma {:induction false} StagesRun(i: nat)
    requires i <= 6
    ensures Legal(ONE_SLOT, Stage(i), STRAGGLER[i..]) && Run(ONE_SLOT, Stage(i), STRAGGLER[i..]) == Stage(6)
    ensures Replies(ONE_SLOT, Stage(i), STRAGGLER[i..]) == ANSWERED[Answered(i)..]
    decreases 6 - i
  {
    hide Stage, Apply, Decide, Enabled, STRAGGLER, ANSWERED;
    Sizes();
    if i == 6 {
      assert STRAGGLER[i..] == [] && ANSWERED[Answered(i)..] == [];
    } else {
      StagesRun(i + 1);
      StageStep(i);
      var steps := STRAGGLER[i..];
      assert steps[0] == STRAGGLER[i] && steps[1..] == STRAGGLER[i + 1..];
      if steps[0].Enter? {
        assert ANSWERED[Answered(i)..] == [ANSWERED[Answered(i)]] + ANSWERED[Answered(i + 1)..];
      }
    }
  }

  /** That last call begins an episode whose only slot is taken, and is refused. */
  lemma StragglerBlocksNextEpisode()
    ensures Legal(ONE_SLOT, Start(ONE_SLOT, 1), STRAGGLER)
    ensures Replies(ONE_SLOT, Start(ONE_SLOT, 1), STRAGGLER) == ANSWERED
    ensures var w := Run(ONE_SLOT, Start(ONE_SLOT, 1), STRAGGLER); w.b.state == HalfOpen && w.b.inflight == 1 == ONE_SLOT.halfOpenMax
  {
    hide Legal, Run, Replies, STRAGGLER, ANSWERED;
    StagesRun(0);
    assert STRAGGLER[0..] == STRAGGLER && ANSWERED[0..] == ANSWERED;
  }

  /** Over every run, whichever window it uses, a closed breaker does not meet the
      condition to open. */
  lemma ClosedMeansBelow(c: Config, now: int, steps: seq<Step>)
    requires ValidConfig(c) && Legal(c, Start(c, now), steps)
    ensures var b := Run(c, Start(c, now), steps).b; b.state == Closed ==> !ShouldOpen(c, b.metrics)
  {
    InvStart(c, now);
    InvRun(c, Start(c, now), steps);
  }
}
