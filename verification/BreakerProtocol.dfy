/** The shared breaker as a protocol: any number of clients interleave the atomic
    scripts, a holder of a probe slot may record long after its half-open episode
    ended, outcomes may arrive from calls that never acquired, and the key may expire. */
module BreakerProtocol {
  import opened Ratelimit
  import opened Decimal
  import opened SharedBreaker

  /** What a client holds between its acquire and its record. */
  datatype Ticket = Plain | Probe(episode: nat)

  /** `episode` counts the promotions to half-open. `stolen` counts slots of the
      current episode that recorders of earlier ones released and their holders have
      not yet recorded. `deadline` is the earliest instant the key may expire after. */
  datatype World = World(st: Cb, episode: nat, tickets: multiset<Ticket>, stolen: int, deadline: int, clock: int)

  datatype Step =
    | Acquire(now: int)
    | Record(ticket: Ticket, failed: bool, now: int)
    | Stray(failed: bool, now: int)
    | Expire(now: int)

  const MILLISECOND := 1_000_000
  const MINUTE := 60_000_000_000

  /** The key's time to live, in whole milliseconds. */
  function Ttl(c: Config): int {
    Max(c.openTimeout * 10, MINUTE) / MILLISECOND * MILLISECOND
  }

  /** Ten timeouts or a minute, whichever is longer, in whole milliseconds. */
  lemma TtlOutlivesTimeout(c: Config)
    requires ValidConfig(c)
    ensures Ttl(c) > c.openTimeout
    ensures Ttl(c) <= 10 * c.openTimeout || Ttl(c) == MINUTE
    ensures Ttl(c) + MILLISECOND > 10 * c.openTimeout && Ttl(c) >= MINUTE
  {
  }

  const START := World(ZERO, 0, multiset{}, 0, 0, 0)

  function Outstanding(w: World): nat {
    w.tickets[Probe(w.episode)]
  }

  ghost predicate Enabled(w: World, s: Step) {
    && w.clock <= s.now && 0 < s.now <= INT64_MAX
    && (s.Record? ==> s.ticket in w.tickets)
    && (s.Expire? ==> s.now > w.deadline)
  }

  predicate Promotes(c: Config, w: World, now: int) {
    w.st.state == OPEN && TimedOut(c, w.st, now)
  }

  function ApplyAcquire(c: Config, w: World, now: int): World {
    var d := Decide(c, w.st, now);
    var episode := if Promotes(c, w, now) then w.episode + 1 else w.episode;
    World(Acquired(c, w.st, now), episode,
          w.tickets + (match d
                       case AllowClosed => multiset{Plain}
                       case AllowProbe => multiset{Probe(episode)}
                       case _ => multiset{}),
          if Promotes(c, w, now) then 0 else w.stolen,
          if d.AllowProbe? then now + Ttl(c) else w.deadline, now)
  }

  /** How a recorder changes the count of stolen slots. */
  function Theft(w: World, t: Ticket): int {
    if w.st.state != HALF_OPEN || t.Plain? then 0
    else if t.episode == w.episode then if w.st.inflight > 0 then 0 else -1
    else if w.st.inflight > 0 then 1 else 0
  }

  function ApplyRecord(c: Config, w: World, t: Ticket, failed: bool, now: int): World {
    World(Recorded(c, w.st, failed, t.Probe?, now), w.episode, w.tickets - multiset{t}, w.stolen + Theft(w, t),
          now + Ttl(c), now)
  }

  function Apply(c: Config, w: World, s: Step): World {
    match s
    case Acquire(now) => ApplyAcquire(c, w, now)
    case Record(t, failed, now) => ApplyRecord(c, w, t, failed, now)
    case Stray(failed, now) => w.(st := Recorded(c, w.st, failed, false, now), deadline := now + Ttl(c), clock := now)
    case Expire(now) => w.(st := ZERO, clock := now)
  }

  ghost predicate Inv(c: Config, w: World) {
    && Wellformed(c, w.st)
    && (forall t | t in w.tickets && t.Probe? :: t.episode <= w.episode)
    && (w.st.state == HALF_OPEN ==> w.stolen >= 0 && Outstanding(w) == w.st.inflight + w.stolen)
    && (w.st.state == OPEN ==> w.st.openedAt <= w.clock && w.st.openedAt + Ttl(c) <= w.deadline)
  }

  lemma InvStep(c: Config, w: World, s: Step)
    requires ValidConfig(c) && Inv(c, w) && Enabled(w, s)
    ensures Inv(c, Apply(c, w, s))
  {
    match s
    case Acquire(now) => InvAcquire(c, w, now);
    case Record(t, failed, now) => InvRecord(c, w, t, failed, now);
    case Stray(failed, now) => WellformedKept(c, w.st, failed, false, now);
    case Expire(now) => WellformedKept(c, w.st, false, false, now);
  }

  lemma InvAcquire(c: Config, w: World, now: int)
    requires ValidConfig(c) && Inv(c, w) && Enabled(w, Acquire(now))
    ensures Inv(c, ApplyAcquire(c, w, now))
  {
    hide Ttl;
    WellformedKept(c, w.st, false, false, now);
    if Promotes(c, w, now) {
      assert Probe(w.episode + 1) !in w.tickets;
    }
  }

  lemma InvRecord(c: Config, w: World, t: Ticket, failed: bool, now: int)
    requires ValidConfig(c) && Inv(c, w) && Enabled(w, Record(t, failed, now))
    ensures Inv(c, ApplyRecord(c, w, t, failed, now))
  {
    hide Ttl;
    WellformedKept(c, w.st, failed, t.Probe?, now);
    assert (w.tickets - multiset{t})[Probe(w.episode)] == Outstanding(w) - if t == Probe(w.episode) then 1 else 0;
  }

  ghost predicate Legal(c: Config, w: World, steps: seq<Step>)
    decreases |steps|
  {
    steps != [] ==> Enabled(w, steps[0]) && Legal(c, Apply(c, w, steps[0]), steps[1..])
  }

  function Run(c: Config, w: World, steps: seq<Step>): World
    decreases |steps|
  {
    if steps == [] then w else Run(c, Apply(c, w, steps[0]), steps[1..])
  }

  lemma {:induction false} InvRun(c: Config, w: World, steps: seq<Step>)
    requires ValidConfig(c) && Inv(c, w) && Legal(c, w, steps)
    ensures Inv(c, Run(c, w, steps))
    decreases |steps|
  {
    if steps != [] {
      InvStep(c, w, steps[0]);
      InvRun(c, Apply(c, w, steps[0]), steps[1..]);
    }
  }

  /** Probe slots over every run: none reserved outside half-open, never more than
      the limit, never more than are outstanding, and so none left once every holder
      of the episode has recorded. */
  lemma SlotAccounting(c: Config, steps: seq<Step>)
    requires ValidConfig(c) && Legal(c, START, steps)
    ensures var w := Run(c, START, steps);
            && 0 <= w.st.inflight <= c.halfOpenMax
            && (w.st.state != HALF_OPEN ==> w.st.inflight == 0)
            && w.st.inflight <= Outstanding(w)
            && (Outstanding(w) == 0 ==> w.st.inflight == 0)
            && (w.st.state == HALF_OPEN ==> Outstanding(w) == w.st.inflight + w.stolen)
  {
    InvRun(c, START, steps);
  }

  // How many probes really run at once

  function Acquires(now: int, n: nat): seq<Step> {
    seq(n, _ => Acquire(now))
  }

  /** From a half-open state, acquiring until no slot is free leaves exactly
      limit + stolen probes of this episode outstanding: the limit on concurrent
      probes can be exceeded if and only if a slot was stolen. */
  lemma {:induction false} FillingUp(c: Config, w: World)
    requires ValidConfig(c) && Inv(c, w) && w.st.state == HALF_OPEN && 0 < w.clock <= INT64_MAX
    ensures var acquires := Acquires(w.clock, c.halfOpenMax - w.st.inflight);
            && Legal(c, w, acquires)
            && Outstanding(Run(c, w, acquires)) == c.halfOpenMax + w.stolen
            && Run(c, w, acquires).st.state == HALF_OPEN
    decreases c.halfOpenMax - w.st.inflight
  {
    var n := c.halfOpenMax - w.st.inflight;
    if n > 0 {
      var w' := Apply(c, w, Acquire(w.clock));
      InvStep(c, w, Acquire(w.clock));
      assert Acquires(w.clock, n)[1..] == Acquires(w.clock, n - 1);
      FillingUp(c, w');
    }
  }

  /** No probe of an earlier episode records while a later one is half-open. */
  ghost predicate Timely(c: Config, w: World, steps: seq<Step>)
    decreases |steps|
  {
    steps != [] ==>
      && (steps[0].Record? && steps[0].ticket.Probe? && w.st.state == HALF_OPEN ==> steps[0].ticket.episode == w.episode)
      && Timely(c, Apply(c, w, steps[0]), steps[1..])
  }

  /** Without late recorders the limit holds: exactly the reserved slots run. */
  lemma {:induction false} TimelyKeepsLimit(c: Config, w: World, steps: seq<Step>)
    requires ValidConfig(c) && Inv(c, w) && Legal(c, w, steps) && Timely(c, w, steps)
    requires w.st.state == HALF_OPEN ==> w.stolen == 0
    ensures var w' := Run(c, w, steps);
            w'.st.state == HALF_OPEN ==> Outstanding(w') == w'.st.inflight <= c.halfOpenMax
    decreases |steps|
  {
    if steps != [] {
      InvStep(c, w, steps[0]);
      TimelyKeepsLimit(c, Apply(c, w, steps[0]), steps[1..]);
    }
  }

  /** With a late recorder it does not: from any half-open state with a slot in use, a
      probe of an earlier episode that records a success steals the slot, and filling
      up then overbooks the episode. */
  lemma LateRecorderOverbooks(c: Config, w: World, late: Ticket)
    requires ValidConfig(c) && Inv(c, w) && 0 < w.clock <= INT64_MAX
    requires w.st.state == HALF_OPEN && w.st.inflight > 0 && w.st.successes + 1 < c.successThreshold
    requires late in w.tickets && late.Probe? && late.episode < w.episode
    ensures var w' := Apply(c, w, Record(late, false, w.clock));
            var acquires := Acquires(w.clock, c.halfOpenMax - w'.st.inflight);
            && Enabled(w, Record(late, false, w.clock)) && Legal(c, w', acquires)
            && Outstanding(Run(c, w', acquires)) == c.halfOpenMax + w.stolen + 1 > c.halfOpenMax
  {
    hide Ttl, Run, Legal;
    var s := Record(late, false, w.clock);
    InvStep(c, w, s);
    FillingUp(c, Apply(c, w, s));
  }

  const SINGLE := Config(10, 1, 1, 3)

  /** Two calls while closed; one fails and trips. */
  function Trips(): seq<Step> {
    [Acquire(1), Acquire(1), Record(Plain, true, 1)]
  }

  /** A probe of episode 1; the other call's failure reopens; a probe of episode 2. */
  function Reopens(): seq<Step> {
    [Acquire(11), Record(Plain, true, 12), Acquire(22)]
  }

  /** Such a state is reached. */
  lemma LateRecorderIsReachable()
    ensures ValidConfig(SINGLE) && Legal(SINGLE, START, Trips() + Reopens())
    ensures var w := Run(SINGLE, START, Trips() + Reopens());
            w.st == Cb(HALF_OPEN, 0, 0, 12, 1) && w.episode == 2 && Probe(1) in w.tickets
  {
    hide Run, Legal, Apply, Trips, Reopens;
    TripsRun();
    ReopensRun(Run(SINGLE, START, Trips()));
    RunConcat(SINGLE, START, Trips(), Reopens());
  }

  lemma TripsRun()
    ensures Legal(SINGLE, START, Trips())
    ensures var w := Run(SINGLE, START, Trips());
            w.st == Tripped(1) && Plain in w.tickets && w.episode == 0 && w.clock == 1
  {
    hide Apply, Run, Legal;
    var c := SINGLE;
    ClosedAcquire(c, START, 1);
    var w1 := Apply(c, START, Acquire(1));
    ClosedAcquire(c, w1, 1);
    var w2 := Apply(c, w1, Acquire(1));
    PlainFailure(c, w2, 1);
    ThreeSteps(c, START, Acquire(1), Acquire(1), Record(Plain, true, 1));
  }

  lemma ReopensRun(w: World)
    requires w.st == Tripped(1) && Plain in w.tickets && w.episode == 0 && w.clock == 1
    ensures Legal(SINGLE, w, Reopens())
    ensures var w' := Run(SINGLE, w, Reopens());
            w'.st == Cb(HALF_OPEN, 0, 0, 12, 1) && w'.episode == 2 && Probe(1) in w'.tickets
  {
    hide Apply, Run, Legal;
    var c := SINGLE;
    Promotion(c, w, 11);
    var w1 := Apply(c, w, Acquire(11));
    PlainFailure(c, w1, 12);
    var w2 := Apply(c, w1, Record(Plain, true, 12));
    Promotion(c, w2, 22);
    ThreeSteps(c, w, Acquire(11), Record(Plain, true, 12), Acquire(22));
  }

  lemma ThreeSteps(c: Config, w: World, a: Step, b: Step, d: Step)
    ensures var w1 := Apply(c, w, a);
            var w2 := Apply(c, w1, b);
            && Run(c, w, [a, b, d]) == Apply(c, w2, d)
            && (Legal(c, w, [a, b, d]) <==> Enabled(w, a) && Enabled(w1, b) && Enabled(w2, d))
  {
    hide Apply, Enabled, Run, Legal;
    var w1 := Apply(c, w, a);
    var w2 := Apply(c, w1, b);
    FirstStep(c, w, a, [b] + ([d] + []));
    FirstStep(c, w1, b, [d] + []);
    FirstStep(c, w2, d, []);
    assert [a] + ([b] + ([d] + [])) == [a, b, d];
  }

  lemma FirstStep(c: Config, w: World, first: Step, rest: seq<Step>)
    ensures Run(c, w, [first] + rest) == Run(c, Apply(c, w, first), rest)
    ensures Legal(c, w, [first] + rest) <==> Enabled(w, first) && Legal(c, Apply(c, w, first), rest)
    ensures Run(c, Apply(c, w, first), []) == Apply(c, w, first) && Legal(c, Apply(c, w, first), [])
  {
    hide Apply, Enabled;
    assert ([first] + rest)[1..] == rest;
  }

  lemma {:induction false} RunConcat(c: Config, w: World, a: seq<Step>, b: seq<Step>)
    ensures Run(c, w, a + b) == Run(c, Run(c, w, a), b)
    ensures Legal(c, w, a + b) <==> Legal(c, w, a) && Legal(c, Run(c, w, a), b)
    decreases |a|
  {
    hide Apply, Enabled;
    if a == [] {
      assert a + b == b;
    } else {
      assert (a + b)[1..] == a[1..] + b;
      RunConcat(c, Apply(c, w, a[0]), a[1..], b);
    }
  }

  lemma ClosedAcquire(c: Config, w: World, now: int)
    requires w.st == ZERO
    ensures var w' := Apply(c, w, Acquire(now));
            w'.st == ZERO && w'.tickets == w.tickets + multiset{Plain} && w'.episode == w.episode && w'.clock == now
  {
  }

  lemma PlainFailure(c: Config, w: World, now: int)
    requires w.st.state == HALF_OPEN || (w.st == ZERO && c.failureThreshold == 1)
    ensures var w' := Apply(c, w, Record(Plain, true, now));
            w'.st == Tripped(now) && w'.tickets == w.tickets - multiset{Plain} && w'.episode == w.episode && w'.clock == now
  {
  }

  lemma Promotion(c: Config, w: World, now: int)
    requires ValidConfig(c) && w.st == Tripped(w.st.openedAt) && TimedOut(c, w.st, now)
    ensures var w' := Apply(c, w, Acquire(now));
            && w'.st == Cb(HALF_OPEN, 0, 0, w.st.openedAt, 1) && w'.episode == w.episode + 1 && w'.clock == now
            && w'.tickets == w.tickets + multiset{Probe(w.episode + 1)}
  {
  }

  // Open and recovery

  ghost predicate Before(steps: seq<Step>, t: int) {
    forall i | 0 <= i < |steps| :: steps[i].now < t
  }

  /** What the acquires of a run are told. */
  function Replies(c: Config, w: World, steps: seq<Step>): seq<Decision>
    decreases |steps|
  {
    if steps == [] then []
    else (if steps[0].Acquire? then [Decide(c, w.st, steps[0].now)] else [])
         + Replies(c, Apply(c, w, steps[0]), steps[1..])
  }

  ghost predicate AllRejected(replies: seq<Decision>, openedAt: int) {
    forall i | 0 <= i < |replies| :: replies[i] == RejectOpen(openedAt)
  }

  lemma OpenStep(c: Config, w: World, s: Step)
    requires ValidConfig(c) && Inv(c, w) && Enabled(w, s) && w.st.state == OPEN && s.now < w.st.openedAt + c.openTimeout
    ensures Apply(c, w, s).st == w.st
    ensures s.Acquire? ==> Decide(c, w.st, s.now) == RejectOpen(w.st.openedAt)
  {
    TtlOutlivesTimeout(c);
    hide Ttl;
  }

  lemma {:induction false} StaysOpen(c: Config, w: World, steps: seq<Step>)
    requires ValidConfig(c) && Inv(c, w) && Legal(c, w, steps)
    requires w.st.state == OPEN && Before(steps, w.st.openedAt + c.openTimeout)
    ensures Run(c, w, steps).st == w.st && AllRejected(Replies(c, w, steps), w.st.openedAt)
    decreases |steps|
  {
    hide Inv, Apply, Enabled;
    if steps != [] {
      OpenStep(c, w, steps[0]);
      InvStep(c, w, steps[0]);
      StaysOpen(c, Apply(c, w, steps[0]), steps[1..]);
    }
  }

  lemma InvStart(c: Config)
    requires ValidConfig(c)
    ensures Inv(c, START)
  {
  }

  lemma Tripping(c: Config, w: World, trip: Step)
    requires w.st.state != OPEN && Apply(c, w, trip).st.state == OPEN
    ensures Apply(c, w, trip).st == Tripped(trip.now)
  {
    hide Ttl;
  }

  /** After a trip, whatever the run before it, the record does not change and no call
      is admitted until the open timeout has passed; the key does not expire sooner. */
  lemma OpenSafety(c: Config, before: seq<Step>, trip: Step, after: seq<Step>)
    requires ValidConfig(c) && Legal(c, START, before)
    requires var w := Run(c, START, before); Enabled(w, trip) && w.st.state != OPEN
    requires var w := Apply(c, Run(c, START, before), trip); w.st.state == OPEN && Legal(c, w, after)
    requires Before(after, trip.now + c.openTimeout)
    ensures var w := Apply(c, Run(c, START, before), trip);
            && w.st == Tripped(trip.now) && Run(c, w, after).st == w.st
            && AllRejected(Replies(c, w, after), trip.now)
  {
    hide Run, Legal, Apply, Inv, Enabled, Replies;
    var w := Run(c, START, before);
    InvStart(c);
    InvRun(c, START, before);
    InvStep(c, w, trip);
    Tripping(c, w, trip);
    StaysOpen(c, Apply(c, w, trip), after);
  }

  /** The outcomes recorded by a run, in order: true for a failure. */
  function Outcomes(steps: seq<Step>): seq<bool>
    decreases |steps|
  {
    if steps == [] then []
    else (if steps[0].Record? || steps[0].Stray? then [steps[0].failed] else []) + Outcomes(steps[1..])
  }

  ghost predicate StaysHalfOpen(c: Config, w: World, steps: seq<Step>)
    decreases |steps|
  {
    w.st.state == HALF_OPEN && (steps != [] ==> StaysHalfOpen(c, Apply(c, w, steps[0]), steps[1..]))
  }

  lemma HalfOpenStep(c: Config, w: World, s: Step)
    requires ValidConfig(c) && Inv(c, w) && w.st.state == HALF_OPEN
    ensures var st := Apply(c, w, s).st;
            match s
            case Acquire(_) => st.state == HALF_OPEN && st.successes == w.st.successes
            case Expire(_) => st.state == CLOSED
            case _ => if s.failed then st == Tripped(s.now)
                      else if w.st.successes + 1 == c.successThreshold then st.state == CLOSED
                      else st.state == HALF_OPEN && st.successes == w.st.successes + 1
  {
    hide Ttl;
  }

  /** While a breaker stays half-open its success counter is the number of outcomes
      recorded, and none of them is a failure. */
  lemma {:induction false} HalfOpenCounts(c: Config, w: World, steps: seq<Step>)
    requires ValidConfig(c) && Inv(c, w) && Legal(c, w, steps) && StaysHalfOpen(c, w, steps)
    ensures var w' := Run(c, w, steps);
            w'.st.state == HALF_OPEN && Inv(c, w') && w'.st.successes == w.st.successes + |Outcomes(steps)|
    ensures forall i | 0 <= i < |Outcomes(steps)| :: !Outcomes(steps)[i]
    decreases |steps|
  {
    hide Inv, Apply, Enabled;
    if steps != [] {
      HalfOpenStep(c, w, steps[0]);
      InvStep(c, w, steps[0]);
      HalfOpenCounts(c, Apply(c, w, steps[0]), steps[1..]);
    }
  }

  /** An episode from the acquire that begins it to the step that ends it. It closes
      exactly when the key expires or when the step records the success that makes
      `successThreshold` of them, and then no failure was recorded since the episode
      began; it reopens exactly on a failure. */
  lemma Recovery(c: Config, w: World, now: int, steps: seq<Step>, last: Step)
    requires ValidConfig(c) && Inv(c, w) && Enabled(w, Acquire(now)) && Promotes(c, w, now)
    requires var w' := Apply(c, w, Acquire(now));
             Legal(c, w', steps) && StaysHalfOpen(c, w', steps) && Enabled(Run(c, w', steps), last)
    ensures var st := Apply(c, Run(c, Apply(c, w, Acquire(now)), steps), last).st;
            var recorded := Outcomes(steps);
            && (forall i | 0 <= i < |recorded| :: !recorded[i])
            && |recorded| < c.successThreshold
            && (st.state == CLOSED <==>
                last.Expire? || (!last.Acquire? && !last.failed && |recorded| + 1 == c.successThreshold))
            && (st.state == OPEN <==> (last.Record? || last.Stray?) && last.failed)
  {
    var w' := Apply(c, w, Acquire(now));
    InvStep(c, w, Acquire(now));
    Promoting(c, w, now);
    HalfOpenCounts(c, w', steps);
    hide Apply, Run, Legal, Enabled, StaysHalfOpen, Promotes;
    HalfOpenStep(c, Run(c, w', steps), last);
  }

  lemma Promoting(c: Config, w: World, now: int)
    requires ValidConfig(c) && Inv(c, w) && Promotes(c, w, now)
    ensures Apply(c, w, Acquire(now)).st.successes == 0
  {
    hide Ttl;
  }

  /** Both ways a probe is not what closes the circuit are reached, with the only probe
      of the episode still out: nobody records until the key expires, or a call that
      reserved nothing reports a success. */
  lemma ClosedWithoutItsProbe(last: Step)
    requires last == Stray(false, 12) || last == Expire(12 + Ttl(Config(10, 1, 1, 1)))
    ensures var c := Config(10, 1, 1, 1);
            var steps := [Stray(true, 1), Acquire(11), last];
            && ValidConfig(c) && Legal(c, START, steps)
            && var w := Run(c, START, steps); w.st == ZERO && Outstanding(w) == 1
  {
    var c := Config(10, 1, 1, 1);
    MinuteTtl();
    hide Run, Legal, Ttl;
    var w1 := Apply(c, START, Stray(true, 1));
    Promotion(c, w1, 11);
    ThreeSteps(c, START, Stray(true, 1), Acquire(11), last);
  }

  lemma MinuteTtl()
    ensures Ttl(Config(10, 1, 1, 1)) == 60_000_000_000
  {
  }
}
