/** The four in-process limiters behind one face: what one key's state admits, what
    `Peek` reports, and when two states can never be told apart. */
module Meters {
  import G = Gcra
  import B = TokenBucket
  import L = SlidingLog
  import C = SlidingCounter

  datatype Meter =
    | Gcra(gcfg: G.Config, entry: G.Entry)
    | Bucket(bcfg: B.Config, bucket: B.Bucket)
    | Log(lcfg: L.Config, log: L.KeyLog)
    | Counter(ccfg: C.Config, counter: C.KeyCounter)

  predicate Configured(m: Meter) {
    match m
    case Gcra(c, _) => G.ValidConfig(c)
    case Bucket(c, _) => B.ValidConfig(c)
    case Log(c, _) => L.ValidConfig(c)
    case Counter(c, _) => C.ValidConfig(c)
  }

  /** A state its limiter can be in at `now`, under a monotone clock. */
  ghost predicate Valid(m: Meter, now: int) {
    && Configured(m)
    && match m
       case Gcra(c, e) => G.Bounded(c, e) && e.lastAccess <= now
       case Bucket(c, b) => B.Valid(c, b) && b.lastAccess <= now
       case Log(c, l) => L.Valid(l) && l.lastAccess <= now
       case Counter(c, k) => C.Valid(c, k) && k.start <= now && k.lastAccess <= now
  }

  /** The state of a key the limiter has not seen, or has forgotten. */
  function Fresh(m: Meter, now: int): Meter
    requires Configured(m)
  {
    match m
    case Gcra(c, _) => Gcra(c, G.Fresh(now))
    case Bucket(c, _) => Bucket(c, B.Fresh(c, now))
    case Log(c, _) => Log(c, L.Fresh(now))
    case Counter(c, _) => Counter(c, C.Fresh(c, now))
  }

  predicate Admits(m: Meter, n: int, now: int)
    requires Configured(m)
  {
    match m
    case Gcra(c, e) => G.Admits(c, e, n, now)
    case Bucket(c, b) => B.Admits(c, b, n, now)
    case Log(c, l) => L.Admits(c, l, n, now)
    case Counter(c, k) => C.Admits(c, k, n, now)
  }

  function After(m: Meter, n: int, now: int): Meter
    requires Configured(m)
  {
    match m
    case Gcra(c, e) => Gcra(c, G.After(c, e, n, now))
    case Bucket(c, b) => Bucket(c, B.After(c, b, n, now))
    case Log(c, l) => Log(c, L.After(c, l, n, now))
    case Counter(c, k) => Counter(c, C.After(c, k, n, now))
  }

  /** What `Peek` reports. */
  function Remaining(m: Meter, now: int): int
    requires Configured(m)
  {
    match m
    case Gcra(c, e) => G.Remaining(c, e, now)
    case Bucket(c, b) => B.Remaining(c, b, now)
    case Log(c, l) => L.Remaining(c, l, now)
    case Counter(c, k) => C.Remaining(c, k, now)
  }

  /** What `Peek` leaves behind: it refills, prunes or rolls in place. */
  function Peeked(m: Meter, now: int): Meter
    requires Configured(m)
  {
    match m
    case Gcra(_, _) => m
    case Bucket(c, b) => Bucket(c, B.Refilled(c, b, now))
    case Log(c, l) => Log(c, l.(timestamps := L.Live(c, l, now)))
    case Counter(c, k) => Counter(c, C.Rolled(c, k, now))
  }

  /** No sequence of calls from `now` on can tell `a` and `b` apart. */
  ghost predicate Same(a: Meter, b: Meter, now: int)
    requires Configured(a) && Configured(b)
  {
    match (a, b)
    case (Gcra(c, x), Gcra(d, y)) => c == d && G.Backlog(x, now) == G.Backlog(y, now)
    case (Bucket(c, x), Bucket(d, y)) => c == d && B.Level(c, x, now) == B.Level(c, y, now)
    case (Log(c, x), Log(d, y)) => c == d && L.Live(c, x, now) == L.Live(c, y, now)
    case (Counter(c, x), Counter(d, y)) => c == d && SameCounter(C.Rolled(c, x, now), C.Rolled(c, y, now))
    case _ => false
  }

  predicate SameCounter(x: C.KeyCounter, y: C.KeyCounter) {
    x.start == y.start && x.current == y.current && x.previous == y.previous
  }

  lemma SameTransitive(a: Meter, b: Meter, c: Meter, now: int)
    requires Configured(a) && Configured(b) && Configured(c) && Same(a, b, now) && Same(b, c, now)
    ensures Same(a, c, now)
  {
  }

  lemma SameReflexive(m: Meter, now: int)
    requires Configured(m)
    ensures Same(m, m, now)
  {
  }

  lemma ValidConfigured(m: Meter, now: int)
    requires Valid(m, now)
    ensures Configured(m)
  {
  }

  lemma ValidLater(m: Meter, now: int, later: int)
    requires Valid(m, now) && now <= later
    ensures Valid(m, later)
  {
  }

  lemma ValidAfter(m: Meter, n: int, now: int)
    requires Valid(m, now)
    ensures Valid(After(m, n, now), now) && Valid(Peeked(m, now), now) && Valid(Fresh(m, now), now)
  {
    match m
    case Gcra(c, e) => G.BoundedPreserved(c, e, n, now);
    case Bucket(c, b) => B.ValidPreserved(c, b, n as real, now);
    case Log(c, l) => L.ValidPreserved(c, l, n, now); L.FromFacts(l.timestamps, now - c.window, l.lastAccess);
    case Counter(c, k) => C.ValidPreserved(c, k, n, now); C.RolledValid(c, k, now); C.FreshValid(c, now);
  }

  /** `Peek` and `AllowN` agree exactly, for all four limiters: `n` is admitted iff
      `Remaining` covers it, and `Remaining` then drops by `n`, else not at all. */
  lemma PeekAllowLaw(m: Meter, n: int, now: int)
    requires Valid(m, now) && n >= 1
    ensures Admits(m, n, now) <==> Remaining(m, now) >= n
    ensures Remaining(After(m, n, now), now) == Remaining(m, now) - if Admits(m, n, now) then n else 0
    ensures Remaining(m, now) >= 0
  {
    match m
    case Gcra(c, e) => G.PeekAllowLaw(c, e, n, now);
    case Bucket(c, b) => B.PeekAllowLaw(c, b, n, now);
    case Log(c, l) => L.PeekAllowLaw(c, l, n, now);
    case Counter(c, k) => C.PeekAllowLaw(c, k, n, now);
  }

  lemma SameLater(a: Meter, b: Meter, now: int, later: int)
    requires Valid(a, now) && Valid(b, now) && Same(a, b, now) && now <= later
    ensures Same(a, b, later)
  {
    match (a, b)
    case (Gcra(c, x), Gcra(_, y)) =>
    case (Bucket(c, x), Bucket(_, y)) =>
      B.RefillComposes(c, x, now, later);
      B.RefillComposes(c, y, now, later);
    case (Log(c, x), Log(_, y)) =>
      L.FromComposes(x.timestamps, now - c.window, later - c.window);
      L.FromComposes(y.timestamps, now - c.window, later - c.window);
    case (Counter(c, x), Counter(_, y)) =>
      C.RollComposes(c, x, now, later);
      C.RollComposes(c, y, now, later);
  }

  /** States that cannot be told apart answer alike and stay so. */
  lemma SameStep(a: Meter, b: Meter, n: int, now: int)
    requires Valid(a, now) && Valid(b, now) && Same(a, b, now)
    ensures Admits(a, n, now) == Admits(b, n, now) && Remaining(a, now) == Remaining(b, now)
    ensures Same(After(a, n, now), After(b, n, now), now)
  {
  }

  /** A `Peek` and a denied call leave a state that cannot be told from the one
      before. */
  lemma QuietStep(m: Meter, n: int, now: int)
    requires Valid(m, now)
    ensures Same(m, Peeked(m, now), now)
    ensures !Admits(m, n, now) ==> Same(m, After(m, n, now), now)
  {
    match m
    case Gcra(c, e) =>
    case Bucket(c, b) => B.RefillComposes(c, b, now, now);
    case Log(c, l) => L.FromIdempotent(l.timestamps, now - c.window); if n >= 1 { L.PeekAllowLaw(c, l, n, now); }
    case Counter(c, k) => C.RolledAgain(c, k, n, now);
  }

  // Whole runs of calls, peeks and idle clean-ups

  datatype Event =
    | Allow(n: int, now: int)
    | Peek(now: int)
    | CleanUp(now: int)

  predicate Idle(m: Meter, now: int) {
    match m
    case Gcra(c, e) => G.Idle(c, e, now)
    case Bucket(c, b) => B.Idle(c, b, now)
    case Log(c, l) => L.Idle(c, l, now)
    case Counter(c, k) => C.Idle(c, k, now)
  }

  /** The configurations for which forgetting an idle key is safe. The windows
      always are; the meters with a backlog need it to drain within the idle time. */
  predicate SafeToForget(m: Meter) {
    match m
    case Gcra(c, _) => c.interval * c.burst <= c.idleClean + 1
    case Bucket(c, _) => c.capacity <= B.Gain(c, c.idleClean + 1)
    case _ => true
  }

  function Step(m: Meter, e: Event): Meter
    requires Configured(m)
  {
    match e
    case Allow(n, now) => After(m, n, now)
    case Peek(now) => Peeked(m, now)
    case CleanUp(now) => if Idle(m, now) then Fresh(m, now) else m
  }

  lemma StepKeepsValid(m: Meter, e: Event)
    requires Valid(m, e.now)
    ensures Valid(Step(m, e), e.now)
  {
    ValidAfter(m, if e.Allow? then e.n else 0, e.now);
  }

  /** The answers a run gives, one for each `Allow`. */
  function Answers(m: Meter, es: seq<Event>): seq<bool>
    requires Configured(m)
    decreases |es|
  {
    if es == [] then []
    else (if es[0].Allow? then [Admits(m, es[0].n, es[0].now)] else []) + Answers(Step(m, es[0]), es[1..])
  }

  ghost predicate Ordered(es: seq<Event>, start: int) {
    && (forall i | 0 <= i < |es| :: start <= es[i].now)
    && (forall i, j | 0 <= i < j < |es| :: es[i].now <= es[j].now)
  }

  /** Either the run never cleans up, or cleaning up is safe. */
  ghost predicate Forgettable(m: Meter, es: seq<Event>) {
    SafeToForget(m) || forall i | 0 <= i < |es| :: !es[i].CleanUp?
  }

  lemma ForgettingIsSame(m: Meter, now: int)
    requires Valid(m, now) && Idle(m, now) && SafeToForget(m)
    ensures Same(m, Fresh(m, now), now)
  {
    match m
    case Gcra(c, e) =>
    case Bucket(c, b) => B.FullAgain(c, b, now, now);
    case Log(c, l) => L.EvictionUnobservable(c, l, now, now);
    case Counter(c, k) => C.EvictionUnobservable(c, k, now, now);
  }

  /** An event that consumes nothing: a `Peek`, a denied call, a clean-up. */
  ghost predicate Quiet(m: Meter, e: Event)
    requires Configured(m)
  {
    e.Allow? ==> !Admits(m, e.n, e.now)
  }

  lemma QuietIsSame(m: Meter, e: Event)
    requires Valid(m, e.now) && Quiet(m, e) && (e.CleanUp? ==> SafeToForget(m))
    ensures Same(m, Step(m, e), e.now)
  {
    match e
    case Allow(n, now) => QuietStep(m, n, now);
    case Peek(now) => QuietStep(m, 0, now);
    case CleanUp(now) =>
      QuietStep(m, 0, now);
      if Idle(m, now) { ForgettingIsSame(m, now); }
  }

  lemma SameStepAny(a: Meter, b: Meter, e: Event)
    requires Valid(a, e.now) && Valid(b, e.now) && Same(a, b, e.now) && (e.CleanUp? ==> SafeToForget(a))
    ensures Same(Step(a, e), Step(b, e), e.now)
  {
    if e.Allow? {
      SameStep(a, b, e.n, e.now);
    } else {
      QuietIsSame(a, e);
      QuietIsSame(b, e);
    }
  }

  lemma {:induction false} SameAnswers(a: Meter, b: Meter, es: seq<Event>, now: int)
    requires Valid(a, now) && Valid(b, now) && Same(a, b, now) && Ordered(es, now)
    requires Forgettable(a, es)
    ensures Answers(a, es) == Answers(b, es)
    decreases |es|
  {
    if es != [] {
      var e := es[0];
      ValidLater(a, now, e.now);
      ValidLater(b, now, e.now);
      SameLater(a, b, now, e.now);
      if e.Allow? {
        SameStep(a, b, e.n, e.now);
      }
      SameStepAny(a, b, e);
      StepKeepsValid(a, e);
      StepKeepsValid(b, e);
      SameAnswers(Step(a, e), Step(b, e), es[1..], e.now);
    }
  }

  /** Inserting a quiet event anywhere never changes a later answer: from any
      reachable state, the rest of the run answers as if it had not happened. */
  lemma QuietEventsAreInvisible(m: Meter, e: Event, es: seq<Event>)
    requires Valid(m, e.now) && Quiet(m, e) && Ordered(es, e.now) && Forgettable(m, [e] + es)
    ensures Answers(m, [e] + es) == (if e.Allow? then [false] else []) + Answers(m, es)
  {
    assert ([e] + es)[0] == e;
    assert forall i | 0 <= i < |es| :: es[i] == ([e] + es)[i + 1];
    QuietIsSame(m, e);
    StepKeepsValid(m, e);
    SameAnswers(m, Step(m, e), es, e.now);
    assert ([e] + es)[1..] == es;
  }
}
