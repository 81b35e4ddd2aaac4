/** Exactly when the shared breaker trips and what its acquires are told, over every run of
    the protocol. */
module BreakerAnswers {
  import opened SharedBreaker
  import opened BreakerProtocol

  /** The episodes are the times the record became half-open. */
  lemma EpisodesCounted(c: Config, w: World, s: Step)
    requires ValidConfig(c) && Inv(c, w) && Enabled(w, s)
    ensures var w' := Apply(c, w, s);
            w'.episode == w.episode + if w.st.state != HALF_OPEN && w'.st.state == HALF_OPEN then 1 else 0
  {
    hide Ttl;
  }

  // When it trips

  predicate IsOutcome(s: Step) {
    s.Record? || s.Stray?
  }

  /** The failures recorded since the breaker last closed, its key last expired, or the
      run began, after `n` of them. */
  function FailuresSince(c: Config, w: World, n: nat, steps: seq<Step>): nat
    decreases |steps|
  {
    if steps == [] then n
    else
      var s, w' := steps[0], Apply(c, w, steps[0]);
      FailuresSince(c, w', if w.st.state != CLOSED || w'.st.state != CLOSED || s.Expire? then 0
                           else if IsOutcome(s) && s.failed then n + 1 else n, steps[1..])
  }

  /** A closed record's next step. */
  lemma ClosedStep(c: Config, w: World, s: Step)
    requires ValidConfig(c) && Inv(c, w) && Enabled(w, s)
    ensures var st := Apply(c, w, s).st;
            && (st.state == CLOSED && (w.st.state != CLOSED || s.Expire?) ==> st.failures == 0)
            && (w.st.state == CLOSED ==>
                if IsOutcome(s) && s.failed && w.st.failures + 1 == c.failureThreshold then st == Tripped(s.now)
                else st.state == CLOSED
                     && (!s.Expire? ==> st.failures == w.st.failures + if IsOutcome(s) && s.failed then 1 else 0))
  {
    hide Ttl;
  }

  lemma {:induction false} FailuresCounted(c: Config, w: World, n: nat, steps: seq<Step>)
    requires ValidConfig(c) && Inv(c, w) && Legal(c, w, steps) && (w.st.state == CLOSED ==> w.st.failures == n)
    ensures var st := Run(c, w, steps).st; st.state == CLOSED ==> st.failures == FailuresSince(c, w, n, steps)
    decreases |steps|
  {
    hide Inv, Apply, Enabled;
    if steps != [] {
      var s, w' := steps[0], Apply(c, w, steps[0]);
      ClosedStep(c, w, s);
      InvStep(c, w, s);
      FailuresCounted(c, w', if w.st.state != CLOSED || w'.st.state != CLOSED || s.Expire? then 0
                             else if IsOutcome(s) && s.failed then n + 1 else n, steps[1..]);
    }
  }

  /** Over every run a closed breaker has recorded fewer than `failureThreshold` failures
      since it last closed or was forgotten, its record says how many, and the next
      outcome trips it if and only if it is a failure that makes exactly that many. */
  lemma TripsExactly(c: Config, steps: seq<Step>, s: Step)
    requires ValidConfig(c) && Legal(c, START, steps)
    requires var w := Run(c, START, steps); w.st.state == CLOSED && IsOutcome(s) && Enabled(w, s)
    ensures var w, n := Run(c, START, steps), FailuresSince(c, START, 0, steps);
            && w.st.failures == n < c.failureThreshold
            && (Apply(c, w, s).st.state == OPEN <==> s.failed && n + 1 == c.failureThreshold)
            && (Apply(c, w, s).st.state == CLOSED <==> !(s.failed && n + 1 == c.failureThreshold))
  {
    InvStart(c);
    InvRun(c, START, steps);
    FailuresCounted(c, START, 0, steps);
    hide Run, Legal, FailuresSince, Apply;
    ClosedStep(c, Run(c, START, steps), s);
  }

  // What an acquire is told

  /** When the breaker last opened, or `t`. */
  function LastTrip(c: Config, w: World, t: int, steps: seq<Step>): int
    decreases |steps|
  {
    if steps == [] then t
    else
      var w' := Apply(c, w, steps[0]);
      LastTrip(c, w', if w.st.state != OPEN && w'.st.state == OPEN then steps[0].now else t, steps[1..])
  }

  lemma {:induction false} OpenedAtLastTrip(c: Config, w: World, t: int, steps: seq<Step>)
    requires ValidConfig(c) && Inv(c, w) && Legal(c, w, steps) && (w.st.state == OPEN ==> w.st.openedAt == t)
    ensures var st := Run(c, w, steps).st; st.state == OPEN ==> st.openedAt == LastTrip(c, w, t, steps)
    decreases |steps|
  {
    hide Inv, Apply, Enabled;
    if steps != [] {
      var s, w' := steps[0], Apply(c, w, steps[0]);
      OpenedAtStep(c, w, s);
      InvStep(c, w, s);
      OpenedAtLastTrip(c, w', if w.st.state != OPEN && w'.st.state == OPEN then s.now else t, steps[1..]);
    }
  }

  lemma OpenedAtStep(c: Config, w: World, s: Step)
    requires ValidConfig(c) && Inv(c, w)
    ensures var st := Apply(c, w, s).st;
            st.state == OPEN ==> st.openedAt == if w.st.state != OPEN then s.now else w.st.openedAt
  {
    hide Ttl;
  }

  /** Over every run, exactly what the next acquire is told: always admitted when closed;
      when open, a probe from the open timeout after the trip on and refused before; when
      half-open, a probe if and only if a slot of the episode is free. */
  lemma AcquireIsTold(c: Config, steps: seq<Step>, now: int)
    requires ValidConfig(c) && Legal(c, START, steps) && Enabled(Run(c, START, steps), Acquire(now))
    ensures var w, t := Run(c, START, steps), LastTrip(c, START, 0, steps);
            var d := Decide(c, w.st, now);
            if w.st.state == CLOSED then d == AllowClosed
            else if w.st.state == OPEN then d == if now >= t + c.openTimeout then AllowProbe else RejectOpen(t)
            else d == if Outstanding(w) - w.stolen < c.halfOpenMax then AllowProbe else RejectProbe
  {
    InvStart(c);
    InvRun(c, START, steps);
    OpenedAtLastTrip(c, START, 0, steps);
    hide Run, Legal, LastTrip;
  }
}
