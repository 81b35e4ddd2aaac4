/** The probe counter of the in-process breaker at the grain of single loads and
    compare-and-swaps: calls read the state, act on what they read however stale, and
    move the state under each other; the probe strategy may answer anything. */
module ProbeCounter {
  import opened LocalBreaker

  /** Where a call is between two accesses to shared fields. */
  datatype Pc =
    | Idle
    | Saw(seen: State)
    | Trying
    | Loaded(cur: int)
    | Running(probe: bool)
    | Leaving(probe: bool, seen: State)
    | Recording(seen: State)

  datatype World = World(state: State, inflight: int, calls: seq<Pc>)

  datatype Verdict = Keep | ToOpen | ToClosed

  datatype Step =
    | Begin(i: nat)                      // load the state
    | Refuse(i: nat)                     // open, and the timeout has not passed
    | Promote(i: nat)                    // open, and it has: transition under the lock
    | Proceed(i: nat)                    // half-open goes on to the counter, closed runs
    | Load(i: nat)
    | Swap(i: nat, allowance: int)       // give up or compare-and-swap
    | Finish(i: nat)                     // load the state again
    | Release(i: nat)                    // give the slot back
    | Settle(i: nat, verdict: Verdict)   // record and perhaps move the state

  predicate Enabled(w: World, s: Step) {
    && s.i < |w.calls|
    && var pc := w.calls[s.i];
       match s
       case Begin(_) => pc.Idle?
       case Refuse(_) => pc == Saw(Open)
       case Promote(_) => pc == Saw(Open)
       case Proceed(_) => pc == Saw(HalfOpen) || pc == Saw(Closed)
       case Load(_) => pc.Trying?
       case Swap(_, _) => pc.Loaded?
       case Finish(_) => pc.Running?
       case Release(_) => pc.Leaving?
       case Settle(_, verdict) =>
         && pc.Recording?
         && (verdict.ToClosed? ==> pc.seen == HalfOpen)
         && (verdict.ToOpen? ==> pc.seen != Open)
  }

  function Goto(w: World, i: nat, pc: Pc): World
    requires i < |w.calls|
  {
    w.(calls := w.calls[i := pc])
  }

  function Apply(max: int, w: World, s: Step): World
    requires Enabled(w, s)
  {
    var pc := w.calls[s.i];
    match s
    case Begin(i) => Goto(w, i, Saw(w.state))
    case Refuse(i) => Goto(w, i, Idle)
    case Promote(i) => Goto(w, i, Trying).(state := if w.state == Open then HalfOpen else w.state)
    case Proceed(i) => Goto(w, i, if pc.seen == HalfOpen then Trying else Running(false))
    case Load(i) => Goto(w, i, Loaded(w.inflight))
    case Swap(i, allowance) =>
      if pc.cur >= (if allowance > max then max else allowance) then Goto(w, i, Idle)
      else if w.inflight == pc.cur then Goto(w, i, Running(true)).(inflight := pc.cur + 1)
      else Goto(w, i, Trying)
    case Finish(i) => Goto(w, i, Leaving(pc.probe, w.state))
    case Release(i) => Goto(w, i, Recording(pc.seen)).(inflight := if pc.probe then w.inflight - 1 else w.inflight)
    case Settle(i, verdict) =>
      Goto(w, i, Idle).(state := match verdict case Keep => w.state case ToOpen => Open case ToClosed => Closed)
  }

  predicate Holds(pc: Pc) {
    (pc.Running? || pc.Leaving?) && pc.probe
  }

  /** How many calls hold a probe slot. */
  function Holders(calls: seq<Pc>): nat {
    if calls == [] then 0 else Holders(calls[..|calls| - 1]) + if Holds(calls[|calls| - 1]) then 1 else 0
  }

  lemma {:induction false} HoldersUpdate(calls: seq<Pc>, i: nat, pc: Pc)
    requires i < |calls|
    ensures Holders(calls[i := pc]) ==
      Holders(calls) + (if Holds(pc) then 1 else 0) - (if Holds(calls[i]) then 1 else 0)
  {
    var n := |calls| - 1;
    if i == n {
      assert calls[i := pc][..n] == calls[..n];
    } else {
      assert calls[i := pc][..n] == calls[..n][i := pc];
      HoldersUpdate(calls[..n], i, pc);
    }
  }

  ghost predicate Inv(max: int, w: World) {
    w.inflight == Holders(w.calls) <= max
  }

  lemma InvStep(max: int, w: World, s: Step)
    requires Inv(max, w) && Enabled(w, s)
    ensures Inv(max, Apply(max, w, s))
  {
    hide Holders;
    HoldersUpdate(w.calls, s.i, Apply(max, w, s).calls[s.i]);
  }

  ghost predicate Legal(max: int, w: World, steps: seq<Step>)
    decreases |steps|
  {
    steps != [] ==> Enabled(w, steps[0]) && Legal(max, Apply(max, w, steps[0]), steps[1..])
  }

  ghost function Run(max: int, w: World, steps: seq<Step>): World
    requires Legal(max, w, steps)
    decreases |steps|
  {
    if steps == [] then w else Run(max, Apply(max, w, steps[0]), steps[1..])
  }

  lemma {:induction false} InvRun(max: int, w: World, steps: seq<Step>)
    requires Inv(max, w) && Legal(max, w, steps)
    ensures Inv(max, Run(max, w, steps))
    decreases |steps|
  {
    if steps != [] {
      InvStep(max, w, steps[0]);
      InvRun(max, Apply(max, w, steps[0]), steps[1..]);
    }
  }

  function Start(n: nat): World {
    World(Closed, 0, seq(n, _ => Idle))
  }

  lemma {:induction false} NoneHeld(n: nat)
    ensures Holders(seq(n, _ => Idle)) == 0
  {
    if n > 0 {
      assert seq(n, _ => Idle)[..n - 1] == seq(n - 1, _ => Idle);
      NoneHeld(n - 1);
    }
  }

  /** Over every interleaving of any number of calls the counter is the number of
      calls that hold a slot and lies between zero and the limit. */
  lemma CounterIsExact(max: int, n: nat, steps: seq<Step>)
    requires max >= 1 && Legal(max, Start(n), steps)
    ensures var w := Run(max, Start(n), steps); 0 <= w.inflight == Holders(w.calls) <= max
  {
    NoneHeld(n);
    InvRun(max, Start(n), steps);
  }

  // A call nobody interrupts

  /** The world shows the breaker's state and counter. */
  ghost predicate Shows(w: World, b: Breaker) {
    w.state == b.state && w.inflight == b.inflight
  }

  lemma Stop(max: int, last: World) returns (steps: seq<Step>)
    ensures Legal(max, last, steps) && Run(max, last, steps) == last
  {
    steps := [];
  }

  lemma Extend(max: int, w: World, first: Step, next: World, rest: seq<Step>) returns (steps: seq<Step>)
    requires Enabled(w, first) && Apply(max, w, first) == next && Legal(max, next, rest)
    ensures Legal(max, w, steps) && Run(max, w, steps) == Run(max, next, rest)
  {
    steps := [first] + rest;
    assert steps[1..] == rest;
  }

  function After(admission: Admission): Pc {
    match admission
    case Plain => Running(false)
    case Probe => Running(true)
    case _ => Idle
  }

  /** Uninterrupted, the loads and swaps of an entry amount to the breaker's one step. */
  lemma EnterAlone(c: Config, b: Breaker, w: World, i: nat, allowance: int, now: int) returns (steps: seq<Step>)
    requires i < |w.calls| && w.calls[i].Idle? && Shows(w, b)
    ensures Legal(c.halfOpenMax, w, steps)
    ensures var w' := Run(c.halfOpenMax, w, steps);
            Shows(w', Entered(c, b, allowance, now)) && w'.calls == w.calls[i := After(Decide(c, b, allowance, now))]
  {
    hide Run, Legal;
    var max := c.halfOpenMax;
    var w1 := Apply(max, w, Begin(i));
    var rest;
    if b.state == Open && !ShouldAttemptReset(c, b, now) {
      var w2 := Apply(max, w1, Refuse(i));
      assert w2.calls == w.calls[i := Idle];
      rest := Stop(max, w2);
      rest := Extend(max, w1, Refuse(i), w2, rest);
    } else if b.state == Closed {
      var w2 := Apply(max, w1, Proceed(i));
      assert w2.calls == w.calls[i := Running(false)];
      rest := Stop(max, w2);
      rest := Extend(max, w1, Proceed(i), w2, rest);
    } else {
      var s2 := if b.state == Open then Promote(i) else Proceed(i);
      var w2 := Apply(max, w1, s2);
      var w3 := Apply(max, w2, Load(i));
      var w4 := Apply(max, w3, Swap(i, allowance));
      assert w4.calls == w.calls[i := After(Decide(c, b, allowance, now))];
      rest := Stop(max, w4);
      rest := Extend(max, w3, Swap(i, allowance), w4, rest);
      rest := Extend(max, w2, Load(i), w3, rest);
      rest := Extend(max, w1, s2, w2, rest);
    }
    steps := Extend(max, w, Begin(i), w1, rest);
  }

  /** So do those of an exit, whatever the outcome. */
  lemma LeaveAlone(c: Config, b: Breaker, w: World, i: nat, failed: bool, now: int) returns (steps: seq<Step>)
    requires ValidConfig(c) && Fits(c, b.metrics) && i < |w.calls| && w.calls[i].Running? && Shows(w, b)
    ensures Legal(c.halfOpenMax, w, steps)
    ensures var w' := Run(c.halfOpenMax, w, steps);
            Shows(w', LocalBreaker.Left(c, b, w.calls[i].probe, failed, now)) && w'.calls == w.calls[i := Idle]
  {
    hide Run, Legal, ShouldOpen;
    var max := c.halfOpenMax;
    var b' := LocalBreaker.Left(c, b, w.calls[i].probe, failed, now);
    var verdict := if b'.state == b.state then Keep else if b'.state == Open then ToOpen else ToClosed;
    var w1 := Apply(max, w, Finish(i));
    var w2 := Apply(max, w1, Release(i));
    var w3 := Apply(max, w2, Settle(i, verdict));
    assert w3.calls == w.calls[i := Idle];
    steps := Stop(max, w3);
    steps := Extend(max, w2, Settle(i, verdict), w3, steps);
    steps := Extend(max, w1, Release(i), w2, steps);
    steps := Extend(max, w, Finish(i), w1, steps);
  }
}
