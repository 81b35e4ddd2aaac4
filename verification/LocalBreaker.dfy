/** The in-process circuit breaker. A call is two atomic steps, one before and one
    after the protected operation, so calls overlap and outcomes arrive late. */
module LocalBreaker {
  import CW = CountWindow
  import TW = TimeWindow

  datatype State = Closed | HalfOpen | Open

  datatype Rule =
    | CountBased(size: nat)
    | TimeBased(width: int, buckets: int, minimumRequests: int, rate: real)

  datatype Config = Config(rule: Rule, openTimeout: int, halfOpenMax: int, failureThreshold: int, successThreshold: int)

  /** Unset fields are defaulted to positive values. */
  predicate ValidConfig(c: Config) {
    && c.openTimeout > 0 && c.halfOpenMax >= 1 && c.failureThreshold >= 1 && c.successThreshold >= 1
    && match c.rule
       case CountBased(size) => size >= 1
       case TimeBased(width, buckets, minimumRequests, rate) =>
         width > 0 && buckets >= 1 && minimumRequests >= 1 && rate > 0.0
  }

  /** Every outcome since the breaker last closed, as the metrics window sees it. */
  datatype Metrics = Ring(outcomes: seq<bool>) | Slots(events: seq<TW.Event>, newest: int)

  datatype Breaker = Breaker(state: State, openedAt: int, successes: int, inflight: int, metrics: Metrics)

  predicate Fits(c: Config, m: Metrics) {
    c.rule.CountBased? <==> m.Ring?
  }

  function Empty(c: Config, now: int): Metrics {
    if c.rule.CountBased? then Ring([]) else Slots([], now)
  }

  function Recorded(c: Config, m: Metrics, failed: bool, now: int): (m': Metrics)
    requires ValidConfig(c) && Fits(c, m)
    ensures Fits(c, m')
  {
    match m
    case Ring(outcomes) => Ring(outcomes + [failed])
    case Slots(events, newest) => Slots(events + [TW.Event(now, failed)], TW.Slid(newest, c.rule.width, now))
  }

  function Failures(c: Config, m: Metrics): nat
    requires Fits(c, m)
  {
    match m
    case Ring(outcomes) => CW.Failures(CW.Recent(outcomes, c.rule.size))
    case Slots(events, newest) => TW.Counted(events, newest, c.rule.width, c.rule.buckets, true)
  }

  function Requests(c: Config, m: Metrics): nat
    requires Fits(c, m)
  {
    match m
    case Ring(outcomes) => |CW.Recent(outcomes, c.rule.size)|
    case Slots(events, newest) => TW.Counted(events, newest, c.rule.width, c.rule.buckets, false)
  }

  predicate ShouldOpenCounts(c: Config, failures: int, requests: int)
    requires ValidConfig(c)
  {
    match c.rule
    case CountBased(_) => failures >= c.failureThreshold
    case TimeBased(_, _, minimumRequests, rate) =>
      requests >= minimumRequests && failures >= c.failureThreshold && failures as real / requests as real >= rate
  }

  predicate ShouldOpen(c: Config, m: Metrics)
    requires ValidConfig(c) && Fits(c, m)
  {
    ShouldOpenCounts(c, Failures(c, m), Requests(c, m))
  }

  // The two steps of a call

  datatype Admission = Plain | Probe | CircuitOpen | TooManyRequests

  predicate ShouldAttemptReset(c: Config, b: Breaker, now: int) {
    b.openedAt != 0 && now >= b.openedAt + c.openTimeout
  }

  function Promoted(c: Config, b: Breaker, now: int): Breaker {
    if b.state == Open && ShouldAttemptReset(c, b, now) then b.(state := HalfOpen, successes := 0) else b
  }

  /** `allowance` is what the probe strategy allows at this instant. */
  function Decide(c: Config, b: Breaker, allowance: int, now: int): Admission {
    var p := Promoted(c, b, now);
    match p.state
    case Open => CircuitOpen
    case Closed => Plain
    case HalfOpen => if p.inflight >= (if allowance > c.halfOpenMax then c.halfOpenMax else allowance) then TooManyRequests else Probe
  }

  function Entered(c: Config, b: Breaker, allowance: int, now: int): Breaker {
    var p := Promoted(c, b, now);
    if Decide(c, b, allowance, now).Probe? then p.(inflight := p.inflight + 1) else p
  }

  function Tripped(b: Breaker, now: int): Breaker {
    b.(state := Open, openedAt := now, successes := 0)
  }

  function Left(c: Config, b: Breaker, probe: bool, failed: bool, now: int): Breaker
    requires ValidConfig(c) && Fits(c, b.metrics)
  {
    var s := b.(inflight := if probe then b.inflight - 1 else b.inflight, metrics := Recorded(c, b.metrics, failed, now));
    match b.state
    case Open => s
    case Closed => if (failed || c.rule.TimeBased?) && ShouldOpen(c, s.metrics) then Tripped(s, now) else s
    case HalfOpen =>
      if failed then Tripped(s, now)
      else if s.successes + 1 >= c.successThreshold then Breaker(Closed, 0, 0, s.inflight, Empty(c, now))
      else s.(successes := s.successes + 1)
  }

  // The object

  datatype Windows = Counting(countWin: CW.Window) | Timing(timeWin: TW.Window)

  class CircuitBreaker {
    const cfg: Config
    const windows: Windows
    var state: State
    var openedAt: int
    var consecutiveSuccesses: int
    var halfOpenInflight: int

    ghost function Window(): object {
      match windows
      case Counting(w) => w
      case Timing(w) => w
    }

    ghost function Repr(): set<object>
      reads Window()
    {
      match windows
      case Counting(w) => {w, w.ring}
      case Timing(w) => {w, w.buckets}
    }

    ghost predicate Valid(now: int)
      reads this, Repr(), Window()
    {
      && ValidConfig(cfg)
      && this !in Repr()
      && match cfg.rule
         case CountBased(size) => windows.Counting? && windows.countWin.Valid() && windows.countWin.size == size
         case TimeBased(width, buckets, _, _) =>
           && windows.Timing? && windows.timeWin.Valid() && windows.timeWin.clock <= now
           && windows.timeWin.bucketWidth == width && windows.timeWin.numBuckets == buckets
    }

    ghost predicate Sized()
      reads Window()
    {
      windows.Timing? ==> windows.timeWin.buckets.Length >= 1
    }

    ghost function Metrics(): Metrics
      reads Repr(), Window()
      requires Sized()
    {
      match windows
      case Counting(w) => Ring(w.log)
      case Timing(w) => Slots(w.log, w.Newest())
    }

    ghost function View(): Breaker
      reads this, Repr(), Window()
      requires Sized()
    {
      Breaker(state, openedAt, consecutiveSuccesses, halfOpenInflight, Metrics())
    }

    constructor (cfg: Config, windowDuration: int, bucketDuration: int, now: int)
      requires ValidConfig(cfg)
      requires cfg.rule.TimeBased? ==>
        cfg.rule.width == TW.Width(windowDuration, bucketDuration) && cfg.rule.buckets == TW.NumBuckets(windowDuration, bucketDuration)
      ensures Valid(now) && this.cfg == cfg && View() == Breaker(Closed, 0, 0, 0, Empty(cfg, now))
    {
      this.cfg := cfg;
      state, openedAt, consecutiveSuccesses, halfOpenInflight := Closed, 0, 0, 0;
      if cfg.rule.TimeBased? {
        var w := new TW.Window(windowDuration, bucketDuration, now);
        windows := Timing(w);
      } else {
        var w := new CW.Window(cfg.rule.size);
        windows := Counting(w);
      }
    }

    method TransitionToHalfOpen(now: int)
      requires Valid(now)
      modifies this
      ensures Valid(now)
      ensures View() == if old(state) == Open then old(View()).(state := HalfOpen, successes := 0) else old(View())
    {
      if state != Open {
        return;
      }
      state := HalfOpen;
      consecutiveSuccesses := 0;
    }

    /** Admits a call or says why not. */
    method BeforeExecute(allowance: int, now: int) returns (a: Admission)
      requires Valid(now)
      modifies this
      ensures Valid(now)
      ensures View() == Entered(cfg, old(View()), allowance, now) && a == Decide(cfg, old(View()), allowance, now)
    {
      if state == Closed {
        return Plain;
      }
      if state == Open {
        if openedAt == 0 || now < openedAt + cfg.openTimeout {
          return CircuitOpen;
        }
        TransitionToHalfOpen(now);
      }
      var allowed := allowance;
      if allowed > cfg.halfOpenMax {
        allowed := cfg.halfOpenMax;
      }
      if halfOpenInflight >= allowed {
        return TooManyRequests;
      }
      halfOpenInflight := halfOpenInflight + 1;
      a := Probe;
    }

    method RecordOutcome(failed: bool, now: int) returns (failures: int, requests: int)
      requires Valid(now)
      modifies Repr()
      ensures Valid(now) && Repr() == old(Repr())
      ensures Metrics() == Recorded(cfg, old(Metrics()), failed, now)
      ensures failures == Failures(cfg, Metrics()) && requests == Requests(cfg, Metrics())
    {
      match windows
      case Counting(w) =>
        failures, requests := w.Record(failed);
      case Timing(w) =>
        failures, requests := w.Record(failed, now);
    }

    method TransitionToClosed(now: int)
      requires Valid(now)
      modifies this, Repr()
      ensures Valid(now) && fresh(Repr() - old(Repr()))
      ensures View() ==
        if old(state) == Closed then old(View()) else Breaker(Closed, 0, 0, old(halfOpenInflight), Empty(cfg, now))
    {
      if state == Closed {
        return;
      }
      state := Closed;
      openedAt := 0;
      consecutiveSuccesses := 0;
      match windows
      case Counting(w) => w.Reset();
      case Timing(w) => w.Reset(now);
    }

    method TransitionToOpen(now: int)
      requires Valid(now)
      modifies this
      ensures Valid(now)
      ensures View() == if old(state) == Open then old(View()).(openedAt := now) else Tripped(old(View()), now)
    {
      if state == Open {
        openedAt := now;
        return;
      }
      state := Open;
      openedAt := now;
      consecutiveSuccesses := 0;
    }

    method RecordSuccess(now: int)
      requires Valid(now)
      modifies this, Repr()
      ensures Valid(now) && fresh(Repr() - old(Repr()))
      ensures View() == Left(cfg, old(View()), false, false, now)
    {
      hide Failures, Requests, Recorded;
      var failures, requests := RecordOutcome(false, now);
      if state == HalfOpen {
        consecutiveSuccesses := consecutiveSuccesses + 1;
        if consecutiveSuccesses >= cfg.successThreshold {
          TransitionToClosed(now);
        }
      } else if state == Closed {
        if cfg.rule.TimeBased? && ShouldOpenCounts(cfg, failures, requests) {
          TransitionToOpen(now);
        }
      }
    }

    method RecordFailure(now: int)
      requires Valid(now)
      modifies this, Repr()
      ensures Valid(now) && fresh(Repr() - old(Repr()))
      ensures View() == Left(cfg, old(View()), false, true, now)
    {
      hide Failures, Requests, Recorded;
      var failures, requests := RecordOutcome(true, now);
      if state == HalfOpen {
        TransitionToOpen(now);
      } else if state == Closed {
        if ShouldOpenCounts(cfg, failures, requests) {
          TransitionToOpen(now);
        }
      }
    }

    /** Releases the slot, records the outcome and moves between the states. */
    method AfterExecute(probe: bool, failed: bool, now: int)
      requires Valid(now)
      modifies this, Repr()
      ensures Valid(now) && fresh(Repr() - old(Repr()))
      ensures View() == Left(cfg, old(View()), probe, failed, now)
    {
      hide Failures, Requests, Recorded;
      if probe {
        halfOpenInflight := halfOpenInflight - 1;
      }
      if failed {
        RecordFailure(now);
      } else {
        RecordSuccess(now);
      }
    }
  }
}
