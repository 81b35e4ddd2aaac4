/** How many concurrent probes a half-open breaker allows. */
module ProbeStrategy {
  import opened Arith
  import opened Ratelimit

  datatype Ramp = Linear | Exponential

  /** `minInterval` paces the ramp: zero switches it off. */
  datatype Strategy = Strategy(ramp: Ramp, start: int, step: int, minInterval: int)

  /** `elapsed` is the age of the half-open episode, if its beginning is known. */
  datatype Context = Context(maxRequests: int, successes: int, elapsed: Option<int>)

  function Pow2(n: nat): (p: nat)
    ensures p >= 1
  {
    if n == 0 then 1 else 2 * Pow2(n - 1)
  }

  function AtLeastOne(v: int): (r: int)
    ensures r >= 1
  {
    if v <= 0 then 1 else v
  }

  function ClampProbe(v: int, ceiling: int): int {
    if v < 1 then 1 else if v > ceiling then ceiling else v
  }

  predicate Paced(s: Strategy, pc: Context) {
    s.minInterval > 0 && pc.elapsed.Some? && pc.elapsed.value < s.minInterval
  }

  /** The allowance without its ceiling. */
  function Uncapped(s: Strategy, pc: Context): (v: int)
    ensures v >= 1
  {
    var start, step, n := AtLeastOne(s.start), AtLeastOne(s.step), Max(pc.successes, 0);
    if Paced(s, pc) then start
    else match s.ramp
         case Linear => MulMono(step, 0, n); start + n * step
         case Exponential => MulMono(start, 1, Pow2(n / step)); start * Pow2(n / step)
  }

  function Allowance(s: Strategy, pc: Context): int {
    Min(Uncapped(s, pc), AtLeastOne(pc.maxRequests))
  }

  /** The doubling loop stops at the ceiling and still gives the capped power. */
  method Doubled(start: int, doublings: nat, ceiling: int) returns (allowance: int)
    requires start >= 1 && ceiling >= 1
    ensures allowance >= 1 && Min(allowance, ceiling) == Min(start * Pow2(doublings), ceiling)
  {
    hide Pow2;
    allowance := start;
    var i := 0;
    PowZero(start);
    while i < doublings && allowance < ceiling
      invariant 0 <= i <= doublings && allowance == start * Pow2(i) >= 1
    {
      Doubling(start, i);
      allowance := allowance * 2;
      i := i + 1;
    }
    GrowsWith(start, i, doublings);
  }

  method MaxConcurrentProbes(s: Strategy, pc: Context) returns (r: int)
    ensures r == Allowance(s, pc) && 1 <= r <= AtLeastOne(pc.maxRequests)
  {
    hide Pow2;
    var start := AtLeastOne(s.start);
    var step := AtLeastOne(s.step);
    var ceiling := AtLeastOne(pc.maxRequests);
    if s.minInterval > 0 && pc.elapsed.Some? {
      if pc.elapsed.value < s.minInterval {
        return ClampProbe(start, ceiling);
      }
    }
    var n := pc.successes;
    if n < 0 {
      n := 0;
    }
    var allowance;
    if s.ramp == Exponential {
      var doublings := n / step;
      Quotient(n, step, 0);
      allowance := Doubled(start, doublings, ceiling);
    } else {
      var grown := start + n * step;
      MulMono(step, 0, n);
      if grown > ceiling {
        grown := ceiling;
      }
      allowance := grown;
    }
    r := ClampProbe(allowance, ceiling);
  }

  lemma PowZero(start: int)
    ensures start * Pow2(0) == start
  {
  }

  lemma Doubling(start: int, i: nat)
    ensures start * Pow2(i) * 2 == start * Pow2(i + 1)
  {
  }

  lemma {:induction false} GrowsWith(start: int, i: nat, j: nat)
    requires start >= 1 && i <= j
    ensures start * Pow2(i) <= start * Pow2(j)
    decreases j - i
  {
    if i < j {
      Doubling(start, i);
      GrowsWith(start, i + 1, j);
    }
  }

  /** Before the first success, or too early in the episode, the allowance is `start`. */
  lemma RampStart(s: Strategy, pc: Context)
    requires pc.successes <= 0 || (s.minInterval > 0 && pc.elapsed.Some? && pc.elapsed.value < s.minInterval)
    ensures Allowance(s, pc) == Min(AtLeastOne(s.start), AtLeastOne(pc.maxRequests))
  {
    Quotient(0, AtLeastOne(s.step), 0);
    Quotient(0, AtLeastOne(s.step), 1);
  }

  /** A linear ramp grows by `step` with each success, up to the ceiling. */
  lemma LinearStep(s: Strategy, pc: Context)
    requires s.ramp == Linear && pc.successes >= 0
    requires s.minInterval <= 0 || pc.elapsed.None? || pc.elapsed.value >= s.minInterval
    ensures Allowance(s, pc.(successes := pc.successes + 1)) ==
      Min(Allowance(s, pc) + AtLeastOne(s.step), AtLeastOne(pc.maxRequests))
  {
    MulDistrib(AtLeastOne(s.step), pc.successes, 1);
  }

  /** An exponential ramp doubles with every `step` successes, up to the ceiling, and not
      in between: `within` fewer of them give what the last full `step` gave. */
  lemma ExponentialStep(s: Strategy, pc: Context, within: int)
    requires s.ramp == Exponential && pc.successes >= 0
    requires s.minInterval <= 0 || pc.elapsed.None? || pc.elapsed.value >= s.minInterval
    requires pc.successes % AtLeastOne(s.step) == 0 && 0 <= within < AtLeastOne(s.step)
    ensures Allowance(s, pc.(successes := pc.successes + within)) == Allowance(s, pc)
    ensures Allowance(s, pc.(successes := pc.successes + AtLeastOne(s.step))) ==
      Min(2 * Allowance(s, pc), AtLeastOne(pc.maxRequests))
  {
    hide Pow2;
    var step, n := AtLeastOne(s.step), pc.successes;
    var k := n / step;
    SameQuotient(n, step, within);
    QuotientShift(n + step, step, 1);
    Doubling(AtLeastOne(s.start), k);
  }

  lemma SameQuotient(n: int, d: int, within: int)
    requires d > 0 && n % d == 0 && 0 <= within < d
    ensures (n + within) / d == n / d
  {
    var k := n / d;
    assert n == d * k;
    Quotient(n + within, d, k);
    Quotient(n + within, d, k + 1);
    MulDistrib(d, k, 1);
  }

  /** More successes, or more time, never lower the allowance. */
  lemma Monotone(s: Strategy, before: Context, after: Context)
    requires before.maxRequests == after.maxRequests && before.successes <= after.successes
    requires before.elapsed.Some? == after.elapsed.Some?
    requires before.elapsed.Some? ==> before.elapsed.value <= after.elapsed.value
    ensures Allowance(s, before) <= Allowance(s, after)
  {
    var start, step := AtLeastOne(s.start), AtLeastOne(s.step);
    var m, n := Max(before.successes, 0), Max(after.successes, 0);
    MulMono(step, m, n);
    MulMono(step, 0, n);
    QuotientMono(m, n, step);
    GrowsWith(start, m / step, n / step);
    GrowsWith(start, 0, n / step);
  }

  lemma QuotientMono(m: int, n: int, d: int)
    requires 0 <= m <= n && d >= 1
    ensures 0 <= m / d <= n / d
  {
    Quotient(n, d, m / d);
    Quotient(m, d, m / d);
    Quotient(m, d, 0);
  }

  /** A ramp reaches its ceiling: with enough successes every slot is allowed. */
  lemma ReachesCeiling(s: Strategy, pc: Context)
    requires !Paced(s, pc)
    requires pc.successes >= AtLeastOne(pc.maxRequests) * AtLeastOne(s.step)
    ensures Allowance(s, pc) == AtLeastOne(pc.maxRequests)
  {
    var start, step, ceiling := AtLeastOne(s.start), AtLeastOne(s.step), AtLeastOne(pc.maxRequests);
    MulMono(ceiling, 1, step);
    if s.ramp == Linear {
      MulMono(pc.successes, 1, step);
    } else {
      Quotient(pc.successes, step, ceiling);
      GrowsWith(start, ceiling, pc.successes / step);
      MulMono(Pow2(ceiling), 1, start);
      Exceeds(ceiling);
    }
  }

  lemma {:induction false} Exceeds(n: nat)
    ensures Pow2(n) >= n
  {
    if n > 0 {
      Exceeds(n - 1);
    }
  }
}
