/** The count-based metrics window: a ring of the last outcomes with a cached count. */
module CountWindow {

  /** How many of the outcomes are failures. */
  function Failures(outcomes: seq<bool>): nat {
    if outcomes == [] then 0
    else Failures(outcomes[..|outcomes| - 1]) + if outcomes[|outcomes| - 1] then 1 else 0
  }

  function Recent(log: seq<bool>, size: nat): seq<bool> {
    if |log| <= size then log else log[|log| - size..]
  }

  lemma {:induction false} FailuresConcat(a: seq<bool>, b: seq<bool>)
    ensures Failures(a + b) == Failures(a) + Failures(b)
  {
    if b == [] {
      assert a + b == a;
    } else {
      assert (a + b)[..|a + b| - 1] == a + b[..|b| - 1];
      FailuresConcat(a, b[..|b| - 1]);
    }
  }

  lemma {:induction false} FailuresBound(outcomes: seq<bool>)
    ensures Failures(outcomes) <= |outcomes|
  {
    if outcomes != [] {
      FailuresBound(outcomes[..|outcomes| - 1]);
    }
  }

  lemma {:induction false} AllFailures(n: nat)
    ensures Failures(seq(n, _ => true)) == n
  {
    if n > 0 {
      assert seq(n, _ => true)[..n - 1] == seq(n - 1, _ => true);
      AllFailures(n - 1);
    }
  }

  /** One more outcome pushes out the oldest of a full window and nothing else. */
  lemma RecentStep(log: seq<bool>, o: bool, size: nat)
    requires size >= 1
    ensures Failures(Recent(log + [o], size)) ==
      Failures(Recent(log, size)) + (if o then 1 else 0) - (if |log| >= size && log[|log| - size] then 1 else 0)
  {
    var before := Recent(log, size);
    var kept := if |log| < size then before else before[1..];
    assert Recent(log + [o], size) == kept + [o];
    FailuresConcat(kept, [o]);
    if |log| >= size {
      assert before == [log[|log| - size]] + kept;
      FailuresConcat([log[|log| - size]], kept);
    }
  }

  /** The slot written `d` records before the next one goes to `head`. */
  function Back(head: nat, d: nat, size: nat): int {
    if d <= head then head - d else head - d + size
  }

  function Next(head: nat, size: nat): (next: nat)
    requires head < size
    ensures next == if head + 1 == size then 0 else head + 1
  {
    (head + 1) % size
  }

  /** The ring holds the last `size` outcomes of the log, the newest just before `head`. */
  ghost predicate Mirrors(ring: seq<bool>, head: nat, log: seq<bool>) {
    && head < |ring|
    && forall d | 1 <= d <= |ring| && d <= |log| :: ring[Back(head, d, |ring|)] == log[|log| - d]
  }

  lemma MirrorsStep(ring: seq<bool>, head: nat, log: seq<bool>, o: bool)
    requires Mirrors(ring, head, log)
    ensures |log| >= |ring| ==> ring[head] == log[|log| - |ring|]
    ensures Mirrors(ring[head := o], Next(head, |ring|), log + [o])
  {
    var n := |ring|;
    assert Back(head, n, n) == head;
    var head' := Next(head, n);
    forall d | 1 <= d <= n && d <= |log| + 1
      ensures ring[head := o][Back(head', d, n)] == (log + [o])[|log| + 1 - d]
    {
      if d > 1 {
        assert Back(head', d, n) == Back(head, d - 1, n) != head;
      }
    }
  }

  class Window {
    const size: nat
    var ring: array<bool>
    var head: nat
    var failures: int
    var total: nat
    /** Every outcome recorded since the last reset. */
    ghost var log: seq<bool>

    ghost predicate Valid()
      reads this, ring
    {
      && 1 <= size == ring.Length && head < size && total == (if |log| < size then |log| else size)
      && Mirrors(ring[..], head, log)
      && failures == Failures(Recent(log, size))
    }

    constructor (size: nat)
      requires size >= 1
      ensures Valid() && this.size == size && log == [] && fresh(ring)
    {
      this.size := size;
      ring := new bool[size](_ => false);
      head, failures, total := 0, 0, 0;
      log := [];
    }

    /** The cached counts are the failures among, and the number of, the last `size`
        outcomes since the last reset. */
    method Record(o: bool) returns (f: int, t: nat)
      requires Valid()
      modifies this, ring
      ensures Valid() && log == old(log) + [o] && ring == old(ring)
      ensures f == failures == Failures(Recent(log, size))
      ensures t == total == (if |log| < size then |log| else size)
    {
      hide Failures, Recent, Mirrors, Next;
      ghost var before := ring[..];
      MirrorsStep(before, head, log, o);
      RecentStep(log, o, size);
      if total == size {
        if ring[head] {
          failures := failures - 1;
        }
      } else {
        total := total + 1;
      }
      ring[head] := o;
      if o {
        failures := failures + 1;
      }
      assert ring[..] == before[head := o];
      log := log + [o];
      head := Next(head, size);
      f, t := failures, total;
    }

    method Counts() returns (f: int, t: nat)
      requires Valid()
      ensures f == Failures(Recent(log, size)) && t == (if |log| < size then |log| else size)
    {
      f, t := failures, total;
    }

    method Reset()
      requires Valid()
      modifies this
      ensures Valid() && log == [] && fresh(ring)
    {
      ring := new bool[size](_ => false);
      head, failures, total := 0, 0, 0;
      log := [];
    }
  }
}
