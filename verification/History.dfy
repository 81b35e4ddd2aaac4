/** Counting admissions in closed time intervals. */
module History {

  function Copies(t: int, n: nat): seq<int> {
    seq(n, _ => t)
  }

  ghost predicate AtMost(h: seq<int>, t: int) {
    forall i | 0 <= i < |h| :: h[i] <= t
  }

  ghost predicate AtLeast(h: seq<int>, t: int) {
    forall i | 0 <= i < |h| :: h[i] >= t
  }

  /** How many entries of `h` lie in [lo, hi]. */
  function CountIn(h: seq<int>, lo: int, hi: int): nat {
    if h == [] then 0 else CountIn(h[..|h| - 1], lo, hi) + if lo <= h[|h| - 1] <= hi then 1 else 0
  }

  lemma {:induction false} CountConcat(a: seq<int>, b: seq<int>, lo: int, hi: int)
    ensures CountIn(a + b, lo, hi) == CountIn(a, lo, hi) + CountIn(b, lo, hi)
  {
    if b == [] {
      assert a + b == a;
    } else {
      assert (a + b)[..|a + b| - 1] == a + b[..|b| - 1];
      CountConcat(a, b[..|b| - 1], lo, hi);
    }
  }

  lemma {:induction false} CountCopies(t: int, n: nat, lo: int, hi: int)
    ensures CountIn(Copies(t, n), lo, hi) == if lo <= t <= hi then n else 0
  {
    if n > 0 {
      assert Copies(t, n)[..n - 1] == Copies(t, n - 1);
      CountCopies(t, n - 1, lo, hi);
    }
  }

  lemma {:induction false} CountNone(h: seq<int>, lo: int, hi: int)
    requires forall i | 0 <= i < |h| :: !(lo <= h[i] <= hi)
    ensures CountIn(h, lo, hi) == 0
  {
    if h != [] {
      CountNone(h[..|h| - 1], lo, hi);
    }
  }

  lemma {:induction false} CountWiden(h: seq<int>, lo: int, hi: int, lo': int, hi': int)
    requires lo' <= lo && hi <= hi'
    ensures CountIn(h, lo, hi) <= CountIn(h, lo', hi')
  {
    if h != [] {
      CountWiden(h[..|h| - 1], lo, hi, lo', hi');
    }
  }

  lemma {:induction false} CountSplit(h: seq<int>, lo: int, mid: int, hi: int)
    requires lo <= mid <= hi + 1
    ensures CountIn(h, lo, hi) == CountIn(h, lo, mid - 1) + CountIn(h, mid, hi)
  {
    if h != [] {
      CountSplit(h[..|h| - 1], lo, mid, hi);
    }
  }

  lemma {:induction false} CountUpTo(h: seq<int>, lo: int, a: int, b: int)
    requires AtMost(h, a) && a <= b
    ensures CountIn(h, lo, a) == CountIn(h, lo, b)
  {
    if h != [] {
      CountUpTo(h[..|h| - 1], lo, a, b);
    }
  }
}
