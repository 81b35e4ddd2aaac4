/** The time-based metrics window: fixed-width buckets that slide with the clock,
    against the log of every outcome since the last reset. */
module TimeWindow {
  import opened Ratelimit
  import opened Arith

  datatype Event = Event(time: int, failed: bool)

  datatype Bucket = Bucket(start: int, failures: int, requests: int)

  const MAX_BUCKETS := 4096
  const SECOND := 1_000_000_000

  /** The bucket width a configuration gets: a missing one spans the window, and a
      missing window lasts one second. */
  function Width(windowDuration: int, bucketWidth: int): (width: int)
    ensures width > 0
  {
    if bucketWidth > 0 then bucketWidth else if windowDuration > 0 then windowDuration else SECOND
  }

  function NumBuckets(windowDuration: int, bucketWidth: int): (n: int)
    ensures 1 <= n <= MAX_BUCKETS
    ensures 0 < bucketWidth <= windowDuration && n < MAX_BUCKETS ==>
      n * bucketWidth <= windowDuration < (n + 1) * bucketWidth
  {
    if windowDuration <= 0 then 1
    else Max(1, Min(MAX_BUCKETS, windowDuration / Width(windowDuration, bucketWidth)))
  }

  /** The window a configuration gets: as many whole buckets of the width asked for as it
      holds, but no more than the most and no fewer than one; one bucket as long as the
      window if no width was given; and one second if nothing was. */
  ghost predicate Fitted(windowDuration: int, bucketWidth: int, width: int, n: int) {
    if bucketWidth > 0 then
      && width == bucketWidth
      && (windowDuration < bucketWidth ==> n == 1)
      && (windowDuration >= bucketWidth ==>
            n * bucketWidth <= windowDuration && (n == MAX_BUCKETS || windowDuration < (n + 1) * bucketWidth))
    else n == 1 && width == if windowDuration > 0 then windowDuration else SECOND
  }

  lemma IsFitted(windowDuration: int, bucketWidth: int)
    ensures Fitted(windowDuration, bucketWidth, Width(windowDuration, bucketWidth), NumBuckets(windowDuration, bucketWidth))
  {
    if bucketWidth > 0 {
      var q, n := windowDuration / bucketWidth, NumBuckets(windowDuration, bucketWidth);
      Quotient(windowDuration, bucketWidth, 1);
      Quotient(windowDuration, bucketWidth, n);
      Quotient(windowDuration, bucketWidth, n + 1);
    } else if windowDuration > 0 {
      Quotient(windowDuration, windowDuration, 1);
      Quotient(windowDuration, windowDuration, 2);
    }
  }

  // Counting events

  /** Events of the log at `from` or later; only the failed ones if so asked. */
  function Since(log: seq<Event>, from: int, onlyFailed: bool): nat {
    if log == [] then 0
    else var e := log[|log| - 1];
         Since(log[..|log| - 1], from, onlyFailed) + if e.time >= from && (onlyFailed ==> e.failed) then 1 else 0
  }

  /** Events in the bucket that starts at `from`. */
  function Within(log: seq<Event>, from: int, width: int, onlyFailed: bool): int {
    Since(log, from, onlyFailed) - Since(log, from + width, onlyFailed)
  }

  lemma SinceStep(log: seq<Event>, e: Event, from: int, onlyFailed: bool)
    ensures Since(log + [e], from, onlyFailed) ==
      Since(log, from, onlyFailed) + if e.time >= from && (onlyFailed ==> e.failed) then 1 else 0
  {
    assert (log + [e])[..|log|] == log;
  }

  ghost predicate UpTo(log: seq<Event>, t: int) {
    forall i | 0 <= i < |log| :: log[i].time <= t
  }

  lemma {:induction false} NoneSince(log: seq<Event>, t: int, onlyFailed: bool)
    requires UpTo(log, t - 1)
    ensures Since(log, t, onlyFailed) == 0
  {
    if log != [] {
      NoneSince(log[..|log| - 1], t, onlyFailed);
    }
  }

  // Buckets

  /** Where the newest bucket starts once the window has slid to `now`. */
  function Slid(newest: int, width: int, now: int): int
    requires width > 0
    decreases now - newest
  {
    if now < newest + width then newest else Slid(newest + width, width, now)
  }

  lemma {:induction false} SlidCovers(newest: int, width: int, now: int)
    requires width > 0
    ensures var s := Slid(newest, width, now);
            newest <= s && now < s + width && (newest <= now ==> s <= now) && (now < newest + width ==> s == newest)
    decreases now - newest
  {
    if now >= newest + width {
      SlidCovers(newest + width, width, now);
    }
  }

  /** Sliding in two steps is sliding once. */
  lemma {:induction false} SlidTwice(newest: int, width: int, t: int, later: int)
    requires width > 0 && t <= later
    ensures Slid(Slid(newest, width, t), width, later) == Slid(newest, width, later)
    decreases t - newest
  {
    if t >= newest + width {
      SlidTwice(newest + width, width, t, later);
    }
  }

  /** Bucket `i` of an evenly spaced row ending at `newest` that counts the log. */
  ghost predicate Holds(buckets: seq<Bucket>, newest: int, width: int, log: seq<Event>) {
    forall i | 0 <= i < |buckets| ::
      && buckets[i].start == newest - width * (|buckets| - 1 - i)
      && buckets[i].failures == Within(log, buckets[i].start, width, true)
      && buckets[i].requests == Within(log, buckets[i].start, width, false)
  }

  function Oldest(newest: int, width: int, n: int): int {
    newest - width * (n - 1)
  }

  /** What a caller is told: the outcomes since the oldest bucket began. */
  function Counted(log: seq<Event>, newest: int, width: int, n: int, onlyFailed: bool): nat {
    Since(log, Oldest(newest, width, n), onlyFailed)
  }

  lemma {:induction false} SinceLater(log: seq<Event>, from: int, later: int, onlyFailed: bool)
    requires from <= later
    ensures Since(log, later, onlyFailed) <= Since(log, from, onlyFailed)
  {
    if log != [] {
      SinceLater(log[..|log| - 1], from, later, onlyFailed);
    }
  }

  /** What is counted at `now`: every event no older than all buckets but one, and no
      event as old as the whole window. */
  lemma Coverage(log: seq<Event>, newest: int, width: int, n: int, now: int, onlyFailed: bool)
    requires width > 0 && n >= 1 && newest <= now < newest + width
    ensures Since(log, now - width * (n - 1), onlyFailed) <= Counted(log, newest, width, n, onlyFailed)
    ensures Counted(log, newest, width, n, onlyFailed) <= Since(log, now - width * n + 1, onlyFailed)
  {
    MulDistrib(width, n, 1);
    SinceLater(log, Oldest(newest, width, n), now - width * (n - 1), onlyFailed);
    SinceLater(log, now - width * n + 1, Oldest(newest, width, n), onlyFailed);
  }

  function Sum(buckets: seq<Bucket>, onlyFailed: bool): int {
    if buckets == [] then 0
    else var b := buckets[|buckets| - 1];
         Sum(buckets[..|buckets| - 1], onlyFailed) + if onlyFailed then b.failures else b.requests
  }

  lemma {:induction false} SumOfRow(buckets: seq<Bucket>, newest: int, width: int, log: seq<Event>, onlyFailed: bool)
    requires width > 0 && Holds(buckets, newest, width, log)
    ensures Sum(buckets, onlyFailed) ==
      Since(log, Oldest(newest, width, |buckets|), onlyFailed) - Since(log, newest + width, onlyFailed)
  {
    var n := |buckets|;
    if n > 0 {
      var rest := buckets[..n - 1];
      forall i | 0 <= i < n - 1
        ensures rest[i].start == newest - width - width * (n - 2 - i)
      {
        MulDistrib(width, n - 2 - i, 1);
      }
      SumOfRow(rest, newest - width, width, log, onlyFailed);
      MulDistrib(width, n - 2, 1);
    }
  }

  /** What is counted is the sum of the buckets. */
  lemma SumIsCounted(buckets: seq<Bucket>, newest: int, width: int, log: seq<Event>, onlyFailed: bool)
    requires width > 0 && Holds(buckets, newest, width, log) && UpTo(log, newest + width - 1)
    ensures Sum(buckets, onlyFailed) == Counted(log, newest, width, |buckets|, onlyFailed)
  {
    SumOfRow(buckets, newest, width, log, onlyFailed);
    NoneSince(log, newest + width, onlyFailed);
  }

  /** Rolling one bucket forward. */
  lemma RollStep(buckets: seq<Bucket>, newest: int, width: int, log: seq<Event>)
    requires width > 0 && |buckets| >= 1 && Holds(buckets, newest, width, log) && UpTo(log, newest + width - 1)
    ensures Holds(buckets[1..] + [Bucket(newest + width, 0, 0)], newest + width, width, log)
    ensures var n := |buckets|;
            && Counted(log, newest + width, width, n, true) == Counted(log, newest, width, n, true) - buckets[0].failures
            && Counted(log, newest + width, width, n, false) == Counted(log, newest, width, n, false) - buckets[0].requests
  {
    var n := |buckets|;
    var rolled := buckets[1..] + [Bucket(newest + width, 0, 0)];
    NoneSince(log, newest + width, true);
    NoneSince(log, newest + width, false);
    NoneSince(log, newest + width + width, true);
    NoneSince(log, newest + width + width, false);
    hide Since;
    forall i | 0 <= i < n
      ensures rolled[i].start == newest + width - width * (n - 1 - i)
    {
      if i < n - 1 {
        assert rolled[i] == buckets[i + 1];
        MulDistrib(width, n - 2 - i, 1);
      }
    }
  }

  function Noted(b: Bucket, failed: bool): Bucket {
    b.(requests := b.requests + 1, failures := if failed then b.failures + 1 else b.failures)
  }

  /** Recording into the newest bucket. */
  lemma NoteStep(buckets: seq<Bucket>, newest: int, width: int, log: seq<Event>, e: Event)
    requires width > 0 && |buckets| >= 1 && Holds(buckets, newest, width, log) && newest <= e.time < newest + width
    ensures var n := |buckets|;
            && Holds(buckets[n - 1 := Noted(buckets[n - 1], e.failed)], newest, width, log + [e])
            && Counted(log + [e], newest, width, n, true) == Counted(log, newest, width, n, true) + (if e.failed then 1 else 0)
            && Counted(log + [e], newest, width, n, false) == Counted(log, newest, width, n, false) + 1
  {
    var n := |buckets|;
    forall i, onlyFailed | 0 <= i < n
      ensures Within(log + [e], buckets[i].start, width, onlyFailed) ==
        Within(log, buckets[i].start, width, onlyFailed) + if i == n - 1 && (onlyFailed ==> e.failed) then 1 else 0
    {
      SinceStep(log, e, buckets[i].start, onlyFailed);
      SinceStep(log, e, buckets[i].start + width, onlyFailed);
      if i < n - 1 {
        MulMono(width, 1, n - 1 - i);
      }
    }
    SinceStep(log, e, Oldest(newest, width, n), true);
    SinceStep(log, e, Oldest(newest, width, n), false);
    MulMono(width, 0, n - 1);
    hide Since, Within;
  }

  lemma FreshRow(buckets: seq<Bucket>, newest: int, width: int)
    requires forall i | 0 <= i < |buckets| :: buckets[i] == Bucket(newest - width * (|buckets| - 1 - i), 0, 0)
    ensures Holds(buckets, newest, width, [])
    ensures Counted([], newest, width, |buckets|, true) == Counted([], newest, width, |buckets|, false) == 0
  {
  }

  class Window {
    const numBuckets: nat
    const bucketWidth: int
    const windowDuration: int
    var buckets: array<Bucket>
    var failures: int
    var requests: int
    /** Every outcome recorded since the last reset, and the last instant seen. */
    ghost var log: seq<Event>
    ghost var clock: int

    ghost function Newest(): int
      reads this, buckets
      requires buckets.Length >= 1
    {
      buckets[buckets.Length - 1].start
    }

    /** The row as of its newest bucket, which the clock may have passed. */
    ghost predicate Rolled()
      reads this, buckets
    {
      && 1 <= numBuckets == buckets.Length && 0 < bucketWidth && windowDuration == bucketWidth * numBuckets
      && Holds(buckets[..], Newest(), bucketWidth, log)
      && failures == Counted(log, Newest(), bucketWidth, numBuckets, true)
      && requests == Counted(log, Newest(), bucketWidth, numBuckets, false)
      && UpTo(log, clock) && Newest() <= clock && UpTo(log, Newest() + bucketWidth - 1)
    }

    ghost predicate Valid()
      reads this, buckets
    {
      Rolled() && clock < Newest() + bucketWidth
    }

    /** The cached totals are the sums of the buckets, in every valid window. */
    lemma TotalsAreSums()
      requires Valid()
      ensures failures == Sum(buckets[..], true) && requests == Sum(buckets[..], false)
    {
      SumIsCounted(buckets[..], Newest(), bucketWidth, log, true);
      SumIsCounted(buckets[..], Newest(), bucketWidth, log, false);
    }

    constructor (windowDuration: int, bucketWidth: int, now: int)
      ensures Valid() && fresh(buckets) && log == [] && Newest() == clock == now
      ensures this.bucketWidth == Width(windowDuration, bucketWidth) && numBuckets == NumBuckets(windowDuration, bucketWidth)
      ensures Fitted(windowDuration, bucketWidth, this.bucketWidth, numBuckets)
    {
      hide Holds, Counted, Width, NumBuckets, Fitted;
      IsFitted(windowDuration, bucketWidth);
      var width := Width(windowDuration, bucketWidth);
      var n := NumBuckets(windowDuration, bucketWidth);
      this.bucketWidth := width;
      numBuckets := n;
      this.windowDuration := width * n;
      failures, requests := 0, 0;
      log := [];
      clock := now;
      buckets := new Bucket[n](i => Bucket(now - width * (n - 1 - i), 0, 0));
      new;
      assert Newest() == now;
      FreshRow(buckets[..], now, width);
    }

    method Slide(now: int)
      requires Valid() && clock <= now
      modifies this, buckets
      ensures Valid() && buckets == old(buckets) && log == old(log) && clock == now
      ensures Newest() == Slid(old(Newest()), bucketWidth, now)
    {
      hide Holds, Counted, UpTo, Slid;
      ghost var target := Slid(Newest(), bucketWidth, now);
      SlidCovers(Newest(), bucketWidth, now);
      Later(log, clock, now);
      clock := now;
      while now >= buckets[numBuckets - 1].start + bucketWidth
        invariant Rolled() && clock == now && buckets == old(buckets) && log == old(log)
        invariant Slid(Newest(), bucketWidth, now) == target
        decreases now - buckets[numBuckets - 1].start
      {
        var newest := buckets[numBuckets - 1].start;
        ghost var row := buckets[..];
        RollStep(row, newest, bucketWidth, log);
        SlidStep(newest, bucketWidth, now);
        Later(log, newest + bucketWidth - 1, newest + bucketWidth + bucketWidth - 1);
        failures := failures - buckets[0].failures;
        requests := requests - buckets[0].requests;
        forall i | 0 <= i < numBuckets - 1 {
          buckets[i] := buckets[i + 1];
        }
        buckets[numBuckets - 1] := Bucket(newest + bucketWidth, 0, 0);
        assert buckets[..] == row[1..] + [Bucket(newest + bucketWidth, 0, 0)];
      }
      SlidCovers(Newest(), bucketWidth, now);
    }

    method Record(failed: bool, now: int) returns (f: int, r: int)
      requires Valid() && clock <= now
      modifies this, buckets
      ensures Valid() && buckets == old(buckets) && clock == now
      ensures log == old(log) + [Event(now, failed)] && Newest() == Slid(old(Newest()), bucketWidth, now)
      ensures f == failures == Counted(log, Newest(), bucketWidth, numBuckets, true)
      ensures r == requests == Counted(log, Newest(), bucketWidth, numBuckets, false)
    {
      hide Holds, Counted, UpTo, Slid;
      Slide(now);
      ghost var row := buckets[..];
      NoteStep(row, Newest(), bucketWidth, log, Event(now, failed));
      Appended(log, Event(now, failed), now);
      Appended(log, Event(now, failed), Newest() + bucketWidth - 1);
      var current := buckets[numBuckets - 1];
      buckets[numBuckets - 1] := Noted(current, failed);
      if failed {
        failures := failures + 1;
      }
      requests := requests + 1;
      log := log + [Event(now, failed)];
      assert buckets[..] == row[numBuckets - 1 := Noted(current, failed)];
      f, r := failures, requests;
    }

    method Counts(now: int) returns (f: int, r: int)
      requires Valid() && clock <= now
      modifies this, buckets
      ensures Valid() && buckets == old(buckets) && log == old(log) && clock == now
      ensures Newest() == Slid(old(Newest()), bucketWidth, now)
      ensures f == Counted(log, Newest(), bucketWidth, numBuckets, true)
      ensures r == Counted(log, Newest(), bucketWidth, numBuckets, false)
    {
      Slide(now);
      f, r := failures, requests;
    }

    method Reset(now: int)
      requires Valid()
      modifies this, buckets
      ensures Valid() && buckets == old(buckets) && log == [] && Newest() == clock == now
    {
      hide Holds, Counted;
      forall i | 0 <= i < numBuckets {
        buckets[i] := Bucket(now - bucketWidth * (numBuckets - 1 - i), 0, 0);
      }
      failures, requests := 0, 0;
      log := [];
      clock := now;
      FreshRow(buckets[..], now, bucketWidth);
    }
  }

  lemma Later(log: seq<Event>, t: int, t': int)
    requires UpTo(log, t) && t <= t'
    ensures UpTo(log, t')
  {
  }

  lemma Appended(log: seq<Event>, e: Event, t: int)
    requires UpTo(log, t) && e.time <= t
    ensures UpTo(log + [e], t)
  {
  }

  lemma SlidStep(newest: int, width: int, now: int)
    requires width > 0 && now >= newest + width
    ensures Slid(newest, width, now) == Slid(newest + width, width, now)
  {
  }
}
