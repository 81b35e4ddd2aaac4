/** The worker pool gets things done: every interleaving ends, none gets stuck, and a pool
    with room refuses nothing. */
module ThreadPoolProgress {
  import opened ThreadPool

  // Every run ends

  function Total<T>(s: seq<T>, rank: T -> nat): nat {
    if s == [] then 0 else Total(s[..|s| - 1], rank) + rank(s[|s| - 1])
  }

  lemma {:induction false} TotalUpdate<T>(s: seq<T>, i: nat, x: T, rank: T -> nat)
    requires i < |s|
    ensures Total(s[i := x], rank) == Total(s, rank) + rank(x) - rank(s[i])
  {
    var n := |s| - 1;
    if i == n {
      assert s[i := x][..n] == s[..n];
    } else {
      assert s[i := x][..n] == s[..n][i := x];
      TotalUpdate(s[..n], i, x, rank);
    }
  }

  lemma {:induction false} TotalSame<T>(s: seq<T>, x: T, rank: T -> nat)
    requires forall i | 0 <= i < |s| :: s[i] == x
    ensures Total(s, rank) == |s| * rank(x)
  {
    if s != [] {
      TotalSame(s[..|s| - 1], x, rank);
    }
  }

  /** Steps a submission may still take, its task's way through the queue included. */
  function ToSubmit(s: Submission): nat {
    match s
    case Absent => 6
    case Checked => 5
    case Sent => 1
    case _ => 0
  }

  function ToWork(w: Worker): nat {
    match w
    case Ready(draining) => if draining then 1 else 2
    case Executing(_, draining) => if draining then 2 else 3
    case Exited => 0
  }

  function ToClose(c: Closer): nat {
    match c
    case Calling => 3
    case Won => 2
    case Waiting => 1
    case Returned(_) => 0
  }

  function Left(p: Pool): nat {
    2 * |p.queue| + Total(p.tasks, ToSubmit) + Total(p.workers, ToWork) + Total(p.closers, ToClose)
  }

  lemma LeftFalls(p: Pool, s: Step)
    requires Enabled(p, s)
    ensures Left(Apply(p, s)) < Left(p)
  {
    hide Total;
    var p' := Apply(p, s);
    match s
    case Check(t) => TotalUpdate(p.tasks, t, p'.tasks[t], ToSubmit);
    case Send(t) => TotalUpdate(p.tasks, t, Sent, ToSubmit);
    case HandOff(t, j) =>
      TotalUpdate(p.tasks, t, Sent, ToSubmit);
      TotalUpdate(p.workers, j, p'.workers[j], ToWork);
    case SeeDone(t) => TotalUpdate(p.tasks, t, p'.tasks[t], ToSubmit);
    case SeeFull(t) => TotalUpdate(p.tasks, t, p'.tasks[t], ToSubmit);
    case Recheck(t) => TotalUpdate(p.tasks, t, p'.tasks[t], ToSubmit);
    case Take(j) => TotalUpdate(p.workers, j, p'.workers[j], ToWork);
    case Finish(j) => TotalUpdate(p.workers, j, p'.workers[j], ToWork);
    case StartDraining(j) => TotalUpdate(p.workers, j, Ready(true), ToWork);
    case Exit(j) => TotalUpdate(p.workers, j, Exited, ToWork);
    case Cas(k) => TotalUpdate(p.closers, k, p'.closers[k], ToClose);
    case Signal(k) => TotalUpdate(p.closers, k, Waiting, ToClose);
    case Return(k) => TotalUpdate(p.closers, k, Returned(true), ToClose);
  }

  lemma {:induction false} RunsFall(p: Pool, steps: seq<Step>)
    requires Legal(p, steps)
    ensures |steps| + Left(Run(p, steps)) <= Left(p)
    decreases |steps|
  {
    if steps != [] {
      hide Left;
      LeftFalls(p, steps[0]);
      RunsFall(Apply(p, steps[0]), steps[1..]);
    }
  }

  /** No interleaving goes on for ever, whatever the scheduler does: every submission takes
      at most six steps of the pool, every worker two and every closer three. */
  lemma RunsEnd(workers: nat, queueSize: nat, submissions: nat, closers: nat, steps: seq<Step>)
    requires Legal(Start(workers, queueSize, submissions, closers), steps)
    ensures |steps| <= 6 * submissions + 2 * workers + 3 * closers
  {
    hide Run, Legal, Total;
    var p := Start(workers, queueSize, submissions, closers);
    RunsFall(p, steps);
    TotalSame(p.tasks, Absent, ToSubmit);
    TotalSame(p.workers, Ready(false), ToWork);
    TotalSame(p.closers, Calling, ToClose);
  }

  // No run gets stuck

  /** The flag was swapped by somebody. */
  ghost predicate Owned(p: Pool) {
    p.closed ==> exists k :: 0 <= k < |p.closers| && Winner(p.closers[k])
  }

  lemma OwnedStep(p: Pool, s: Step)
    requires Owned(p) && Enabled(p, s)
    ensures Owned(Apply(p, s))
  {
    var p' := Apply(p, s);
    if s.Cas? && !p.closed {
      assert Winner(p'.closers[s.k]);
    } else if p.closed {
      var k :| 0 <= k < |p.closers| && Winner(p.closers[k]);
      assert Winner(p'.closers[k]);
    }
  }

  lemma {:induction false} OwnedRun(p: Pool, steps: seq<Step>)
    requires Owned(p) && Legal(p, steps)
    ensures Owned(Run(p, steps))
    decreases |steps|
  {
    if steps != [] {
      OwnedStep(p, steps[0]);
      OwnedRun(Apply(p, steps[0]), steps[1..]);
    }
  }

  ghost predicate Stuck(p: Pool) {
    forall s :: !Enabled(p, s)
  }

  /** Where no step is possible everybody has what they came for. */
  ghost predicate Settled(p: Pool) {
    && (forall t | 0 <= t < |p.tasks| :: p.tasks[t].Accepted? || p.tasks[t].Refused?)
    && (forall k | 0 <= k < |p.closers| :: p.closers[k].Returned?)
    && (forall j | 0 <= j < |p.workers| :: !p.workers[j].Executing?)
    && (|p.closers| > 0 ==> AllExited(p))
    && (|p.closers| == 0 && |p.workers| > 0 ==> p.queue == [])
  }

  lemma SubmitGoesOn(p: Pool, t: nat)
    requires Placed(p) && Stuck(p) && t < |p.tasks|
    ensures p.tasks[t].Accepted? || p.tasks[t].Refused?
  {
    assert !Enabled(p, Check(t)) && !Enabled(p, Send(t)) && !Enabled(p, Recheck(t));
    assert !Enabled(p, SeeDone(t)) && !Enabled(p, SeeFull(t));
  }

  lemma CloserGoesOn(p: Pool, k: nat)
    requires Signalled(p) && OneWinner(p) && Stuck(p) && k < |p.closers|
    ensures p.closers[k].Returned?
  {
    assert !Enabled(p, Cas(k)) && !Enabled(p, Signal(k)) && !Enabled(p, Return(k));
    if p.closers[k].Waiting? {
      assert Winner(p.closers[k]);
      forall j | 0 <= j < |p.workers|
        ensures p.workers[j].Exited?
      {
        assert !Enabled(p, Take(j)) && !Enabled(p, Finish(j)) && !Enabled(p, StartDraining(j)) && !Enabled(p, Exit(j));
      }
    }
  }

  lemma NeverStuck(p: Pool)
    requires Inv(p) && Owned(p) && Stuck(p)
    ensures Settled(p)
  {
    forall t | 0 <= t < |p.tasks| {
      SubmitGoesOn(p, t);
    }
    forall k | 0 <= k < |p.closers|
      ensures p.closers[k].Returned? && p.closed
    {
      CloserGoesOn(p, k);
    }
    forall j | 0 <= j < |p.workers|
      ensures !p.workers[j].Executing?
    {
      assert !Enabled(p, Finish(j));
    }
    if |p.closers| > 0 {
      assert p.closers[0].Returned? && p.closed;
      var k :| 0 <= k < |p.closers| && Winner(p.closers[k]);
      assert p.closers[k] == Returned(true);
    } else if |p.workers| > 0 {
      assert !Enabled(p, Take(0)) && !Enabled(p, Finish(0));
      assert !p.closed;
    }
  }

  /** An interleaving that cannot go on has answered every Submit, let every Close return
      and, if there was one, every worker leave; and every accepted task has run, once. */
  lemma NoDeadlock(workers: nat, queueSize: nat, submissions: nat, closers: nat, steps: seq<Step>, t: nat)
    requires workers >= 1 && t < submissions
    requires var p := Start(workers, queueSize, submissions, closers); Legal(p, steps) && Stuck(Run(p, steps))
    ensures var p := Run(Start(workers, queueSize, submissions, closers), steps);
            Settled(p) && (p.tasks[t].Accepted? ==> InQueue(p.finished, t) == 1)
  {
    var start := Start(workers, queueSize, submissions, closers);
    var p := Run(start, steps);
    InvStart(workers, queueSize, submissions, closers);
    InvRun(start, steps);
    OwnedRun(start, steps);
    NeverStuck(p);
    hide Run, Legal;
    if p.tasks[t].Accepted? {
      EmptyHands(p.workers, t);
      Absence(p.queue, t);
      assert closers > 0 ==> p.workers[0].Exited?;
    }
  }

  // A pool with room refuses nothing

  function IsEntered(s: Submission): nat {
    if Entered(s) then 1 else 0
  }

  /** Open for good, nobody refused, and no more in the queue than were sent. */
  ghost predicate Welcoming(p: Pool) {
    && p.closers == [] && !p.closed && !p.done && |p.tasks| <= p.capacity
    && |p.queue| <= Total(p.tasks, IsEntered)
    && (forall t | 0 <= t < |p.tasks| :: !p.tasks[t].Refused?)
  }

  lemma {:induction false} NotAllEntered(tasks: seq<Submission>, t: nat)
    requires t < |tasks| && !Entered(tasks[t])
    ensures Total(tasks, IsEntered) < |tasks|
  {
    var n := |tasks| - 1;
    if t < n {
      NotAllEntered(tasks[..n], t);
    } else {
      AtMostAll(tasks[..n]);
    }
  }

  lemma {:induction false} AtMostAll(tasks: seq<Submission>)
    ensures Total(tasks, IsEntered) <= |tasks|
  {
    if tasks != [] {
      AtMostAll(tasks[..|tasks| - 1]);
    }
  }

  lemma WelcomingStep(p: Pool, s: Step)
    requires Welcoming(p) && Enabled(p, s)
    ensures Welcoming(Apply(p, s))
  {
    hide Total;
    match s
    case Check(t) => TotalUpdate(p.tasks, t, Checked, IsEntered);
    case Send(t) => TotalUpdate(p.tasks, t, Sent, IsEntered);
    case HandOff(t, _) => TotalUpdate(p.tasks, t, Sent, IsEntered);
    case SeeFull(t) => NotAllEntered(p.tasks, t);
    case Recheck(t) => TotalUpdate(p.tasks, t, Accepted, IsEntered);
    case _ =>
  }

  lemma {:induction false} WelcomingRun(p: Pool, steps: seq<Step>)
    requires Welcoming(p) && Legal(p, steps)
    ensures Welcoming(Run(p, steps))
    decreases |steps|
  {
    if steps != [] {
      hide Welcoming;
      WelcomingStep(p, steps[0]);
      WelcomingRun(Apply(p, steps[0]), steps[1..]);
    }
  }

  /** A pool that is not closed and has a place for every task refuses none, in any
      interleaving; and each has run, once, when no step is left. */
  lemma NothingRefused(workers: nat, queueSize: nat, submissions: nat, steps: seq<Step>, t: nat)
    requires workers >= 1 && t < submissions <= queueSize && Legal(Start(workers, queueSize, submissions, 0), steps)
    ensures var p := Run(Start(workers, queueSize, submissions, 0), steps);
            !p.tasks[t].Refused? && (Stuck(p) ==> InQueue(p.finished, t) == 1)
  {
    var p := Start(workers, queueSize, submissions, 0);
    WelcomingRun(p, steps);
    if Stuck(Run(p, steps)) {
      NoDeadlock(workers, queueSize, submissions, 0, steps, t);
    }
  }

  /** A pool without a queue still takes a task, straight to a waiting worker. */
  lemma UnbufferedPoolAccepts()
    ensures exists steps :: Legal(Start(1, 0, 1, 0), steps) && var p := Run(Start(1, 0, 1, 0), steps);
              p.tasks[0].Accepted? && InQueue(p.finished, 0) == 1
  {
    hide Run, Legal;
    var p1 := Pool(0, false, false, [], [], [Checked], [Ready(false)], []);
    var p2 := Pool(0, false, false, [], [], [Sent], [Executing(0, false)], []);
    var p3 := Pool(0, false, false, [], [], [Accepted], [Executing(0, false)], []);
    var p4 := Pool(0, false, false, [], [0], [Accepted], [Ready(false)], []);
    var s4 := Stop(p4);
    var s3 := Extend(p3, Finish(0), p4, s4, p4);
    var s2 := Extend(p2, Recheck(0), p3, s3, p4);
    var s1 := Extend(p1, HandOff(0, 0), p2, s2, p4);
    var s0 := Extend(Start(1, 0, 1, 0), Check(0), p1, s1, p4);
  }
}
