/** The worker pool as a protocol: submitters, workers and closers interleave at the
    grain of their channel operations and atomic flags. A task is the index of its
    Submit call. */
module ThreadPool {

  datatype Submission =
    | Absent                     // not called yet
    | Checked                    // saw the pool open
    | Sent                       // in the queue, about to look again
    | Accepted                   // returned its result channel
    | Refused(sent: bool)        // returned an error

  datatype Worker =
    | Ready(draining: bool)
    | Executing(task: nat, draining: bool)
    | Exited

  datatype Closer =
    | Calling
    | Won                        // swapped the flag
    | Waiting                    // closed the channel
    | Returned(won: bool)

  datatype Pool = Pool(capacity: nat, closed: bool, done: bool, queue: seq<nat>, finished: seq<nat>,
                       tasks: seq<Submission>, workers: seq<Worker>, closers: seq<Closer>)

  datatype Step =
    | Check(t: nat)
    | Send(t: nat)
    | HandOff(t: nat, j: nat)    // straight to a waiting worker
    | SeeDone(t: nat)
    | SeeFull(t: nat)
    | Recheck(t: nat)
    | Take(j: nat)
    | Finish(j: nat)             // the result is sent: its channel has room for it
    | StartDraining(j: nat)
    | Exit(j: nat)
    | Cas(k: nat)
    | Signal(k: nat)
    | Return(k: nat)

  predicate Enabled(p: Pool, s: Step) {
    match s
    case Check(t) => t < |p.tasks| && p.tasks[t].Absent?
    case Send(t) => t < |p.tasks| && p.tasks[t].Checked? && |p.queue| < p.capacity
    case HandOff(t, j) => t < |p.tasks| && p.tasks[t].Checked? && p.queue == [] && j < |p.workers| && p.workers[j] == Ready(false)
    case SeeDone(t) => t < |p.tasks| && p.tasks[t].Checked? && p.done
    case SeeFull(t) => t < |p.tasks| && p.tasks[t].Checked? && !p.done && |p.queue| == p.capacity
    case Recheck(t) => t < |p.tasks| && p.tasks[t].Sent?
    case Take(j) => j < |p.workers| && p.workers[j].Ready? && p.queue != []
    case Finish(j) => j < |p.workers| && p.workers[j].Executing?
    case StartDraining(j) => j < |p.workers| && p.workers[j] == Ready(false) && p.done
    case Exit(j) => j < |p.workers| && p.workers[j] == Ready(true) && p.queue == []
    case Cas(k) => k < |p.closers| && p.closers[k].Calling?
    case Signal(k) => k < |p.closers| && p.closers[k].Won?
    case Return(k) => k < |p.closers| && p.closers[k].Waiting? && AllExited(p)
  }

  predicate AllExited(p: Pool) {
    forall j | 0 <= j < |p.workers| :: p.workers[j].Exited?
  }

  function Apply(p: Pool, s: Step): Pool
    requires Enabled(p, s)
  {
    match s
    case Check(t) => p.(tasks := p.tasks[t := if p.closed then Refused(false) else Checked])
    case Send(t) => p.(tasks := p.tasks[t := Sent], queue := p.queue + [t])
    case HandOff(t, j) => p.(tasks := p.tasks[t := Sent], workers := p.workers[j := Executing(t, false)])
    case SeeDone(t) => p.(tasks := p.tasks[t := Refused(false)])
    case SeeFull(t) => p.(tasks := p.tasks[t := Refused(false)])
    case Recheck(t) => p.(tasks := p.tasks[t := if p.closed then Refused(true) else Accepted])
    case Take(j) => p.(workers := p.workers[j := Executing(p.queue[0], p.workers[j].draining)], queue := p.queue[1..])
    case Finish(j) => p.(workers := p.workers[j := Ready(p.workers[j].draining)], finished := p.finished + [p.workers[j].task])
    case StartDraining(j) => p.(workers := p.workers[j := Ready(true)])
    case Exit(j) => p.(workers := p.workers[j := Exited])
    case Cas(k) => p.(closed := true, closers := p.closers[k := if p.closed then Returned(false) else Won])
    case Signal(k) => p.(done := true, closers := p.closers[k := Waiting])
    case Return(k) => p.(closers := p.closers[k := Returned(true)])
  }

  // Where a task is

  function InQueue(q: seq<nat>, t: nat): nat {
    if q == [] then 0 else InQueue(q[..|q| - 1], t) + if q[|q| - 1] == t then 1 else 0
  }

  function InHand(workers: seq<Worker>, t: nat): nat {
    if workers == [] then 0 else InHand(workers[..|workers| - 1], t) + Holding(workers[|workers| - 1], t)
  }

  function Holding(worker: Worker, t: nat): nat {
    if worker.Executing? && worker.task == t then 1 else 0
  }

  /** How many copies of the task the pool has, wherever they are. */
  function Copies(p: Pool, t: nat): nat {
    InQueue(p.queue, t) + InHand(p.workers, t) + InQueue(p.finished, t)
  }

  lemma AppendOne(q: seq<nat>, x: nat, t: nat)
    ensures InQueue(q + [x], t) == InQueue(q, t) + if x == t then 1 else 0
  {
    assert (q + [x])[..|q|] == q;
  }

  lemma {:induction false} RemoveFirst(q: seq<nat>, t: nat)
    requires q != []
    ensures InQueue(q, t) == InQueue(q[1..], t) + if q[0] == t then 1 else 0
  {
    var n := |q| - 1;
    if n > 0 {
      assert q[..n][1..] == q[1..][..n - 1];
      RemoveFirst(q[..n], t);
    }
  }

  lemma {:induction false} ChangeHand(workers: seq<Worker>, j: nat, worker: Worker, t: nat)
    requires j < |workers|
    ensures InHand(workers[j := worker], t) == InHand(workers, t) + Holding(worker, t) - Holding(workers[j], t)
  {
    var n := |workers| - 1;
    if j == n {
      assert workers[j := worker][..n] == workers[..n];
    } else {
      assert workers[j := worker][..n] == workers[..n][j := worker];
      ChangeHand(workers[..n], j, worker, t);
    }
  }

  lemma {:induction false} Absence(q: seq<nat>, t: nat)
    ensures InQueue(q, t) == 0 <==> forall i | 0 <= i < |q| :: q[i] != t
  {
    if q != [] {
      Absence(q[..|q| - 1], t);
      assert q == q[..|q| - 1] + [q[|q| - 1]];
    }
  }

  lemma {:induction false} EmptyHands(workers: seq<Worker>, t: nat)
    requires forall j | 0 <= j < |workers| :: !workers[j].Executing?
    ensures InHand(workers, t) == 0
  {
    if workers != [] {
      EmptyHands(workers[..|workers| - 1], t);
    }
  }

  // What every step keeps

  /** The signal comes after the flag, and workers leave only after the signal. */
  ghost predicate Signalled(p: Pool) {
    && (p.done ==> p.closed)
    && (forall j | 0 <= j < |p.workers| :: p.workers[j].Exited? || p.workers[j].draining ==> p.done)
  }

  predicate Winner(c: Closer) {
    c.Won? || c.Waiting? || c == Returned(true)
  }

  /** One closer at most wins the flag, so the channel is closed at most once. */
  ghost predicate OneWinner(p: Pool) {
    && (forall k, l | 0 <= k < |p.closers| && 0 <= l < |p.closers| && Winner(p.closers[k]) && Winner(p.closers[l]) :: k == l)
    && (forall k | 0 <= k < |p.closers| ::
          && (Winner(p.closers[k]) ==> p.closed && (p.done <==> !p.closers[k].Won?))
          && (p.closers[k] == Returned(false) ==> p.closed))
  }

  /** The winner returns only after every worker has left. */
  ghost predicate Waited(p: Pool) {
    forall k | 0 <= k < |p.closers| && p.closers[k] == Returned(true) :: AllExited(p)
  }

  predicate Entered(s: Submission) {
    s.Sent? || s.Accepted? || s == Refused(true)
  }

  /** A task that was sent is in one place, any other is nowhere. */
  ghost predicate Placed(p: Pool) {
    && |p.queue| <= p.capacity
    && (forall t: nat :: Copies(p, t) == if t < |p.tasks| && Entered(p.tasks[t]) then 1 else 0)
  }

  /** Once a worker has left, no accepted task is in the queue. */
  ghost predicate Drained(p: Pool) {
    (exists j :: 0 <= j < |p.workers| && p.workers[j].Exited?) ==>
      forall i | 0 <= i < |p.queue| && p.queue[i] < |p.tasks| :: !p.tasks[p.queue[i]].Accepted?
  }

  ghost predicate Inv(p: Pool) {
    Signalled(p) && OneWinner(p) && Waited(p) && Placed(p) && Drained(p)
  }

  lemma SignalledStep(p: Pool, s: Step)
    requires Signalled(p) && OneWinner(p) && Enabled(p, s)
    ensures Signalled(Apply(p, s))
  {
  }

  lemma OneWinnerStep(p: Pool, s: Step)
    requires Signalled(p) && OneWinner(p) && Enabled(p, s)
    ensures OneWinner(Apply(p, s))
  {
    var p' := Apply(p, s);
    if s.Cas? || s.Signal? || s.Return? {
      assert forall k | 0 <= k < |p.closers| && k != s.k :: p'.closers[k] == p.closers[k];
    } else {
      assert p'.closers == p.closers && p'.closed == p.closed && p'.done == p.done;
    }
  }

  lemma WaitedStep(p: Pool, s: Step)
    requires Waited(p) && Enabled(p, s)
    ensures Waited(Apply(p, s))
  {
  }

  lemma DrainedStep(p: Pool, s: Step)
    requires Signalled(p) && Drained(p) && Enabled(p, s)
    ensures Drained(Apply(p, s))
  {
  }

  lemma CopiesStep(p: Pool, s: Step, t: nat)
    requires Enabled(p, s)
    ensures Copies(Apply(p, s), t) == Copies(p, t) + if (s.Send? || s.HandOff?) && s.t == t then 1 else 0
  {
    hide InQueue, InHand;
    match s
    case Send(x) => AppendOne(p.queue, x, t);
    case HandOff(x, j) => ChangeHand(p.workers, j, Executing(x, false), t);
    case Take(j) =>
      RemoveFirst(p.queue, t);
      ChangeHand(p.workers, j, Executing(p.queue[0], p.workers[j].draining), t);
    case Finish(j) =>
      AppendOne(p.finished, p.workers[j].task, t);
      ChangeHand(p.workers, j, Ready(p.workers[j].draining), t);
    case StartDraining(j) => ChangeHand(p.workers, j, Ready(true), t);
    case Exit(j) => ChangeHand(p.workers, j, Exited, t);
    case _ =>
  }

  lemma PlacedStep(p: Pool, s: Step)
    requires Placed(p) && Enabled(p, s)
    ensures Placed(Apply(p, s))
  {
    hide Copies;
    forall t: nat {
      CopiesStep(p, s, t);
    }
  }

  lemma InvStep(p: Pool, s: Step)
    requires Inv(p) && Enabled(p, s)
    ensures Inv(Apply(p, s))
  {
    SignalledStep(p, s);
    OneWinnerStep(p, s);
    WaitedStep(p, s);
    DrainedStep(p, s);
    PlacedStep(p, s);
  }

  ghost predicate Legal(p: Pool, steps: seq<Step>)
    decreases |steps|
  {
    steps != [] ==> Enabled(p, steps[0]) && Legal(Apply(p, steps[0]), steps[1..])
  }

  ghost function Run(p: Pool, steps: seq<Step>): (p': Pool)
    requires Legal(p, steps)
    ensures |p'.tasks| == |p.tasks| && |p'.workers| == |p.workers| && |p'.closers| == |p.closers|
    decreases |steps|
  {
    if steps == [] then p else Run(Apply(p, steps[0]), steps[1..])
  }

  lemma {:induction false} InvRun(p: Pool, steps: seq<Step>)
    requires Inv(p) && Legal(p, steps)
    ensures Inv(Run(p, steps))
    decreases |steps|
  {
    if steps != [] {
      hide Inv;
      InvStep(p, steps[0]);
      InvRun(Apply(p, steps[0]), steps[1..]);
    }
  }

  function Start(workers: nat, queueSize: nat, submissions: nat, closers: nat): Pool {
    Pool(queueSize, false, false, [], [], seq(submissions, _ => Absent), seq(workers, _ => Ready(false)), seq(closers, _ => Calling))
  }

  lemma InvStart(workers: nat, queueSize: nat, submissions: nat, closers: nat)
    ensures Inv(Start(workers, queueSize, submissions, closers))
  {
    var p := Start(workers, queueSize, submissions, closers);
    forall t: nat {
      EmptyHands(p.workers, t);
    }
  }

  /** Over every interleaving a task finishes at most once, and never if it was
      refused before it was sent. */
  lemma AtMostOnce(workers: nat, queueSize: nat, submissions: nat, closers: nat, steps: seq<Step>, t: nat)
    requires t < submissions && Legal(Start(workers, queueSize, submissions, closers), steps)
    ensures var p := Run(Start(workers, queueSize, submissions, closers), steps);
            && InQueue(p.finished, t) <= 1
            && (p.tasks[t] == Refused(false) ==> Copies(p, t) == 0)
  {
    InvStart(workers, queueSize, submissions, closers);
    InvRun(Start(workers, queueSize, submissions, closers), steps);
    assert Copies(Run(Start(workers, queueSize, submissions, closers), steps), t) <= 1;
  }

  /** When the Close that won the flag returns, every accepted task has been executed
      exactly once and has its result, and no worker is left to start another. */
  lemma AcceptedIsDone(workers: nat, queueSize: nat, submissions: nat, closers: nat, steps: seq<Step>, k: nat, t: nat)
    requires workers >= 1 && k < closers && t < submissions
    requires var p := Start(workers, queueSize, submissions, closers);
             Legal(p, steps) && Run(p, steps).closers[k] == Returned(true)
    ensures var p := Run(Start(workers, queueSize, submissions, closers), steps);
            && AllExited(p)
            && (p.tasks[t].Accepted? ==> InQueue(p.finished, t) == 1)
  {
    var start := Start(workers, queueSize, submissions, closers);
    var p := Run(start, steps);
    InvStart(workers, queueSize, submissions, closers);
    InvRun(start, steps);
    hide Run, Legal;
    if p.tasks[t].Accepted? {
      assert p.workers[0].Exited?;
      EmptyHands(p.workers, t);
      Absence(p.queue, t);
    }
  }

  /** Nothing starts or finishes once the workers have left. */
  lemma {:induction false} NothingAfterClose(p: Pool, steps: seq<Step>)
    requires AllExited(p) && Legal(p, steps)
    ensures AllExited(Run(p, steps)) && Run(p, steps).finished == p.finished
    decreases |steps|
  {
    if steps != [] {
      NothingAfterClose(Apply(p, steps[0]), steps[1..]);
    }
  }

  /** Closing the channel twice would panic: it never is. */
  lemma ChannelClosedOnce(workers: nat, queueSize: nat, submissions: nat, closers: nat, steps: seq<Step>, k: nat)
    requires var p := Start(workers, queueSize, submissions, closers); Legal(p, steps) && Enabled(Run(p, steps), Signal(k))
    ensures !Run(Start(workers, queueSize, submissions, closers), steps).done
  {
    InvStart(workers, queueSize, submissions, closers);
    InvRun(Start(workers, queueSize, submissions, closers), steps);
  }

  // What does not hold

  lemma Stop(last: Pool) returns (steps: seq<Step>)
    ensures Legal(last, steps) && Run(last, steps) == last
  {
    steps := [];
  }

  lemma Extend(p: Pool, first: Step, next: Pool, rest: seq<Step>, last: Pool) returns (steps: seq<Step>)
    requires Enabled(p, first) && Apply(p, first) == next && Legal(next, rest) && Run(next, rest) == last
    ensures Legal(p, steps) && Run(p, steps) == last
  {
    steps := [first] + rest;
    assert steps[1..] == rest;
  }

  /** A Close that finds the pool closed already returns at once, with an accepted
      task still in the queue. */
  lemma LosingCloseReturnsEarly()
    ensures exists steps :: Legal(Start(1, 1, 1, 2), steps) && var p := Run(Start(1, 1, 1, 2), steps);
              p.closers[1] == Returned(false) && p.tasks[0].Accepted? && InQueue(p.finished, 0) == 0
  {
    hide Run, Legal;
    var idle := [Ready(false)];
    var p1 := Pool(1, false, false, [], [], [Checked], idle, [Calling, Calling]);
    var p2 := Pool(1, false, false, [0], [], [Sent], idle, [Calling, Calling]);
    var p3 := Pool(1, false, false, [0], [], [Accepted], idle, [Calling, Calling]);
    var p4 := Pool(1, true, false, [0], [], [Accepted], idle, [Won, Calling]);
    var p5 := Pool(1, true, false, [0], [], [Accepted], idle, [Won, Returned(false)]);
    var s5 := Stop(p5);
    var s4 := Extend(p4, Cas(1), p5, s5, p5);
    var s3 := Extend(p3, Cas(0), p4, s4, p5);
    var s2 := Extend(p2, Recheck(0), p3, s3, p5);
    var s1 := Extend(p1, Send(0), p2, s2, p5);
    var s0 := Extend(Start(1, 1, 1, 2), Check(0), p1, s1, p5);
  }

  /** A task can run although its Submit reported the pool closed. */
  lemma RefusedTaskMayRun()
    ensures exists steps :: Legal(Start(1, 1, 1, 1), steps) && var p := Run(Start(1, 1, 1, 1), steps);
              p.tasks[0] == Refused(true) && InQueue(p.finished, 0) == 1
  {
    hide Run, Legal;
    var idle := [Ready(false)];
    var p1 := Pool(1, false, false, [], [], [Checked], idle, [Calling]);
    var p2 := Pool(1, false, false, [0], [], [Sent], idle, [Calling]);
    var p3 := Pool(1, false, false, [], [], [Sent], [Executing(0, false)], [Calling]);
    var p4 := Pool(1, false, false, [], [0], [Sent], idle, [Calling]);
    var p5 := Pool(1, true, false, [], [0], [Sent], idle, [Won]);
    var p6 := Pool(1, true, false, [], [0], [Refused(true)], idle, [Won]);
    var s6 := Stop(p6);
    var s5 := Extend(p5, Recheck(0), p6, s6, p6);
    var s4 := Extend(p4, Cas(0), p5, s5, p6);
    var s3 := Extend(p3, Finish(0), p4, s4, p6);
    var s2 := Extend(p2, Take(0), p3, s3, p6);
    var s1 := Extend(p1, Send(0), p2, s2, p6);
    var s0 := Extend(Start(1, 1, 1, 1), Check(0), p1, s1, p6);
  }
}
