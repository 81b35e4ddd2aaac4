/** Both stores follow the protocol: every run of script calls, on either store, is a legal
    run of the protocol with the same answers and the same record, in which the key
    expires exactly where the store drops it. */
module BreakerRefinement {
  import opened Ratelimit
  import opened Decimal
  import opened SharedBreaker
  import opened BreakerScripts
  import opened BreakerProtocol

  datatype Store = Memory | Redis

  /** What a call leaves in the store. A client step is any step but the expiry. */
  function KeyAfter(c: Config, store: Store, k: Key, s: Step): Key {
    match s
    case Acquire(now) => if store.Memory? then MemoryAcquired(c, Ttl(c), k, now) else RedisAcquired(c, Ttl(c), k, now)
    case Record(t, failed, now) => KeyRecorded(c, Ttl(c), k, failed, t.Probe?, now)
    case Stray(failed, now) => KeyRecorded(c, Ttl(c), k, failed, false, now)
    case Expire(_) => k
  }

  /** The protocol's steps for one call: the expiry first if the key is overdue. */
  function StepsOf(k: Key, s: Step): seq<Step> {
    if Expired(k, s.now) then [Expire(s.now), s] else [s]
  }

  function Unfolded(c: Config, store: Store, k: Key, calls: seq<Step>): seq<Step>
    decreases |calls|
  {
    if calls == [] then [] else StepsOf(k, calls[0]) + Unfolded(c, store, KeyAfter(c, store, k, calls[0]), calls[1..])
  }

  function Final(c: Config, store: Store, k: Key, calls: seq<Step>): Key
    decreases |calls|
  {
    if calls == [] then k else Final(c, store, KeyAfter(c, store, k, calls[0]), calls[1..])
  }

  /** What the scripts tell the acquires of a run. */
  function Told(c: Config, store: Store, k: Key, calls: seq<Step>): seq<Decision>
    decreases |calls|
  {
    if calls == [] then []
    else (if calls[0].Acquire? then [Decide(c, Live(k, calls[0].now).st, calls[0].now)] else [])
         + Told(c, store, KeyAfter(c, store, k, calls[0]), calls[1..])
  }

  /** Calls that clients can make: the clock does not go back, and who records a ticket
      holds it. */
  ghost predicate Clients(c: Config, store: Store, k: Key, w: World, calls: seq<Step>)
    decreases |calls|
  {
    calls != [] ==>
      var s := calls[0];
      && !s.Expire? && Enabled(w, s)
      && Clients(c, store, KeyAfter(c, store, k, s), Run(c, w, StepsOf(k, s)), calls[1..])
  }

  /** The protocol's world has the store's record, and lets it expire no later. */
  ghost predicate Follows(c: Config, k: Key, w: World) {
    && w.st == k.st && w.deadline <= w.clock + Ttl(c)
    && (k.expiresAt.Some? ==> w.deadline <= k.expiresAt.value)
  }

  lemma LiveStep(c: Config, store: Store, k: Key, w: World, s: Step)
    requires Follows(c, k, w) && !s.Expire? && Enabled(w, s) && !Expired(k, s.now)
    ensures Follows(c, KeyAfter(c, store, k, s), Apply(c, w, s))
  {
    hide Ttl;
  }

  /** One script call is one step, or an expiry and a step. */
  lemma CallFollows(c: Config, store: Store, k: Key, w: World, s: Step)
    requires Follows(c, k, w) && !s.Expire? && Enabled(w, s)
    ensures Legal(c, w, StepsOf(k, s)) && Follows(c, KeyAfter(c, store, k, s), Run(c, w, StepsOf(k, s)))
    ensures Replies(c, w, StepsOf(k, s)) == if s.Acquire? then [Decide(c, Live(k, s.now).st, s.now)] else []
  {
    hide Ttl, Run, Legal, Replies;
    if Expired(k, s.now) {
      var gone := Apply(c, w, Expire(s.now));
      LiveStep(c, store, Live(k, s.now), gone, s);
      FirstStep(c, w, Expire(s.now), [s]);
      FirstStep(c, gone, s, []);
      RepliesOne(c, gone, s);
      FirstReply(c, w, Expire(s.now), [s]);
    } else {
      LiveStep(c, store, k, w, s);
      FirstStep(c, w, s, []);
      RepliesOne(c, w, s);
    }
    assert [s] + [] == [s] && [Expire(s.now)] + [s] == [Expire(s.now), s];
  }

  lemma FirstReply(c: Config, w: World, first: Step, rest: seq<Step>)
    ensures Replies(c, w, [first] + rest) ==
      (if first.Acquire? then [Decide(c, w.st, first.now)] else []) + Replies(c, Apply(c, w, first), rest)
  {
    assert ([first] + rest)[1..] == rest;
  }

  lemma RepliesOne(c: Config, w: World, s: Step)
    ensures Replies(c, w, [s]) == if s.Acquire? then [Decide(c, w.st, s.now)] else []
  {
    FirstReply(c, w, s, []);
    assert [s] + [] == [s];
  }

  lemma {:induction false} RepliesConcat(c: Config, w: World, a: seq<Step>, b: seq<Step>)
    ensures Replies(c, w, a + b) == Replies(c, w, a) + Replies(c, Run(c, w, a), b)
    decreases |a|
  {
    hide Apply, Decide;
    if a == [] {
      assert a + b == b;
    } else {
      assert (a + b)[1..] == a[1..] + b;
      RepliesConcat(c, Apply(c, w, a[0]), a[1..], b);
    }
  }

  lemma {:induction false} RunFollows(c: Config, store: Store, k: Key, w: World, calls: seq<Step>)
    requires Follows(c, k, w) && Clients(c, store, k, w, calls)
    ensures var steps := Unfolded(c, store, k, calls);
            && Legal(c, w, steps) && Follows(c, Final(c, store, k, calls), Run(c, w, steps))
            && Replies(c, w, steps) == Told(c, store, k, calls)
    decreases |calls|
  {
    if calls != [] {
      var s, k' := calls[0], KeyAfter(c, store, k, calls[0]);
      var first, rest := StepsOf(k, s), Unfolded(c, store, k', calls[1..]);
      CallFollows(c, store, k, w, s);
      hide Run, Legal, Replies, KeyAfter, StepsOf, Follows, Enabled, Decide, Live;
      RunFollows(c, store, k', Run(c, w, first), calls[1..]);
      RunConcat(c, w, first, rest);
      RepliesConcat(c, w, first, rest);
    }
  }

  /** Every run from a key that does not exist, on either store. What holds of every run
      of the protocol therefore holds of both stores. */
  lemma StoreIsProtocol(c: Config, store: Store, calls: seq<Step>)
    requires ValidConfig(c) && Clients(c, store, Key(ZERO, None), START, calls)
    ensures var steps := Unfolded(c, store, Key(ZERO, None), calls);
            && Legal(c, START, steps)
            && Run(c, START, steps).st == Final(c, store, Key(ZERO, None), calls).st
            && Replies(c, START, steps) == Told(c, store, Key(ZERO, None), calls)
  {
    TtlOutlivesTimeout(c);
    RunFollows(c, store, Key(ZERO, None), START, calls);
  }
}
