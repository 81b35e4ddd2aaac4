/** The two implementations of the breaker scripts answer alike, except that they do
    not renew the key's expiry on the same calls. */
module BreakerParity {
  import opened Ratelimit
  import opened Decimal
  import opened SharedBreaker
  import opened BreakerScripts

  datatype Op = Acquire | Record(failed: bool, probe: bool) | Read

  datatype Call = Call(op: Op, now: int)

  datatype Reply = Decided(d: Decision) | NowIn(state: int) | Shown(st: Cb)

  function MemoryStep(c: Config, ttl: int, k: Key, call: Call): (Reply, Key) {
    match call.op
    case Acquire => (Decided(Decide(c, Live(k, call.now).st, call.now)), MemoryAcquired(c, ttl, k, call.now))
    case Record(failed, probe) =>
      var k' := KeyRecorded(c, ttl, k, failed, probe, call.now);
      (NowIn(k'.st.state), k')
    case Read => (Shown(Reported(c, Live(k, call.now).st, call.now)), k)
  }

  function RedisStep(c: Config, ttl: int, k: Key, call: Call): (Reply, Key) {
    match call.op
    case Acquire => (Decided(Decide(c, Live(k, call.now).st, call.now)), RedisAcquired(c, ttl, k, call.now))
    case _ => MemoryStep(c, ttl, k, call)
  }

  /** Before an expiry comes between them: one record, kept at least as long in memory. */
  ghost predicate Aligned(c: Config, ttl: int, m: Key, r: Key, now: int) {
    && m.st == r.st && Wellformed(c, m.st)
    && (r.expiresAt.Some? ==> m.expiresAt.Some? && r.expiresAt.value <= m.expiresAt.value && r.expiresAt.value <= now + ttl)
    && (r.expiresAt.None? ==> r.st == ZERO)
    && (m.expiresAt.None? ==> m.st == ZERO)
    && (m.st.state == OPEN ==> m.st.openedAt <= now && m.st.openedAt <= r.expiresAt.value)
  }

  /** Redis has forgotten a record that the other store still has. */
  ghost predicate Lagging(m: Key, r: Key, now: int) {
    Expired(r, now) && !Expired(m, now) && m.st != ZERO
  }

  lemma ParityStep(c: Config, ttl: int, m: Key, r: Key, before: int, call: Call)
    requires ValidConfig(c) && ttl > 0 && 0 < call.now <= INT64_MAX
    requires Aligned(c, ttl, m, r, before) && before <= call.now && !Lagging(m, r, call.now)
    ensures MemoryStep(c, ttl, m, call).0 == RedisStep(c, ttl, r, call).0
    ensures Aligned(c, ttl, MemoryStep(c, ttl, m, call).1, RedisStep(c, ttl, r, call).1, call.now)
  {
    var st := Live(m, call.now).st;
    assert st == Live(r, call.now).st;
    WellformedKept(c, st, call.op.Record? && call.op.failed, call.op.Record? && call.op.probe, call.now);
  }

  function MemoryReplies(c: Config, ttl: int, k: Key, calls: seq<Call>): seq<Reply>
    decreases |calls|
  {
    if calls == [] then []
    else
      var (reply, k') := MemoryStep(c, ttl, k, calls[0]);
      [reply] + MemoryReplies(c, ttl, k', calls[1..])
  }

  function RedisReplies(c: Config, ttl: int, k: Key, calls: seq<Call>): seq<Reply>
    decreases |calls|
  {
    if calls == [] then []
    else
      var (reply, k') := RedisStep(c, ttl, k, calls[0]);
      [reply] + RedisReplies(c, ttl, k', calls[1..])
  }

  /** No call of the run finds the expiries apart. */
  ghost predicate NeverLags(c: Config, ttl: int, m: Key, r: Key, calls: seq<Call>)
    decreases |calls|
  {
    calls != [] ==>
      && !Lagging(m, r, calls[0].now)
      && NeverLags(c, ttl, MemoryStep(c, ttl, m, calls[0]).1, RedisStep(c, ttl, r, calls[0]).1, calls[1..])
  }

  ghost predicate Ordered(calls: seq<Call>, start: int) {
    && (forall i | 0 <= i < |calls| :: start <= calls[i].now && 0 < calls[i].now <= INT64_MAX)
    && (forall i, j | 0 <= i < j < |calls| :: calls[i].now <= calls[j].now)
  }

  /** The same calls get the same replies, in every run the expiries do not split. */
  lemma {:induction false} SameReplies(c: Config, ttl: int, m: Key, r: Key, calls: seq<Call>, now: int)
    requires ValidConfig(c) && ttl > 0 && Aligned(c, ttl, m, r, now) && Ordered(calls, now)
    requires NeverLags(c, ttl, m, r, calls)
    ensures MemoryReplies(c, ttl, m, calls) == RedisReplies(c, ttl, r, calls)
    decreases |calls|
  {
    if calls != [] {
      ParityStep(c, ttl, m, r, now, calls[0]);
      SameReplies(c, ttl, MemoryStep(c, ttl, m, calls[0]).1, RedisStep(c, ttl, r, calls[0]).1, calls[1..], calls[0].now);
    }
  }

  /** The two ways a lagging call can still end alike: a record that closes the
      circuit, and one that trips it at a threshold of one. */
  predicate Coincides(c: Config, st: Cb, op: Op) {
    && op.Record? && st.state == HALF_OPEN
    && (if op.failed then c.failureThreshold == 1 else st.successes + 1 >= c.successThreshold)
  }

  /** Exactly when one call gets the same reply and leaves the same record. */
  lemma ParityIff(c: Config, ttl: int, m: Key, r: Key, before: int, call: Call)
    requires ValidConfig(c) && ttl > 0 && 0 < call.now <= INT64_MAX
    requires Aligned(c, ttl, m, r, before) && before <= call.now
    ensures
      (&& MemoryStep(c, ttl, m, call).0 == RedisStep(c, ttl, r, call).0
       && MemoryStep(c, ttl, m, call).1.st == RedisStep(c, ttl, r, call).1.st)
      <==> !Lagging(m, r, call.now) || Coincides(c, m.st, call.op)
  {
    if !Lagging(m, r, call.now) {
      ParityStep(c, ttl, m, r, before, call);
    }
  }

  /** A run the two stores answer differently: a failure, then an idle admission just
      before the record expires, then the second of two failures just after. In
      memory it trips the breaker; in Redis it is the first failure of a new key. */
  lemma RepliesDiffer(ttl: int)
    requires 0 < ttl < INT64_MAX - 10
    ensures var c := Config(30_000_000_000, 1, 2, 1);
            var calls := [Call(Record(true, false), 1), Call(Acquire, 1 + ttl), Call(Record(true, false), 2 + ttl)];
            && Ordered(calls, 0)
            && MemoryReplies(c, ttl, Key(ZERO, None), calls) == [NowIn(CLOSED), Decided(AllowClosed), NowIn(OPEN)]
            && RedisReplies(c, ttl, Key(ZERO, None), calls) == [NowIn(CLOSED), Decided(AllowClosed), NowIn(CLOSED)]
  {
    var c := Config(30_000_000_000, 1, 2, 1);
    var a, b, d := Call(Record(true, false), 1), Call(Acquire, 1 + ttl), Call(Record(true, false), 2 + ttl);
    assert [a, b, d][1..] == [b, d] && [b, d][1..] == [d] && [d][1..] == [];
    var k1 := Key(Cb(0, 1, 0, 0, 0), Some(1 + ttl));
    assert MemoryStep(c, ttl, Key(ZERO, None), a) == (NowIn(CLOSED), k1);
    assert RedisStep(c, ttl, Key(ZERO, None), a) == (NowIn(CLOSED), k1);
    var k2 := Key(Cb(0, 1, 0, 0, 0), Some(1 + ttl + ttl));
    assert MemoryStep(c, ttl, k1, b) == (Decided(AllowClosed), k2);
    assert RedisStep(c, ttl, k1, b) == (Decided(AllowClosed), k1);
    assert MemoryStep(c, ttl, k2, d).0 == NowIn(OPEN);
    assert RedisStep(c, ttl, k1, d).0 == NowIn(CLOSED);
    assert MemoryReplies(c, ttl, k2, [d]) == [NowIn(OPEN)];
    assert RedisReplies(c, ttl, k1, [d]) == [NowIn(CLOSED)];
    assert MemoryReplies(c, ttl, k1, [b, d]) == [Decided(AllowClosed), NowIn(OPEN)];
    assert RedisReplies(c, ttl, k1, [b, d]) == [Decided(AllowClosed), NowIn(CLOSED)];
  }
}
