/** The breaker scripts as the two stores run them. Both keep the record under a key
    that expires; the clock that decides and the clock that expires are one. */
module BreakerScripts {
  import opened Ratelimit
  import opened Decimal
  import opened SharedBreaker

  /** A record and the instant after which the store forgets it. */
  datatype Key = Key(st: Cb, expiresAt: Option<int>)

  predicate Expired(k: Key, now: int) {
    k.expiresAt.Some? && now > k.expiresAt.value
  }

  /** The key as a script finds it. */
  function Live(k: Key, now: int): Key {
    if Expired(k, now) then Key(ZERO, None) else k
  }

  /** In memory, every `Acquire` that does not find the circuit open rewrites the
      record and renews its expiry. */
  function MemoryAcquired(c: Config, ttl: int, k: Key, now: int): Key {
    var l := Live(k, now);
    Key(Acquired(c, l.st, now), if Decide(c, l.st, now).RejectOpen? then l.expiresAt else Some(now + ttl))
  }

  /** In Redis, only an `Acquire` that reserves a probe slot renews the expiry. */
  function RedisAcquired(c: Config, ttl: int, k: Key, now: int): Key {
    var l := Live(k, now);
    Key(Acquired(c, l.st, now), if Decide(c, l.st, now).AllowProbe? then Some(now + ttl) else l.expiresAt)
  }

  /** Every `Record` renews the expiry, in both. */
  function KeyRecorded(c: Config, ttl: int, k: Key, failed: bool, probe: bool, now: int): Key {
    Key(Recorded(c, Live(k, now).st, failed, probe, now), Some(now + ttl))
  }

  class MemoryEntry {
    var value: string
    var expiresAt: Option<int>

    function Abstract(): Key
      reads this
    {
      Key(FromText(value), expiresAt)
    }

    constructor ()
      ensures Abstract() == Key(ZERO, None)
    {
      value, expiresAt := "", None;
      FromEmptyText();
    }

    method Load(now: int)
      modifies this
      ensures Abstract() == Live(old(Abstract()), now)
    {
      if expiresAt.Some? && now > expiresAt.value {
        value, expiresAt := "", None;
        FromEmptyText();
      }
    }

    method Acquire(c: Config, ttl: int, now: int) returns (d: Decision)
      requires ValidConfig(c) && Wellformed(c, Abstract().st) && 0 < now <= INT64_MAX
      modifies this
      ensures d == Decide(c, Live(old(Abstract()), now).st, now)
      ensures Abstract() == MemoryAcquired(c, ttl, old(Abstract()), now) && Wellformed(c, Abstract().st)
    {
      hide FromText, Text;
      Load(now);
      var st := ParseState(value);
      WellformedKept(c, st, false, false, now);
      ghost var found := st;
      if st.state == 2 {
        if st.openedAt <= 0 || now - st.openedAt < c.openTimeout {
          return RejectOpen(st.openedAt);
        }
        st := st.(state := 1, successes := 0, inflight := 0);
      }
      if st.state == 1 {
        if st.inflight >= c.halfOpenMax {
          d := RejectProbe;
        } else {
          st := st.(inflight := st.inflight + 1);
          d := AllowProbe;
        }
      } else {
        d := AllowClosed;
      }
      assert st == Acquired(c, found, now);
      FromTextText(st);
      value, expiresAt := Text(st), Some(now + ttl);
    }

    method Record(c: Config, ttl: int, failed: bool, probe: bool, now: int) returns (state: int)
      requires ValidConfig(c) && Wellformed(c, Abstract().st) && 0 < now <= INT64_MAX
      modifies this
      ensures Abstract() == KeyRecorded(c, ttl, old(Abstract()), failed, probe, now) && Wellformed(c, Abstract().st)
      ensures state == Abstract().st.state
    {
      hide FromText, Text;
      Load(now);
      var st := ParseState(value);
      WellformedKept(c, st, failed, probe, now);
      ghost var found := st;
      if probe && st.inflight > 0 {
        st := st.(inflight := st.inflight - 1);
      }
      if st.state == 1 {
        if failed {
          st := Cb(2, 0, 0, now, 0);
        } else {
          st := st.(successes := st.successes + 1);
          if st.successes >= c.successThreshold {
            st := Cb(0, 0, 0, 0, 0);
          }
        }
      } else if st.state == 0 {
        if failed {
          st := st.(failures := st.failures + 1);
          if st.failures >= c.failureThreshold {
            st := Cb(2, 0, 0, now, 0);
          }
        }
      }
      assert st == Recorded(c, found, failed, probe, now);
      FromTextText(st);
      value, expiresAt := Text(st), Some(now + ttl);
      state := st.state;
    }

    method Read(c: Config, now: int) returns (st: Cb)
      ensures st == Reported(c, Live(Abstract(), now).st, now)
    {
      if expiresAt.Some? && now > expiresAt.value {
        return ZERO;
      }
      st := ParseState(value);
      if st.state == 2 && st.openedAt > 0 && now - st.openedAt >= c.openTimeout {
        st := st.(state := 1);
      }
    }
  }

  /** The fields of the Redis hash; a field never written reads as zero. */
  datatype Field = State | Failures | Successes | OpenedAt | Inflight

  function Get(h: map<Field, int>, f: Field): int {
    if f in h then h[f] else 0
  }

  function HashRecord(h: map<Field, int>): Cb {
    Cb(Get(h, State), Get(h, Failures), Get(h, Successes), Get(h, OpenedAt), Get(h, Inflight))
  }

  class RedisHash {
    var fields: map<Field, int>
    var expiresAt: Option<int>

    function Abstract(): Key
      reads this
    {
      Key(HashRecord(fields), expiresAt)
    }

    constructor ()
      ensures Abstract() == Key(ZERO, None)
    {
      fields, expiresAt := map[], None;
    }

    /** Redis drops an expired key before the script runs. */
    method Load(now: int)
      modifies this
      ensures Abstract() == Live(old(Abstract()), now)
    {
      if expiresAt.Some? && now > expiresAt.value {
        fields, expiresAt := map[], None;
      }
    }

    method Acquire(c: Config, ttl: int, now: int) returns (d: Decision)
      requires ValidConfig(c) && Wellformed(c, Abstract().st) && 0 < now <= INT64_MAX
      modifies this
      ensures d == Decide(c, Live(old(Abstract()), now).st, now)
      ensures Abstract() == RedisAcquired(c, ttl, old(Abstract()), now) && Wellformed(c, Abstract().st)
    {
      Load(now);
      WellformedKept(c, Abstract().st, false, false, now);
      var state, openedAt, inflight := Get(fields, State), Get(fields, OpenedAt), Get(fields, Inflight);
      if state == 2 {
        if openedAt > 0 && now - openedAt >= c.openTimeout {
          state, inflight := 1, 0;
          fields := fields[State := 1][Successes := 0][Inflight := 0];
        } else {
          return RejectOpen(openedAt);
        }
      }
      if state == 1 {
        if inflight >= c.halfOpenMax {
          return RejectProbe;
        }
        fields := fields[Inflight := Get(fields, Inflight) + 1];
        expiresAt := Some(now + ttl);
        return AllowProbe;
      }
      return AllowClosed;
    }

    method Record(c: Config, ttl: int, failed: bool, probe: bool, now: int) returns (state: int)
      requires ValidConfig(c) && Wellformed(c, Abstract().st) && 0 < now <= INT64_MAX
      modifies this
      ensures Abstract() == KeyRecorded(c, ttl, old(Abstract()), failed, probe, now) && Wellformed(c, Abstract().st)
      ensures state == Abstract().st.state
    {
      Load(now);
      WellformedKept(c, Abstract().st, failed, probe, now);
      state := Get(fields, State);
      var failures, successes, inflight := Get(fields, Failures), Get(fields, Successes), Get(fields, Inflight);
      if probe && inflight > 0 {
        inflight := inflight - 1;
      }
      if state == 1 {
        if failed {
          state := Open(now);
        } else {
          successes := successes + 1;
          if successes >= c.successThreshold {
            state := Close();
          } else {
            fields := fields[Successes := successes][Inflight := inflight];
          }
        }
      } else if state == 0 {
        if failed {
          failures := failures + 1;
          if failures >= c.failureThreshold {
            state := Open(now);
          } else {
            fields := fields[Failures := failures][Inflight := inflight];
          }
        } else {
          fields := fields[Inflight := inflight];
        }
      } else {
        fields := fields[Inflight := inflight];
      }
      expiresAt := Some(now + ttl);
    }

    method Open(now: int) returns (state: int)
      modifies this
      ensures HashRecord(fields) == Tripped(now) && state == OPEN && expiresAt == old(expiresAt)
    {
      fields := fields[State := 2][Failures := 0][Successes := 0][OpenedAt := now][Inflight := 0];
      state := 2;
    }

    method Close() returns (state: int)
      modifies this
      ensures HashRecord(fields) == ZERO && state == CLOSED && expiresAt == old(expiresAt)
    {
      fields := fields[State := 0][Failures := 0][Successes := 0][OpenedAt := 0][Inflight := 0];
      state := 0;
    }

    method Read(c: Config, now: int) returns (st: Cb)
      ensures st == Reported(c, Live(Abstract(), now).st, now)
    {
      if expiresAt.Some? && now > expiresAt.value {
        return ZERO;
      }
      st := HashRecord(fields);
      if st.state == 2 && st.openedAt > 0 && now - st.openedAt >= c.openTimeout {
        st := st.(state := 1);
      }
    }
  }
}
