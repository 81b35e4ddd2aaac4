/** One key of the queueing leaky bucket: a first-in-first-out channel and a heap of
    priority waiters under one capacity, served one waiter per tick. */
module LeakyQueue {
  import opened Arith
  import opened Ratelimit
  import opened PriorityHeap

  /** What a tick does. Channel waiters are named by their result channel. */
  datatype Served =
    | ToToken(token: Token, remaining: int)
    | ToWaiter(waiter: nat, allowed: bool, remaining: int)
    | Idle

  /** Among the waiters that are not cancelled `t` has the highest priority, and is the
      earliest arrival of that priority. */
  ghost predicate First(q: seq<Token>, cancelled: set<Token>, t: Token) {
    && t in q && t !in cancelled
    && forall u | u in q && u !in cancelled && u != t ::
         u.priority < t.priority || (u.priority == t.priority && t.seqNo < u.seqNo)
  }

  /** Arrival numbers are given out once each, below `next`. */
  ghost predicate Arrived(q: seq<Token>, next: nat) {
    && (forall t | t in q :: t.seqNo < next)
    && (forall t, u | t in q && u in q && t.seqNo == u.seqNo :: t == u)
  }

  /** Some tokens taken out of `q` leave `r`. */
  ghost predicate Without(q: seq<Token>, r: seq<Token>, out: seq<Token>) {
    Contents(q) == Contents(r) + Contents(out)
  }

  lemma WithoutOne(q: seq<Token>, r: seq<Token>, out: seq<Token>, r': seq<Token>, t: Token)
    requires Without(q, r, out) && Contents(r) == Contents(r') + multiset{t}
    ensures Without(q, r', out + [t]) && |r| == |r'| + 1
  {
    assert |Contents(r)| == |r| && |Contents(r')| == |r'|;
  }

  lemma Members(q: seq<Token>, r: seq<Token>, out: seq<Token>)
    requires Without(q, r, out)
    ensures forall t :: t in q <==> t in r || t in out
    ensures |q| == |r| + |out|
  {
    forall t
      ensures t in q <==> t in r || t in out
    {
      assert t in q <==> t in Contents(q);
      assert t in r <==> t in Contents(r);
      assert t in out <==> t in Contents(out);
    }
    assert |Contents(q)| == |q| && |Contents(r)| == |r| && |Contents(out)| == |out|;
  }

  class KeyQueue {
    const capacity: nat
    /** Requests per nanosecond. */
    const leakRate: real
    const heap: PriorityQueue
    var ch: seq<nat>
    var nextSeq: nat

    ghost predicate Valid()
      reads this, heap, heap.pq
    {
      heap.Valid() && Arrived(heap.pq, nextSeq) && |ch| + |heap.pq| <= capacity && leakRate > 0.0
    }

    constructor (capacity: nat, leakRate: real)
      requires leakRate > 0.0
      ensures Valid() && this.capacity == capacity && this.leakRate == leakRate && ch == [] && heap.pq == [] && fresh(heap)
    {
      this.capacity := capacity;
      this.leakRate := leakRate;
      heap := new PriorityQueue();
      ch := [];
      nextSeq := 0;
    }

    function Depth(): nat
      reads this, heap
    {
      |ch| + |heap.pq|
    }

    /** How long the queue and one more take to leak. */
    function RetryAfter(): (wait: int)
      reads this, heap
      requires leakRate > 0.0
      ensures wait >= 0 && leakRate * wait as real <= (Depth() + 1) as real < leakRate * (wait + 1) as real
    {
      RQuotient((Depth() + 1) as real, leakRate);
      ((Depth() + 1) as real / leakRate).Floor
    }

    method Allow1(waiter: nat) returns (queued: bool, retryAfter: int)
      requires Valid()
      modifies this
      ensures Valid() && queued == (old(Depth()) < capacity) && retryAfter == if queued then 0 else old(RetryAfter())
      ensures ch == (if queued then old(ch) + [waiter] else old(ch)) && nextSeq == old(nextSeq)
    {
      if Depth() >= capacity {
        return false, RetryAfter();
      }
      ch := ch + [waiter];
      return true, 0;
    }

    /** All of the batch is queued, in order, or none of it. A batch that never fits is
        given no time to wait. */
    method AllowN(waiters: seq<nat>) returns (queued: bool, retryAfter: int)
      requires Valid() && |waiters| >= 1
      modifies this
      ensures Valid() && queued == (old(Depth()) + |waiters| <= capacity)
      ensures retryAfter == if queued || |waiters| > capacity then 0 else old(RetryAfter())
      ensures ch == (if queued then old(ch) + waiters else old(ch)) && nextSeq == old(nextSeq)
    {
      var n := |waiters|;
      if n > capacity {
        return false, 0;
      }
      if n == 1 {
        queued, retryAfter := Allow1(waiters[0]);
        assert [waiters[0]] == waiters;
        return;
      }
      if capacity - Depth() < n {
        return false, RetryAfter();
      }
      for i := 0 to n
        invariant Valid() && ch == old(ch) + waiters[..i] && nextSeq == old(nextSeq)
      {
        ch := ch + [waiters[i]];
        assert waiters[..i] + [waiters[i]] == waiters[..i + 1];
      }
      assert waiters[..n] == waiters;
      return true, 0;
    }

    method AllowP(priority: int) returns (t: Option<Token>, retryAfter: int)
      requires Valid()
      modifies this, heap, heap.pq
      ensures Valid() && t.Some? == (old(Depth()) < capacity) && ch == old(ch)
      ensures t.None? ==> heap.pq == old(heap.pq) && nextSeq == old(nextSeq)
      ensures retryAfter == if t.Some? then 0 else old(RetryAfter())
      ensures t.Some? ==> fresh(t.value) && t.value.priority == priority && t.value.seqNo == old(nextSeq)
      ensures t.Some? ==> Contents(heap.pq) == Contents(old(heap.pq)) + multiset{t.value}
    {
      if Depth() >= capacity {
        return None, RetryAfter();
      }
      var token := new Token(priority, nextSeq);
      nextSeq := nextSeq + 1;
      ghost var before := heap.pq;
      heap.Push(token);
      assert Without(heap.pq, before, [token]);
      Members(heap.pq, before, [token]);
      return Some(token), 0;
    }

    /** A waiter that gives up takes itself out if it is still waiting. */
    method Cancel(t: Token)
      requires Valid()
      modifies this, heap, heap.pq
      ensures Valid() && ch == old(ch) && nextSeq == old(nextSeq)
      ensures if t in old(heap.pq) then Contents(old(heap.pq)) == Contents(heap.pq) + multiset{t} && t.index == -1
              else heap.pq == old(heap.pq)
    {
      if 0 <= t.index < |heap.pq| && heap.pq[t.index] == t {
        ghost var before := heap.pq;
        var removed := heap.Remove(t.index);
        assert Without(before, heap.pq, [removed]);
        Members(before, heap.pq, [removed]);
      }
    }

    /** The live waiter that goes first leaves the heap; the cancelled ones met on the
        way are dropped, and nothing else is. */
    method PopReady(cancelled: set<Token>) returns (r: Option<Token>, ghost dropped: seq<Token>)
      requires Valid()
      modifies heap, heap.pq
      ensures Valid()
      ensures r.Some? <==> exists t :: t in old(heap.pq) && t !in cancelled
      ensures r.Some? ==> First(old(heap.pq), cancelled, r.value) && Without(old(heap.pq), heap.pq, dropped + [r.value])
      ensures r.None? ==> heap.pq == [] && Without(old(heap.pq), heap.pq, dropped)
      ensures forall d | d in dropped :: d in cancelled
    {
      dropped := [];
      while |heap.pq| > 0
        invariant heap.Valid() && Arrived(heap.pq, nextSeq)
        invariant Without(old(heap.pq), heap.pq, dropped)
        invariant forall d | d in dropped :: d in cancelled
        decreases |heap.pq|
      {
        ghost var before := heap.pq;
        Members(old(heap.pq), before, dropped);
        assert forall i | 0 <= i < |before| :: before[i] in old(heap.pq);
        var t := heap.Pop();
        WithoutOne(old(heap.pq), before, dropped, heap.pq, t);
        assert Without(before, heap.pq, [t]);
        Members(before, heap.pq, [t]);
        if t !in cancelled {
          assert forall u | u in old(heap.pq) && u !in cancelled :: u in before;
          return Some(t), dropped;
        }
        dropped := dropped + [t];
      }
      Members(old(heap.pq), heap.pq, dropped);
      r := None;
    }

    /** One tick serves at most one waiter: a live priority waiter if there is one, and
        otherwise the head of the channel, who is refused if it gave up. */
    method Tick(cancelled: set<Token>, gone: set<nat>) returns (s: Served, ghost dropped: seq<Token>)
      requires Valid()
      modifies this, heap, heap.pq
      ensures Valid() && nextSeq == old(nextSeq)
      ensures s.ToToken? <==> exists t :: t in old(heap.pq) && t !in cancelled
      ensures s.ToToken? ==> First(old(heap.pq), cancelled, s.token) && ch == old(ch)
      ensures s.ToToken? ==> s.remaining == Max(capacity - Depth() - 1, 0)
      ensures s.ToWaiter? ==> old(ch) == [s.waiter] + ch && s.allowed == (s.waiter !in gone) && heap.pq == []
      ensures s.ToWaiter? ==> s.remaining == if s.allowed then Max(capacity - Depth() - 1, 0) else 0
      ensures s.Idle? ==> Depth() == 0 && ch == old(ch)
      ensures Without(old(heap.pq), heap.pq, dropped + if s.ToToken? then [s.token] else [])
      ensures forall d | d in dropped :: d in cancelled
    {
      var r;
      r, dropped := PopReady(cancelled);
      assert dropped + [] == dropped;
      match r
      case Some(t) =>
        s := ToToken(t, Max(capacity - Depth() - 1, 0));
      case None =>
        if ch == [] {
          return Idle, dropped;
        }
        var w := ch[0];
        ch := ch[1..];
        s := ToWaiter(w, w !in gone, if w in gone then 0 else Max(capacity - |ch| - 1, 0));
    }
  }
}
