/** What a chain of limiters reports of the answers its members gave. */
module ChainResults {
  import opened Ratelimit

  /** All tiers allowed: the least `Remaining`, with the limit of a tier that has it, and
      the longest reset. */
  method AllowResult(results: seq<Result>) returns (out: Result)
    requires results != []
    ensures out.allowed && out.retryAfter == 0
    ensures forall i | 0 <= i < |results| :: out.remaining <= results[i].remaining && out.resetAfter >= results[i].resetAfter
    ensures exists i :: 0 <= i < |results| && results[i].remaining == out.remaining && results[i].limit == out.limit
    ensures exists i :: 0 <= i < |results| && results[i].resetAfter == out.resetAfter
  {
    out := results[0];
    ghost var least, longest := 0, 0;
    for k := 1 to |results|
      invariant least < k && results[least].remaining == out.remaining && results[least].limit == out.limit
      invariant longest < k && results[longest].resetAfter == out.resetAfter
      invariant forall i | 0 <= i < k :: out.remaining <= results[i].remaining && out.resetAfter >= results[i].resetAfter
    {
      if results[k].remaining < out.remaining {
        out := out.(remaining := results[k].remaining, limit := results[k].limit);
        least := k;
      }
      if results[k].resetAfter > out.resetAfter {
        out := out.(resetAfter := results[k].resetAfter);
        longest := k;
      }
    }
    out := out.(allowed := true, retryAfter := 0);
  }

  /** Some limiter denied: the longest wait and the least `Remaining`. */
  method MostRestrictive(results: seq<Result>) returns (worst: Result)
    requires results != []
    ensures !worst.allowed && worst.limit == results[0].limit && worst.resetAfter == results[0].resetAfter
    ensures forall i | 0 <= i < |results| :: worst.remaining <= results[i].remaining && worst.retryAfter >= results[i].retryAfter
    ensures exists i :: 0 <= i < |results| && results[i].remaining == worst.remaining
    ensures exists i :: 0 <= i < |results| && results[i].retryAfter == worst.retryAfter
  {
    worst := results[0];
    ghost var least, longest := 0, 0;
    for k := 1 to |results|
      invariant least < k && results[least].remaining == worst.remaining
      invariant worst.limit == results[0].limit && worst.resetAfter == results[0].resetAfter
      invariant longest < k && results[longest].retryAfter == worst.retryAfter
      invariant forall i | 0 <= i < k :: worst.remaining <= results[i].remaining && worst.retryAfter >= results[i].retryAfter
    {
      if results[k].retryAfter > worst.retryAfter {
        worst := worst.(retryAfter := results[k].retryAfter);
        longest := k;
      }
      if results[k].remaining < worst.remaining {
        worst := worst.(remaining := results[k].remaining);
        least := k;
      }
    }
    worst := worst.(allowed := false);
  }

  /** All limiters allowed: the first answer with the least `Remaining`. */
  method LeastRemaining(results: seq<Result>) returns (least: Result, ghost at: nat)
    requires results != []
    ensures at < |results| && least == results[at]
    ensures forall i | 0 <= i < |results| :: least.remaining <= results[i].remaining
    ensures forall i | 0 <= i < at :: least.remaining < results[i].remaining
  {
    least, at := results[0], 0;
    for k := 1 to |results|
      invariant at < k && least == results[at]
      invariant forall i | 0 <= i < k :: least.remaining <= results[i].remaining
      invariant forall i | 0 <= i < at :: least.remaining < results[i].remaining
    {
      if results[k].remaining < least.remaining {
        least, at := results[k], k;
      }
    }
  }

  /** All limiters denied: the first answer with the shortest wait. */
  method ShortestRetry(results: seq<Result>) returns (shortest: Result, ghost at: nat)
    requires results != []
    ensures at < |results| && shortest == results[at]
    ensures forall i | 0 <= i < |results| :: shortest.retryAfter <= results[i].retryAfter
    ensures forall i | 0 <= i < at :: shortest.retryAfter < results[i].retryAfter
  {
    shortest, at := results[0], 0;
    for k := 1 to |results|
      invariant at < k && shortest == results[at]
      invariant forall i | 0 <= i < k :: shortest.retryAfter <= results[i].retryAfter
      invariant forall i | 0 <= i < at :: shortest.retryAfter < results[i].retryAfter
    {
      if results[k].retryAfter < shortest.retryAfter {
        shortest, at := results[k], k;
      }
    }
  }

  /** What an AND call that is denied reports: of the limiters whose Peek fell short, the
      longest wait; and the least `Remaining` among theirs and the first one's Peek.
      `answers` holds the answers of those that fell short. */
  method DenyResultAnd(peeks: seq<int>, limits: seq<int>, answers: seq<Result>, n: int) returns (out: Result)
    requires 0 < |peeks| == |limits| == |answers|
    ensures !out.allowed && out.resetAfter == 0
    ensures forall i | 0 <= i < |peeks| && peeks[i] < n ::
      out.retryAfter >= answers[i].retryAfter && out.remaining <= answers[i].remaining
    ensures out.remaining <= peeks[0]
    ensures out.retryAfter == 0 || exists i :: 0 <= i < |peeks| && peeks[i] < n && out.retryAfter == answers[i].retryAfter
    ensures (out.remaining == peeks[0] && out.limit == limits[0])
         || exists i :: 0 <= i < |peeks| && peeks[i] < n && out.remaining == answers[i].remaining && out.limit == answers[i].limit
  {
    out := Result(false, limits[0], peeks[0], 0, 0);
    ghost var longest, least := -1, -1;
    for k := 0 to |peeks|
      invariant !out.allowed && out.resetAfter == 0 && out.remaining <= peeks[0]
      invariant -1 <= longest < k && -1 <= least < k
      invariant if longest < 0 then out.retryAfter == 0
                else peeks[longest] < n && out.retryAfter == answers[longest].retryAfter
      invariant if least < 0 then out.remaining == peeks[0] && out.limit == limits[0]
                else peeks[least] < n && out.remaining == answers[least].remaining && out.limit == answers[least].limit
      invariant forall i | 0 <= i < k && peeks[i] < n ::
        out.retryAfter >= answers[i].retryAfter && out.remaining <= answers[i].remaining
    {
      if peeks[k] >= n {
        continue;
      }
      var r := answers[k];
      if r.retryAfter > out.retryAfter {
        out := out.(retryAfter := r.retryAfter);
        longest := k;
      }
      if r.remaining < out.remaining {
        out := out.(remaining := r.remaining, limit := r.limit);
        least := k;
      }
    }
  }
}
