# Verified model of the rate limiters and circuit breakers

A Dafny model of the decision kernels of the toolkit, and proofs of what every run
of them keeps. `dafny verify dfyconfig.toml` checks all of it.

- **Meters.** `Gcra`, `TokenBucket` and `TatScripts` (the GCRA and leaky-bucket store
  scripts) are shown to be one meter in three forms (`MeterEquivalence`), with bounds
  over every interval of every run.
- **Sliding windows.** `SlidingLog` and `SlidingCounter`; `SharedCounter` for runs of the
  distributed counter; `ZSet`, `ZSetText` and `LogScript` for the log kept as a sorted set
  in one text value, and `LogCollisions` for it when entry ids collide.
- **Chains.** `Meters` states the Peek/AllowN law once for the four limiters; `Chains`
  builds the tiered and composite limiters on it, `ChainResults` what they report.
- **Shared breaker.** `SharedBreaker` is what the scripts decide, `BreakerScripts` the two
  implementations, `BreakerParity` their comparison, `BreakerProtocol` every interleaving
  of clients, late recorders and expiries, `BreakerAnswers` exactly when it trips and what
  it answers, and `BreakerRefinement` ties the stores to it.
- **Local breaker.** `CountWindow` and `TimeWindow` are the metrics, `LocalBreaker` the
  object, `LocalBreakerRuns` its runs with overlapping calls, `ProbeCounter` the probe
  counter at the grain of single loads and swaps, `ProbeStrategy` the ramps.
- **Queues.** `PriorityHeap` and `LeakyQueue` are the queueing leaky bucket, `ThreadPool`
  and `ThreadPoolProgress` the submit/close protocol of the worker pool.

State that the code updates in place is a class; each method is proved against a
function on values, and the run-level theorems are lemmas about those functions. Clocks
are parameters in integer nanoseconds and do not run backwards; token balances and
weighted counts are reals. Concurrency is a state machine: one lock-protected section,
script, channel operation or atomic access is one step.

## Where the code does less than it says

Each of these has a lemma with a failing input, or with the whole failing family, and a
theorem with the exact condition.

- The idle clean-up of GCRA and the token bucket forgets limits slower than five
  minutes: `Gcra.EvictionForgetsHourlyLimit`, `Gcra.EvictionSafeIff`;
  `TokenBucket.EvictionForgetsHourlyLimit`, `TokenBucket.EvictionSafeIff`.
- GCRA rounds its emission interval down, so it keeps the rate it was given only if the
  limit divides the window in nanoseconds: `Gcra.ExceedsRate`, `Gcra.KeepsRateIff`.
- The distributed GCRA's time to live is truncated and has no margin:
  `TatScripts.OnlyLeakyTtlAlwaysSafe`, `TatScripts.GcraExpirySafeIff`.
- The token bucket's `RetryAfter` is truncated: `TokenBucket.RetryAfterFallsShort`,
  `TokenBucket.RetryAfterSufficesIff`. The sliding log's never suffices, since an entry
  exactly one window old still counts: `SlidingLog.RetryAfterIsShort`,
  `SlidingLog.SufficientWaitIff`.
- The distributed leaky bucket's `Remaining` is one too many between whole slots:
  `TatScripts.ReportedRemainingOneTooMany`, `TatScripts.ReportedRemainingExactIff`.
- A tiered call can debit some tiers and be denied, because Peek does not validate a
  derived key and because two tiers may share a meter: `Chains.InvalidTenantKeyLeaks`,
  `Chains.SharedMeterLeaks`, `Chains.PartialDebitIff`. Debits are not credited back.
- The stored log admits too much when calls within a window carry the same entry id,
  which two processes can give: `LogCollisions.CollisionOverAdmits`,
  `LogCollisions.OverAdmitsIff`, `LogCollisions.BoundHoldsIff`.
- The distributed counter can forget the previous window too early when the window is
  not a whole number of milliseconds: `SharedCounter.ForgottenWindow`,
  `SharedCounter.BoundedIff`.
- Acquire in the closed state renews the key's expiry in memory but not in Lua, so the
  two can answer differently: `BreakerParity.RepliesDiffer`, `BreakerParity.ParityIff`.
- A probe that records after its episode ended releases a slot of the current one, so
  more than `HalfOpenMax` probes can run: `BreakerProtocol.LateRecorderIsReachable`,
  `BreakerProtocol.LateRecorderOverbooks`, `BreakerProtocol.FillingUp`. Outcomes of calls
  that reserved nothing count towards closing, and a half-open key that expires is closed:
  `BreakerProtocol.ClosedWithoutItsProbe`, `BreakerProtocol.Recovery`.
- Entering half-open the local probe counter need not be zero, although a comment says
  so: `LocalBreakerRuns.StragglerBlocksNextEpisode`,
  `LocalBreakerRuns.StragglersKeepTheirSlots`.
- A count-based breaker with `FailureThreshold` above `WindowSize` never trips:
  `LocalBreakerRuns.CanTripIff`.
- A second `Close` of the pool returns before the workers finish, and a task whose
  Submit returned `ErrPoolClosed` may still run: `ThreadPool.LosingCloseReturnsEarly`,
  `ThreadPool.RefusedTaskMayRun`; the Close that won the flag keeps the promise,
  `ThreadPool.AcceptedIsDone`, and a task never sent does not run, `ThreadPool.AtMostOnce`.

A difference rather than a failure: the stored log drops an entry exactly one window
old, and the in-process log keeps it (`LogScript.IsSlidingLog`).

## Model

| member | source | states |
|---|---|---|
| `Gcra.Limiter.constructor` | ratelimit/gcra/gcra.go:79-112 | the limit as given, a burst of at least one, and an interval T with T·limit ≤ window < (T + 1)·limit, positive when the window is at least `limit` nanoseconds |
| `Gcra.Limiter.Consume` | ratelimit/gcra/gcra.go:314-370 | one decision on one entry: the new entry and every field of the answer |
| `Gcra.Limiter.AllowN` | ratelimit/gcra/gcra.go:121-152 | admitted iff the backlog the request leaves fits in `burst` intervals; the new entry and every field of the answer: what remains of the entry the call leaves and, of a denial, the wait from which on the same request is admitted; a bad key or count changes nothing |
| `Gcra.Limiter.Peek` | ratelimit/gcra/gcra.go:226-272 | `Remaining` computed from the effective TAT is the largest request that fits now, and the wait that of a single unit; the reset time; the stored TAT is unchanged |
| `Gcra.RemainingIsExact` | ratelimit/gcra/gcra.go:226-272 | `Remaining` is at least n iff n would be admitted, for every entry and instant |
| `Gcra.PeekAllowLaw` | ratelimit/gcra/gcra.go:226-370 | at one instant AllowN(n) succeeds iff `Remaining` ≥ n; success lowers it by exactly n; a denial leaves the TAT alone |
| `Gcra.RetryAfterIsLeast` | ratelimit/gcra/gcra.go:314-347 | a wait is long enough iff it is at least `RetryAfter`, so it is the least one; a request above the burst never succeeds |
| `Gcra.BoundedPreserved` | ratelimit/gcra/gcra.go:314-370 | the TAT never leads the last access by more than the burst window |
| `Gcra.BurstBound` | ratelimit/gcra/gcra.go:314-370 | in every interval [s, t] of every monotone run from any entry at most burst + (t − s)/T units are admitted |
| `Gcra.BurstBoundFrom` | ratelimit/gcra/gcra.go:314-370 | the sharper bound for a run inside the interval: the backlog at s is subtracted |
| `Gcra.BusySince` | ratelimit/gcra/gcra.go:314-370 | after every run a backlog is at most T times what was admitted since some instant, less the time since |
| `Gcra.AdmittedExactly` | ratelimit/gcra/gcra.go:314-370 | after every run a request is admitted iff with it every interval that ends now keeps the burst bound: nothing is denied that the bound allows |
| `Gcra.KeepsRateIff` | ratelimit/gcra/gcra.go:79-112 | never more than burst + limit·length/window in any interval of any run, iff `limit` divides the window |
| `Gcra.ExceedsRate` | ratelimit/gcra/gcra.go:79-112 | otherwise a full burst and one more unit an interval later exceed it |
| `Gcra.EvictionSafeIff` | ratelimit/gcra/gcra.go:381-402 | evicting idle keys is invisible to every later decision iff T·burst ≤ idleClean + 1 |
| `Gcra.EvictionForgetsHourlyLimit` | ratelimit/gcra/gcra.go:381-402 | the default five-minute clean-up admits a second request under a limit of one an hour |
| `TokenBucket.Limiter.Refill` | ratelimit/tokenbucket/tokenbucket.go:350-362 | the in-place refill is the capped linear accrual since the last refill |
| `TokenBucket.Limiter.Consume` | ratelimit/tokenbucket/tokenbucket.go:365-411 | takes all of the cost or none: the new balance and every field of the answer; a denied cost stays denied for `RetryAfter` and fits one nanosecond later |
| `TokenBucket.Limiter.AllowN` | ratelimit/tokenbucket/tokenbucket.go:124-145 | admitted iff the accrued balance covers the cost; the answer gives the whole tokens left, and within a nanosecond the time until the bucket is full and until a denied cost is covered; a bad key or count changes nothing |
| `TokenBucket.Limiter.AllowCost` | ratelimit/tokenbucket/tokenbucket.go:154-173 | the same for fractional costs |
| `TokenBucket.Limiter.Peek` | ratelimit/tokenbucket/tokenbucket.go:250-278 | reports the whole part of the accrued balance and, within a nanosecond, the time until it is full, and stores only the refill |
| `TokenBucket.Limiter.SetLimit` | ratelimit/tokenbucket/tokenbucket.go:316-338 | retuning keeps every key and clamps every balance to the new capacity |
| `TokenBucket.LevelLater` | ratelimit/tokenbucket/tokenbucket.go:350-362 | a balance at a later instant is the earlier one plus what accrued, capped |
| `TokenBucket.RefillComposes` | ratelimit/tokenbucket/tokenbucket.go:350-362 | refilling at an intermediate instant never changes a later balance |
| `TokenBucket.PeekAllowLaw` | ratelimit/tokenbucket/tokenbucket.go:250-411 | at one instant AllowN(n) succeeds iff `Remaining` ≥ n; success lowers it by n; a denial keeps the balance |
| `TokenBucket.AdmittedAfterWaitIff` | ratelimit/tokenbucket/tokenbucket.go:365-411 | after a denial a wait suffices iff it accrues the missing tokens |
| `TokenBucket.RetryAfterSufficesIff` | ratelimit/tokenbucket/tokenbucket.go:365-411 | `RetryAfter` suffices iff its truncation to nanoseconds lost nothing; one more nanosecond always does and no shorter wait does |
| `TokenBucket.RetryAfterFallsShort` | ratelimit/tokenbucket/tokenbucket.go:365-411 | an emptied bucket at three tokens a second for which it does not suffice |
| `TokenBucket.BurstBound` | ratelimit/tokenbucket/tokenbucket.go:350-411 | in every interval [s, t] of every run of requests of any cost at most capacity + rate·(t − s) tokens are admitted |
| `TokenBucket.BurstBoundFrom` | ratelimit/tokenbucket/tokenbucket.go:350-411 | the sharper bound for a run inside the interval: the balance at s replaces the capacity |
| `TokenBucket.EvictionSafeIff` | ratelimit/tokenbucket/tokenbucket.go:414-435 | evicting idle keys is invisible to every later request, of whatever cost, iff capacity ≤ rate·(idleClean + 1); otherwise a bucket emptied by one request shows it |
| `TokenBucket.EvictionForgetsHourlyLimit` | ratelimit/tokenbucket/tokenbucket.go:414-435 | the default five-minute clean-up admits a second request under a limit of one an hour |
| `TatScripts.LeakyScript` | ratelimit/store/scripts_memory.go:320-397 | the emulated leaky-bucket script: decision, wait, stored TAT and expiry, clamped depth, in terms of the GCRA backlog |
| `TatScripts.LeakyAllow` | ratelimit/leakybucket/distributed.go:115-163 | the limiter's key and count checks, time to live and `Remaining` around the script |
| `TatScripts.GcraScript` | ratelimit/store/scripts_memory.go:237-306 | the emulated GCRA script: decision, wait, stored TAT and expiry |
| `TatScripts.TracksStep` | ratelimit/store/redis.go:744-832 | a stored TAT whose key outlives its backlog decides as a GCRA entry that is never forgotten, and keeps doing so |
| `TatScripts.LeakyTtlCovers` | ratelimit/leakybucket/distributed.go:126-136 | the leaky bucket's key outlives its backlog, by a second to the millisecond |
| `TatScripts.TracksRun` | ratelimit/store/redis.go:744-832 | and so every monotone run is decided as a GCRA that forgets nothing decides it, for any time to live that covers the burst |
| `TatScripts.ExpirySafeIff` | ratelimit/store/redis.go:744-769 | letting the key expire is invisible in every run iff T·burst ≤ time to live + 1 ns |
| `TatScripts.ForgottenTooEarly` | ratelimit/store/redis.go:744-769 | the two-call run that shows it otherwise |
| `TatScripts.LeakyIsGcra` | ratelimit/store/redis.go:794-832 | the leaky-bucket script under its expiring key decides every monotone run as GCRA does |
| `TatScripts.OnlyLeakyTtlAlwaysSafe` | ratelimit/gcra/distributed.go:95-106 | the leaky bucket's expiry is invisible for every configuration; the distributed GCRA's truncated one is not |
| `TatScripts.GcraExpirySafeIff` | ratelimit/gcra/distributed.go:95-106 | it is iff the burst window is at most a second or exceeds whole milliseconds by at most a nanosecond |
| `TatScripts.ReportedRemainingExactIff` | ratelimit/leakybucket/distributed.go:148-160 | the reported `Remaining` is exact iff the backlog is a whole number of slots, and one too many otherwise |
| `TatScripts.ReportedRemainingOneTooMany` | ratelimit/leakybucket/distributed.go:148-160 | a two-call run after which one slot is reported and the next unit is denied |
| `MeterEquivalence.CoupledLater` | ratelimit/tokenbucket/tokenbucket.go:350-362 | tokens = burst − max(0, TAT − now)/T is preserved by the passage of time |
| `MeterEquivalence.CoupledStep` | ratelimit/gcra/gcra.go:314-370 | and by every AllowN, on which both decide alike |
| `MeterEquivalence.GcraIsTokenBucket` | ratelimit/gcra/gcra.go:314-370 | GCRA(T, burst) and the bucket of capacity burst and rate 1/T make the same decisions on every monotone run |
| `MeterEquivalence.ThreeFormsOneMeter` | ratelimit/store/redis.go:794-832 | from fresh keys all three give the same answers to every run |
| `SlidingLog.Limiter.Prune` | ratelimit/slidingwindow/log.go:300-307 | the binary-search prune of a sorted log is the filter by time |
| `SlidingLog.Limiter.Consume` | ratelimit/slidingwindow/log.go:260-297 | the append loop and every field of the answer, the wait of a denial included |
| `SlidingLog.Limiter.AllowN` | ratelimit/slidingwindow/log.go:260-297 | admitted iff the live entries leave room for n; n copies of now are appended; the answer gives the room left and, of a denial, the last instant at which the oldest live entry counts; a bad key or count changes nothing |
| `SlidingLog.Limiter.Peek` | ratelimit/slidingwindow/log.go:202-230 | reports the room left and when the oldest entry ages out, and stores only the prune |
| `SlidingLog.PeekAllowLaw` | ratelimit/slidingwindow/log.go:202-297 | at one instant AllowN(n) succeeds iff `Remaining` ≥ n; success lowers it by n; a denial keeps the live entries |
| `SlidingLog.RetryAfterIsShort` | ratelimit/slidingwindow/log.go:260-307 | after the reported wait nothing has left the log and the same request is denied again; one nanosecond later the oldest entry is gone |
| `SlidingLog.SufficientWaitIff` | ratelimit/slidingwindow/log.go:260-307 | for a denied n ≤ limit, exactly which waits are long enough: those past the ageing out of the last entry that stands in the way |
| `SlidingLog.BoundAtAdmission` | ratelimit/slidingwindow/log.go:260-297 | an admission keeps every closed interval one window long within the limit |
| `SlidingLog.WindowBound` | ratelimit/slidingwindow/log.go:260-297 | in every run every closed interval one window long holds at most `limit` admissions |
| `SlidingLog.AdmittedExactly` | ratelimit/slidingwindow/log.go:260-307 | after every run a request is admitted iff the admissions of the closed window that ends now leave room for it |
| `SlidingLog.EvictionUnobservable` | ratelimit/slidingwindow/log.go:309-327 | forgetting a key idle for two windows changes no later view of it |
| `SlidingCounter.Limiter.EffectiveCount` | ratelimit/slidingwindow/counter.go:287-303 | the two buckets after the roll, and the weighted count |
| `SlidingCounter.Limiter.AllowN` | ratelimit/slidingwindow/counter.go:305-374 | admitted iff the weighted count leaves room for n; the new buckets; the limit and `Remaining`; a denial's reset time and its wait, as for RetryAfter |
| `SlidingCounter.Limiter.Peek` | ratelimit/slidingwindow/counter.go:231-257 | reports the whole part of the room left and the end of the window, and stores only the roll |
| `SlidingCounter.Limiter.RetryAfter` | ratelimit/slidingwindow/counter.go:317-353 | no shorter wait is enough; one nanosecond more is, unless the window is over by then; it is the rest of the window if the window's own count is in the way |
| `SlidingCounter.PeekAllowLaw` | ratelimit/slidingwindow/counter.go:231-374 | at one instant AllowN(n) succeeds iff `Remaining` ≥ n; success lowers it by n; a denial keeps the load |
| `SlidingCounter.RollComposes` | ratelimit/slidingwindow/counter.go:287-303 | rolling the buckets at an intermediate instant never changes a later roll |
| `SlidingCounter.BoundAtAdmission` | ratelimit/slidingwindow/counter.go:305-374 | the interval one window long around an admission holds at most limit + P·f, P the previous count and f the elapsed fraction |
| `SlidingCounter.WindowBound` | ratelimit/slidingwindow/counter.go:287-374 | in every run every closed interval one window long holds at most limit + limit·(window − 1)/window admissions, and so fewer than 2·limit |
| `SlidingCounter.AdmittedExactly` | ratelimit/slidingwindow/counter.go:287-374 | after every run a request is admitted iff P·(w − e) + w·(C + n) ≤ w·limit, C and P the admissions of the fixed window of now and of the one before, counted over the run, e the time elapsed in it |
| `SlidingCounter.WindowBoundTight` | ratelimit/slidingwindow/counter.go:287-374 | for every configuration there is a run that attains that bound, 2·limit − ⌈limit/window⌉ |
| `SlidingCounter.EvictionUnobservable` | ratelimit/slidingwindow/counter.go:386-404 | forgetting a key idle for five windows changes no later counts |
| `SlidingCounter.CounterScript` | ratelimit/store/scripts_memory.go:489-556 | the script admits iff the count weighted in millionths leaves room, and then adds n; its scaled estimate; a time to live for a window just begun |
| `SlidingCounter.ScriptIsConservative` | ratelimit/slidingwindow/distributed_counter.go:88-115 | with the fraction truncated to millionths the script admits only what the local limiter admits from the same counts |
| `SlidingCounter.ScriptCanDenyMore` | ratelimit/slidingwindow/distributed_counter.go:88-115 | it can deny what the local limiter admits |
| `SharedCounter.AllowN` | ratelimit/slidingwindow/distributed_counter.go:74-157 | one call of the distributed counter: fraction, time to live, the script on the two counts as they are found, and the keys it leaves |
| `SharedCounter.CurrentIsFound` | ratelimit/slidingwindow/distributed_counter.go:96-105 | the current window's count never expires in its own window |
| `SharedCounter.BooksStep` | ratelimit/store/scripts_memory.go:489-556 | every call keeps the stored counts equal to the admissions of their windows, written when the first of them was |
| `SharedCounter.WindowBound` | ratelimit/slidingwindow/distributed_counter.go:74-157 | with keys that live for a window, every closed interval one window long of every run holds fewer than 2·limit admissions |
| `SharedCounter.ForgottenWindow` | ratelimit/slidingwindow/distributed_counter.go:96-105 | otherwise a two-call run puts 2·limit there: the previous window's key expires before its last admissions are one window old |
| `SharedCounter.BoundedIff` | ratelimit/slidingwindow/distributed_counter.go:96-105 | the bound holds in every run iff the window is a whole number of milliseconds, a nanosecond less, or shorter than one |
| `Meters.PeekAllowLaw` | ratelimit/gcra/gcra.go:226-370 | the Peek/AllowN law for a meter of any of the four kinds |
| `Meters.SameStep` | ratelimit/tokenbucket/tokenbucket.go:365-411 | meters that look alike stay alike under the same call, for all four kinds |
| `Meters.SameAnswers` | ratelimit/slidingwindow/counter.go:287-374 | meters that look alike answer every later run of calls, peeks and clean-ups alike |
| `Meters.ForgettingIsSame` | ratelimit/slidingwindow/log.go:309-327 | a key forgotten under the eviction condition of its kind looks like the one it replaces |
| `Meters.QuietEventsAreInvisible` | ratelimit/gcra/gcra.go:226-370 | inserting a Peek, a denied call or a safe clean-up anywhere changes no later answer |
| `Chains.DebitLaw` | ratelimit/tiered/tiered.go:181-235 | what k debits of n at one instant need, and what they leave, for every kind of meter |
| `Chains.Limiters.Peek` | ratelimit/tiered/tiered.go:206-216 | one tier's Peek: what its meter has left; no meter is debited |
| `Chains.Limiters.Allow` | ratelimit/tiered/tiered.go:219-222 | one tier's AllowN: debits exactly that meter iff it admits and the key is valid |
| `Chains.Limiters.Commit` | ratelimit/tiered/tiered.go:218-249 | the commit loop debits in order and stops at the first tier that does not fit, leaving the earlier debits in place |
| `Chains.Limiters.TieredAllowN` | ratelimit/tiered/tiered.go:181-235 | the two phases over a chain of any length: which tiers end up debited, the tier named in a denial, every meter's new state; with separate meters and valid keys, allowed iff each tier alone would admit, and then all debited, otherwise none |
| `Chains.Limiters.AllowAnd` | ratelimit/composite/composite.go:213-275 | AND mode over any list of limiters: allowed iff all are debited, and every meter's new state |
| `Chains.Limiters.AllowOr` | ratelimit/composite/composite.go:283-294 | OR mode debits exactly the first limiter able to admit, or none |
| `Chains.AllOrNothing` | ratelimit/tiered/tiered.go:181-235 | tiers with separate meters and valid keys: all debited exactly once iff each alone would admit, otherwise none |
| `Chains.PartialDebitIff` | ratelimit/tiered/tiered.go:213-249 | for any chain, exactly when a denied call still debits some tiers |
| `Chains.Prefix` | ratelimit/tiered/tiered.go:157-164 | the part of the key before the first occurrence of the separator, or all of it |
| `Chains.InvalidTenantKeyLeaks` | ratelimit/tiered/tiered.go:181-235 | in the user-and-tenant hierarchy the key ":alice" debits the user tier and is denied |
| `Chains.SharedMeterLeaks` | ratelimit/tiered/tiered.go:181-235 | two tiers on one meter with room for one: a denied call debits it |
| `Chains.CompositeAllOrNothing` | ratelimit/composite/composite.go:213-250 | AND mode over distinct limiters is all-or-nothing for every key and count |
| `ChainResults.AllowResult` | ratelimit/tiered/tiered.go:253-268 | the least `Remaining` with its tier's limit, and the longest reset |
| `ChainResults.MostRestrictive` | ratelimit/composite/composite.go:380-393 | the longest wait and the least `Remaining`, with the first answer's limit and reset |
| `ChainResults.DenyResultAnd` | ratelimit/composite/composite.go:254-275 | of the limiters whose Peek fell short the longest wait, and the least `Remaining` with its limit |
| `ChainResults.LeastRemaining` | ratelimit/composite/composite.go:396-405 | the first answer with the least `Remaining` |
| `ChainResults.ShortestRetry` | ratelimit/composite/composite.go:408-417 | the first answer with the shortest wait |
| `Decimal.ParseFormat` | ratelimit/store/scripts_memory.go:734-749 | parse(format(v)) is v if v fits in 64 bits, and an error otherwise |
| `Records.SplitJoin` | ratelimit/store/scripts_memory.go:700-732 | fields without the separator are recovered from their joined text |
| `ZSet.ZSet.Add` | ratelimit/store/scripts_memory.go:753-763 | inserts or moves one member: sorted, names unique, exactly that member changed; a newest fresh member is simply appended |
| `ZSet.ZSet.Resort` | ratelimit/store/scripts_memory.go:765-772 | the insertion sort sorts, permutes, and leaves a sorted set alone |
| `ZSet.ZSet.RemoveUpTo` | ratelimit/store/scripts_memory.go:776-784 | the prune of a sorted set is the filter by score |
| `ZSetText.ParseRecord` | ratelimit/store/scripts_memory.go:700-732 | one record: split at the first separator, skipped if malformed |
| `ZSetText.Parse` | ratelimit/store/scripts_memory.go:700-732 | the scanning parser computes the reading of every text |
| `ZSetText.Serialize` | ratelimit/store/scripts_memory.go:734-749 | the printer computes the text of every set |
| `ZSetText.ReadText` | ratelimit/store/scripts_memory.go:700-749 | parse(serialize(x)) = x for every set with 64-bit scores and names free of the record separator |
| `ZSetText.RoundTripIff` | ratelimit/store/scripts_memory.go:700-749 | and for no other set |
| `LogScript.LogEntry.Load` | ratelimit/store/scripts_memory.go:620-650 | an expired entry is found empty |
| `LogScript.LogEntry.Handle` | ratelimit/store/scripts_memory.go:407-480 | the log handler on its text value for any entry id, used before or not: decision, count, exact wait, new scores by name and expiry; the stored set stays sorted, unique and writable |
| `LogScript.NameInjective` | ratelimit/store/scripts_memory.go:474-476 | entry id and number determine the member name |
| `LogScript.IsSlidingLog` | ratelimit/store/redis.go:1112-1147 | under distinct entry ids the script, its key expiring, admits every run as the in-process log over a window one nanosecond shorter |
| `LogScript.WindowBound` | ratelimit/store/scripts_memory.go:407-480 | in every run whose calls have distinct entry ids every (t − W, t] holds at most `limit` admissions |
| `LogCollisions.AccountsRun` | ratelimit/store/scripts_memory.go:461-476 | after every run, with any ids, counts and instants, what was admitted is what is stored and what reused names replaced, in every window from now on |
| `LogCollisions.OverAdmitsIff` | ratelimit/store/scripts_memory.go:461-476 | after every run the next call is admitted iff what was admitted in its window, less what was lost of it, leaves room; so it goes above the limit iff the lost members hide as much as that needs |
| `LogCollisions.BoundHoldsIff` | ratelimit/store/scripts_memory.go:461-476 | every window of a run holds at most `limit` admissions iff no call of it finds that much lost |
| `LogCollisions.OneInstantIff` | ratelimit/store/scripts_memory.go:461-476 | after as many one-unit calls at one instant as the limit, one more is admitted iff two of them shared an entry id |
| `LogCollisions.CollisionOverAdmits` | ratelimit/slidingwindow/distributed_log.go:94-107 | one id twice within a window and one more call: three times n admitted under a limit below that, at one instant or at three |
| `LogScript.OutlivesAfter` | ratelimit/slidingwindow/distributed_log.go:85-141 | the key always outlives its members by a window |
| `LogScript.KeyLifetime` | ratelimit/slidingwindow/distributed_log.go:85-141 | every call leaves the key a window and a second to live, to the millisecond; a denial rounds that up to whole seconds |
| `LogScript.ExpiryIsHarmless` | ratelimit/slidingwindow/distributed_log.go:85-141 | so letting it expire loses nothing that still counts |
| `SharedBreaker.WellformedKept` | ratelimit/store/scripts_memory.go:858-1002 | acquire and record keep the counters in range and zero outside the state they belong to |
| `SharedBreaker.ReadPredictsAcquire` | ratelimit/store/scripts_memory.go:1007-1031 | Read reports exactly the state the next Acquire at that instant acts in, and the other fields as stored |
| `SharedBreaker.TextFormat` | ratelimit/store/scripts_memory.go:833-839 | the record as text: its five fields in order, between bars |
| `SharedBreaker.FromTextText` | ratelimit/store/scripts_memory.go:801-839 | parse(serialize(x)) = x for every breaker record |
| `SharedBreaker.ParseState` | ratelimit/store/scripts_memory.go:801-839 | the scanning parser computes the reading of every text, short and malformed ones included |
| `BreakerScripts.MemoryEntry.Acquire` | ratelimit/store/scripts_memory.go:858-914 | the emulated acquire on the text value: decision, record and expiry |
| `BreakerScripts.MemoryEntry.Record` | ratelimit/store/scripts_memory.go:922-1002 | the emulated record on the text value: record, expiry and reported state |
| `BreakerScripts.MemoryEntry.Read` | ratelimit/store/scripts_memory.go:1007-1031 | the emulated read changes nothing and reports the promoted state |
| `BreakerScripts.RedisHash.Acquire` | ratelimit/store/redis.go:936-973 | the Lua acquire, which writes only some fields, has the same abstract effect but for the expiry |
| `BreakerScripts.RedisHash.Record` | ratelimit/store/redis.go:992-1065 | the Lua record, which writes only some fields, has the same abstract effect |
| `BreakerScripts.RedisHash.Read` | ratelimit/store/redis.go:1075-1093 | the Lua read reports the promoted state |
| `BreakerParity.SameReplies` | ratelimit/store/redis.go:936-1093 | the two implementations give the same replies to every run of Acquire, Record and Read in which no call finds their expiries apart |
| `BreakerParity.ParityIff` | ratelimit/store/scripts_memory.go:858-1002 | exactly when one call gets the same reply and leaves the same record in both |
| `BreakerRefinement.StoreIsProtocol` | ratelimit/store/scripts_memory.go:843-1031 | every run of script calls from a missing key, in memory or in Redis, is a legal run of the protocol with the same answers and record, so what holds of every protocol run holds of both stores |
| `BreakerParity.RepliesDiffer` | ratelimit/store/redis.go:936-973 | for every time to live there is a run the two stores answer differently |
| `BreakerProtocol.TtlOutlivesTimeout` | circuitbreaker/distributed.go:98-104 | the time to live is ten open timeouts or a minute, whichever is longer, cut to whole milliseconds, and exceeds the open timeout |
| `BreakerProtocol.InvStep` | ratelimit/store/scripts_memory.go:858-1002 | every acquire, record (late ones included), stray outcome and expiry keeps the slot accounting |
| `BreakerProtocol.SlotAccounting` | ratelimit/store/scripts_memory.go:858-1002 | in every interleaving the counter is 0 outside half-open, within [0, HalfOpenMax], and at most the outstanding reservations of the episode, so none is left once they record |
| `BreakerProtocol.FillingUp` | ratelimit/store/scripts_memory.go:898-908 | from any half-open state exactly HalfOpenMax plus the stolen slots can run at once: the limit holds iff none was stolen |
| `BreakerProtocol.TimelyKeepsLimit` | circuitbreaker/distributed.go:119-162 | without late recorders exactly the reserved slots run, at most HalfOpenMax |
| `BreakerProtocol.LateRecorderOverbooks` | ratelimit/store/scripts_memory.go:961-963 | with a probe of an earlier episode that records late, more than HalfOpenMax probes run at once |
| `BreakerProtocol.LateRecorderIsReachable` | circuitbreaker/distributed.go:222-271 | such a state is reached from an empty store |
| `BreakerProtocol.OpenSafety` | ratelimit/store/scripts_memory.go:858-1002 | after a trip at t0, whatever came before, the record is unchanged and every acquire is rejected until t0 + OpenTimeout, expiry included |
| `BreakerAnswers.TripsExactly` | ratelimit/store/scripts_memory.go:964-997 | in every run a closed record counts exactly the failures since it last closed, was forgotten or began, fewer than FailureThreshold; the next outcome trips it iff it is a failure that makes exactly that many |
| `BreakerAnswers.AcquireIsTold` | ratelimit/store/scripts_memory.go:858-914 | exactly what the next acquire of every run is told: admitted when closed; when open, a probe from OpenTimeout after the last trip on, rejected before; when half-open, a probe iff fewer than HalfOpenMax slots of the episode are counted |
| `BreakerProtocol.HalfOpenCounts` | ratelimit/store/scripts_memory.go:980-989 | while half-open the success counter is the number of outcomes recorded and none is a failure |
| `BreakerProtocol.Recovery` | ratelimit/store/scripts_memory.go:964-997 | an episode closes iff its key expires or its SuccessThreshold-th success is recorded with no failure since it began; it reopens iff a failure is recorded |
| `BreakerProtocol.ClosedWithoutItsProbe` | ratelimit/store/scripts_memory.go:964-997 | runs in which an expired key, and a success of a call that reserved nothing, close the circuit with its only probe still out |
| `CountWindow.RecentStep` | circuitbreaker/metrics.go:43-62 | the failures among the last `size` outcomes, one outcome later |
| `CountWindow.Window.constructor` | circuitbreaker/metrics.go:31-36 | an empty ring of the configured size |
| `CountWindow.Window.Record` | circuitbreaker/metrics.go:43-62 | the cached counts are those of the last `size` outcomes since the last reset |
| `CountWindow.Window.Counts` | circuitbreaker/metrics.go:65-69 | reads those counts |
| `CountWindow.Window.Reset` | circuitbreaker/metrics.go:72-79 | forgets every outcome |
| `TimeWindow.NumBuckets` | circuitbreaker/metrics.go:105-123 | between 1 and 4096 buckets, the whole number that fits where that is in range |
| `TimeWindow.Window.constructor` | circuitbreaker/metrics.go:105-141 | as many whole buckets as the window holds, at most 4096 and at least one; one bucket if no width is given, one second if nothing is; evenly spaced starts ending at now, zero counts |
| `TimeWindow.Window.Slide` | circuitbreaker/metrics.go:175-194 | rolls to the bucket that contains now, keeping the starts even and the totals equal to the logged events since the oldest start |
| `TimeWindow.Window.Record` | circuitbreaker/metrics.go:152-164 | the returned totals are the logged events since the oldest start, this one included |
| `TimeWindow.Window.Counts` | circuitbreaker/metrics.go:197-202 | likewise without recording |
| `TimeWindow.Window.Reset` | circuitbreaker/metrics.go:205-216 | forgets every event and lays the buckets out again |
| `TimeWindow.SlidCovers` | circuitbreaker/metrics.go:175-194 | after the slide the newest bucket contains now |
| `TimeWindow.Window.TotalsAreSums` | circuitbreaker/metrics.go:152-194 | in every valid window the cached totals are the sums of the buckets |
| `TimeWindow.SumIsCounted` | circuitbreaker/metrics.go:175-194 | the buckets of an evenly spaced row add up to the logged events since the oldest start |
| `TimeWindow.Coverage` | circuitbreaker/metrics.go:166-202 | every event no older than (numBuckets − 1)·width is counted and none as old as the window |
| `LocalBreaker.CircuitBreaker.constructor` | circuitbreaker/circuitbreaker.go:60-74 | closed, no slot taken, an empty window of the configured kind |
| `LocalBreaker.CircuitBreaker.BeforeExecute` | circuitbreaker/circuitbreaker.go:205-242 | the admission, the lazy promotion and the reserved slot, for any answer of the probe strategy |
| `LocalBreaker.CircuitBreaker.RecordOutcome` | circuitbreaker/circuitbreaker.go:322-330 | the outcome enters the configured window, whose totals are returned |
| `LocalBreaker.CircuitBreaker.RecordSuccess` | circuitbreaker/circuitbreaker.go:289-317 | counts towards closing in half-open; can trip a closed time-based breaker |
| `LocalBreaker.CircuitBreaker.RecordFailure` | circuitbreaker/circuitbreaker.go:333-352 | reopens from half-open; trips a closed breaker that meets its condition |
| `LocalBreaker.CircuitBreaker.TransitionToOpen` | circuitbreaker/circuitbreaker.go:401-424 | open as of now, success count cleared, metrics and slots kept; an open one only has its trip time refreshed |
| `LocalBreaker.CircuitBreaker.TransitionToHalfOpen` | circuitbreaker/circuitbreaker.go:434-452 | half-open, success count cleared, slots kept; nothing unless it was open |
| `LocalBreaker.CircuitBreaker.TransitionToClosed` | circuitbreaker/circuitbreaker.go:455-480 | closed, metrics cleared, slots kept; nothing if it was closed already |
| `LocalBreaker.CircuitBreaker.AfterExecute` | circuitbreaker/circuitbreaker.go:248-286 | slot released, outcome recorded, state moved, as one step |
| `LocalBreakerRuns.InvStep` | circuitbreaker/circuitbreaker.go:205-480 | every step keeps the fields consistent with the state, the counter equal to the probes out and a closed breaker below its condition to open |
| `LocalBreakerRuns.MetricsAreHistory` | circuitbreaker/circuitbreaker.go:455-480 | with either window, the metrics are exactly the outcomes the run recorded since the breaker last closed |
| `LocalBreakerRuns.ClosingForgets` | circuitbreaker/circuitbreaker.go:455-480 | whichever step closes the breaker leaves the metrics empty |
| `LocalBreakerRuns.ClosedMeansBelow` | circuitbreaker/circuitbreaker.go:289-372 | in every run, with either window, a closed breaker does not meet the condition to open |
| `LocalBreakerRuns.TripsExactly` | circuitbreaker/circuitbreaker.go:289-372 | count-based, over the outcomes the run recorded since the last close: a closed breaker has fewer than FailureThreshold failures among the last WindowSize, and the next outcome trips it iff it makes exactly that many |
| `LocalBreakerRuns.TimedTripsExactly` | circuitbreaker/circuitbreaker.go:289-372 | time-based, over the same outcomes and the buckets laid out at the last close or the start: the next outcome trips a closed breaker iff of the outcomes in the row that ends now, R in all and F failed, R ≥ MinimumRequests, F ≥ FailureThreshold and F ≥ rate·R |
| `TimeWindow.SlidTwice` | circuitbreaker/metrics.go:175-194 | sliding in two steps is sliding once |
| `LocalBreakerRuns.CanTripIff` | circuitbreaker/circuitbreaker.go:361-372 | some run of calls that enter and leave trips the breaker iff FailureThreshold ≤ WindowSize |
| `LocalBreakerRuns.OpenSafety` | circuitbreaker/circuitbreaker.go:205-216 | after a trip at t0, whatever came before, it stays open as of t0 and every call is rejected until t0 + OpenTimeout |
| `LocalBreakerRuns.EntryIsTold` | circuitbreaker/circuitbreaker.go:205-286 | exactly what the next entry of every run is told: plain when closed; rejected when open before OpenTimeout has passed since the last trip; otherwise a probe iff the probes admitted less those back are fewer than min(allowance, HalfOpenMaxRequests), and too many otherwise |
| `LocalBreakerRuns.FillingUp` | circuitbreaker/circuitbreaker.go:246-286 | from any half-open state of any run exactly the free slots under min(allowance, HalfOpenMaxRequests) can be taken one after the other, and then none |
| `LocalBreakerRuns.HalfOpenCounts` | circuitbreaker/circuitbreaker.go:289-317 | while half-open the success counter is the number of outcomes recorded and none is a failure |
| `LocalBreakerRuns.Recovery` | circuitbreaker/circuitbreaker.go:289-352 | an episode closes iff its SuccessThreshold-th success is recorded with no failure since it began; it reopens iff a failure is recorded |
| `LocalBreakerRuns.ProbesOut` | circuitbreaker/circuitbreaker.go:205-286 | the probes still out are those the run admitted less those back |
| `LocalBreakerRuns.StragglersKeepTheirSlots` | circuitbreaker/circuitbreaker.go:434-452 | in every run the entry that begins an episode finds the counter at the probes admitted less those back: zero iff every one is back; it gets a slot iff they leave one allowed |
| `LocalBreakerRuns.StragglerBlocksNextEpisode` | circuitbreaker/circuitbreaker.go:444-447 | a run from a new breaker in which the entry that begins an episode is refused because the last episode's probe still runs |
| `ProbeCounter.InvStep` | circuitbreaker/circuitbreaker.go:205-286 | every load, compare-and-swap, release and transition keeps the counter equal to the number of holders and within the limit |
| `ProbeCounter.CounterIsExact` | circuitbreaker/circuitbreaker.go:205-286 | in every interleaving of any number of calls, under any strategy and stale reads, the counter is the number of calls holding a probe, in [0, HalfOpenMaxRequests] |
| `ProbeCounter.EnterAlone` | circuitbreaker/circuitbreaker.go:205-286 | uninterrupted, the loads and swaps of an entry are the one step of the breaker: the same answer, state and counter |
| `ProbeCounter.LeaveAlone` | circuitbreaker/circuitbreaker.go:205-372 | so are those of an exit, whatever the outcome |
| `ProbeStrategy.MaxConcurrentProbes` | circuitbreaker/halfopen.go:156-202 | the doubling loop with its early stop and the linear ramp give min(ceiling, start·2^(n/step)) and min(ceiling, start + n·step), in [1, ceiling] |
| `ProbeStrategy.RampStart` | circuitbreaker/halfopen.go:156-202 | before the first success, or too early in the episode, the allowance is the start value under the ceiling |
| `ProbeStrategy.LinearStep` | circuitbreaker/halfopen.go:156-202 | one more success adds `step`, up to the ceiling |
| `ProbeStrategy.ExponentialStep` | circuitbreaker/halfopen.go:156-202 | every `step` successes double the allowance, up to the ceiling, and fewer leave it |
| `ProbeStrategy.Monotone` | circuitbreaker/halfopen.go:156-202 | more successes and more time never lower the allowance |
| `ProbeStrategy.ReachesCeiling` | circuitbreaker/halfopen.go:156-216 | with enough successes every ramp allows every slot |
| `PriorityHeap.RootIsFirst` | ratelimit/leakybucket/priority.go:57-62 | no entry of a heap goes before its root |
| `PriorityHeap.PriorityQueue.Swap` | ratelimit/leakybucket/priority.go:64-68 | exchanges two entries and keeps every token's index its position |
| `PriorityHeap.PriorityQueue.Push` | ratelimit/leakybucket/priority.go:70-74 | keeps heap order and indices; the contents gain exactly the token |
| `PriorityHeap.PriorityQueue.TakeLast` | ratelimit/leakybucket/priority.go:76-84 | drops the last entry and marks it as outside |
| `PriorityHeap.PriorityQueue.Pop` | ratelimit/leakybucket/priority.go:88-90 | keeps heap order and indices; takes out exactly a token of the highest priority, the earliest of those |
| `PriorityHeap.PriorityQueue.Remove` | ratelimit/leakybucket/priority.go:147-152 | keeps heap order and indices; takes out exactly the token at any index |
| `LeakyQueue.KeyQueue.Allow1` | ratelimit/leakybucket/leakybucket.go:198-239 | queued at the tail iff the depth is below capacity; the wait of a denial |
| `LeakyQueue.KeyQueue.AllowN` | ratelimit/leakybucket/leakybucket.go:244-339 | the whole batch in order iff it fits, otherwise none of it; the wait of a denial |
| `LeakyQueue.KeyQueue.AllowP` | ratelimit/leakybucket/priority.go:117-141 | a new token with the next arrival number joins the heap iff the depth is below capacity; the wait of a denial |
| `LeakyQueue.KeyQueue.Cancel` | ratelimit/leakybucket/priority.go:147-160 | takes out exactly the waiter if it still waits, and otherwise changes nothing |
| `LeakyQueue.KeyQueue.PopReady` | ratelimit/leakybucket/leakybucket.go:90-104 | takes out the live waiter of the highest priority, and of those the earliest arrival; drops only cancelled ones; none iff no live one |
| `LeakyQueue.KeyQueue.RetryAfter` | ratelimit/leakybucket/leakybucket.go:198-239 | the wait of a denial: the whole nanoseconds in which no more than the queue and one request leak |
| `LeakyQueue.KeyQueue.Tick` | ratelimit/leakybucket/leakybucket.go:574-640 | serves one waiter, heap before channel, channel in order; the depth stays within capacity and nothing else leaves |
| `ThreadPool.InvStep` | bulkhead/threadpool.go:73-151 | every channel operation and flag access keeps each sent task in exactly one place and the queue free of accepted tasks once a worker has left |
| `ThreadPool.AtMostOnce` | bulkhead/threadpool.go:73-137 | in every interleaving no task runs twice, and one refused before it was sent never runs |
| `ThreadPool.AcceptedIsDone` | bulkhead/threadpool.go:73-151 | when the Close that won the flag returns, every accepted task has run exactly once and has its result, and every worker has left |
| `ThreadPool.NothingAfterClose` | bulkhead/threadpool.go:139-151 | after that no task starts or finishes |
| `ThreadPool.ChannelClosedOnce` | bulkhead/threadpool.go:142-151 | the done channel is closed at most once |
| `ThreadPool.LosingCloseReturnsEarly` | bulkhead/threadpool.go:142-148 | a Close that finds the flag set returns with an accepted task still queued |
| `ThreadPool.RefusedTaskMayRun` | bulkhead/threadpool.go:123-131 | a task can run although its Submit returned ErrPoolClosed |
| `ThreadPoolProgress.RunsEnd` | bulkhead/threadpool.go:73-151 | every interleaving ends, within six steps for a submission, two for a worker and three for a Close |
| `ThreadPoolProgress.NoDeadlock` | bulkhead/threadpool.go:73-151 | an interleaving that cannot go on has answered every Submit and let every Close return and, if there was one, every worker leave; every accepted task has run exactly once |
| `ThreadPoolProgress.UnbufferedPoolAccepts` | bulkhead/threadpool.go:73-137 | a pool without a queue can accept a task and run it, straight from Submit to a waiting worker |
| `ThreadPoolProgress.NothingRefused` | bulkhead/threadpool.go:109-137 | a pool that is not closed and has a place for every task refuses none, in any interleaving |

## Left out

- Redis, DynamoDB and Memcached clients, their error paths and the optimistic-concurrency loop: network plumbing.
- HTTP, gRPC and framework middleware, the server, the frontend, metrics, tracing and logging: thin wrappers.
- Rounding of float64 and the snapping of timestamps above 2^53: the arithmetic is exact here.
- Overflow of 64-bit times and counters, including the arrival number of priority waiters: integers are unbounded except in the stored text, which is 64-bit.
- Server-time mode of the scripts and clocks before the epoch: the clock is a positive parameter.
- Runs across a SetLimit: its effect on the stored buckets is proved, a new bound over such a run is not.
- SlidingCounter.Limiter.RetryAfter: says nothing of a wait that reaches the end of the window, because after the rollover the code can still deny.
- LocalBreaker.CircuitBreaker.BeforeExecute: one atomic step; the swap loop inside it is in ProbeCounter.
- The half-open start time, the request timeout and the classification of errors: the outcome of a call and the strategy's answer are parameters.
- Panicking operations and callbacks: every admitted call records.
- LeakyQueue.KeyQueue.Tick: the channel receive outside the lock is part of the tick; a heap not yet allocated is an empty heap.
- Reset, drain and idle clean-up of the queueing leaky bucket: they race with new enqueues.
- PriorityHeap.PriorityQueue.Remove: the sift operations of Go's container/heap are modelled from its documented algorithm, which is not part of the repository.
- The pool's busy counter, and tasks that never return: a task that runs can finish.
- Liveness of the breaker protocols: only safety is proved of them.
- Backoff, EWMA and gradient limiters, CoDel, fixed window, semaphore bulkhead, event broker, registry, pipeline, timeout and fallback: they would add easy members or floating-point numerics.
- The shard map and its per-shard locks: per-key state is a map.
- WaitN and Wait loops and resets: retries around the modelled decisions.
- Chains.Limiters.TieredAllowN: gives the decision, the tier that denied and every debit; the limit, remaining and times it copies from its tiers are folded in ChainResults and not carried through the call.
- Chains.Limiters.AllowAnd: the same, with the folds of the composite in ChainResults.
- Chains.Limiters.AllowOr: the same.
