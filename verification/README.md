# Verified model of the proxy's stateful components

A Dafny model of the parts of the reverse proxy that keep state and decide things: the circuit breaker, the
token-bucket rate limiter, the health checker with its aggregator, and the middleware chain. Verify it with
`dafny verify dfyconfig.toml`.

The classes follow the Go objects field by field; each of their methods is specified by a function on values, and
the properties are proved about those functions for every run. For the chains, whose arrays are shared on the heap,
the function on values takes a world of arrays and chains, and three methods show that the calls on the heap are its
steps. Where several goroutines meet, a second model takes the calls apart into steps.

| file | what it holds |
|---|---|
| `Wrappers.dfy` | missing values and error returns |
| `CircuitMachine.dfy` | one circuit as a value: what each operation does to it and what Allow answers |
| `CircuitTrace.dfy` | every run of one circuit: counters, the only way back to Closed, recovery, the half-open limit |
| `CircuitBreaker.dfy` | the breaker object with its lazily filled map, one call at a time |
| `CircuitThreads.dfy` | any number of threads; read and write locks; Allow split at the gap between its locks |
| `CircuitLinearization.dfy` | every interleaving has an order of the same calls, one at a time, at instants of that interleaving, that explains it |
| `CircuitRace.dfy` | without a half-open budget there is none: two racing callers are both admitted; when a recheck comes too late |
| `TokenBucket.dfy` | the bucket arithmetic: window bound, closed form, optimality, exact stats, when a bucket may be replaced |
| `KeyedLimiter.dfy` | buckets per key: Cleanup and Stats cannot be noticed, keys do not interfere, what Cleanup removes |
| `RateLimiter.dfy` | the limiter objects and their map |
| `LimiterThreads.dfy` | any number of threads calling Allow while keys are reset and swept; what a key as a whole is granted |
| `HealthHistory.dfy` | counters and events of one target as functions of its check results |
| `HealthChecker.dfy` | the checker object: sweeps, registration, subscribers |
| `HealthThreads.dfy` | sweeps that run side by side while targets are registered and unregistered |
| `HealthAggregator.dfy` | the verdict over all targets and the readiness report |
| `MiddlewareChain.dfy` | the chain over Go slices that may share a backing array |
| `ChainHistory.dfy` | every sequence of NewChain, Use and Append against lists that cannot change, on values and on the heap |

Conventions. Time is an integer count of nanoseconds, read by the caller and passed in; the thread models have a
clock that never goes back. `float64` is `real`. Results of health checks, the state of a context and the spare
capacity that Go's `append` gives a reallocated slice are inputs. A refill rate is positive, as the configuration
loader enforces (`internal/config/loader.go:188-204`); thresholds and bursts are assumed at least 1 only in the
lemmas that say so. Go's `int` is unbounded here. Log and metric calls have no effect on state and are dropped.

## What the proofs say about the code

- The breaker is linearizable for exactly the configurations with `MaxRequests >= 1`. An Allow that decided before
  the lock gap and finds the circuit reopened, or its timeout restarted, belongs just before the failure that did it;
  it is admitted although the circuit is open when it returns. With a budget that happens exactly in configurations
  with a positive timeout. The configuration the program is wired with
  (`internal/health/providers.go:32-38`) leaves `MaxRequests` at 0: then two racing callers are both admitted where
  no order of the calls admits both, and a lone client with `SuccessThreshold >= 2` is stuck in HalfOpen for ever.
- `halfOpenRequests` never leaves 0, so the limit on half-open requests that
  `internal/health/interfaces.go:181-182` describes is not enforced; only its sign matters. While a circuit is
  half-open it admits all Allow calls or none: the limit is kept exactly if it is 0 or no more calls than that come.
- Resetting a target without a circuit does nothing, not even to the time of its last success. That time stamp is
  kept out of the circuit value: no decision reads it.
- `GetCircuitInfo` fills in the configured limits only for a target that has a circuit.
- A rate-limiter key that has been served is never removed by Cleanup, because the idle test looks at stored tokens
  and only `allow` refills them (`internal/middleware/providers.go:206`). What Cleanup removes is exactly the limiters
  that Stats made, that were never asked, and that are older than the idle time. With threads Cleanup can be noticed:
  a thread that is left with a dropped limiter is served on top of the limit, one request for each such thread.
- `RetryAfter` and `ResetTime` are truncated: waiting RetryAfter is enough for every bucket that reports one exactly
  when a token takes a whole number of nanoseconds, and every bucket is full at ResetTime exactly when filling takes
  whole seconds. At three requests a second a client that does as it is told is refused.
  A test expects a RetryAfter of one second on a full bucket (`internal/middleware/providers_test.go:367`); the code
  returns 0, and so does the model.
- A target that is unregistered while a sweep has it before it can get a status again, one that belongs to no target
  (`internal/health/checker.go:334-378`); unregistering is for good exactly when no sweep under way has the target
  before it. Status and counters can be relied on throughout exactly when no check of the target is started while
  another one of it is on its way, as a sweep after a stop and a start can, and the target is not unregistered during
  a check that started from an earlier status. Sweeps side by side that check different targets are harmless.
- Publishing to a closed channel panics, although a comment says that closed channels are skipped
  (`internal/health/checker.go:423-431`): a sweep panics exactly when it has something to tell and a subscriber has
  closed its channel.
- Two `Use` calls on the same chain value with spare capacity overwrite one another: the first result ends in the
  second middleware. With one `Use` per chain value chains are immutable.
- `CreateCompleteMiddlewareChain` drops every result of `Use`, so the chain it returns is empty.

## Model

| member | source | states |
|---|---|---|
| CircuitTrace.FailuresFromTrace | internal/health/circuit.go:129-203 | in every run, `failures` counts the failures since the last success or reset |
| CircuitTrace.SuccessesFromTrace | internal/health/circuit.go:129-203 | in every run, `successes` counts the successes since the last failure, reset or half-opening |
| CircuitTrace.LastFailureFromTrace | internal/health/circuit.go:183-185 | `lastFailureTime` is the clock of the latest failure since the last reset |
| CircuitTrace.ReachableCircuit | internal/health/circuit.go:129-203 | in every reachable state: Closed has fewer than FailureThreshold failures, HalfOpen fewer than SuccessThreshold successes, one of the two counters is 0, Open has a failure time, no half-open requests |
| CircuitTrace.HalfOpenRequestsStayZero | internal/health/circuit.go:89-96 | whatever the configuration, `halfOpenRequests` is 0 in every run, so the test against MaxRequests is constant |
| CircuitTrace.OpenOrigin | internal/health/circuit.go:187-203 | an open circuit has a failure in its past after which nothing failed or was reset |
| CircuitTrace.HalfOpenOrigin | internal/health/circuit.go:363-366 | a half-open circuit was half-opened by an Allow at a clock reading at least Timeout after that of the latest failure, and stayed half-open, without failure or reset, since |
| CircuitTrace.OpenToClosed | internal/health/circuit.go:78-148 | on a reset-free stretch from Open to Closed there is such a half-opening, then exactly SuccessThreshold successes and no failure up to the closing step |
| CircuitTrace.OpenRefusesUntilTimeout | internal/health/circuit.go:78-87 | an open circuit admits at exactly those clock readings that are at least Timeout after that of the latest failure, and does not move before |
| CircuitTrace.ClosedOpensAtThreshold | internal/health/circuit.go:187-193 | in every run a closed circuit opens at the failure that makes FailureThreshold of them since the last success or reset, and at no other operation |
| CircuitTrace.OpenLeavesInTime | internal/health/circuit.go:78-87 | an open circuit half-opens at an Allow with Timeout passed since the latest failure, closes by a reset, and moves at no other operation |
| CircuitTrace.HalfOpenLeavesAtOnce | internal/health/circuit.go:141-203 | a half-open circuit reopens at a failure, closes at the success that makes SuccessThreshold of them since it half-opened or by a reset, and moves at no other operation |
| CircuitTrace.NoFailureNoStamp | internal/health/circuit.go:268-274 | without a failure since the start or the last reset there is no failure time |
| CircuitTrace.AnswerAfterRun | internal/health/circuit.go:70-96 | after every run a closed circuit admits, and a half-open one does if and only if MaxRequests is at least 1 |
| CircuitTrace.RecoveryCloses | internal/health/circuit.go:89-148 | with MaxRequests at least 1, a half-open circuit under any mix of Allow and success closes at exactly the missing number of successes, and admits every Allow on the way |
| CircuitTrace.SpellAdmitsAllOrNone | internal/health/circuit.go:89-96 | however many operations meet a half-open circuit, it admits every Allow among them if MaxRequests is at least 1 and none otherwise |
| CircuitTrace.HalfOpenLimitKept | internal/health/interfaces.go:181-182 | the admissions of a half-open spell stay within MaxRequests if and only if MaxRequests is 0 or no more Allow calls than that are made |
| CircuitTrace.HalfOpenLimitBroken | internal/health/circuit.go:78-96 | in every configuration with a limit a fresh circuit can be brought to admit any number of requests while half-open |
| CircuitTrace.HalfOpenIsStuckExactlyWithoutBudget | internal/health/circuit.go:89-96 | no sequence of rounds of a client that reports only admitted requests moves a half-open circuit, if and only if MaxRequests is below 1 |
| CircuitTrace.LoneClientRecovers | internal/health/circuit.go:70-148 | a lone successful client closes an expired open circuit after SuccessThreshold rounds if and only if MaxRequests is at least 1 or one success is enough; otherwise it stays half-open with one success |
| CircuitBreakers.CircuitBreaker.constructor | internal/health/circuit.go:34-45 | a new breaker has no circuits |
| CircuitBreakers.CircuitBreaker.GetCircuit | internal/health/circuit.go:53-68 | a target's circuit is made once, fresh, and never replaced; no other target's changes |
| CircuitBreakers.CircuitBreaker.Allow | internal/health/circuit.go:48-102 | answer and new circuit are those of the total map in which every target starts fresh; the empty name is refused; every other target, and every success stamp, is untouched |
| CircuitBreakers.CircuitState.TransitionToHalfOpen | internal/health/circuit.go:353-370 | half-opens an expired open circuit and clears its successes, and changes nothing else |
| CircuitBreakers.CircuitBreaker.RecordSuccess | internal/health/circuit.go:105-156 | the target's entry in the total map takes a success step and its stamp is the clock; nothing else moves |
| CircuitBreakers.CircuitBreaker.RecordFailure | internal/health/circuit.go:159-220 | the target's entry in the total map takes a failure step; nothing else moves |
| CircuitBreakers.CircuitBreaker.GetState | internal/health/circuit.go:223-248 | reads the total map, without creating or moving a circuit |
| CircuitBreakers.CircuitBreaker.Reset | internal/health/circuit.go:251-286 | an error exactly for the empty name; an existing circuit becomes fresh with its stamp set, a missing one stays missing |
| CircuitBreakers.CircuitBreaker.GetCircuitInfo | internal/health/circuit.go:289-321 | agrees with the total map for every target, limits filled in exactly for targets in use |
| CircuitBreakers.CircuitBreaker.GetAllCircuits | internal/health/circuit.go:324-349 | exactly the targets in use, each with the report GetCircuitInfo gives, in whatever order the map is walked |
| CircuitThreads.SoundKept | internal/health/circuit.go:53-102 | every step keeps: distinct targets have distinct circuits, a write lock excludes all others, a thread that saw Open under its read lock still sees Open, every thread works on its target's circuit |
| CircuitThreads.OneCircuitPerTarget | internal/health/circuit.go:53-68 | in every interleaving a target keeps its first circuit for good, and the threads on that circuit are those called for the target |
| CircuitThreads.OneStepProgress | internal/health/circuit.go:105-370 | a circuit changes at exactly these steps: a success, failure or reset that has the write lock carries itself out, an Allow that has it half-opens an open circuit whose timeout has passed |
| CircuitThreads.DelayedAllowKeepsProgress | internal/health/circuit.go:353-370 | in every interleaving and configuration: a circuit half-opens only from Open and with the clock at least Timeout past its latest failure; half-open, it loses successes or reopens only by a failure or reset, and closes only by a reset or enough successes |
| CircuitThreads.SomeCallGoesOn | internal/health/circuit.go:70-102 | no deadlock: while any call is under way some call can move, even if waiting writers keep new readers out |
| CircuitThreads.EveryMoveCounts | internal/health/circuit.go:353-370 | every move of a call brings it closer to its return and no other step sets it back, so it returns after at most nine moves |
| CircuitLinearization.ReplayInsert | internal/health/circuit.go:187-203 | an Allow inserted just before a failure leaves every later circuit as it was |
| CircuitLinearization.Simulate | internal/health/circuit.go:70-102 | every step of the threads leaves the order of calls, extends it by a call at that instant and clock, or, for a recheck that comes too late, puts an Allow before a failure of its target, at the instant and clock of that failure |
| CircuitLinearization.Linearizable | internal/health/circuit.go:48-370 | with MaxRequests at least 1 every interleaving has an order of exactly its calls, each at a step between call and return and with the clock of that step, in which every answer is what the calls give one at a time, and so is every circuit at every step |
| CircuitLinearization.RealTimeOrder | internal/health/circuit.go:48-370 | in such an order a call that returned before another was made comes first |
| CircuitLinearization.ReplayIsRun | internal/health/circuit.go:48-286 | the order, restricted to a target, is a run of its circuit, so all that is proved of runs holds of interleavings |
| CircuitLinearization.ConcurrentCircuit | internal/health/circuit.go:129-203 | in every configuration, every circuit of every interleaving is the sequential run of the operations carried out on it, each with the clock of its instant |
| CircuitLinearization.PerformedInOrder | internal/health/circuit.go:129-203 | those operations read a clock that does not go back |
| CircuitLinearization.ConcurrentInvariants | internal/health/circuit.go:129-203 | so every circuit of every interleaving keeps the invariants of reachable circuits, whatever MaxRequests is |
| CircuitLinearization.ConcurrentRecovery | internal/health/circuit.go:78-148 | and in every interleaving and configuration, from Open at one instant to Closed at a later one without a reset there is a half-opening with Timeout elapsed, then exactly SuccessThreshold successes and no failure |
| CircuitLinearization.ConcurrentStep | internal/health/circuit.go:48-286 | each step of an interleaving carries out at most one operation on a target and takes its circuit from before that operation of the run to after it |
| CircuitLinearization.ConcurrentOpening | internal/health/circuit.go:187-193 | in every interleaving and configuration a closed circuit opens at the step that carries out the failure that makes FailureThreshold of them since the last success or reset, and at no other |
| CircuitRace.RaceUnexplained | internal/health/circuit.go:89-96 | without a half-open budget no order of the calls admits both racers |
| CircuitRace.RaceHappens | internal/health/circuit.go:353-370 | for every configuration two threads can get into the gap together and both be admitted |
| CircuitRace.LinearizableExactlyWithBudget | internal/health/circuit.go:48-370 | every interleaving is linearizable, at its own instants and clock, if and only if MaxRequests is at least 1; otherwise some interleaving has no order that explains even its end, with clocks made up |
| CircuitRace.RechecksComeTooLate | internal/health/circuit.go:353-370 | an Allow that will be answered true and whose recheck finds it admitted no more is reachable if and only if the timeout is positive or there is no budget |
| TokenBucket.TokensStayInRange | internal/middleware/providers.go:149-170 | in every run tokens stay within 0 and the burst, and the refill time is the last arrival |
| TokenBucket.LevelLater | internal/middleware/providers.go:155-161 | how refills are spread over time does not matter |
| TokenBucket.TokensClosedForm | internal/middleware/providers.go:155-168 | under any policy the token count is the least, over windows ending now, of burst + rate * length - admissions |
| TokenBucket.AffordableIffConforming | internal/middleware/providers.go:155-168 | a bucket can pay for exactly the policies under which no window holds more than burst + rate * length admissions |
| TokenBucket.AllowIsGreedy | internal/middleware/providers.go:149-170 | allow admits exactly when the policy bucket has a token |
| TokenBucket.AllowConforms | internal/middleware/providers.go:149-170 | in every run, no window of arrivals has more than burst + rate * length admissions |
| TokenBucket.WindowBound | internal/middleware/providers.go:149-170 | the same for any window of time |
| TokenBucket.GreedyIsOptimal | internal/middleware/providers.go:149-170 | no choice of arrivals that keeps the window bound has, at any point, admitted more than allow has |
| TokenBucket.ExactConformance | internal/middleware/providers.go:149-170 | allow rejects nothing if and only if every stretch of arrivals is within burst + rate * length |
| TokenBucket.LevelWhileAllAdmitted | internal/middleware/providers.go:138-170 | while nothing is rejected the refilled count is the minimum over i of burst + rate * (tj - ti) - (j - i) |
| TokenBucket.RemainingIsExact | internal/middleware/providers.go:173-199 | Remaining = k: of any number of calls at that instant exactly the first k succeed; Requests + Remaining is the burst |
| TokenBucket.RetryAfterWorks | internal/middleware/providers.go:188-191 | a lone client that waits RetryAfter and a nanosecond is admitted |
| TokenBucket.RetryAfterExact | internal/middleware/providers.go:188-191 | RetryAfter is 0 if the next call is admitted, and otherwise the whole number of nanoseconds in which the rate brings at most one token and in one more of which it brings more |
| TokenBucket.NoSoonerThanRetryAfter | internal/middleware/providers.go:188-191 | an empty bucket admits no call before RetryAfter has passed |
| TokenBucket.RetryAfterAlone | internal/middleware/providers.go:188-191 | RetryAfter alone is enough for a bucket if and only if the missing part of a token takes no longer than the whole nanoseconds of a token |
| TokenBucket.RetryAfterSuffices | internal/middleware/providers.go:188-191 | RetryAfter alone is enough for every bucket of a rate if and only if a token takes a whole number of nanoseconds |
| TokenBucket.RetryAfterTooShort | internal/middleware/providers.go:188-191 | at three requests a second, burst one, the client served at 0 that comes back after RetryAfter is refused |
| TokenBucket.ResetTimeExact | internal/middleware/providers.go:196-196 | ResetTime is as many whole seconds ahead as an empty bucket takes in without overflowing |
| TokenBucket.FullAtResetTime | internal/middleware/providers.go:196-196 | a bucket left alone is full a second after ResetTime, and at ResetTime if and only if what it lacks takes no longer than the whole seconds of filling up |
| TokenBucket.ResetTimeSuffices | internal/middleware/providers.go:196-196 | every bucket of a rate and burst is full at ResetTime if and only if filling up takes a whole number of seconds |
| TokenBucket.ResetTimeTooShort | internal/middleware/providers.go:196-196 | at three requests a second, burst one, the bucket just emptied is said to be full at once |
| TokenBucket.ReplaceableIffFull | internal/middleware/providers.go:202-207 | no later arrivals can tell a bucket from one made now if and only if it is full now |
| TokenBucket.IdleIsReplaceable | internal/middleware/providers.go:202-207 | an idle bucket is full and answers all later arrivals as a new one would |
| KeyedLimiter.SilentStep | internal/middleware/providers.go:202-283 | Cleanup and Stats leave every key with the tokens it had: what is removed, or made, is full |
| KeyedLimiter.AlikeStep | internal/middleware/providers.go:210-308 | stores in which every key has the same tokens answer alike and stay alike |
| KeyedLimiter.CleanupAndStatsUnobservable | internal/middleware/providers.go:210-308 | striking any Cleanup and Stats calls out of any run changes no other answer |
| KeyedLimiter.KeysAreIndependent | internal/middleware/providers.go:210-308 | the answers for a key are those of its own calls, and the sweeps, alone |
| KeyedLimiter.ServedKeyIsShort | internal/middleware/providers.go:163-166 | a served key is left with less than the burst |
| KeyedLimiter.ServedKeyIsNeverSwept | internal/middleware/providers.go:202-273 | such a key survives any run without a Reset of it, however idle |
| KeyedLimiter.CleanupRemovesExactly | internal/middleware/providers.go:202-283 | after any run, Cleanup removes a key if and only if Stats made its bucket, no uncancelled Allow of it came since, and more than half an hour has passed since |
| KeyedLimiter.UnusedKeyIsSwept | internal/middleware/providers.go:240-283 | it happens: a key that was only looked at is in the store and gone after half an hour |
| KeyedLimiter.AllowAnswers | internal/middleware/providers.go:210-224 | in every run the calls for a key since its last reset get exactly the answers of one bucket of its own, full at the start, whatever Stats, Cleanup and calls for other keys come in between |
| KeyedLimiter.KeyKeepsLimit | internal/middleware/providers.go:210-308 | so what a key is granted between resets keeps the window bound, and nothing is refused to it if and only if its calls are within the limit |
| KeyedLimiter.ReportIsExact | internal/middleware/providers.go:240-252 | of any number of calls for a key at the instant of a Stats report exactly the first Remaining are granted; Requests + Remaining is the burst |
| RateLimiters.SimpleLimiter.constructor | internal/middleware/providers.go:138-146 | a new limiter is a full bucket |
| RateLimiters.SimpleLimiter.Allow | internal/middleware/providers.go:149-170 | one admission step of the bucket |
| RateLimiters.SimpleLimiter.Stats | internal/middleware/providers.go:173-199 | the bucket's statistics, without changing it |
| RateLimiters.SimpleBucketRateLimiter.GetLimiter | internal/middleware/providers.go:286-308 | a key's limiter is made once, full, and never replaced; no other key's changes |
| RateLimiters.SimpleBucketRateLimiter.Allow | internal/middleware/providers.go:210-224 | answer and buckets are those of the keyed store |
| RateLimiters.SimpleBucketRateLimiter.Reset | internal/middleware/providers.go:227-237 | removes the key; an error exactly for the empty key |
| RateLimiters.SimpleBucketRateLimiter.Stats | internal/middleware/providers.go:240-252 | the report and the store of the keyed store, the empty key included |
| RateLimiters.SimpleBucketRateLimiter.Cleanup | internal/middleware/providers.go:255-283 | deletes exactly the idle limiters, whatever the order of the walk; nothing when cancelled |
| LimiterThreads.SoundKept | internal/middleware/providers.go:149-308 | every step keeps: each limiter has answered its requests as a sequential bucket would, at a clock that does not go back |
| LimiterThreads.EachLimiterConforms | internal/middleware/providers.go:149-308 | in every interleaving each limiter keeps the window bound over all it admits |
| LimiterThreads.BindingKept | internal/middleware/providers.go:286-308 | in every interleaving a key that has a limiter keeps it, and no other is made for it, until a reset or sweep drops it |
| LimiterThreads.TwoLimitersNeedDrop | internal/middleware/providers.go:227-308 | if two limiters are made for one key, a reset or sweep drops the key after the first is made and before the second |
| LimiterThreads.OneLimiterPerKey | internal/middleware/providers.go:286-308 | from any instant until the key is dropped, one limiter answers all its requests and no others, except requests of threads left at that instant with a dropped limiter, and it keeps the window bound over them |
| LimiterThreads.StaleAccount | internal/middleware/providers.go:286-308 | in every interleaving the requests answered by limiters their key no longer had, and the threads that still hold one, add up to the threads left behind by drops |
| LimiterThreads.KeyLimitUnderSweeps | internal/middleware/providers.go:210-308 | between two instants without a reset a key is granted at most burst + rate * length, and one request for each thread that a sweep has left or leaves with a dropped limiter |
| LimiterThreads.StragglerExceedsLimit | internal/middleware/providers.go:255-308 | for every configuration that bound is reached: one thread left behind by Cleanup, burst + 1 requests granted at one instant |
| HealthHistory.CountersAreTrailingRuns | internal/health/checker.go:348-373 | the counters are the lengths of the trailing run of passes or failures; one is positive, the other 0, and Healthy says which |
| HealthHistory.StreamIsEdges | internal/health/checker.go:380-414 | the events of a target are one per run of equal results, each Failed followed by one Degraded if the threshold is at least 2, by none otherwise |
| HealthHistory.EdgesAlternate | internal/health/checker.go:381-387 | Passed only comes first, Failed and Recovered alternate, and the last of them tells Healthy |
| HealthHistory.StreamDeterminesHealth | internal/health/checker.go:380-414 | replaying the event kinds rebuilds the Healthy flag |
| HealthHistory.EventsStemFromChecks | internal/health/checker.go:380-414 | every event stems from a check, in order: it carries the status after that check with its result, the status before it (the zero status for the first), and is Failed or Degraded if and only if the check failed |
| HealthHistory.LatestEventAgrees | internal/health/checker.go:380-414 | the status that the latest event carries is on the side the target is on |
| HealthHistory.ChannelGetsPrefix | internal/health/checker.go:423-432 | a channel subscribed any number of times receives the stream, each event that often, in order as far as it has room, and nothing else |
| HealthCheckers.HealthChecker.CheckTarget | internal/health/checker.go:339-415 | one check stores the status, takes the ledger of statuses, events and histories one result on and keeps it consistent; it panics if and only if there is an event and a closed channel |
| HealthCheckers.HealthChecker.Counters | internal/health/checker.go:348-373 | the branches compute the status the history function gives |
| HealthCheckers.HealthChecker.CheckAllTargets | internal/health/checker.go:333-416 | a sweep adds one result to the history of every registered target and to no other, in any order, and channels hold what follows from the events published; it panics if and only if some check has an event and some channel is closed |
| HealthCheckers.HealthChecker.PublishEvent | internal/health/checker.go:419-433 | every subscription before the first one of a closed channel is offered the event once, a channel without room misses it, and it panics if and only if there is such a closed channel |
| HealthCheckers.HealthChecker.RegisterTarget | internal/health/checker.go:240-264 | refuses a missing target and an empty name; re-registering keeps status and history |
| HealthCheckers.HealthChecker.UnregisterTarget | internal/health/checker.go:267-285 | forgets target, status and history of the name and nothing else |
| HealthCheckers.HealthChecker.Subscribe | internal/health/checker.go:207-217 | adds one subscription, refuses null |
| HealthCheckers.HealthChecker.Unsubscribe | internal/health/checker.go:220-237 | removes exactly the first subscription of the channel, or reports that there is none |
| HealthCheckers.HealthChecker.GetTargetStatus | internal/health/checker.go:288-294 | the status the target's history gives, if it has been checked |
| HealthCheckers.HealthChecker.GetAllTargetStatus | internal/health/checker.go:297-304 | the targets checked since registration, each with the status of its history |
| HealthCheckers.StoredCounters | internal/health/checker.go:348-378 | in any valid checker the stored counters are the trailing run of the target's results |
| HealthCheckers.PublishedStream | internal/health/checker.go:380-415 | in any valid checker the events since registration are the edges of the results, and rebuild the stored Healthy flag, and the latest carries a status that agrees with it |
| HealthCheckers.PublishedStatuses | internal/health/checker.go:380-415 | each of those events stems from a check of the target since registration, in order, with the status after it and the one before |
| HealthThreads.UnregisterIsForGood | internal/health/checker.go:267-378 | whatever the sweeps do, the status of an unregistered target stays away until it is registered again, if and only if no sweep under way has the target before it |
| HealthThreads.StrayStatusHappens | internal/health/checker.go:333-378 | a target unregistered during its check keeps a status when all sweeps have ended |
| HealthThreads.StatusIsOfResults | internal/health/checker.go:333-378 | in every interleaving of sweeps, registering and unregistering that starts no second check of a target beside another, and does not unregister it during a check that started from a status, its status is that of the results stored since it was last unregistered |
| HealthThreads.TruthfulExactlyWhenCalm | internal/health/checker.go:267-378 | and that condition is exact: the status is right at every instant, however the checks on their way come in, if and only if the interleaving meets it |
| HealthThreads.CountersDuringSweeps | internal/health/checker.go:348-378 | under that condition the counters are the trailing run of the results stored |
| HealthThreads.OldFailuresCount | internal/health/checker.go:267-378 | unregistered and registered again during its own check, a target counts failures of before |
| HealthThreads.OverlappingSweepsLoseResults | internal/health/checker.go:333-378 | two sweeps that check a target at a time lose a result |
| HealthAggregators.CountStatuses | internal/health/aggregator.go:46-56 | counts healthy and unhealthy targets, in any order |
| HealthAggregators.SimpleHealthAggregator.OverallHealth | internal/health/aggregator.go:37-78 | the counts, and the verdict: unknown exactly without targets, healthy exactly when all are, healthy or degraded exactly when more than half are |
| HealthAggregators.SimpleHealthReporter.GetReadinessReport | internal/health/aggregator.go:129-157 | ready exactly when twice the healthy targets exceed the total, with one line per target that says whether its latest check passed, how long it took and its error |
| HealthAggregators.MajorityMonotone | internal/health/aggregator.go:58-68 | a target turning healthy never turns the verdict to false |
| HealthAggregators.ReadinessFromHistory | internal/health/aggregator.go:37-149 | end to end: the majority is of the targets checked since registration, those whose latest check passed |
| MiddlewareChains.ComposeRunsInOrder | internal/middleware/chain.go:28-39 | a request runs through the members in list order, then reaches the handler |
| MiddlewareChains.ComposeConcat | internal/middleware/chain.go:28-55 | applying a concatenation is applying one part to the result of the other |
| MiddlewareChains.GoAppend | internal/middleware/chain.go:15-24 | Go's append: in place within capacity, else into a new array |
| MiddlewareChains.Chain.Use | internal/middleware/chain.go:21-25 | the new chain has one member more; with spare capacity exactly one cell of the shared array changes, without it nothing does |
| MiddlewareChains.Chain.Append | internal/middleware/chain.go:47-55 | a longer chain on an array of its own |
| MiddlewareChains.Chain.Then | internal/middleware/chain.go:28-39 | the reverse loop builds the composition, which runs the members in order and then reaches the handler given, or the default mux if it is missing |
| MiddlewareChains.NewChain | internal/middleware/chain.go:14-18 | a chain of exactly the given members on an array of its own |
| MiddlewareChains.CreateCompleteMiddlewareChain | internal/middleware/providers.go:402-427 | returns the empty chain, which wraps nothing |
| MiddlewareChains.AppendThenIsNesting | internal/middleware/chain.go:28-55 | `c.Append(ms).Then(h)` equals `c.Then(NewChain(ms).Then(h))`, members in list order, a missing handler included |
| ChainHistory.UseIsSeenBy | internal/middleware/chain.go:21-25 | a Use changes another chain's list if and only if that chain sees the spare cell it writes and the cell held something else |
| ChainHistory.SecondUseClobbers | internal/middleware/chain.go:21-25 | after two Use calls on one chain the first result keeps its list if and only if there was no spare capacity or both added the same member |
| ChainHistory.SecondUseHappens | internal/middleware/chain.go:14-25 | it happens from nothing: NewChain, three Use calls in a row, and two more on the last chain leave the first result with the second member |
| ChainHistory.ChainsAreImmutable | internal/middleware/chain.go:14-55 | after any sequence of operations with at most one Use per chain value, every chain's list is the one of immutable lists |
| ChainHistory.AppendNeverShares | internal/middleware/chain.go:47-55 | the results of Append and NewChain are on no older array, and no list changes |
| ChainHistory.UseOnHeap | internal/middleware/chain.go:21-25 | Chain.Use on the heap is the Use of the history, aliasing included |
| ChainHistory.AppendOnHeap | internal/middleware/chain.go:47-55 | Chain.Append on the heap is the Append of the history |
| ChainHistory.NewChainOnHeap | internal/middleware/chain.go:14-18 | NewChain on the heap is the NewChain of the history |

## Left out

- Check, the proxy handler, HTTP and HTTPS servers and the server manager: network I/O; results of checks are inputs.
- internal/middleware/ratelimit.go: a wrapper over golang.org/x/time/rate, which is not part of this model.
- Monitoring and cleanup goroutines, tickers, StartMonitoring and StopMonitoring with their two events: plumbing; a sweep and a Cleanup are calls.
- HealthCheckers.HealthChecker.CheckAllTargets: does not overlap other calls; what overlapping does is proved in HealthThreads, without events.
- HealthCheckers.HealthChecker.PublishEvent: receivers come between calls, not during one; after a panic nothing more is said, since it ends the process.
- CircuitLinearization.Linearizable: leaves out the time of the last success, which no decision reads and which a Reset racing with the creation of a circuit may set; and calls with an empty target, which return before they touch anything.
- CircuitThreads.SoundKept: what a thread does between taking and giving up a lock is one step, or two where Allow reads the state and then the clock; GetAllCircuits is not among the concurrent calls.
- LimiterThreads.OneLimiterPerKey: threads call Allow; Stats, which makes limiters the same way, is not among the concurrent calls, and a Cleanup is taken key by key.
- MiddlewareChains.Chain.Then: handlers are terms that record who wraps whom; what a middleware does with a request is not modelled.
- TokenBucket.RetryAfterWorks: durations do not overflow, which they would for rates below about one token in 292 years, and instants are not further apart than that.
- HealthChecker time stamps of events, the Metadata field that is never set, GetHealthReport, GetLivenessReport, TargetHealth: copies of what is modelled, or constants.
- internal/proxy/pool.go and internal/proxy/router.go: the pool's creation repeats the limiter's; the router is a plain keyed map.
- TLS managers, certificate storage, configuration loading, dependency wiring, logging, metrics, security and CORS headers: I/O or single-branch setters.
