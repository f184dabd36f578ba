# gateway-core: verified model of the deterministic gateway

The project models the parts of the gateway whose behaviour is spread over several functions and over time:

- the circuit-breaker stack (`FailureRate`, `BreakerRuns`, `Adaptive`, `Composite`, `BulkheadProtocol`, `SlidingWindow`);
- the per-client rate limiter with its idle eviction (`TokenBucket`, `ClientTable`, `RateLimiter`);
- route choice (`Routing`);
- the proxy's retry loop and its buffered responses (`Retry`, `Responses`);
- the envelope's dampener and the agent pipeline (`Dampener`, `Pipeline`);
- hot reload with rollback (`Reload`), Go's 64-bit integers (`Int64`) and missing values (`Options`).

The breakers (failure rate, adaptive, bulkhead, composite), the limiter, the response recorder and buffer, the dampener
registry, the agent pipeline, the gateway and the reloader are classes with the Go types' state; mutexes, loggers and
metrics are left off, the timeout layer is a field of the composite breaker, and the router is its sorted list. The
methods are proved to move an abstract value exactly as a specification function says, and the safety properties are
lemmas about that function over all runs. `dafny verify dfyconfig.toml` checks the whole project.

Conventions. Time is an integer number of nanoseconds passed in by the caller; where an order of clock readings matters
it is an explicit hypothesis. Ratios, thresholds, smoothed latencies and tokens are exact reals, so floating-point
rounding is abstracted. Methods that hold the source's mutex are atomic; `BulkheadProtocol` and `ClientTable` break
calls into the steps between which others may run. int64 wrap-around is explicit where it can matter (`Int64.Wrap`).

## What turned out differently from the obvious claim

- `Routing.OwnLimitsInEveryOrder`, `Routing.OverrideDependsOnOrder`: a route without its own rate override inherits that of
  a shorter matching route listed before it. The chosen route's own limits apply in every order of the list exactly when
  it has an override or no matching route has one; otherwise the limits (not the route) depend on the order.
- `Responses.ReplayEqualsDirect`, `Responses.LateAdditionDiffers`: a buffered response also delivers headers added after the
  status went out; everything but the latency header agrees with direct delivery exactly when there are none.
- `Responses.LatencyHeader`: the two paths agree on `X-Gateway-Latency` exactly when the backend does not send it itself.
- `Reload.InSyncExactlyWhen`, `Reload.LateRejectionDrifts`, `Reload.NeverDriftsExactlyWhenLast`: a rollback restores only the
  pointer; the gateway stays on the configuration last offered to it until the next accepted reload, whatever traffic runs
  meanwhile. `NewGateway` registers only the gateway, and as long as no other observer is registered after it this
  cannot happen; with one after it, it can.
- `Composite.ReloadedThresholdOverRuns`, `Composite.ReloadedThresholdIsLost`, `Reload.OfferedThresholdInForce`: an adaptive stack keeps a reloaded failure threshold
  until the next recorded outcome or reset and from then on has the one it would have had anyway; other stacks keep it for good.
- `Reload.ScansAgreeAfterReloads`, `Reload.AddedPrefixIsNotRouted`, `Routing.AddedRouteDisagrees`: the router's route table is never reloaded, so router, limiter and log-level scan choose
  the same prefix for every path exactly while the offered list has the prefixes the gateway was started with.
- `BreakerRuns.HighExactlyWhenFirstWindowWas`, `BreakerRuns.SuccessDoesNotRecheck`: a success that completes the window is not
  checked; with a fixed threshold a closed breaker is ever at or above it with a full window exactly when the outcomes that
  first filled the window already were.
- `ClientTable.TransparentExactlyWhenRefilled`, `ClientTable.DefaultTtlIsTransparentExactlyWhen`: eviction is invisible exactly
  when the bucket refills before the earliest eviction; the computed default TTL guarantees that exactly when ten refill
  times fit int64, or lie between 1.25 and 1.5 times 2^64 nanoseconds.
- `Retry.OneRequestOpens`: the proxy asks the breaker once per request and reports every attempt, so one request whose
  attempts all fail opens a closed breaker as soon as they fill its window, while the loop goes on with the backend.
- `Retry.WaitsAreExact`: backoff waits are the intended ones if and only if at most 37 retries are configured.

## Model

| member | source | states |
|---|---|---|
| FailureRate.FailureRateBreaker.constructor | internal/circuitbreaker/failure_rate.go:45-57 | a new breaker is closed with an empty window |
| FailureRate.FailureRateBreaker.RecordOutcome | internal/circuitbreaker/failure_rate.go:135-150 | one slot written keeps ring, count, failure counter and eviction slot equal to the last W entries of the ever-growing log, despite stale slots |
| FailureRate.FailureRateBreaker.FailureRatio | internal/circuitbreaker/failure_rate.go:153-158 | the counters give the failure ratio of the last W outcomes |
| FailureRate.FailureRateBreaker.TransitionTo | internal/circuitbreaker/failure_rate.go:162-195 | entering Closed clears the window, entering Open stamps the time, re-entering the same state changes nothing |
| FailureRate.FailureRateBreaker.Allow | internal/circuitbreaker/failure_rate.go:59-77 | refuses exactly while open and before the timeout; the first admitted request after it starts probing |
| FailureRate.FailureRateBreaker.RecordSuccess | internal/circuitbreaker/failure_rate.go:79-94 | the ring implementation refines the log-based step on successes |
| FailureRate.FailureRateBreaker.RecordFailure | internal/circuitbreaker/failure_rate.go:96-111 | the ring implementation refines the log-based step on failures, including the trip decision over the last W log entries |
| FailureRate.FailureRateBreaker.ResetBreaker | internal/circuitbreaker/failure_rate.go:119-123 | forces Closed; on an already closed breaker the window survives |
| FailureRate.FailureRateBreaker.SetFailureThreshold | internal/circuitbreaker/failure_rate.go:127-131 | moves the threshold and nothing else |
| FailureRate.FailureRateBreaker.UpdateConfig | internal/circuitbreaker/composite.go:125-141 | new parameters; the outcomes are kept exactly when the window size is |
| SlidingWindow.FailuresSlide | internal/circuitbreaker/failure_rate.go:135-149 | adding the new outcome and subtracting the evicted one keeps the running count exact |
| SlidingWindow.RecordKeepsRepresentation | internal/circuitbreaker/failure_rate.go:135-150 | overwriting one slot of a ring that holds the newest outcomes makes it hold the newest outcomes of the extended log |
| BreakerRuns.WindowHoldsNewestOutcomes | internal/circuitbreaker/failure_rate.go:135-188 | in every run, resizes included, the log behind the window is exactly the outcomes recorded while closed since it was last cleared |
| BreakerRuns.TripsExactlyWhen | internal/circuitbreaker/failure_rate.go:96-104 | the trip law: a closed breaker opens exactly on a failure that leaves the window full with failures >= threshold * window |
| BreakerRuns.TripsOverRuns | internal/circuitbreaker/failure_rate.go:96-104 | over runs: it opens exactly when the outcomes recorded since the last clearing, with this failure, fill the window and reach the threshold in force |
| BreakerRuns.RecoveryCloses | internal/circuitbreaker/failure_rate.go:63-90 | a request at or after the deadline and exactly halfOpenMax successes close an open breaker with an empty window |
| BreakerRuns.FailedProbeReopens | internal/circuitbreaker/failure_rate.go:105-106 | a failed probe reopens it for a whole timeout from then on |
| BreakerRuns.ResetCloses | internal/circuitbreaker/failure_rate.go:119-123 | a reset closes any breaker and admits at once; a closed one keeps its window |
| BreakerRuns.ReloadKeepsProgress | internal/circuitbreaker/composite.go:125-141 | a reload keeps phase, opening time and probes; refusals go on for the new timeout |
| BreakerRuns.ClosingNeedsAllProbes | internal/circuitbreaker/failure_rate.go:85-106 | every entry to Closed is preceded, since the last entry to HalfOpen, by exactly halfOpenMax successes and no failure |
| BreakerRuns.OpenUntilDeadline | internal/circuitbreaker/failure_rate.go:63-71 | after opening at t the breaker stays open, and the next request passes and starts probing if and only if it comes at or after t + resetTimeout |
| BreakerRuns.RefusedWithinTimeout | internal/circuitbreaker/failure_rate.go:63-71 | with a non-decreasing clock every request before t + resetTimeout is refused, over any run |
| BreakerRuns.RefusalsFollowOpenings | internal/circuitbreaker/failure_rate.go:59-77 | a request is refused if and only if an opening less than resetTimeout ago has lasted ever since |
| BreakerRuns.HighExactlyWhenFirstWindowWas | internal/circuitbreaker/failure_rate.go:79-104 | with a fixed threshold, within one closed period a full window is ever at or above the threshold if and only if the first W outcomes were |
| BreakerRuns.ClosedAfterFailureIsBelowThreshold | internal/circuitbreaker/failure_rate.go:96-104 | any failure since the window filled keeps a closed breaker strictly below its fixed threshold |
| BreakerRuns.SuccessDoesNotRecheck | internal/circuitbreaker/failure_rate.go:83-84 | concrete run: a window filled by a success is closed at or above the threshold |
| BreakerRuns.FullWindowOfFailuresOpens | internal/circuitbreaker/failure_rate.go:96-104 | W consecutive failures open any closed breaker |
| BreakerRuns.SternerOpensNoLater | internal/circuitbreaker/failure_rate.go:96-111 | two-run dominance: pointwise lower thresholds and more failures trip no later |
| Adaptive.EwmaIsWeightedSum | internal/circuitbreaker/adaptive.go:68-73 | since a reset the average of positive latencies is exactly the exponentially weighted sum of all of them |
| Adaptive.EwmaOfConstant | internal/circuitbreaker/adaptive.go:68-73 | n equal samples c leave exactly (1-alpha)^n of the distance to c |
| Adaptive.EwmaWithinSamples | internal/circuitbreaker/adaptive.go:68-73 | the average stays between least and greatest latency since the reset, zero sentinel included |
| Adaptive.ThresholdIsLinear | internal/circuitbreaker/adaptive.go:75-89 | base up to the ceiling, minimum from twice the ceiling on, and in proportion to the excess in between |
| Adaptive.ThresholdAntitone | internal/circuitbreaker/adaptive.go:75-89 | the threshold stays in [min, base] and never rises with the average |
| Adaptive.ExcessDecays | internal/circuitbreaker/adaptive.go:68-73 | after n samples at most c the excess over c has shrunk by (1-alpha)^n |
| Adaptive.ThresholdRecovers | internal/circuitbreaker/adaptive.go:64-80 | low latencies restore the base threshold once the decayed excess fits below the ceiling |
| Adaptive.ThresholdRecoversAfter | internal/circuitbreaker/adaptive.go:64-80 | explicit count: n samples at most c suffice when n * alpha * (ceiling - c) reaches the initial excess |
| Adaptive.AdaptiveBreaker.Allow | internal/circuitbreaker/adaptive.go:36-38 | asks the inner breaker and nothing else |
| Adaptive.AdaptiveBreaker.UpdateThreshold | internal/circuitbreaker/adaptive.go:64-90 | one smoothing step, then the interpolated threshold goes to the inner breaker |
| Adaptive.AdaptiveBreaker.Interpolate | internal/circuitbreaker/adaptive.go:75-89 | computes the interpolated threshold |
| Adaptive.AdaptiveBreaker.Record | internal/circuitbreaker/adaptive.go:40-48 | the outcome is judged under the old threshold before its latency moves it |
| Adaptive.AdaptiveBreaker.ResetBreaker | internal/circuitbreaker/adaptive.go:54-60 | resets inner breaker, average and threshold |
| Composite.StackIsBareBreaker | internal/circuitbreaker/composite.go:44-73 | for every valid stack and call sequence the inner state is that of a bare breaker fed relabelled calls under the threshold schedule of strictly earlier latencies |
| Composite.LayersNeverDelayFirstTrip | internal/circuitbreaker/composite.go:44-73 | adding the adaptive or timeout layer, or lowering any threshold or ceiling, in adaptive stacks too, never makes the first trip later |
| Adaptive.ThresholdMonotone | internal/circuitbreaker/adaptive.go:75-89 | at the same average a tuning with lower base, minimum and ceiling gives a threshold no higher |
| Composite.StackRefusesWithinTimeout | internal/circuitbreaker/composite.go:75-83 | whatever its layers, a stack that opened at t refuses every request before t + resetTimeout |
| Composite.StackTripsExactlyWhen | internal/circuitbreaker/failure_rate.go:96-104 | whatever its layers, a closed stack opens exactly on a failed or slow call that fills the window to its threshold |
| Composite.StackRecovers | internal/circuitbreaker/failure_rate.go:63-90 | whatever its layers, below capacity a request at or after the deadline passes and halfOpenMax fast successes close the stack |
| Composite.ResetRestores | internal/circuitbreaker/adaptive.go:54-60 | a reset closes the stack, forgets the latencies and restores the threshold; slots stay taken |
| Composite.SlotsAreOutstanding | internal/circuitbreaker/bulkhead.go:39-65 | over any calls the slots taken are the admissions not yet released |
| Composite.AllowsExactlyWhen | internal/circuitbreaker/bulkhead.go:39-58 | a request passes exactly when fewer than maxConcurrent admissions are outstanding and the breaker admits it |
| Composite.FullStackIsUntouched | internal/circuitbreaker/bulkhead.go:51-57 | a request refused for want of a slot never reaches the breaker |
| Composite.EffectivePhaseMeans | internal/circuitbreaker/composite.go:98-103 | Open exactly when some request would be refused; otherwise what the next outcomes do |
| Composite.ReloadKeepsStack | internal/circuitbreaker/composite.go:125-141 | a reload keeps slots, average, phase, opening time and probes |
| Composite.AverageOfTwo | internal/circuitbreaker/adaptive.go:68-73 | concrete average with the source's smoothing factor |
| Composite.StackClosingNeedsAllProbes | internal/circuitbreaker/failure_rate.go:85-106 | whatever its layers, a stack closes only on a fast success, after exactly halfOpenMax of them and no failed or slow call since the request that made it half-open |
| Composite.FullWindowOfHarmOpens | internal/circuitbreaker/failure_rate.go:96-104 | whatever its layers, and after a reload too, as many failed or slow calls as the window holds open a closed stack, requests and releases interleaved at will |
| Composite.TrafficKeepsParameters | internal/circuitbreaker/composite.go:75-113 | no call changes window size, reset timeout or probe quota, nor the threshold of a stack without the adaptive layer |
| Composite.ThresholdOverRuns | internal/circuitbreaker/adaptive.go:40-90 | over any calls the threshold is the stack's own until an outcome or reset, then the one computed from the latencies since the last reset |
| Composite.ReloadedThresholdOverRuns | internal/circuitbreaker/composite.go:125-131 | over any calls after a reload the threshold is the reloaded one without an adaptive layer or before the first outcome, and otherwise the one computed from the latencies; so it is in force exactly in those cases or when the two coincide |
| Composite.ReloadedThresholdIsLost | internal/circuitbreaker/composite.go:125-131 | concrete run: reloaded from 0.5 to 0.9, back at 0.5 after one fast success |
| Composite.BulkheadBreaker.TryAcquire | internal/circuitbreaker/bulkhead.go:39-58 | takes a slot if and only if one is free |
| Composite.BulkheadBreaker.Release | internal/circuitbreaker/bulkhead.go:62-65 | returns one slot |
| Composite.CompositeBreaker.constructor | internal/circuitbreaker/composite.go:44-73 | builds the layers the configuration asks for, all of them new |
| Composite.CompositeBreaker.Allow | internal/circuitbreaker/bulkhead.go:39-58 | passes exactly when a slot is free and the inner breaker admits; a refused request keeps no slot |
| Composite.CompositeBreaker.RecordSuccess | internal/circuitbreaker/timeout.go:23-29 | a success slower than the threshold is recorded as a failure |
| Composite.CompositeBreaker.RecordFailure | internal/circuitbreaker/timeout.go:31-33 | failures pass through all layers |
| Composite.CompositeBreaker.ResetBreaker | internal/circuitbreaker/composite.go:111-113 | resets the adaptive layer and the breaker, not the slots |
| Composite.CompositeBreaker.Release | internal/circuitbreaker/composite.go:117-121 | gives a slot back, or nothing without a bulkhead |
| Composite.CompositeBreaker.EffectiveState | internal/circuitbreaker/composite.go:98-103 | reports what callers observe: unless it says Open, every request would be let through |
| Composite.CompositeBreaker.UpdateConfig | internal/circuitbreaker/composite.go:125-141 | only the failure-rate parameters change; layers keep their construction-time settings and the window is kept or newly allocated |
| BulkheadProtocol.SlotsAreConserved | internal/circuitbreaker/bulkhead.go:39-65 | under every interleaving the channel length is the number of requests holding a slot and never exceeds the limit |
| BulkheadProtocol.ReleaseNeverBlocks | internal/circuitbreaker/bulkhead.go:45-65 | a request that gives back or releases always finds an element to pop |
| BulkheadProtocol.DrainsToZero | internal/proxy/proxy.go:191-212 | when every request is refused or served all slots are free |
| BulkheadProtocol.FinishIsDone | internal/proxy/proxy.go:211-212 | under every interleaving the deferred release is the stack's Done and frees exactly one slot |
| BulkheadProtocol.RefusalMeansEffectivelyOpen | internal/circuitbreaker/composite.go:98-103 | at the step that decides any refusal the effective state is Open, under every interleaving |
| BulkheadProtocol.AllowAloneIsAtomic | internal/circuitbreaker/bulkhead.go:39-58 | from a settled state the three steps amount to one atomic Allow, and a refusal implies EffectiveState is Open |
| ClientTable.EvictionIsTransparent | internal/ratelimit/ratelimit.go:230-324 | for every interleaving of requests, janitor batches and configuration updates a key that refills in time is admitted and denied as if nothing were ever evicted |
| ClientTable.HalfTtlSuffices | internal/ratelimit/ratelimit.go:236-239 | burst <= rate * idleTTL / 2 is enough |
| ClientTable.TransparentExactlyWhenRefilled | internal/ratelimit/ratelimit.go:236-313 | for every key and every TTL, transparency over all runs holds exactly when the bucket refills in the shortest time that allows eviction |
| ClientTable.BurstIsAdmitted | internal/ratelimit/ratelimit.go:230-265 | of requests at one instant a key not in the table has exactly its burst admitted |
| ClientTable.NextTokenExactlyWhen | internal/ratelimit/ratelimit.go:230-265 | after that the next request is admitted exactly when rate * wait has earned a token |
| ClientTable.AdmissionBound | internal/ratelimit/ratelimit.go:121-144 | at most burst * (r + 1) + rate * T requests of a key pass in any window of length T with r configuration updates in it, eviction included |
| ClientTable.DefaultTtlIsTransparentExactlyWhen | internal/config/config.go:265-276 | a defaulted IdleTTL meets the condition for the global rate if and only if ten refill times are at most 2^63-1 ns or between 1.25 and 1.5 times 2^64 ns |
| ClientTable.DefaultTtlCanOverflow | internal/config/config.go:268-274 | concrete rate for which the wrapped product picks ten minutes and the condition fails |
| ClientTable.PassRemovesExactlyIdleKeys | internal/ratelimit/ratelimit.go:286-324 | after a pass among running requests and updates a key is present exactly when it was requested since the last update, or there was none and it was not idle at the scan; whatever a batch deletes was idle past the TTL at the scan's time |
| ClientTable.BatchesCover | internal/ratelimit/ratelimit.go:305-311 | batches of at most 256 visit each scanned key once, in order |
| RateLimiter.Limiter.constructor | internal/ratelimit/ratelimit.go:62-89 | starts empty; a non-positive TTL becomes ten minutes |
| RateLimiter.Limiter.Request | internal/ratelimit/ratelimit.go:133-158 | the decision is that of the client's table entry for the limits of the path |
| RateLimiter.Limiter.Hit | internal/ratelimit/ratelimit.go:230-265 | lookup with lazy refresh, creation with a full bucket, then one attempt |
| RateLimiter.Limiter.Expiring | internal/ratelimit/ratelimit.go:287-295 | exactly the idle keys, each once |
| RateLimiter.Limiter.PurgeBatch | internal/ratelimit/ratelimit.go:310-317 | removes exactly the still idle keys of the batch and counts them |
| RateLimiter.Limiter.EvictOnce | internal/ratelimit/ratelimit.go:286-324 | uninterrupted, a pass is one filter of the table and reports how many entries it dropped |
| RateLimiter.Limiter.UpdateConfig | internal/ratelimit/ratelimit.go:121-131 | new limits and routes, no clients, same idle TTL |
| Routing.MatchesBySegments | internal/routing/match.go:10-24 | below a prefix without a trailing slash lie exactly the prefix and what goes on with a slash; below one with a slash, every extension |
| Routing.OnlyExtensionsMatch | internal/routing/match.go:10-24 | nothing else matches |
| Routing.SiblingIsNotRouted | internal/routing/match.go:10-24 | /api is not chosen for /apiary by router or scans, and is for /api/users |
| Routing.MatchesTransitive | internal/routing/match.go:10-24 | prefix matching is transitive |
| Routing.ValidateRoutes | internal/config/config.go:412-461 | accepts exactly non-empty lists of distinct prefixes starting with a slash whose routes pass the backend, log-level, fallback and pool checks |
| Routing.MatchRoute | internal/proxy/proxy.go:325-332 | returns the first match of the sorted list |
| Routing.LimitsForPath | internal/ratelimit/ratelimit.go:205-224 | the loop yields the scan's prefix and its sticky override or the global limits |
| Routing.RouteLogLevel | internal/gateway/gateway.go:132-143 | the loop yields the scan's level |
| Routing.LongestIsUnique | internal/config/config.go:437-440 | with unique prefixes there is at most one longest match |
| Routing.FirstMatchIsLongest | internal/proxy/proxy.go:78-82 | in any length-sorted list the first match is a longest one, or nothing matches |
| Routing.ScanPicksLongest | internal/gateway/gateway.go:132-143 | the single-pass scans end on a longest match or on their defaults |
| Routing.ThreeScansAgree | internal/proxy/proxy.go:325-332 | router, limiter and log-level scan choose the same unique longest route, whatever the list order and tie-breaking |
| Routing.AgreeExactlyWhenSamePrefixes | internal/gateway/gateway.go:115-143 | a router and a scan working on different validated lists choose the same prefix for every path if and only if the lists have the same prefixes |
| Routing.AddedRouteDisagrees | internal/gateway/gateway.go:115-143 | concrete lists: a route only the scans know |
| Routing.OverrideComesFromLastRecord | internal/ratelimit/ratelimit.go:210-218 | the override comes from the last listed route that beat the best so far and has one |
| Routing.OwnLimitsExactlyWhen | internal/ratelimit/ratelimit.go:210-223 | in a given list the chosen route's own setting applies if and only if it has an override or no record on the way has one |
| Routing.OwnLimitsInEveryOrder | internal/ratelimit/ratelimit.go:210-223 | it applies in every order of the list if and only if the route has an override or no matching route has one; otherwise two orders give different limits |
| Routing.OverrideDependsOnOrder | internal/ratelimit/ratelimit.go:210-223 | concrete pair of routes whose order changes the limits but not the route |
| Responses.ReplayEqualsDirect | internal/proxy/proxy.go:355-446 | buffering then replaying delivers the same status and body, and the same header values if and only if none was added after the status went out |
| Responses.LateAdditionDiffers | internal/proxy/proxy.go:437-446 | concrete response: a header added after the status arrives only through a replay |
| Responses.LatencyHeader | internal/proxy/proxy.go:284-285 | the gateway's latency header on both paths; they agree if and only if the backend adds none, or, for a response without status or body, if it was there before |
| Responses.ResponseRecorder.WriteHeader | internal/proxy/proxy.go:379-385 | the first status is the one recorded and sent |
| Responses.ResponseRecorder.Write | internal/proxy/proxy.go:387-393 | a body without a status records and sends 200 |
| Responses.ResponseRecorder.Relay | internal/proxy/proxy.go:254-268 | a whole response written straight through; the recorded status is the response's status |
| Responses.ResponseBuffer.Reset | internal/proxy/proxy.go:407-414 | any dirty pooled buffer becomes empty |
| Responses.ResponseBuffer.Capture | internal/proxy/proxy.go:271-275 | a whole response captured in memory |
| Responses.ResponseBuffer.WriteHeader | internal/proxy/proxy.go:418-423 | the first status is kept |
| Responses.ResponseBuffer.Write | internal/proxy/proxy.go:425-431 | a body without a status means 200 |
| Responses.ResponseBuffer.ReplayTo | internal/proxy/proxy.go:437-446 | headers, status and body go to the client in one response |
| Retry.ServeAttempts | internal/proxy/proxy.go:233-311 | the backend is contacted k times, the client receives response k and nothing of any other, the breaker is told k-1 failures and then the verdict on response k, the waits are the first k-1 backoffs; a cancellation found first yields the 504 alone |
| Retry.TryOnce | internal/proxy/proxy.go:252-296 | the last attempt goes straight through, an earlier one is replayed only if not retryable and otherwise leaves the client untouched |
| Retry.DecisiveIsMinimum | internal/proxy/proxy.go:241-290 | k is the minimum of the first non-retryable attempt and the attempt limit |
| Retry.DeliveredExactlyWhen | internal/proxy/proxy.go:241-290 | in statuses: attempt k is delivered exactly when every earlier one answered 502, 503 or 504 and k did not or is the last allowed |
| Retry.FirstCancelledIsFirst | internal/proxy/proxy.go:243-246 | the loop stops at the first attempt that finds the request cancelled |
| Retry.ExactlyOneResponse | internal/proxy/proxy.go:241-290 | either path gives the client exactly one response with that response's status, body and headers, a cancellation exactly the 504 |
| Retry.OneRequestOpens | internal/proxy/proxy.go:191-311 | if every attempt of one request fails all of them are made, and a closed stack is open from the attempt that fills its window on |
| Retry.BackoffIsExact | internal/proxy/proxy.go:309 | a wait is 100 ms times a power of two if and only if the attempt is at most the 37th |
| Retry.WaitsAreExact | internal/proxy/proxy.go:309-310 | all waits of a route are exact if and only if it has at most 37 retries |
| Retry.TotalBackoff | internal/proxy/proxy.go:309-310 | total backoff before response k is 100*(2^(k-1)-1) ms |
| Dampener.DistanceIsExact | internal/envelope/dampener.go:238-241 | the machine's distance is right if and only if the true distance fits int64 |
| Dampener.ConstrainedDistanceIsExact | internal/envelope/constraints.go:189-313 | values that passed the constraints never overflow, in subtraction or negation, for every accepted Go type |
| Dampener.UnconstrainedDistanceCanWrap | internal/envelope/dampener.go:233-242 | concrete unconstrained values that look one apart |
| Dampener.RetryAfterIsExact | internal/envelope/dampener.go:181-193 | RetryAfter is the exact first delay that clears the cooldown |
| Dampener.PassesExactlyWhen | internal/envelope/dampener.go:164-294 | a constrained change passes exactly when no policy or earlier change exists, or the cooldown is over and the step at least the band; which refusal otherwise |
| Dampener.OthersAreUntouched | internal/envelope/dampener.go:164-199 | handling one proposal changes nothing for another kind or target |
| Dampener.ConversionsKeepNumbers | internal/envelope/constraints.go:189-313 | which values convert, and that only a uint beyond int64 changes its number |
| Dampener.StateIsLastApplied | internal/envelope/dampener.go:303-316 | over any run the stored state of a key is its last applied change |
| Dampener.AppliedAreSpaced | internal/envelope/dampener.go:164-294 | consecutive applied changes passed cooldown and hysteresis against each other |
| Dampener.ConstrainedChangesAreSpaced | internal/envelope/dampener.go:164-294 | for constrained values they are at least the cooldown apart in time and the hysteresis band apart in value |
| Dampener.ChangeRateIsBounded | internal/envelope/dampener.go:181-193 | at most floor(T/cooldown)+1 changes of a key are applied in any window of length T |
| Dampener.DampenerRegistry.constructor | internal/envelope/dampener.go:120-122 | no policies, no state |
| Dampener.DampenerRegistry.SetRateLimit | internal/envelope/dampener.go:126-133 | replaces one policy only |
| Dampener.DampenerRegistry.SetRouteWeight | internal/envelope/dampener.go:136-143 | replaces one policy only |
| Dampener.DampenerRegistry.SetCacheTtl | internal/envelope/dampener.go:146-153 | replaces one policy only |
| Dampener.DampenerRegistry.Check | internal/envelope/dampener.go:164-199 | the early-return code decides as the specification does |
| Dampener.DampenerRegistry.RecordApplied | internal/envelope/dampener.go:303-316 | records value and time for the key, policy or not |
| Dampener.DampenerRegistry.Handle | internal/envelope/dampener.go:88-91 | evaluate, then record on a pass, extends the modelled run by one step |
| Pipeline.CounterIsCurrentStreak | internal/envelope/agent.go:513-539 | the counter is always the number of errors since the last emit, veto, declined proposal or Enable |
| Pipeline.GateOnlyMovesLater | internal/envelope/agent.go:402-421 | after the budget is used up the gate never moves earlier, even by runs that start cancelled, until Enable |
| Pipeline.TrippedPipelineStaysSilent | internal/envelope/agent.go:380-442 | no planner or reviewer runs before t + cooldown (zero cooldown: before the sentinel) unless enabled, and they run again exactly from then on |
| Pipeline.ExhaustedBudgetSilences | internal/envelope/agent.go:402-529 | after maxErrors errors in a row, the last at t, no agent runs before t + cooldown, or 2^62 seconds without a cooldown; then exactly again |
| Pipeline.DisabledStaysSilent | internal/envelope/agent.go:344-442 | after the operator's Disable no agent runs until Enable |
| Pipeline.SilenceHasCause | internal/envelope/agent.go:402-442 | agents of a live request are silent only after a Disable, or an exhausted budget less than a cooldown ago, with no Enable since |
| Pipeline.OutcomesExactlyWhen | internal/envelope/agent.go:402-507 | every outcome of a cycle in terms of flag, gate, plan and verdicts; an emit needs every approval |
| Pipeline.NoBudgetNoGate | internal/envelope/agent.go:516 | without a positive budget errors never disable the pipeline |
| Pipeline.AgentPipeline.ValidRoles | internal/envelope/agent.go:305-326 | accepts exactly a planner followed by non-planners in non-decreasing role order |
| Pipeline.AgentPipeline.constructor | internal/envelope/agent.go:327-339 | starts enabled with no errors and no gate |
| Pipeline.AgentPipeline.DisableOp | internal/envelope/agent.go:344-351 | clears only the operator flag |
| Pipeline.AgentPipeline.EnableOp | internal/envelope/agent.go:356-365 | sets the flag and clears counter and gate |
| Pipeline.AgentPipeline.RecordError | internal/envelope/agent.go:513-529 | counts the error and sets the gate once the budget is used up |
| Pipeline.AgentPipeline.RunOnce | internal/envelope/agent.go:402-507 | the outcome and state of one cycle; reviewers are asked in order up to the first that does not approve, and an emit needs all of them |
| Reload.CurrentIsLastAccepted | internal/config/reload.go:154-197 | Current is the last accepted configuration and legacy callbacks saw exactly the accepted ones, in order |
| Reload.GatewayFollowsOffers | internal/gateway/gateway.go:269-288 | whatever traffic and reloads interleave, the gateway runs with the configuration last offered to it, accepted or not (adaptive thresholds apart) |
| Reload.OnReloadIdempotent | internal/gateway/gateway.go:265-288 | offering the same configuration again changes nothing |
| Reload.AttemptInvokes | internal/config/reload.go:176-188 | a loaded configuration is shown to the observers in order up to and including the first that rejects it, whose rejection is counted |
| Reload.AcceptedReloadSyncsGateway | internal/gateway/gateway.go:265-288 | right after an accepted reload limiter, route tables and all breaker parameters match it, whatever state they were in |
| Reload.InSyncExactlyWhen | internal/config/reload.go:176-188 | under any traffic the gateway agrees with Current exactly when the last offered and the last accepted configuration are the same for it |
| Reload.LateRejectionDrifts | internal/config/reload.go:176-188 | a rejection by a later observer leaves the gateway on the rejected configuration, and no traffic brings it back |
| Reload.NeverDriftsExactlyWhenLast | internal/gateway/gateway.go:224 | the gateway agrees with Current after every run if and only if it is registered and no other observer comes after it |
| Reload.BreakersRunAlone | internal/gateway/gateway.go:283-286 | between offers each breaker's state is that of a run of its own calls alone |
| Reload.OfferedThresholdInForce | internal/circuitbreaker/composite.go:125-131 | from an offer to the next a breaker works with the offered threshold exactly when it is not adaptive, has recorded nothing since, or computes that very threshold from its latencies |
| Reload.ScansAgreeAfterReloads | internal/gateway/gateway.go:115-143 | after any run the router agrees with limiter and log-level scan on every path if and only if the last offered list has the prefixes of the start-up list |
| Reload.AddedPrefixIsNotRouted | internal/gateway/gateway.go:269-288 | a prefix that a reload adds is chosen by limiter and log-level scan and never by the router |
| Reload.GatewayObject.Adopt | internal/gateway/gateway.go:269-288 | overwrites limiter, every breaker and the route table, whatever they were |
| Reload.Reloader.constructor | internal/config/reload.go:58-65 | starts on the initial configuration |
| Reload.Reloader.InvokeObserver | internal/config/reload.go:202-214 | an error and a panic are both rejections |
| Reload.Reloader.Reload | internal/config/reload.go:154-197 | observers run in order up to the first rejection, which restores the old pointer; otherwise every legacy callback runs |
| Reload.Reloader.InvokeLegacy | internal/config/reload.go:191-193 | each legacy callback once, in order |

## Left out

- Float rounding: ratios, thresholds, averages and tokens are reals, so comparisons that hinge on the last bit of a float64 are not modelled.
- TimeoutBreaker as a separate object: it has no state of its own; its threshold is a field of the composite breaker.
- Breaker objects inside the gateway: the gateway holds its breakers by value during a reload, so aliasing between breakers is not captured.
- ClientTable.EvictionIsTransparent: covers whole requests; a request that drops the read lock before refreshing can hold an evicted bucket, which the source does not exclude.
- ClientTable.DefaultTtlIsTransparentExactlyWhen: a float64 beyond int64 converts to whatever the platform gives, so it is an arbitrary int64 here.
- Routing.ValidateRoutes: `url.Parse` is a parameter, and which error is reported is not kept.
- Reload.Reloader.InvokeObserver: what an observer does, panic included, is an input of the attempt; the recovery itself is not a step.
- Dampener.AsInt64: a float64 outside the int64 range is refused; Go leaves that conversion to the platform. NaN and infinities do not occur in reals.
- Composite.StackIsBareBreaker, Composite.LayersNeverDelayFirstTrip: hold between configuration updates; an update does not reach the adaptive layer or the timeout and bulkhead settings.
- The HTTP, JWT, rate-limit, Prometheus, YAML and fsnotify libraries: `rate.Limiter` is taken to be the standard token bucket, `sort.Slice` any length-descending permutation, the response writer net/http's first-status-wins.
- Informational 1xx responses, trailers, and header operations other than adding.
- Method checks, header injection, path stripping, backend keys and transports of the proxy: short branches.
- TLS, logging and admin validation; only the route checks of `validate` are modelled, and its breaker ranges appear as `Composite.ValidConfig`.
- The constraint registry's violation texts and custom constraints; the baseline constraints appear as one predicate.
- Overlapping reloads, file watching and signals; traffic during a reload is listed before or after it, which differs for no single breaker.
- Envelope submission order, bounds and shadow mode, auth, CORS, deadlines, health probes.
