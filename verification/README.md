# Decision kernel of the gateway, verified

This project models the part of the gateway that decides: which backend gets a request, whether the
circuit lets it through, whether the client is over its limit, and what happens to counters, health
checkers and trace identifiers while many requests and reloads run at once. The main results are about
whole runs and all interleavings; single calls appear as in-place methods proved to refine the
functions those results are about.

## How it is laid out

- `SmoothWeighted`, `WeightedBalancer`, `Backends`: smooth weighted round-robin and the merging of
  backends on a configuration change. The class `Weighted` updates its counters in place; the theorems
  (quota, period, conservation) are about the function its `Next` is proved to compute.
- `LeastConnections`, `LeastConnScan`, `LeastConnTight`, `LeastConnRuns`: the balancer that reads
  in-flight counts which other requests are still changing, first with `Next` as one step, then with
  each load read separately: a bound for all sizes, the sizes that stay within the number of racing
  requests, and runs that do not for every other size.
- `TimeLog`, `BreakerSpec`, `CircuitBreaker`: a list pruned from the front, the breaker as functions,
  and the class that refines them. `BreakerHistory` compares it with a ledger of everything,
  `BreakerRuns` bounds what a tripped breaker lets through, `BreakerProbes` follows every admitted
  request until it reports, possibly in a later state.
- `TokenBucket`, `SlidingWindow`, `RedisWindow`: each limiter against the complete history of
  admissions. `Limiters` holds the classes, `BucketTable` the double-checked creation of buckets by any
  number of threads.
- `RequestProtocol`: one route serving many requests, one atomic operation or critical section a step;
  `RequestHistory`: what the breakers, flags and requests come to, told from the moves alone.
  `Proxy` has the gateway object, its route choice, and one request from end to end; `Reloads` is the
  specification of configuration reloads and of the health checkers they start and stop.
- `SpanExport`, `TraceContext`: the batching exporter, the ring of recent traces, and trace identifiers
  across hops (section 3.2 of W3C Trace Context).
- `Sums`, `Collections`: what the proofs need about sums, repetitions, order and sizes.

Time is an integer number of nanoseconds (milliseconds for Redis) that never runs backwards and is
read once per critical section, or twice where a failure opens the circuit. Tokens are real numbers.
A mutex section is one step and so is an atomic operation. The preconditions the code does not check
itself are stated where they matter: weights not negative with a positive alive total, limiter rate
and limit at least 1, windows not negative, at least one half-open request and a positive open time.

## Where the code and its documentation part

- "All probes succeeded" (the comment on closing) is not what closing tests; it counts admitted probes.
  `ClosesUnproved` gives a run, `ClosedMeansProvedIff` the exact condition. The request that opens an
  episode is not counted, so an episode that closes has admitted exactly one more than configured
  (`ClosingAccount`, `SequentialRecovery`).
- "Existing health-checkers for unchanged backends are preserved" does not hold: a reload builds new
  ones and stops only those whose prefix is gone (`KeptIffReloadFails`, `LeavesNothingIff`,
  `UnchangedReloadsPileUp`).
- The Redis script is documented to add each request; requests in one millisecond collapse into one
  member. It limits requests exactly when the limit is one (`LimitsRequestsIffLimitIsOne`).
- A caller who waits exactly the sliding window's RetryAfter is still rejected; one nanosecond more is
  enough (`SlidingWindow.RetryAfterIsTight`). A token bucket with burst 0 admits nothing (`BurstDecides`).
- Least connections always keeps loads within the number of racing requests if a whole scan is one
  step. No lock makes it one: with separately read loads that holds if and only if there are at most
  two backends, at most two requests in flight, or three of both (`AlwaysWithinIff`).

## Model

| member | source | states |
|---|---|---|
| `SmoothWeighted.FirstMaxIsFirst` | internal/loadbalancer/loadbalancer.go:172-184 | The scan fails if and only if no backend is alive; otherwise it finds the first of the largest alive counters. |
| `SmoothWeighted.PickIsFirstLargest` | internal/loadbalancer/loadbalancer.go:166-187 | A call picks the first alive backend whose counter plus weight is the largest among the alive ones; it picks none if and only if none is alive. |
| `SmoothWeighted.CallConserves` | internal/loadbalancer/loadbalancer.go:166-187 | One call leaves the sum of all counters unchanged, and a failing call changes no counter. |
| `SmoothWeighted.ConservationUnderChurn` | internal/loadbalancer/loadbalancer.go:166-208 | For every sequence of calls under arbitrary alive flags and of reconfigurations, the counters sum to zero. |
| `SmoothWeighted.CurrentIsDebt` | internal/loadbalancer/loadbalancer.go:158-187 | With a fixed alive set, after k calls each counter is k times the weight minus the total times the number of picks. |
| `SmoothWeighted.CountsSum` | internal/loadbalancer/loadbalancer.go:166-187 | Of k calls exactly k return a backend. |
| `SmoothWeighted.PicksAreCounted` | internal/loadbalancer/loadbalancer.go:166-187 | The count of a backend is the number of calls that returned it. |
| `SmoothWeighted.NeverAheadByAPick` | internal/loadbalancer/loadbalancer.go:166-187 | No counter ever falls to minus the total W: nobody is a whole pick ahead of its share. |
| `SmoothWeighted.NeverBehindByMore` | internal/loadbalancer/loadbalancer.go:166-187 | With m alive backends, counted, no counter exceeds (m - 1)(W - 1). |
| `SmoothWeighted.ExactQuota` | internal/loadbalancer/loadbalancer.go:144-187 | After exactly W calls every backend was returned exactly as often as its weight says and all counters are zero again. |
| `SmoothWeighted.Periodic` | internal/loadbalancer/loadbalancer.go:166-187 | The counters repeat with period W. |
| `SmoothWeighted.ScheduleRepeats` | internal/loadbalancer/loadbalancer.go:166-187 | The sequence of returned backends repeats with period W. |
| `SmoothWeighted.EveryWindowMeetsQuota` | internal/loadbalancer/loadbalancer.go:166-187 | Any W consecutive calls, wherever they start, meet every quota exactly. |
| `WeightedBalancer.Weighted.constructor` | internal/loadbalancer/loadbalancer.go:158-164 | A new balancer lists the given backends in order with zero counters. |
| `WeightedBalancer.Weighted.Wrap` | internal/loadbalancer/loadbalancer.go:158-163 | Every position gets a counter object of its own, also when two positions share a backend. |
| `WeightedBalancer.Weighted.Consider` | internal/loadbalancer/loadbalancer.go:172-181 | One turn of the scan: a dead backend changes nothing; an alive one gains its weight and wins only by being strictly larger. |
| `WeightedBalancer.Weighted.Raise` | internal/loadbalancer/loadbalancer.go:170-181 | The whole scan: all counters raised, the alive total, and the first largest as best. |
| `WeightedBalancer.Weighted.Next` | internal/loadbalancer/loadbalancer.go:166-187 | Returns the first alive backend whose old counter plus weight is largest, null if and only if nobody is alive; the counters become those of the step whose runs are characterised above. |
| `WeightedBalancer.Weighted.List` | internal/loadbalancer/loadbalancer.go:189-197 | The backends in order, without their counters. |
| `WeightedBalancer.Weighted.Update` | internal/loadbalancer/loadbalancer.go:199-208 | New list in configuration order; surviving URLs keep their object, new ones start alive and idle, all counters restart at zero. |
| `Backends.Backend.constructor` | internal/loadbalancer/loadbalancer.go:60-66 | A new backend is alive and has nothing in flight. |
| `Backends.Backend.SetAlive` | internal/loadbalancer/loadbalancer.go:30 | Stores the flag and touches nothing else. |
| `Backends.Backend.Inc` | internal/loadbalancer/loadbalancer.go:32 | Adds one to the in-flight count and touches nothing else. |
| `Backends.Backend.Dec` | internal/loadbalancer/loadbalancer.go:33 | Takes one from the in-flight count and touches nothing else. |
| `Backends.Healthy` | internal/loadbalancer/loadbalancer.go:249-257 | The loop returns the backends at the alive positions, in the configured order. |
| `Backends.AliveAt` | internal/loadbalancer/loadbalancer.go:249-257 | The alive positions in strictly ascending order, so each once. |
| `Backends.NoneMissing` | internal/loadbalancer/loadbalancer.go:249-257 | No alive position is missing from them. |
| `Backends.HealthyIsAlive` | internal/loadbalancer/loadbalancer.go:249-257 | That list holds exactly the alive ones among the backends. |
| `Backends.IndexByUrl` | internal/loadbalancer/loadbalancer.go:262-265 | The table knows exactly the existing URLs; of duplicates the last object stays. |
| `Backends.MergeOne` | internal/loadbalancer/loadbalancer.go:267-276 | A known URL keeps its object and takes the new weight; an unknown one gets a new alive object. |
| `Backends.MergeBackends` | internal/loadbalancer/loadbalancer.go:259-278 | Configuration order; every surviving URL keeps the same object (so its alive flag and in-flight count); new ones are alive and idle; the last entry for a URL decides its weight; dropped ones are untouched. |
| `LeastConnections.FirstMinIsFirst` | internal/loadbalancer/loadbalancer.go:123-128 | The scan finds the first backend of smallest load. |
| `LeastConnections.LeastConn.Scan` | internal/loadbalancer/loadbalancer.go:123-129 | The loop over the healthy backends keeps the first of the least loaded. |
| `LeastConnections.LeastOfAlive` | internal/loadbalancer/loadbalancer.go:119-129 | The first least among the healthy is the first least among all alive backends in the configured order. |
| `LeastConnections.LeastConn.Next` | internal/loadbalancer/loadbalancer.go:114-130 | Null if and only if nobody is alive; otherwise an alive backend with at most the in-flight count of every alive one, and strictly less than every earlier alive one. |
| `LeastConnections.MoveKeepsBalance` | internal/proxy/gateway.go:263-280 | Pick, count and give-up each keep: load plus pending picks of any backend is at most c above every other load. |
| `LeastConnections.RunKeepsBalance` | internal/proxy/gateway.go:263-280 | That balance in every state of every interleaving with at most c requests between pick and count. |
| `LeastConnections.SkewIsBounded` | internal/loadbalancer/loadbalancer.go:114-130 | So loads that start within c of each other never drift more than c apart, c = 1 being one request at a time. |
| `LeastConnections.SkewIsReached` | internal/loadbalancer/loadbalancer.go:114-130 | The bound is tight: for every c and two or more backends, a run from equal loads ends exactly c apart. |
| `LeastConnScan.LoadIsCount` | internal/proxy/gateway.go:278-280 | Read by read: a load is the initial level plus the requests counted there. |
| `LeastConnScan.StaysOnRecord` | internal/proxy/gateway.go:263-280 | A counted or refused request keeps its place for the rest of the run. |
| `LeastConnScan.CompareJustified` | internal/loadbalancer/loadbalancer.go:124-128 | A comparison of two separately read loads keeps what the scan knows about its candidate. |
| `LeastConnScan.AlwaysJustified` | internal/loadbalancer/loadbalancer.go:123-129 | At every moment, the candidate was, when first read, at most as loaded as each later backend compared is now, and less than some earlier one is now. |
| `LeastConnScan.PicksAreFew` | internal/loadbalancer/loadbalancer.go:114-130 | Everyone settled on a backend was already counted there, or in flight, when the last of them first read it. |
| `LeastConnTight.InFlightTogether` | internal/loadbalancer/loadbalancer.go:114-130 | Everyone counted at a backend above the mark at which they first read it was in flight at one and the same moment. |
| `LeastConnTight.Turn` | internal/loadbalancer/loadbalancer.go:124-128 | Every candidate but the first was taken over, at some earlier moment, from one that was then more loaded. |
| `LeastConnTight.TakeoverIsNear` | internal/loadbalancer/loadbalancer.go:125-126 | A takeover adds at most c - 2 to how far a candidate can have been above any backend already compared. |
| `LeastConnTight.AlwaysNear` | internal/loadbalancer/loadbalancer.go:123-129 | At every moment candidate b was, when first read, at most (b - 1)(c - 2) above what every backend compared has now. |
| `LeastConnTight.DemandIsBounded` | internal/loadbalancer/loadbalancer.go:114-130 | Load plus pending picks at one backend is at most c + (j - 1)(c - 2) above the load at any other. |
| `LeastConnTight.ScanSkewIsBounded` | internal/loadbalancer/loadbalancer.go:114-130 | With every load read separately, n level backends with at most c requests in flight stay within c + (n - 2)(c - 2), and within c for n <= 2 or c <= 2. |
| `LeastConnTight.RunUp` | internal/loadbalancer/loadbalancer.go:123-129 | Three backends, three in flight: what must have happened if the last to settle on 2 saw it above 1. |
| `LeastConnTight.ThreeStayTight` | internal/loadbalancer/loadbalancer.go:114-130 | Three level backends with three in flight stay within three. |
| `LeastConnRuns.Stall` | internal/loadbalancer/loadbalancer.go:119-125 | A run can go on with a new request that scans undisturbed and stops after reading the last load. |
| `LeastConnRuns.Settle` | internal/loadbalancer/loadbalancer.go:125-129 | A run can go on with a stalled request making its last comparison against present loads. |
| `LeastConnRuns.Land` | internal/proxy/gateway.go:278-280 | A run can go on with a settled request being counted. |
| `LeastConnRuns.FourGoTooFar` | internal/loadbalancer/loadbalancer.go:123-128 | For all n >= 3 and c >= 4 there is a run of n level backends with c in flight that ends c + 1 apart. |
| `LeastConnRuns.ThreeGoTooFar` | internal/loadbalancer/loadbalancer.go:123-128 | For all n >= 4 there is a run with three in flight that ends four apart. |
| `LeastConnRuns.AlwaysWithinIff` | internal/loadbalancer/loadbalancer.go:114-130 | The exact condition: all runs of n level backends with at most c in flight stay within c if and only if n <= 2, or c <= 2, or n = c = 3. |
| `CircuitBreaker.Breaker.constructor` | internal/circuitbreaker/circuitbreaker.go:60-78 | A breaker starts closed with an empty window; settings left at zero become 20 requests, 50 percent, 30 seconds, 5 probes. |
| `CircuitBreaker.Breaker.Allow` | internal/circuitbreaker/circuitbreaker.go:80-105 | Decision and new state of the in-place method are those of the specification, in all three states. |
| `CircuitBreaker.Breaker.RecordSuccess` | internal/circuitbreaker/circuitbreaker.go:107-124 | Refines the specification of a success. |
| `CircuitBreaker.Breaker.RecordFailure` | internal/circuitbreaker/circuitbreaker.go:126-143 | Refines the specification of a failure, with the clock read again when the circuit opens. |
| `CircuitBreaker.Breaker.Record` | internal/circuitbreaker/circuitbreaker.go:155-165 | The append-and-evict loop yields exactly the specified window. |
| `CircuitBreaker.Breaker.MaybeTrip` | internal/circuitbreaker/circuitbreaker.go:167-182 | The circuit opens exactly if the window holds enough observations and 100 times the unsuccessful ones reaches the threshold times all. |
| `CircuitBreaker.Breaker.TransitionTo` | internal/circuitbreaker/circuitbreaker.go:184-198 | What each transition resets and what it keeps. |
| `BreakerSpec.RecordEvictsStale` | internal/circuitbreaker/circuitbreaker.go:155-165 | What is evicted is exactly the leading observations older than the rolling window, up to the first that is not. |
| `BreakerSpec.PercentageIsExact` | internal/circuitbreaker/circuitbreaker.go:178-179 | The test with rounded-down percentage equals the exact comparison of the failure ratio. |
| `BreakerSpec.FailuresAreCounted` | internal/circuitbreaker/circuitbreaker.go:172-177 | The failures are the number of positions in the window without success. |
| `BreakerHistory.RecentIsCounted` | internal/circuitbreaker/circuitbreaker.go:155-168 | The window after a record is as long as there are log entries of the last ten seconds. |
| `BreakerHistory.RecentFailuresAreCounted` | internal/circuitbreaker/circuitbreaker.go:155-177 | And its failures are the unsuccessful ones among them. |
| `TimeLog.Stale` | internal/circuitbreaker/circuitbreaker.go:158-164 | Where the eviction loop stops: everything before is older than the cutoff, the next entry is not. |
| `TimeLog.StaleIs` | internal/circuitbreaker/circuitbreaker.go:158-164 | A loop that stopped at i with only stale entries behind it stopped where the specification does. |
| `TimeLog.EvictionIsFilter` | internal/circuitbreaker/circuitbreaker.go:158-164 | On a sorted list dropping the stale prefix equals filtering the whole list. |
| `TimeLog.EarlierPruneIsHarmless` | internal/circuitbreaker/circuitbreaker.go:158-164 | Pruning earlier with an older cutoff never changes the result of a later prune. |
| `TimeLog.SinceIsSorted` | internal/ratelimiter/ratelimiter.go:186-191 | What pruning keeps is sorted and was in the list. |
| `BreakerHistory.RecordIsRecent` | internal/circuitbreaker/circuitbreaker.go:155-165 | Recording into the pruned window equals pruning the complete log with the new entry. |
| `BreakerHistory.TripsIsTooMany` | internal/circuitbreaker/circuitbreaker.go:167-182 | The trip test on the pruned window is the rule counted over the whole log: enough recent observations, and 100 * unsuccessful >= threshold * recent. |
| `BreakerHistory.StepAgrees` | internal/circuitbreaker/circuitbreaker.go:81-198 | Every step keeps the breaker in agreement with a ledger that forgets nothing. |
| `BreakerHistory.WindowRefinesHistory` | internal/circuitbreaker/circuitbreaker.go:155-198 | In every run the window is exactly the observations of the last ten seconds since the circuit last closed, and empty outside closed. |
| `BreakerHistory.DecisionsRefineHistory` | internal/circuitbreaker/circuitbreaker.go:80-105 | In every run each request is admitted exactly when the ledger would admit it. |
| `BreakerHistory.TripsExactlyOnRecentFailures` | internal/circuitbreaker/circuitbreaker.go:134-137 | From closed the circuit opens exactly on a failure that makes the recent observations since the last closing enough, and the unsuccessful among them, counted, reach the threshold; successes never open it. |
| `BreakerRuns.BooksStep` | internal/circuitbreaker/circuitbreaker.go:81-142 | Each step keeps the account: every half-open episode cost one full wait and let through at most HalfOpenRequests + 1. |
| `BreakerRuns.TrippedBooks` | internal/circuitbreaker/circuitbreaker.go:81-142 | That account in every run from a trip without a return to closed. |
| `BreakerRuns.AdmissionsAreCounted` | internal/circuitbreaker/circuitbreaker.go:81-105 | Admissions are the number of requests of the run that are let through. |
| `BreakerRuns.EpisodesAreCounted` | internal/circuitbreaker/circuitbreaker.go:91-96 | Episodes are the number of moments at which open turns half-open. |
| `BreakerRuns.EpisodeStartsLate` | internal/circuitbreaker/circuitbreaker.go:91-96 | The e-th half-open episode starts strictly later than e full waits after the trip. |
| `BreakerRuns.TrippedThroughput` | internal/circuitbreaker/circuitbreaker.go:81-142 | From a trip until t without closing, at most (HalfOpenRequests + 1) * floor((t - t0) / D) requests are admitted, and none up to t0 + D. |
| `BreakerProbes.ActKeepsAccounts` | internal/circuitbreaker/circuitbreaker.go:81-143 | With reports arriving in any later state, every step keeps each probe accounted for as in flight or won. |
| `BreakerProbes.AlwaysAccounted` | internal/circuitbreaker/circuitbreaker.go:81-143 | That account over all interleavings of requests and out-of-order reports. |
| `BreakerProbes.WonAreSuccesses` | internal/circuitbreaker/circuitbreaker.go:107-124 | Whatever counts as a won probe was reported as a success. |
| `BreakerProbes.EpisodeBudget` | internal/circuitbreaker/circuitbreaker.go:91-102 | A half-open episode admits at most HalfOpenRequests + 1 requests, since its opener is not counted. |
| `BreakerProbes.NeverWedges` | internal/circuitbreaker/circuitbreaker.go:97-142 | If half-open rejects, a probe of this episode is in flight, and any next report leaves half-open. |
| `BreakerProbes.DrainedBreakerAdmits` | internal/circuitbreaker/circuitbreaker.go:88-104 | With every admitted request reported, a breaker past one full wait admits. |
| `BreakerProbes.ClosingAccount` | internal/circuitbreaker/circuitbreaker.go:115-142 | A report closes half-open if and only if it is a success and all HalfOpenRequests + 1 were admitted; none has failed then. It reopens if and only if it is a failure. |
| `BreakerProbes.ClosedMeansProvedIff` | internal/circuitbreaker/circuitbreaker.go:119-122 | "All probes succeeded" holds on closing if and only if the closing report comes from the only probe still in flight. |
| `BreakerProbes.ClosesUnproved` | internal/circuitbreaker/circuitbreaker.go:119-122 | Counterexample: the late success of a request admitted before the trip closes the circuit with no probe back. |
| `BreakerProbes.SequentialRecovery` | internal/circuitbreaker/circuitbreaker.go:91-124 | Without overlap, whenever requests ask and report, an open breaker past its wait closes on exactly the (HalfOpenRequests + 1)-th consecutive success. |
| `TokenBucket.FirstFill` | internal/ratelimiter/ratelimiter.go:129-154 | At its first use a bucket is full. |
| `TokenBucket.TokensAreTheMinimum` | internal/ratelimiter/ratelimiter.go:122-140 | The token count is the minimum, over all earlier calls j and this one, of burst + credit since j - admissions since j. |
| `TokenBucket.AdmitsIffEveryStretchAllows` | internal/ratelimiter/ratelimiter.go:134-139 | A call is admitted if and only if no stretch of calls ending in it would become too full. |
| `TokenBucket.BucketIsSafe` | internal/ratelimiter/ratelimiter.go:122-140 | Every stretch ending in an admission stays within burst + rate * length. |
| `TokenBucket.AdmissionsAreCounted` | internal/ratelimiter/ratelimiter.go:134-139 | The admissions of a stretch are the number of its positive decisions. |
| `TokenBucket.StretchBound` | internal/ratelimiter/ratelimiter.go:122-140 | Hence so does every stretch of calls, for any safe policy. |
| `TokenBucket.NoSafePolicyAdmitsMore` | internal/ratelimiter/ratelimiter.go:122-140 | No safe policy has admitted more calls of the run at any point: the bucket is the most permissive safe limiter. |
| `TokenBucket.RefillsCompose` | internal/ratelimiter/ratelimiter.go:129-132 | Refilling twice equals refilling once. |
| `TokenBucket.RejectedRunIsOneRefill` | internal/ratelimiter/ratelimiter.go:129-137 | Any run of rejected calls equals one refill. |
| `TokenBucket.CreditCoversIff` | internal/ratelimiter/ratelimiter.go:130-135 | The credit reaches a whole token exactly when the exact wait has passed. |
| `TokenBucket.RetryAdmittedIff` | internal/ratelimiter/ratelimiter.go:134-137 | After a rejection and any rejected retries, a call is admitted if and only if the exact wait is over. |
| `TokenBucket.RetryAfterIsFloor` | internal/ratelimiter/ratelimiter.go:135 | RetryAfter is the last whole nanosecond at which the refilled bucket holds no more than one token. |
| `TokenBucket.RetryAfterIsTight` | internal/ratelimiter/ratelimiter.go:134-137 | Retries before now + RetryAfter are rejected, and one a nanosecond past it is admitted. |
| `TokenBucket.EarlyRetriesAllRejected` | internal/ratelimiter/ratelimiter.go:134-137 | A caller that only retries too early is rejected every time. |
| `TokenBucket.BurstDecides` | internal/ratelimiter/ratelimiter.go:131-136 | Burst below 1 rejects every call for ever; the first call is admitted if and only if burst is at least 1. |
| `SlidingWindow.PruneKept` | internal/ratelimiter/ratelimiter.go:183-191 | Pruning the list yields the history from now - window on, of the right length. |
| `SlidingWindow.WithinIsCounted` | internal/ratelimiter/ratelimiter.go:186-193 | The admissions in an interval are the number of history entries that lie in it. |
| `SlidingWindow.UseKept` | internal/ratelimiter/ratelimiter.go:183-199 | Each call keeps the list equal to the recent part of the history. |
| `SlidingWindow.ListIsRecentHistory` | internal/ratelimiter/ratelimiter.go:176-200 | In every run the list is exactly the recent part of the complete admission history. |
| `SlidingWindow.DecidesByHistory` | internal/ratelimiter/ratelimiter.go:193-199 | A call is admitted if and only if fewer than rate admissions of the whole history lie in [now - window, now]. |
| `SlidingWindow.ListStaysShort` | internal/ratelimiter/ratelimiter.go:176-200 | The list stays sorted and no longer than the rate. |
| `SlidingWindow.EveryIntervalIsBounded` | internal/ratelimiter/ratelimiter.go:176-200 | Every closed interval of the window length, wherever placed, holds at most rate admissions. |
| `SlidingWindow.PruneTwice` | internal/ratelimiter/ratelimiter.go:186-191 | Pruning at two moments equals pruning at the later one. |
| `SlidingWindow.RejectedRunIsOnePrune` | internal/ratelimiter/ratelimiter.go:183-197 | Any run of rejected calls, early or not, does what its last call alone would: one prune. |
| `SlidingWindow.RejectedCallsLeaveNoTrace` | internal/ratelimiter/ratelimiter.go:183-199 | No later call is decided or recorded differently for any rejected calls made before it. |
| `SlidingWindow.FullUntilOldestIsStale` | internal/ratelimiter/ratelimiter.go:193-197 | A full list admits if and only if the advertised time has strictly passed. |
| `SlidingWindow.EarlyRetriesChangeNothing` | internal/ratelimiter/ratelimiter.go:186-197 | Any retries up to and including now + RetryAfter leave the list as it was. |
| `SlidingWindow.RetryAfterIsTight` | internal/ratelimiter/ratelimiter.go:193-199 | After any such retries, a call is admitted if and only if it comes strictly after now + RetryAfter. |
| `RedisWindow.LifetimeCovers` | internal/ratelimiter/ratelimiter.go:239 | The expiry is the window rounded up to whole seconds. |
| `RedisWindow.CallHolds` | internal/ratelimiter/ratelimiter.go:226-241 | Each script call decides as on the full set of admitted milliseconds and keeps the key equal to its recent part. |
| `RedisWindow.SetIsRecentMilliseconds` | internal/ratelimiter/ratelimiter.go:225-241 | In every run the sorted set is the distinct admitted milliseconds of (now - window, now], and expiry never changes a decision. |
| `RedisWindow.MillisecondsAreBounded` | internal/ratelimiter/ratelimiter.go:225-241 | At most limit distinct milliseconds admit in any half-open interval of the window length. |
| `RedisWindow.KeyDecides` | internal/ratelimiter/ratelimiter.go:226-240 | The actual key, pruned and expired as it is, decides and keeps what the full set of admitted milliseconds would. |
| `RedisWindow.RequestsAreCounted` | internal/ratelimiter/ratelimiter.go:232-240 | The requests of a window are the number of calls in it that the actual key admitted. |
| `RedisWindow.EarlyRetriesAddNothing` | internal/ratelimiter/ratelimiter.go:232-237 | Retries before now + RetryAfter admit nothing. |
| `RedisWindow.RetryAfterIsExact` | internal/ratelimiter/ratelimiter.go:225-237 | After a rejection and any retries before now + RetryAfter, the actual key admits a call if and only if now + RetryAfter has come. |
| `RedisWindow.BurstInOneMillisecond` | internal/ratelimiter/ratelimiter.go:238 | With limit at least 2, any number of requests in one millisecond is admitted: they collapse into one member. |
| `RedisWindow.NobodyLeft` | internal/ratelimiter/ratelimiter.go:233-238 | With limit 1 an admitted millisecond turns away its own later requests. |
| `RedisWindow.RequestsAreMilliseconds` | internal/ratelimiter/ratelimiter.go:225-241 | With limit 1, or calls in distinct milliseconds, requests and milliseconds count the same. |
| `RedisWindow.LimitsRequestsIffLimitIsOne` | internal/ratelimiter/ratelimiter.go:223-241 | The script limits requests per window in all runs if and only if the limit is one. |
| `RedisWindow.DistinctCallsAreLimited` | internal/ratelimiter/ratelimiter.go:225-241 | Whatever the limit, it holds for requests in runs whose calls fall in distinct milliseconds. |
| `Limiters.LocalTokenBucket.GetOrCreate` | internal/ratelimiter/ratelimiter.go:142-157 | A known key keeps its bucket and the table is unchanged; an unknown one gets a new full bucket of its own. |
| `Limiters.TbBucket.Take` | internal/ratelimiter/ratelimiter.go:126-139 | Refill, decision, RetryAfter and new state are those of the specification. |
| `Limiters.LocalTokenBucket.Allow` | internal/ratelimiter/ratelimiter.go:122-140 | The in-place call refines the specification for its key, gives the specified RetryAfter, and leaves all other keys alone. |
| `Limiters.SwBucket.Take` | internal/ratelimiter/ratelimiter.go:180-199 | Eviction loop, decision, RetryAfter and new list are those of the specification. |
| `Limiters.LocalSlidingWindow.GetOrCreate` | internal/ratelimiter/ratelimiter.go:202-217 | A known key keeps its bucket; an unknown one gets an empty bucket of its own. |
| `Limiters.LocalSlidingWindow.Allow` | internal/ratelimiter/ratelimiter.go:176-200 | The in-place call refines the specification for its key and leaves all other keys alone. |
| `Limiters.RedisLimiter.First` | internal/ratelimiter/ratelimiter.go:235 | The lowest-scored member of the sorted set. |
| `Limiters.RedisLimiter.RunScript` | internal/ratelimiter/ratelimiter.go:226-240 | Prune, count, add and expire as specified; a rejection reports the age-out of the oldest remaining member. |
| `Limiters.RedisLimiter.Allow` | internal/ratelimiter/ratelimiter.go:272-293 | The answer of the script; if it is lost, before or after the script ran, the request is allowed. |
| `BucketTable.SpendIsSound` | internal/ratelimiter/ratelimiter.go:122-140 | Using a bucket keeps every key answered as if it were alone. |
| `BucketTable.LookupIsSound` | internal/ratelimiter/ratelimiter.go:142-157 | So do a read miss, the lock, the re-check and creation, whatever other threads do in between. |
| `BucketTable.RunIsSound` | internal/ratelimiter/ratelimiter.go:122-157 | Hence in every interleaving of any number of threads each key is answered as one bucket on its own would. |
| `BucketTable.BucketIsForEver` | internal/ratelimiter/ratelimiter.go:142-157 | A key once mapped keeps the same bucket. |
| `BucketTable.OneBucketPerKey` | internal/ratelimiter/ratelimiter.go:142-157 | Two requests hold the same bucket if and only if they have the same key. |
| `BucketTable.TokensAlone` | internal/ratelimiter/ratelimiter.go:122-140 | One bucket on its own is a run of the token bucket. |
| `BucketTable.WindowAlone` | internal/ratelimiter/ratelimiter.go:176-200 | One bucket on its own is a run of the sliding window. |
| `BucketTable.MakingTimeIsForgotten` | internal/ratelimiter/ratelimiter.go:154 | When a bucket was created never matters. |
| `BucketTable.EveryCallIsDecided` | internal/ratelimiter/ratelimiter.go:122-157 | Under every interleaving each call is decided once, at its own time, under the key its request came with. |
| `BucketTable.KeysAreIsolated` | internal/ratelimiter/ratelimiter.go:122-157 | Two arbitrary interleavings whose requests call a key at the same times give it the same answers, one for each call, whatever else they do. |
| `BucketTable.EveryTokenKeyIsSafe` | internal/ratelimiter/ratelimiter.go:122-157 | Under every interleaving each token-bucket key is safe over every stretch of its own calls. |
| `BucketTable.WindowAnswerAt` | internal/ratelimiter/ratelimiter.go:193-199 | Each answer of a bucket on its own counts its own history. |
| `BucketTable.EveryWindowKeyCountsItself` | internal/ratelimiter/ratelimiter.go:176-217 | Under every interleaving each sliding-window key is answered by counting that key's own history. |
| `RequestProtocol.CountedChange` | internal/proxy/gateway.go:278-280 | One request's move changes the number counted at a backend by one, in or out. |
| `RequestProtocol.CountersStep` | internal/proxy/gateway.go:278-280 | Every atomic step keeps each counter equal to the requests between Inc and Dec. |
| `RequestProtocol.InflightIsExact` | internal/proxy/gateway.go:251-343 | In every interleaving each in-flight counter is that number of requests. |
| `RequestProtocol.InflightDrains` | internal/proxy/gateway.go:278-280 | A counter is never negative and is zero once all requests are gone. |
| `RequestProtocol.TidyStep` | internal/proxy/gateway.go:271-287 | Every step keeps: only parsed URLs reach the proxy, and exactly the admitted requests are past the breaker. |
| `RequestProtocol.AskTracks` | internal/proxy/gateway.go:271-276 | Asking keeps each URL's breaker tracking exactly the requests that await its answer. |
| `RequestProtocol.AnswerTracks` | internal/proxy/gateway.go:310-327 | So does reporting. |
| `RequestProtocol.OtherMovesTrack` | internal/proxy/gateway.go:251-343 | So does every other step, of this or any other request. |
| `RequestProtocol.BreakersTrack` | internal/proxy/gateway.go:251-343 | In every interleaving each breaker's outstanding requests are the protocol's. |
| `RequestProtocol.RouteNeverWedges` | internal/proxy/gateway.go:271-327 | If a half-open breaker turns requests away, some request on its URL is awaiting an answer, and any answer there leaves half-open. |
| `RequestProtocol.DrainedRouteAdmits` | internal/proxy/gateway.go:271-276 | With all requests gone, no URL is refused beyond one full wait. |
| `RequestProtocol.RecordStep` | internal/proxy/gateway.go:310-327 | Each step keeps the number of reports per request at what its stage says. |
| `RequestProtocol.RecordedExactlyOnce` | internal/proxy/gateway.go:310-327 | Every admitted request with a parseable URL is reported exactly once by the time it leaves; every other one never. |
| `RequestHistory.AlwaysRemembers` | internal/proxy/gateway.go:263-327 | In every interleaving a request keeps the backend the balancer gave it and, once answered, its outcome. |
| `RequestHistory.BreakersHearOutcomes` | internal/proxy/gateway.go:271-327 | In every interleaving each URL's breaker is where the plain breaker would be after exactly the requests that asked there and, for each answer, a success if it was healthy and a failure if not. |
| `RequestHistory.AskDecides` | internal/proxy/gateway.go:271-276 | A request that asks goes on exactly if its URL has no breaker or that plain breaker admits it. |
| `RequestHistory.FlagsTellOutcomes` | internal/proxy/gateway.go:312-325 | Each alive flag is what was last written: a health check, or the outcome of a request served there. |
| `RequestHistory.LimiterDecides` | internal/proxy/gateway.go:252-261 | A limited request is gone for good, admitted nowhere and reported nowhere; any other goes on to the balancer. |
| `RequestHistory.RecordedIsAnswered` | internal/proxy/gateway.go:310-327 | Each request is reported as often as it was answered. |
| `Proxy.ServeProxy` | internal/proxy/gateway.go:251-343 | Status, alive flag, in-flight count and breaker state after one whole request, in every branch; healthy is a response below 500. |
| `Proxy.Gateway.Match` | internal/proxy/gateway.go:94-107 | The chosen route has the longest matching prefix, the first of equally long ones; none if and only if nothing matches. |
| `Proxy.Checker.constructor` | internal/health/health.go:34-52 | A new checker runs and was never stopped. |
| `Proxy.Checker.Stop` | internal/health/health.go:62 | Counts one stop. |
| `Proxy.Gateway.BuildRoute` | internal/proxy/gateway.go:186-248 | A route that gets as far as its checker starts exactly one, also if it fails later. |
| `Proxy.Gateway.BuildRoutes` | internal/proxy/gateway.go:174-184 | Routes are built in order, each after starting a new checker, up to the first failure; no older checker is touched. |
| `Proxy.Gateway.Prefixes` | internal/proxy/gateway.go:75-79 | The set of prefixes of the new routes. |
| `Proxy.Gateway.StopChecker` | internal/proxy/gateway.go:81-83 | Stops one checker and no other. |
| `Proxy.Gateway.StopOld` | internal/proxy/gateway.go:80-84 | Exactly the specified stops of the old routes. |
| `Proxy.Gateway.Reload` | internal/proxy/gateway.go:64-86 | The in-place reload refines the specification; a failed one installs nothing. |
| `Reloads.StopRemovedAt` | internal/proxy/gateway.go:80-84 | A checker is stopped, once, exactly if no new route has its route's prefix. |
| `Reloads.ReloadIsHealthy` | internal/proxy/gateway.go:64-86 | A reload keeps: installed checkers are distinct and run, no checker is stopped twice. |
| `Reloads.RunningAfter` | internal/proxy/gateway.go:64-86 | Exactly which checkers run after a reload, failed or not. |
| `Reloads.InstalledAfter` | internal/proxy/gateway.go:70-73 | Exactly which checkers are installed after it. |
| `Reloads.ReloadAccounted` | internal/proxy/gateway.go:64-86 | Running checkers stay the installed ones plus those left behind. |
| `Reloads.CheckersOverReloads` | internal/proxy/gateway.go:64-86 | Over any sequence of reloads: installed checkers run, none is stopped twice, and the running ones are the installed and the left-behind. |
| `Reloads.LeavesNothingIff` | internal/proxy/gateway.go:62-84 | The documented preservation fails: a reload adds no running checker without a route if and only if no old prefix survives it, or it fails before starting a checker. |
| `Reloads.KeptIffReloadFails` | internal/proxy/gateway.go:62-84 | An old route whose prefix survives keeps its checker installed if and only if the reload fails; the checker runs on either way. |
| `Reloads.IdenticalReload` | internal/proxy/gateway.go:64-86 | The exact state after n reloads of one configuration: all new checkers, nothing stopped. |
| `Reloads.UnchangedReloadsPileUp` | internal/proxy/gateway.go:62-84 | n reloads of an unchanged configuration with m routes leave (n + 1) * m checkers running. |
| `SpanExport.FlushConserves` | internal/middleware/tracing.go:127-131 | Sending the batch moves it to the sent spans, in order. |
| `SpanExport.StepConserves` | internal/middleware/tracing.go:101-134 | Every step keeps: sent batches, pending batch and queue together are the accepted spans in order; sizes within 1 to 100 and 2048. |
| `SpanExport.AlwaysConserved` | internal/middleware/tracing.go:101-134 | That conservation in every interleaving of record, receive, tick, send and stop. |
| `SpanExport.NothingLeftBehind` | internal/middleware/tracing.go:115-121 | When the loop has ended every accepted span has been handed to send, in order. |
| `SpanExport.DropsOnlyWhenFull` | internal/middleware/tracing.go:101-106 | A span is dropped if and only if it is recorded while the queue holds 2048; otherwise it is accepted. |
| `SpanExport.SendsWhenDue` | internal/middleware/tracing.go:115-132 | A batch is handed over exactly when its hundredth span arrives or, if it holds any, at a tick or the end, and then whole; otherwise it only grows. |
| `SpanExport.Exporter.constructor` | internal/middleware/tracing.go:90-99 | The exporter starts empty and open. |
| `SpanExport.Exporter.Record` | internal/middleware/tracing.go:101-106 | The in-place record is the specified step. |
| `SpanExport.Exporter.Send` | internal/middleware/tracing.go:136-154 | Hands over one batch. |
| `SpanExport.Exporter.OnSpan` | internal/middleware/tracing.go:115-126 | Receiving one span is the specified step, sending at 100. |
| `SpanExport.Exporter.OnTick` | internal/middleware/tracing.go:127-131 | A tick is the specified step. |
| `SpanExport.Exporter.OnClosed` | internal/middleware/tracing.go:116-121 | Finding the channel closed and empty is the specified step. |
| `SpanExport.Exporter.Stop` | internal/middleware/tracing.go:156-160 | After Stop everything accepted has been sent, in order, and nothing is pending. |
| `SpanExport.TraceStore.constructor` | internal/middleware/tracing.go:44-49 | A non-positive size becomes 100. |
| `SpanExport.TraceStore.Add` | internal/middleware/tracing.go:51-58 | The ring invariant against a history that only grows. |
| `SpanExport.TraceStore.GetAll` | internal/middleware/tracing.go:60-67 | Exactly the last max traces ever added, oldest first. |
| `TraceContext.SplitJoins` | internal/middleware/tracing.go:273 | Splitting loses nothing and leaves no dash in a part. |
| `TraceContext.SplitAtDash` | internal/middleware/tracing.go:273 | Splitting at a dash splits the two sides apart. |
| `TraceContext.SplitWhole` | internal/middleware/tracing.go:273 | A text is its own only part if and only if it has no dash. |
| `TraceContext.SplitFormat` | internal/middleware/tracing.go:179 | How the header that a gateway writes splits, for any trace identifier. |
| `TraceContext.FourPartsIff` | internal/middleware/tracing.go:273-276 | The written header has four parts if and only if the trace identifier has no dash. |
| `TraceContext.NextHopContinues` | internal/middleware/tracing.go:177-183 | What one gateway writes the next reads back, for every trace identifier: same trace, writer's span as parent. |
| `TraceContext.IncomingTraceIsKept` | internal/middleware/tracing.go:272-277 | A four-field header from outside keeps its trace and gives its span as parent. |
| `TraceContext.OneTraceAcrossHops` | internal/middleware/tracing.go:218-282 | For any initial headers and any number of hops, sampled or not, one trace identifier and each span the child of the previous. |
| `TraceContext.LastHopIsWritten` | internal/middleware/tracing.go:179-182 | The next service gets all three headers, with the identifiers of the last sampling hop. |
| `TraceContext.EveryHopIsSeen` | internal/middleware/tracing.go:218-224 | Every sampling hop, and no other, sees the request. |
| `TraceContext.FourPartsAreFields` | internal/middleware/tracing.go:273-274 | A header splits into four parts if and only if it is four dash-free fields. |
| `TraceContext.TraceComesFrom` | internal/middleware/tracing.go:271-282 | The one trace and the first parent come from the four-field header; without one, from X-Trace-ID and X-Span-ID; without those, the trace is the first hop's own and there is no parent. |

## Left out

- LeastConnections.SkewIsBounded: treats each call of Next as one step, the alive set as fixed, and has no departures.
- LeastConnections.MoveKeepsBalance: is about the same moves.
- LeastConnections.RunKeepsBalance: is about the same moves.
- LeastConnTight.ScanSkewIsBounded: reads load by load, but has no departures and no flags changing during a scan; beyond the exact condition of AlwaysWithinIff it is an upper bound, not the largest drift.
- LeastConnRuns.AlwaysWithinIff: has no departures and a fixed alive set.
- SmoothWeighted.NeverBehindByMore: needs a fixed alive set; no size bound is claimed for counters under changing flags, only conservation.
- Round-robin and ip_hash balancers, the FNV hash, client address and key extraction: only easy claims remain.
- `Update` of the other balancers: it is the modelled merge and nothing else.
- Rounding of float64 tokens, and overflow of 64-bit counters and durations.
- Proxy.ServeProxy: takes the limiter's answer and the balancer's choice as arguments and sets no response headers.
- Proxy.Gateway.BuildRoute: whether and where building fails is a field of the configuration, and a route is its prefix and checker.
- Proxy.Gateway.BuildRoutes: is about the same routes.
- The reverse proxy itself, transports, header rewriting, response headers and 101 upgrades; the proxy is taken to call exactly one of its two callbacks.
- Authentication, request identifiers, logging, metrics, admin handlers and start-up.
- Limiters.RedisLimiter.Allow: whether an answer is lost is a parameter; several clocks and a limit below 1 are not modelled.
- Probing of backends over the network: in the protocol any alive flag may flip at any time.
- YAML loading and file watching; reloads are taken one at a time, as the single watcher makes them.
- Nil breakers are null references in `Proxy.ServeProxy` and missing entries in `RequestProtocol`.
- SpanExport.Exporter.Send: handing a batch to send counts as sent, so failed marshalling or posting is not seen. Recording after Stop, which panics, is excluded.
- Random sampling and generated identifiers are parameters; generated span identifiers have no dash.
