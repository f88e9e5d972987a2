# A verified model of urx

This project models the stateful core of urx, a Go toolkit of resilience and configuration packages, and proves
what its packages promise. Six components are covered. Each is modelled in its own form: values and functions
where the source computes, classes with in-place methods where it updates fields, state machines over single
operations where goroutines interleave.

| component | files | what is modelled |
|---|---|---|
| adaptx, adaptive limiter | `adaptx_*.dfy` | the permit pool with debt, every interleaving of its callers, the three control laws over reals, the windowed control loop over runs, the sample ring, and the `Limiter` class |
| fallx, result cache | `fallx_*.dfy` | the binary heap with back-indices, a shard, the sharded cache, and the flat LRU map with expiry that all of it refines |
| circuitx, breaker | `circuitx_*.dfy` | the `Breaker` class, runs with any number of calls in flight, generations, and the timing of trips and probes |
| clix, parser | `clix_*.dfy` | the command tree, the parse as a function and as a parser object, group expansion, the delimiter, positionals, `Reset` |
| cfgx, validator walk | `cfgx_*.dfy` | the walk of a cyclic object graph as a function and in place, and when it ends |
| bulkx, bulkhead | `bulkx_admission.dfy` | admission at the granularity of one atomic or channel operation |

`wrappers.dfy`, `arith.dfy` and `census.dfy` hold an option type, arithmetic and counting shared by several
components.

## How to read it

- adaptx: `AdaptxPool` says what one critical section does to limit, debt and idle permits.
  `AdaptxProtocol` splits those sections into single channel operations and lets callers interleave;
  `AdjustAloneIsResize` ties the two together. `AdaptxControl.Record` is one recorded sample; the methods of
  `AdaptxLimiter.Limiter` are proved equal to it, and the theorems about runs are about it. `float64` is
  `real`, `int(x)` of a non-negative value is the floor, `rand.Float64()` is any number in [0, 1). The code and
  adaptx's own README differ in one place: the README says windows still roll during warmup, while
  `recordLocked` returns before it resets the window (adaptx/adaptx.go:651). The model follows the code.
- fallx: `FallxSpec` is the specification: a map under a capacity, an eviction that drops expired entries first
  and then only coldest ones. Every method of `FallxCache.Fallback` is proved against it, and
  `FallxHistory.Replay` runs any sequence of operations on a real cache and shows it is a history of the flat
  map. Clock readings are parameters. Ties in the last access are left open.
- circuitx: one step is one critical section: promotion with admission, one settlement, one probe release, one
  `Reset`. `CircuitxRuns` lets calls with their admit state and generation interleave at that grain, and
  `CircuitxReplay` drives a real `Breaker` through such a run.
- clix: a flag or command is named by its path from the root. `ClixGrammar.ParseFrom` is the parse as a
  function of the state it starts from; the methods of `ClixParser.Parser` are the source's loops, each proved
  to do exactly what the function says. `ClixRegistration` describes the orders in which options can run and when
  they show. `ClixSpelling` says what each spelling of a flag, a word and a control token does, and `ClixGiven` reads
  off the tokens what they give to flags and shows that a parse leaves exactly that. Go strings are byte strings, so a `char` stands for one byte.
  Grouping and the delimiter follow Guidelines 5 and 10 of section 12.2 of the Base Definitions of
  POSIX.1-2017.
- cfgx: pointers lead through a heap that may have cycles; structs, collections and interfaces are inline.
  A validator is identified by its seat: the pointer in whose target it sits, or the root, and the way down from
  there. The walk remembers pointers only, so a slice or map that holds itself without a pointer in between is not
  covered by the inline form. `CfgxCycles` names containers as references of their own, agrees with the inline walk
  where there are none, and proves that the walk of a value does not come back exactly when the value reaches such
  a container.
- bulkx: each caller has a program counter; a step is one load, add, send or receive of one caller.

## Model

| member | source | states |
|---|---|---|
| `AdaptxPool.SendManyCounts` | adaptx/adaptx.go:764-769 | n non-blocking sends fill the channel to its capacity and not beyond, and lose nothing while there is room |
| `AdaptxPool.BalancedMeans` | adaptx/adaptx.go:255-264 | balanced books bound the held permits by maxLimit; holding more than the limit means exactly that much debt; holding nothing means no debt and `limit` idle permits |
| `AdaptxPool.ResizeKeepsBalance` | adaptx/adaptx.go:755-788 | any limit change within bounds, up or down, keeps idle + held = limit + debt with debt only on an empty channel |
| `AdaptxPool.ReleaseKeepsBalance` | adaptx/adaptx.go:265-276 | a release keeps the books with one holder less, and puts a permit back exactly when the holders were within the limit |
| `AdaptxPool.ResetBalancesIffQuiescent` | adaptx/adaptx.go:559-577 | with its two reads of the in-flight count apart, ResetStats balances the books if and only if the held permits are min(second read, new limit); when the reads agree, if and only if they equal the held permits |
| `AdaptxProtocol.StepMovesOne` | adaptx/adaptx.go:177-276 | a step moves the phase of at most one caller |
| `AdaptxProtocol.StepHeld` | adaptx/adaptx.go:187-275 | only a receive from the semaphore adds a holder, only an abort or a release removes one |
| `AdaptxProtocol.StepCounted` | adaptx/adaptx.go:238-253 | only admit adds to the callers counted in flight and only the decrement before the release removes one |
| `AdaptxProtocol.StepKeepsBooks` | adaptx/adaptx.go:727-788 | every single operation of every caller keeps the books, a half-done adjust included |
| `AdaptxProtocol.StepKeepsPhases` | adaptx/adaptx.go:238-253 | inFlight counts exactly the callers between admit and its decrement, and one adjuster owns the mutex |
| `AdaptxProtocol.StepKeepsInv` | adaptx/adaptx.go:177-276 | the whole invariant survives every step of every interleaving |
| `AdaptxProtocol.RunInv` | adaptx/adaptx.go:115-134 | the invariant holds in every state of every run from New |
| `AdaptxProtocol.LimiterSafety` | adaptx/adaptx.go:177-276 | in every reachable state held permits are at most maxLimit and cover inFlight; while open and between adjusts idle + held = limit + debt, the overshoot is the debt, an idle limiter owes nothing; after close the equation weakens to at most |
| `AdaptxProtocol.NoPermitIsDropped` | adaptx/adaptx.go:228-233 | in every run every non-blocking send, of an abort, a growing adjust or a release, finds room |
| `AdaptxProtocol.LimitIsLastSet` | adaptx/adaptx.go:752-756 | in every state of a run the limit is initialLimit, or what the last adjust or reset set |
| `AdaptxProtocol.OpenLimiterLetsIn` | adaptx/adaptx.go:212-243 | an open limiter with an idle permit lets an undisturbed caller in: counted in flight, one permit down |
| `AdaptxProtocol.CallerGetsOut` | adaptx/adaptx.go:238-276 | an undisturbed running caller leaves, uncounted, and its permit pays debt or goes back |
| `AdaptxProtocol.ClosedExactly` | adaptx/adaptx.go:391-414 | a run is closed exactly from its first Close step on |
| `AdaptxProtocol.NobodyEntersAfterClose` | adaptx/adaptx.go:195-200 | in every run a caller that looks is sent back if and only if a Close step came before, and goes on otherwise |
| `AdaptxProtocol.DrainEmpties` | adaptx/adaptx.go:391-414 | draining a closed limiter leaves nobody a permit to take and touches nothing else |
| `AdaptxProtocol.GrantAllSends` | adaptx/adaptx.go:764-769 | the single sends of a growing adjust, undisturbed, add up to one SendMany |
| `AdaptxProtocol.PullAllShrinks` | adaptx/adaptx.go:779-788 | the single receives of a shrink, undisturbed, retire idle permits first and turn the rest into debt |
| `AdaptxProtocol.ResetDuringAdmissionOvercommits` | adaptx/adaptx.go:559-577 | a run from New in which one caller has taken a permit and is not yet counted: a reset in that state breaks the balance |
| `AdaptxProtocol.AdjustAloneIsResize` | adaptx/adaptx.go:755-773 | the interleavable form of adjust and the atomic one agree when nobody interferes |
| `AdaptxLaws.JitterWithholdsAPart` | adaptx/adaptx.go:739-744 | jitter leaves a decrease alone and never withholds the whole of an increase |
| `AdaptxLaws.NextLimitInBounds` | adaptx/adaptx.go:745-750 | whatever law, draws and state, the next limit lies within the bounds |
| `AdaptxLaws.CutShrinks` | adaptx/adaptx.go:796-799 | a multiplicative cut of a positive limit is strictly smaller and no larger than limit * decreaseRatio |
| `AdaptxLaws.AimdWindowGain` | adaptx/adaptx.go:795-808 | one AIMD window adds at most increaseRate to limit plus credit, and the credit stays in [0, 1) |
| `AdaptxLaws.AimdFailingWindow` | adaptx/adaptx.go:796-799 | a window with any failure cuts once, to max(minLimit, floor(limit * ratio)), strictly while above minLimit |
| `AdaptxLaws.AimdGrowsOnlyWhenBusy` | adaptx/adaptx.go:795-808 | AIMD rises if and only if the window had no failure, its peak reached limit * utilization, a whole unit of credit is there and maxLimit is not reached |
| `AdaptxLaws.AimdBanksTheRate` | adaptx/adaptx.go:800-807 | a busy failure-free window adds exactly increaseRate to limit plus credit; one that is not busy keeps both |
| `AdaptxLaws.JitterTakesItsShare` | adaptx/adaptx.go:739-744 | jitter takes nothing on one side of its coin and on the other the whole permits of rise * jitter * draw |
| `AdaptxLaws.VegasSteers` | adaptx/adaptx.go:814-837 | Vegas rises by one exactly when less of the limit queues than aimed at, cuts exactly above twice that, holds in between and before any measurement |
| `AdaptxLaws.VegasQueueInRange` | adaptx/adaptx.go:822 | with the minimum latency at most the mean the estimated queue lies in [0, limit) |
| `AdaptxLaws.VegasNonIncreasing` | adaptx/adaptx.go:814-837 | for a fixed state a slower window never earns a larger Vegas limit |
| `AdaptxLaws.VegasMoves` | adaptx/adaptx.go:727-750 | a closed Vegas window raises, keeps or cuts the limit exactly as its queue share says, bounds and jitter included |
| `AdaptxLaws.GradientSteers` | adaptx/adaptx.go:868-884 | Gradient cuts a window with a failure, holds without an average, else rises by two below the band, by one within it and falls exactly above it |
| `AdaptxLaws.GradientTakesTheSlowdown` | adaptx/adaptx.go:882-883 | above the band the limit loses decreaseRatio times the relative slowdown, rounded up to permits, capped at what a failure costs |
| `AdaptxLaws.GradientMoves` | adaptx/adaptx.go:727-750 | a closed Gradient window raises the limit if and only if it has no failure and its mean is within or below the band, and lowers it if and only if it has one or is above, bounds and jitter included |
| `AdaptxLaws.BackoffFactor` | adaptx/adaptx.go:882 | Gradient's factor lies in [decreaseRatio, 1) and falls as latency climbs |
| `AdaptxLaws.BackoffBounds` | adaptx/adaptx.go:882-883 | backing off removes at least one permit and at most what decreaseRatio removes, more when slower |
| `AdaptxLaws.GradientBackoff` | adaptx/adaptx.go:868-884 | a failure-free window above the tolerance band ends between floor(limit * decreaseRatio) and limit - 1 |
| `AdaptxLaws.GradientNonIncreasing` | adaptx/adaptx.go:868-884 | for a fixed state a slower failure-free window never earns a larger Gradient limit |
| `AdaptxLaws.EstimatorsStayOrdered` | adaptx/adaptx.go:688-700 | smoothing and decay keep the minimum at most the average and move it only towards it |
| `AdaptxLaws.AverageApproachesMean` | adaptx/adaptx.go:692-696 | the first window sets the average, every later one leaves it the share 1 - smoothing of its distance to the window mean |
| `AdaptxLaws.MinimumApproachesAverage` | adaptx/adaptx.go:697-699 | decay leaves the minimum the share 1 - minLatDecay of its distance to the new average |
| `AdaptxLaws.MeanAtLeast` | adaptx/adaptx.go:671-683 | a window's mean is not below a lower bound of its samples |
| `AdaptxControl.RunSplits` | adaptx/adaptx.go:624-668 | a run is the run of its second part from where the first part ended, windows counted accordingly |
| `AdaptxControl.WindowClosesExactly` | adaptx/adaptx.go:651-666 | a sample closes the window exactly when it is sampleWindow old and warmup is over; otherwise it joins it and limit, credit, average and start stay |
| `AdaptxControl.CountersAgreeInRuns` | adaptx/adaptx.go:626-641 | in every run fails is the number of failed samples since the last close and maxInFlight the largest in-flight count among them, 0 if none is larger |
| `AdaptxControl.LimitStaysInBounds` | adaptx/adaptx.go:624-668 | from any state within bounds, after any samples the limit is within its bounds |
| `AdaptxControl.AdjustmentsAreRateLimited` | adaptx/adaptx.go:651-666 | from any state, k closed windows take at least k * sampleWindow of clock time and changed the limit at most k times |
| `AdaptxControl.AimdGrowthIsLinear` | adaptx/adaptx.go:795-808 | from any state, k windows add at most k * increaseRate to limit plus credit, jitter and clamps included |
| `AdaptxControl.AimdDecayIsGeometric` | adaptx/adaptx.go:796-799 | from any state with limit L, after k closed windows that each hold a failed sample the limit is minLimit or at most L * decreaseRatio^k |
| `AdaptxControl.AimdBurstDecays` | adaptx/adaptx.go:796-799 | whatever a limiter went through since New, a burst of k windows with a failed sample in each cuts the limit it had then k times |
| `AdaptxControl.AimdFallsStrictly` | adaptx/adaptx.go:796-799 | in any run a closing window with a failed sample in it lowers the limit unless it sits at minLimit |
| `AdaptxControl.FirstGradientWindowHolds` | adaptx/adaptx.go:865-874 | the first Gradient window without a failed sample holds initialLimit, whatever its latencies |
| `AdaptxControl.EstimatorsAgreeInRuns` | adaptx/adaptx.go:630-649 | in every run the window counters are those of its samples, and minLat is at most each of them and at most avgLat |
| `AdaptxControl.MinimumIsGrounded` | adaptx/adaptx.go:646-648 | in every run minLat is at least some latency ever recorded |
| `AdaptxControl.ClosingMovesEstimators` | adaptx/adaptx.go:658-700 | whenever a window closes in a run, average and minimum move towards the mean of the latencies recorded in it by their shares |
| `AdaptxControl.VegasQueueInRuns` | adaptx/adaptx.go:814-830 | whenever a window closes in a run the Vegas queue it is judged by lies in [0, limit) |
| `AdaptxRing.PushKeepsRing` | adaptx/adaptx.go:632-636 | writing at head and wrapping appends to the list the ring stands for |
| `AdaptxRing.ReadIndex` | adaptx/adaptx.go:506-508 | index i of the read loop is element i of the last min(seen, ringCap) samples |
| `AdaptxRing.YoungerKeepsStamped` | adaptx/adaptx.go:505-513 | each latency is kept as often as samples with it are stamped after the cutoff |
| `AdaptxRing.SortedCopy` | adaptx/adaptx.go:528 | a sorted permutation of the latencies |
| `AdaptxRing.SortedWithin` | adaptx/adaptx.go:529-530 | both percentile ranks pick samples, p50 at most p99 |
| `AdaptxRing.RankIsPercentile` | adaptx/adaptx.go:528-530 | the sample at a percentile rank has at most that share of the others below it and more up to it |
| `AdaptxRing.AverageBetween` | adaptx/adaptx.go:527 | the truncated average of samples in a range lies in that range |
| `AdaptxRing.Summarize` | adaptx/adaptx.go:515-531 | zero for no samples; otherwise min and max are attained bounds, p50 and p99 have their share of the samples below them and no less up to them, min <= p50 <= p99 <= max, and avg is the truncated mean |
| `AdaptxLimiter.Limiter.constructor` | adaptx/adaptx.go:115-134 | starts with initialLimit idle permits, no debt and an empty history |
| `AdaptxLimiter.Limiter.ReleasePermit` | adaptx/adaptx.go:265-276 | pays debt before it returns a permit |
| `AdaptxLimiter.Limiter.ShrinkBy` | adaptx/adaptx.go:779-788 | the loop retires idle permits first and records the remainder as debt |
| `AdaptxLimiter.Limiter.SendPermits` | adaptx/adaptx.go:764-769 | the loop of non-blocking sends |
| `AdaptxLimiter.Limiter.AimdNext` | adaptx/adaptx.go:795-808 | the in-place credit arithmetic is the AIMD law |
| `AdaptxLimiter.Limiter.Adjust` | adaptx/adaptx.go:727-774 | stores the clamped, jittered output of the law and moves the pool with it |
| `AdaptxLimiter.Limiter.RefreshEstimators` | adaptx/adaptx.go:688-700 | the estimators after one window |
| `AdaptxLimiter.Limiter.Push` | adaptx/adaptx.go:632-637 | the in-place ring write appends to the history |
| `AdaptxLimiter.Limiter.RecordLocked` | adaptx/adaptx.go:624-668 | one sample moves the controller by exactly one Record step, the pool by one Resize, and reports exactly the limit changes |
| `AdaptxLimiter.Limiter.RecordOutcome` | adaptx/adaptx.go:604-620 | a skipped sample counts as success or failure and touches nothing else |
| `AdaptxLimiter.Limiter.ReconcilePermits` | adaptx/adaptx.go:841-861 | drains the channel and refills it to limit minus in-flight |
| `AdaptxLimiter.Limiter.ResetStats` | adaptx/adaptx.go:559-586 | run alone, leaves a fresh controller, a balanced pool and an empty history |
| `AdaptxLimiter.Limiter.RecentLatencies` | adaptx/adaptx.go:501-513 | reads exactly the latencies of the retained samples younger than one window, in order, all positive |
| `AdaptxLimiter.Limiter.Stats` | adaptx/adaptx.go:501-531 | summarises exactly those samples: all zero for none, else attained minimum and maximum, percentiles by how many samples lie below, and the average |
| `FallxHeapOrder.SinkStep` | fallx/cache.go:267-278 | one swap with the smallest child moves the one broken place down |
| `FallxHeapOrder.RiseStep` | fallx/cache.go:267-278 | one swap with the parent moves the one broken place up |
| `FallxHeapOrder.RekeyKeepsAround` | fallx/cache.go:307-310 | an arbitrary new key breaks the order only at its own place |
| `FallxHeapOrder.RootIsLeast` | fallx/cache.go:298-304 | the root of a heap is its least key |
| `FallxHeap.LruHeap.Swap` | fallx/cache.go:274-278 | swaps two entries and keeps every back-index right |
| `FallxHeap.LruHeap.Down` | fallx/cache.go:267-278 | sifting down restores the order below, or reports that only the edge above may be broken |
| `FallxHeap.LruHeap.Up` | fallx/cache.go:267-278 | sifting up restores the order |
| `FallxHeap.LruHeap.Fix` | fallx/cache.go:307-310 | restores the heap around any one position, with the same entries |
| `FallxHeap.LruHeap.Touch` | fallx/cache.go:306-310 | a new access time keeps heap, back-indices and entries |
| `FallxHeap.LruHeap.Push` | fallx/cache.go:280-285 | adds exactly one entry to a valid heap |
| `FallxHeap.LruHeap.RemoveAt` | fallx/cache.go:287-296 | removes the entry at any index, keeps the heap, and clears its back-index |
| `FallxHeap.LruHeap.Peek` | fallx/cache.go:298-304 | an entry no other was accessed before, or null exactly when empty |
| `FallxSpec.EvictionFits` | fallx/cache.go:142-182 | an eviction ends within capacity; if the live entries fit, it removes only expired ones; it changes no survivor |
| `FallxSpec.JustStoredSurvives` | fallx/cache.go:95-110 | with a strictly increasing clock the key just stored is present afterwards if and only if it was there before, there is room or no capacity, or it has not expired by the eviction's clock reading |
| `FallxSpec.MayEvictItself` | fallx/cache.go:154-181 | with ties the key just stored may be the victim if and only if it is new, the cache is full, and it has expired by the eviction's reading or nothing else has and everything was accessed at the same instant |
| `FallxSpec.SecondStoreMayVanish` | fallx/cache.go:161-181 | a concrete input: capacity one and two stores at one clock reading, after which the second may be gone |
| `FallxSpec.StepRemembers` | fallx/cache.go:79-140 | no operation alters the value, expiry or last access of a key it does not name |
| `FallxSpec.CacheRemembersLastStore` | fallx/cache.go:79-140 | in every history a key is present exactly when stored and not removed since, with its last store's value and expiry and its last use's time |
| `FallxSpec.LookupReturnsLastStore` | fallx/cache.go:112-140 | a lookup hits exactly when the last store is neither evicted nor cleared nor past its expiry, and returns that value |
| `FallxSpec.StoreSurvivesItsEviction` | fallx/cache.go:107-109 | in a history with a strictly increasing clock a store is undone by its own eviction if and only if its key was new, the cache full and the entry expired by the eviction's reading |
| `FallxSpec.CapacityHolds` | fallx/cache.go:146-182 | every state of every history is within capacity |
| `FallxHash.ShardIndex` | fallx/cache.go:65-74 | the inline loop computes the 32-bit FNV-1a hash of the key, reduced to a shard |
| `FallxShard.Shard.Store` | fallx/cache.go:84-105 | updates the one record, inserting or rewriting in place, map and heap kept consistent |
| `FallxShard.Shard.Fetch` | fallx/cache.go:117-135 | the shard's part of a lookup is the flat lookup on the shard's records |
| `FallxShard.Shard.Remove` | fallx/cache.go:221-228 | takes the entry out of map and heap; the back-index check never fails |
| `FallxShard.Shard.EvictExpired` | fallx/cache.go:204-219 | removes exactly the expired entries and counts them |
| `FallxShard.Shard.Coldest` | fallx/cache.go:193-198 | the shard's least recently accessed entry |
| `FallxCache.Fallback.constructor` | fallx/cache.go:27-45 | shards that share nothing, standing for the empty map |
| `FallxCache.Fallback.GetCachedResult` | fallx/cache.go:112-140 | the sharded lookup is the flat lookup; evictions are counted exactly |
| `FallxCache.Fallback.CacheResult` | fallx/cache.go:79-110 | the sharded store is the flat store with its eviction |
| `FallxCache.Fallback.SweepExpired` | fallx/cache.go:154-159 | sweeping all shards leaves exactly the live part of the flat map |
| `FallxCache.Fallback.ColdestEntry` | fallx/cache.go:184-202 | the globally least recently accessed entry and the shard that owns it |
| `FallxCache.Fallback.EvictColdest` | fallx/cache.go:161-181 | one turn drops one globally coldest entry; neither resynchronising branch can be taken |
| `FallxCache.Fallback.EvictIfNeeded` | fallx/cache.go:146-182 | terminates within capacity: expired entries first, then only as many as needed, no survivor accessed before a victim |
| `FallxCache.Fallback.SyncCacheSize` | fallx/cache.go:230-242 | the sum of the shard sizes is what the counter already says |
| `FallxCache.Fallback.SlicesAddUp` | fallx/cache.go:230-242 | the shards partition the flat map, so their sizes add up to its size |
| `FallxCache.Fallback.ClearCache` | fallx/fallx.go:252-262 | every shard and the flat map are empty |
| `FallxHistory.Replay` | fallx/cache.go:67-182 | any sequence of operations on a real cache of any number of shards is a history of the flat LRU map, ending in the map the cache then stands for |
| `FallxHistory.ReplayedLookup` | fallx/cache.go:112-140 | in that history of a real cache a lookup returns the last stored value if and only if that store was kept and has not expired |
| `CircuitxBreaker.Breaker.StateNow` | circuitx/circuitx.go:96-115 | an open breaker whose timeout has passed is promoted, once, with a fresh probe budget and a new generation |
| `CircuitxBreaker.Breaker.TryAdmitProbe` | circuitx/circuitx.go:420-430 | takes a probe slot exactly when one is left |
| `CircuitxBreaker.Breaker.TryAdmit` | circuitx/circuitx.go:269-284 | admits exactly what the promoted state allows and counts rejections |
| `CircuitxBreaker.Breaker.FreeProbe` | circuitx/circuitx.go:298-311 | gives a slot back only to its own generation, never below zero |
| `CircuitxBreaker.Breaker.NoteSuccess` | circuitx/circuitx.go:380-415 | settles a success and logs exactly the edge it causes |
| `CircuitxBreaker.Breaker.NoteFailure` | circuitx/circuitx.go:440-470 | settles a counted failure and logs exactly the edge it causes |
| `CircuitxBreaker.Breaker.ForceOpen` | circuitx/circuitx.go:478-499 | a Trip opens from whatever state is live, once |
| `CircuitxBreaker.VerdictRules` | circuitx/circuitx.go:326-369 | a failed call counts if and only if it was not skipped and it panicked, or failureIf agrees and it is no ignored cancellation; Trip opens with or without that, and only a clean return is a success |
| `CircuitxBreaker.Breaker.SettleRun` | circuitx/circuitx.go:326-369 | error, cancellation, panic, skip and trip flags lead to one verdict, and the verdict alone decides the core and the totals |
| `CircuitxBreaker.Breaker.ResetBreaker` | circuitx/circuitx.go:131-142 | closed, no failures, no probes, a new generation |
| `CircuitxRuns.StaleIsInert` | circuitx/circuitx.go:298-301 | a settlement or release from an ended generation changes nothing |
| `CircuitxRuns.PruneAgrees` | circuitx/circuitx.go:380-499 | dropping stale events from any run leaves a run with the same core changes, from any two states that agree on live calls |
| `CircuitxRuns.GenerationsAreIsolated` | circuitx/circuitx.go:380-499 | deleting all events of calls from ended generations leaves the same sequence of core states: a call acts only in its own generation |
| `CircuitxRuns.OneChangePerGeneration` | circuitx/circuitx.go:440-499 | within one generation the state changes at most once and only to Open |
| `CircuitxRuns.CountersSettle` | circuitx/circuitx.go:380-470 | a settlement keeps failures the run of counted failures and half-open successes the number of successes of an untouched generation |
| `CircuitxRuns.CountersStep` | circuitx/circuitx.go:96-142 | so does every other event |
| `CircuitxRuns.BudgetStep` | circuitx/circuitx.go:277-311 | halfOpenInflight stays the number of unreleased probes of the live half-open generation, within halfOpenMax |
| `CircuitxRuns.CallsStep` | circuitx/circuitx.go:269-284 | every call admitted in the live generation was admitted in the state it began in |
| `CircuitxRuns.EpochInvAlong` | circuitx/circuitx.go:269-499 | the meaning of the counters is kept along every run |
| `CircuitxRuns.CountersRefineHistory` | circuitx/circuitx.go:63-72 | in every reachable state the counters are functions of the live generation's history, and trips <= generation + (1 if Open) |
| `CircuitxRuns.ClosedTripsExactly` | circuitx/circuitx.go:440-470 | Closed opens if and only if a live call trips it or completes maxFailures counted failures in a row |
| `CircuitxRuns.HalfOpenSettlesExactly` | circuitx/circuitx.go:393-408 | HalfOpen heals exactly on the successThreshold-th success or Reset and opens exactly on a live failure or trip |
| `CircuitxRuns.OpenEndsExactly` | circuitx/circuitx.go:96-142 | Open becomes HalfOpen if and only if someone asks once the timeout has passed, Closed if and only if by Reset, each in the next generation with a fresh budget |
| `CircuitxRuns.EntersExactly` | circuitx/circuitx.go:269-284 | a call gets in if and only if the state is Closed, or Open with the timeout passed, or HalfOpen with fewer than halfOpenMax unreleased probes, and nothing else changes among the calls |
| `CircuitxRuns.AdmissionInRuns` | circuitx/circuitx.go:269-284 | that condition decides every admission of every run from New |
| `CircuitxRuns.ResetCloses` | circuitx/circuitx.go:131-142 | Reset closes from any state, nothing counted, in the next generation |
| `CircuitxReplay.Perform` | circuitx/circuitx.go:215-348 | one call on a real breaker, with the callback's result and flags, is one event of the run |
| `CircuitxReplay.Replay` | circuitx/circuitx.go:83-142 | from New, any sequence of calls leaves a real breaker in the core state of the run, its hook called exactly once per edge |
| `CircuitxReplay.FailuresInARow` | circuitx/circuitx.go:440-470 | settlements of live calls with an ordinary error take a closed breaker to Open at the maxFailures-th in a row and not before |
| `CircuitxReplay.FailTimes` | circuitx/circuitx.go:326-369 | on a real breaker k calls ending in an ordinary error leave it Closed below maxFailures and Open, tripped once, at it; all k are counted |
| `CircuitxTiming.TimingInvAlong` | circuitx/circuitx.go:96-115 | along failing runs every promotion is paid for by an elapsed timeout and every admission by a probe slot |
| `CircuitxTiming.ProbeRateIsBounded` | circuitx/circuitx.go:96-115 | when every settled call fails, trips are at least resetTimeout apart and at most halfOpenMax * floor((T - t1) / resetTimeout) callbacks are admitted after the first trip at t1 |
| `ClixGrammar.GroupTakesAtMostOne` | clix/parse.go:100-136 | a group consumes at most the one token after it, and never the delimiter |
| `ClixGrammar.FlagTokenTakesAtMostOne` | clix/parse.go:183-208 | so does every flag token |
| `ClixDefaults.AssignWrites` | clix/clix.go:285-296 | resetting a list of flags writes exactly their targets, each ending as a default of a flag bound to it |
| `ClixDefaults.AssignForgets` | clix/options.go:161-180 | once all targets are reset nothing of the earlier values is left |
| `ClixDefaults.AgreeingDefaultsCommute` | clix/options.go:173-180 | when flags sharing a target agree on its default, the registration order does not matter |
| `ClixDefaults.OrderIsIrrelevantIffAgreeing` | clix/options.go:161-180 | targets start the same in every order of the flags whatsoever if and only if flags sharing a target agree on its default |
| `ClixRegistration.OrderStarts` | clix/options.go:14-39 | in every order that options can run in, each target starts with a default found along the chain of last subcommands that bind it |
| `ClixRegistration.StartingWith` | clix/options.go:14-39 | each default along that chain is what the target starts with in some such order |
| `ClixRegistration.NewStartsAsResetIff` | clix/clix.go:196-211 | New starts all targets as Reset restores them, whatever the order of the options, if and only if along each such chain the defaults agree |
| `ClixRegistration.AgreeingNeverShows` | clix/options.go:161-180 | flags that agree on the defaults of shared targets, distinct targets included, meet that condition |
| `ClixRegistration.SubcommandFirstShows` | clix/clix.go:274-296 | a concrete tree: a subcommand registered before a root flag on the same target, where New and Reset leave different defaults |
| `ClixDefaults.TargetHasDefault` | clix/options.go:117-182 | every flag of the tree is among the flags that are reset |
| `ClixParser.FindFlag` | clix/parse.go:287-294 | the loop up the parent chain finds the nearest flag of that name |
| `ClixParser.FindShort` | clix/parse.go:298-305 | the loop up the parent chain finds the nearest short alias |
| `ClixParser.FindMissing` | clix/parse.go:216-225 | the nested loops find the first required flag not set, nearest command first |
| `ClixSpelling.NearestFlag` | clix/parse.go:287-294 | a name resolves to a flag of the nearest command on the way up that has one of that name, if any does |
| `ClixSpelling.NearestAlias` | clix/parse.go:298-305 | so does a short alias |
| `ClixParser.TakeNextFlagValue` | clix/parse.go:183-193 | takes the next token if and only if there is one that does not look like a flag |
| `ClixParser.Parser.constructor` | clix/clix.go:196-211 | New ends as the parse from the defaults in the order the options ran, which are the fresh ones when that order never shows |
| `ClixParser.Parser.Reset` | clix/clix.go:274-279 | ends as the parse from fresh defaults, independent of everything parsed before |
| `ClixParser.Parser.ResetCommand` | clix/clix.go:285-296 | clears exactly the positionals and marks at and below the command and writes the defaults |
| `ClixParser.Parser.IsSet` | clix/clix.go:239-250 | true exactly when the flag the name resolves to, long name first, carries a mark |
| `ClixParser.Parser.SetFunc` | clix/options.go:161-172 | an accepted value is written to the flag's target and marks the flag; one that fails to parse or is not in the enumeration leaves both alone |
| `ClixParser.Parser.ApplyBoolNegation` | clix/parse.go:250-262 | the in-place negation is the specified one |
| `ClixParser.Parser.ParseShortGroup` | clix/parse.go:100-136 | the index loop consumes what the recursive group consumes, with the same state and error |
| `ClixParser.Parser.ParseLongOrShort` | clix/parse.go:141-177 | the in-place form of one long or short token |
| `ClixParser.Parser.ParseArgs` | clix/parse.go:37-94 | the index loop with its recursion into subcommands ends in the state and error of the recursive parse |
| `ClixParser.ResetIsAFreshParse` | clix/clix.go:274-279 | after any history Reset(args) is the parse of args from fresh defaults and leaves flags, targets, marks, positionals, command and error equal to a new parser of the same tree and args |
| `ClixGrouping.AttachedIsInline` | clix/parse.go:122-128 | -pVALUE parses as -p=VALUE |
| `ClixGrouping.SingleIsGroupOfOne` | clix/parse.go:84-90 | -c on its own parses as a group of one |
| `ClixGrouping.GroupUnrolls` | clix/parse.go:100-136 | a group goes on as its expansion, whatever follows |
| `ClixGrouping.GroupExpansionKeepsMeaning` | clix/parse.go:82-88 | -abc + rest parses as -a -b -c + rest and -abp3000 as -a -b -p=3000: same flags, targets, positionals, command and error, unknown flags, help, version, rejected switches and a trailing value included |
| `ClixGrouping.ExpandIsSingles` | clix/parse.go:96-99 | when only the last flag may take a value the expansion is one token per character |
| `ClixGrouping.OddSplitsThem` | clix/parse.go:102-114 | a dash or a byte above 127 read as a flag always splits group and expansion: an unknown flag here, the delimiter or another spelling there |
| `ClixGrouping.GroupMeansExpansionIff` | clix/parse.go:96-136 | where aliases are ASCII and no dash, a group parses as its expansion if and only if every character it reads as a flag is ASCII and no dash |
| `ClixGrouping.DashedGroupDiffers` | clix/parse.go:96-136 | a concrete input: with one bool flag a, the command line -a- does not parse as -a -- |
| `ClixSpelling.LooksLikeFlagMeans` | clix/parse.go:198-208 | a token looks like a flag when a dash in front is not alone and is not followed by a digit |
| `ClixSpelling.IsGroupMeans` | clix/parse.go:82-84 | a group is one dash and two or more characters without an equals sign |
| `ClixSpelling.ByteIsUtf8` | clix/parse.go:103 | a byte of a group is looked up as the UTF-8 form of its code point |
| `ClixSpelling.NamesLeadDown` | clix/parse.go:66-70 | subcommand names lead to the command they name, whose parse goes on with the rest |
| `ClixSpelling.WordsArePositionals` | clix/parse.go:71-76 | other words of a command that runs or has no subcommands become its positionals, all of them, in order |
| `ClixSpelling.RouterRefuses` | clix/parse.go:54-76 | a command that only routes refuses a word that names none of its subcommands |
| `ClixSpelling.HelpStopsHere` | clix/parse.go:45-48 | --help and -h, bare or with a value, stop with help for the command reached |
| `ClixSpelling.VersionStopsHere` | clix/parse.go:50-53 | so do --version and -V in a program with a version |
| `ClixSpelling.InlineValueSets` | clix/options.go:161-172 | --name=v marks the flag and makes its target the parsed v and changes nothing else, or refuses v and changes nothing |
| `ClixSpelling.BareSwitchMeansTrue` | clix/parse.go:162-167 | a bare switch means =true |
| `ClixSpelling.ShortInlineMeansLong` | clix/parse.go:141-177 | -c=v means --name=v |
| `ClixSpelling.ShortMeansLong` | clix/parse.go:141-177 | -c means --name=true for a switch; for other flags -c v means --name=v unless v looks like a flag, and then the value is missing |
| `ClixSpelling.ValueMissing` | clix/parse.go:183-193 | a flag that wants a value at the end of the tokens is a missing value |
| `ClixSpelling.UnknownFlagStops` | clix/parse.go:150-160 | a long name that no command on the way up knows, and that negates no switch, is an unknown flag and changes nothing |
| `ClixGiven.ParseHoldsGiven` | clix/parse.go:37-94 | after any command line marks and targets are those of the values its tokens give, one after the other |
| `ClixGiven.FlagsHoldLastGiven` | clix/options.go:161-172 | after any command line a flag is marked if and only if a token gave it a value and, with distinct targets, holds the last one given, else its default |
| `ClixGiven.InlineGives` | clix/parse.go:141-177 | --name=v gives v to the flag that name is and nothing to others, and giving ends where v is refused |
| `ClixTokens.PositionalsGrow` | clix/parse.go:37-94 | from any state a parse adds to the matched chain's positionals an in-order part of its tokens |
| `ClixTokens.PositionalsComeFromArgv` | clix/parse.go:37-94 | the positionals from the root to the matched command are an in-order subsequence of argv, and no other command has any |
| `ClixTokens.FlagTokenExtends` | clix/parse.go:183-208 | tokens behind the delimiter never become a flag's value |
| `ClixTokens.DelimiterOnlyAppends` | clix/parse.go:40-43 | behind any args without a delimiter, -- ps changes nothing but appends exactly ps to the matched command's positionals, for failing parses too |
| `ClixTokens.CheckRequiredFinds` | clix/parse.go:216-225 | no error if and only if every required flag from the root to the command is set |
| `ClixTokens.NearestMissing` | clix/parse.go:216-225 | the error names the first required flag without a value of the nearest command on the way up that has one |
| `ClixTokens.SuccessIffRequiredGiven` | clix/parse.go:93 | a parse that consumed its tokens succeeds exactly when every required flag in scope was given |
| `ClixValues.ParseStaysHonest` | clix/options.go:161-172 | no parse leaves an unset flag off its default or a set one outside its enumeration |
| `ClixValues.DistinctIsAgreeing` | clix/options.go:117-182 | flags with distinct targets agree on defaults, so their registration order never shows |
| `ClixValues.TargetsAreHonest` | clix/clix.go:234-250 | for distinct targets, after any parse, failed ones included, a flag that is not set holds its default and a set one a permitted value |
| `ClixValues.InlineMeansNext` | clix/parse.go:169-176 | --name v means --name=v unless v looks like a flag, and then it is a missing value |
| `ClixValues.NegationMeansInverse` | clix/parse.go:246-262 | --no-x means --x=false and --no-x=v means --x with v inverted |
| `CfgxGraph.Deref` | cfgx/validate.go:200-222 | following pointers and interfaces ends at a value, never through a pointer seen before, and every step is paid for by a pointer or a smaller value |
| `CfgxGraph.ValidatorPlaces` | cfgx/validate.go:74-147 | constructor by constructor, validators sit in every exported unskipped field, every element and every entry of a descendable collection, and nowhere in one that is not |
| `CfgxGraph.PointerPlaces` | cfgx/validate.go:74-147 | so do the pointers that are followed |
| `CfgxTheorems.WalkEntersOnce` | cfgx/validate.go:210-216 | a walk enters only unvisited pointers, each once, and visited grows by exactly those |
| `CfgxTheorems.WalkSaturates` | cfgx/validate.go:68-147 | a walk leaves nothing unvisited behind what it entered |
| `CfgxTheorems.WalkIsChained` | cfgx/validate.go:68-147 | every entered pointer is in the root value or in the target of an earlier one |
| `CfgxTheorems.WalkVisitsExactlyTheReachable` | cfgx/validate.go:62-147 | on any cyclic graph visited ends as exactly the reachable pointers, each entered once |
| `CfgxTheorems.WalkIsPostOrder` | cfgx/validate.go:74-90 | no validator runs before one beneath it |
| `CfgxTheorems.WalkCalls` | cfgx/validate.go:74-90 | a walk calls the validator at a seat as often as the seat is inline in its value or in a target it enters |
| `CfgxTheorems.ValidatorsRunOnceChildrenFirst` | cfgx/validate.go:29-31 | the validator at a seat, a pointer target or the root with a way down in it, is called exactly once if it is in reach and never otherwise, children first |
| `CfgxWalker.Walker.DerefValidate` | cfgx/validate.go:200-222 | the loop is the recursive deref, visited included |
| `CfgxWalker.Walker.WalkValidate` | cfgx/validate.go:68-90 | the in-place recursion visits, calls and collects errors as the function says |
| `CfgxWalker.Walker.WalkChildren` | cfgx/validate.go:92-147 | the child loops walk every exported, unskipped child in order and join their errors |
| `CfgxWalker.NilIffNoneFails` | cfgx/validate.go:88-89 | the joined error is nil exactly when no validator failed, and holds exactly the failures |
| `CfgxWalker.Validate` | cfgx/validate.go:48-66 | Validate returns each failing validator in reach exactly once and nothing else, children first, so nil exactly when all in reach pass |
| `CfgxCycles.LoopNeverEnds` | cfgx/validate.go:120-147 | a value that holds a container on a loop of containers is walked for ever |
| `CfgxCycles.WalkSettles` | cfgx/validate.go:68-147 | a walk that ends has visited every pointer and met no self-holding container, to any depth, behind what it entered |
| `CfgxCycles.EndsOnlyWithoutLoop` | cfgx/validate.go:68-147 | a walk that ends started at a value that reaches no self-holding container, through pointers or containers |
| `CfgxCycles.WalkEnds` | cfgx/validate.go:68-90 | from a value that reaches none, a bound from the numbers of pointers and references suffices |
| `CfgxCycles.WalkTerminatesIff` | cfgx/validate.go:68-222 | the walk of a value ends if and only if the value reaches no slice or map that holds itself without a pointer in between |
| `CfgxCycles.SelfHoldingSlice` | cfgx/validate.go:120-129 | a concrete input: a slice whose element is the slice, handed over by pointer, is walked for ever |
| `CfgxCycles.WalksAgree` | cfgx/validate.go:68-147 | without container references the bounded walk ends and visits exactly what the walk of the object graph visits |
| `BulkxAdmission.OperationIsAccounted` | bulkx/bulkx.go:146-275 | every operation moves sem, active and waiters exactly as its caller's own standing changes |
| `BulkxAdmission.StepKeepsCounters` | bulkx/bulkx.go:146-275 | sem, active and waiters stay the numbers of callers holding a slot, running and queued |
| `BulkxAdmission.StepKeepsSound` | bulkx/bulkx.go:279-288 | no controller is ever told more than maxConcurrent |
| `BulkxAdmission.StepKeepsTickets` | bulkx/bulkx.go:173-179 | at most k queued callers ever hold one of the first k tickets |
| `BulkxAdmission.RunInv` | bulkx/bulkx.go:73-83 | the invariant holds in every state of every interleaving |
| `BulkxAdmission.BulkheadSafety` | bulkx/bulkx.go:119-134 | active <= sem <= maxConcurrent, counters exact, snapshots in range, admitted waiters within maxWaiters when it is set |
| `BulkxAdmission.ReceivesNeverBlock` | bulkx/bulkx.go:251-275 | no refund and no release ever waits on the channel |
| `BulkxAdmission.CommitNeedsOpen` | bulkx/bulkx.go:204-217 | no caller passes the closed check after closed is stored |
| `BulkxAdmission.NoCommitAfterClose` | bulkx/bulkx.go:248-258 | once closed is stored, only callers already past the check may still run |
| `BulkxAdmission.CloseShutsTheDoor` | bulkx/bulkx.go:424-429 | whoever is committed at any time after the step that stores closed was so before it |
| `BulkxAdmission.OpenBulkheadLetsIn` | bulkx/bulkx.go:146-168 | an open bulkhead with a free slot and nobody waiting lets an undisturbed caller in by the fast path |
| `BulkxAdmission.WaiterGetsIn` | bulkx/bulkx.go:173-217 | a waiter that gets a slot of an open bulkhead runs and stops counting as waiting |
| `BulkxAdmission.BusyCallerWaits` | bulkx/bulkx.go:155-179 | a caller that sees a waiter, finds no slot or must give one up joins the queue, and is sent away exactly beyond maxWaiters |
| `BulkxAdmission.BusyTryLeaves` | bulkx/bulkx.go:336-369 | TryExecute leaves instead, with nothing held |
| `BulkxAdmission.WaiterGivesUp` | bulkx/bulkx.go:186-203 | a waiter woken by its context, its timer or the close leaves the queue without a slot |
| `BulkxAdmission.CloseWakesWaiters` | bulkx/bulkx.go:424-429 | close wakes everyone who waits |
| `BulkxAdmission.LateSlotGoesBack` | bulkx/bulkx.go:208-265 | a slot got after close or with a done context goes back, and a waiter leaves the queue |
| `BulkxAdmission.CallerGetsOut` | bulkx/bulkx.go:272-275 | a running caller gives up active and its slot |
| `BulkxAdmission.FastPathYields` | bulkx/bulkx.go:155-163 | nobody commits by the fast path without having just seen that nobody waits |
| `BulkxAdmission.NotAdmitted` | bulkx/bulkx.go:146-217 | a closed flag or a done context turns a caller away when read, with a refund after a send, and TryExecute never queues |

## Left out

- adaptx: in the interleaved model ResetStats is one step, and only where in-flight and held permits agree; what it does to the books at other points, its two reads included, is `ResetBalancesIffQuiescent`.
- adaptx: Acquire's choice between context, close and permit, the drain wait, the rejected and total counters, and the hook call after unlock; the model reports the limit change whether or not a hook is set.
- adaptx: float rounding, overflow and the distribution of jitter. Percentile ranks are computed in hundredths, which is the exact product the float product approximates.
- AdaptxControl.AdjustmentsAreRateLimited: runs are without ResetStats, as the promise is.
- fallx: concurrent use. Each operation runs alone; the shard locks and evictMu are not modelled.
- fallx: the clone hook, the fallback strategies around the cache, the cleanup ticker (its sweep is `SweepExpired`) and the per-strategy guard of ClearCache.
- fallx: the source's heap slice is a field of type `seq` that the methods reassign; its spare capacity and the nil written on Pop are not modelled.
- fallx: which of several coldest entries with the same last access goes first is left open; the source decides by shard number and heap position.
- circuitx: interleavings inside a critical section, for example between the compare-and-swap of a promotion and the stores after it; the order of hook calls, which fire after unlock; ResetStats and Close.
- circuitx: counters are unbounded where the source uses 32-bit and 64-bit atomics.
- clix: the values that strconv and the time package parse. Parsing of every kind but bool is any partial function; bool follows strconv.ParseBool.
- clix: option construction and its panics. The tree is given, with unique names per command; shadowing is not excluded, since assertNoShadowFlag looks at ancestors only and a parent flag registered later slips through.
- clix: help text, labels, error wrapping and Run.
- ClixGrouping.GroupMeansExpansionIff: an alias may in fact be a dash or a byte above 127; with such an alias group and expansion can agree or differ by what the flag does, and only the direction of `GroupExpansionKeepsMeaning` is stated.
- cfgx: field paths and tags; errors are named by child positions. Validators do not change the shape of the graph, addresses are distinct and never reused.
- cfgx: the copy of a map value and its write-back under fix, and skipPromotedValidator, whose verdict is part of the validator mark of a value.
- CfgxGraph.Deref: values inline in one another are finite, so this walk covers graphs whose cycles all pass a pointer; `CfgxCycles` treats the others, without validators and errors. A named slice or map type that is its own element type is not modelled, since descendable does not return on it.
- bulkx: the executed, rejected and timeout counters, the timer's duration, and the idempotence flag of a token.
- The other packages of the repository.
