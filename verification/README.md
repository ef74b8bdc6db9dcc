# PipelineGen: proofs about its scheduling, caching and retry cores

A Dafny 4.11 model of seven cores of PipelineGen, with proofs of what each is
for. `dafny verify dfyconfig.toml` checks everything.

| files | what they model |
|---|---|
| RealSums, LaneSchedule, LongestFirst, DominantJob, LaneReport, ReportBound | greedy list scheduling of render batches on GPU lanes, Graham's bounds against the true optimum, and the worst-case figure a report prints (cmd/goldenattribution) |
| FairGate, FairRuns, FairStages, FairGuarantees, FairSemaphore | a semaphore that keeps one owner from monopolising slots: its rule, its runs with racing hand-off and cancellation, its class (pkg/concurrent/fair_semaphore.go) |
| LockRegistry, KeyedLocker | per-key mutexes with reference-counted, recycled entries (pkg/concurrent/keyedlocker.go) |
| RecencyList, LruTheorems, ShardedLru, LruCache | a sharded LRU cache, against a recency list and a ranking of touches (pkg/cacheutil/lru.go) |
| TokenLane, RateGuarantees, ProviderBudget | token buckets with cooldown, one lane per provider (pkg/providerbudget/budget.go) |
| ChunkCode, FingerprintLayout, RegistryOrder, DependencyOrder, SortedText, Fingerprint, ComponentTree, Fingerprinter, CachePaths, VerificationCache | content fingerprints over a component registry and the cache that skips verified gates (scripts/ci/verify_component_*.py) |
| WorkerPool | Map, ParallelMap and Group (pkg/concurrent/concurrent.go) |
| Utf8Text, WordText, SentenceSplitter, SceneSplitter, WordSurvival | cutting a transcript into sentences and scenes (cmd/semantic-extract/text.go) |
| Backoff, RetryLoop | backoff arithmetic and the retry loop (pkg/retry) |
| Wrappers | datatypes that several of them share |

How it is built. A mutex-protected section, a channel operation or a select is
one event of a transition system; theorems quantify over every sequence of
events. Objects that the source mutates are classes whose methods are proved
against functions on values, and the theorems are about those functions. Costs,
tokens and delays are reals, times are whole nanoseconds, bytes and the 32-bit
hash wrap as in the source. `Times(k, x)` is k times x, written as repeated
addition. Callbacks, gates, planned commands, the hash, the working tree, clocks
and random draws are parameters.

The hash. Injectivity is not assumed of it, which no digest of fixed length
could have: the fingerprint theorems assume only that the messages hashed in the
runs compared do not collide (`CollisionFree`).

Where the code and its own documentation differ, the code is modelled:

- `LPTWorstCaseBound` scales render time only while the simulated costs include
  overhead, so it is no bound in general (`BoundCanFail`). `OneLaneExact` says when
  it is on one lane, `DominanceIsExact` on more lanes for totals up to m + 1 times
  the largest job, `ToleranceIsExact` for km + 1 times; `LptBelowPrintedBound`
  gives a sufficient condition for all totals.
- `admissibleLocked` documents that a waiter must be excluded from its own scan;
  its owner never counts as another owner, so the exclusion has no effect.
- `Config.Interval` is documented to leave Burst enforced when zero
  (budget.go:39-41); `reserve` then grants every call (`UnpacedAlwaysGrants`), and
  the burst is a limit exactly when the interval is positive (`BurstKeptExactly`).
- `Remaining` does not refill, so it can report a wait where a permit is due
  (`RemainingCanBeStale`); `RemainingIsStaleExactly` says when.
- `Map` is documented to return results in item order; after a cancellation by
  the parent the unwritten cells clobber index 0 (`CancellationLosesAResult`).
  The promise is kept on every run exactly when the parent cannot be cancelled
  (`PromiseKeptExactly`).
- `read_cache_entry` is documented to resolve every structural problem to None; an
  exception other than OSError and JSONDecodeError passes through instead, as on
  bytes that are no UTF-8, nesting beyond the recursion limit or an integer beyond
  the digit limit. `CacheHitEntry` raises on exactly those files.
- A toolchain key with a manifest's name would make fingerprints ambiguous
  (`ManifestOrTool`); the probe only reports go, node and python.
- `splitSentences` computes byte offsets from re-encoded runes; they are right
  exactly in front of the first byte that does not decode (`OffsetsExact`), so on
  other text it can panic (`BrokenByteOverruns`) or tear a word (`MisplacedCut`).
  All cuts are right exactly when no such byte precedes one (`CutsRightExactly`);
  `WordsSurviveExactly` says when the words survive nevertheless.
- `BackoffFor` documents Initial * Factor^n capped; a shrinking delay that starts
  over the cap stays there (`DocumentedExactly` gives the exact condition).
- retry.go:135-137 says the Retry-After maximum is taken before jitter; it is
  taken after. `HintOrderExactly` says when that makes no difference.
- options.go:65 says a nil IsRetryable retries every error; `norm` makes it refuse
  every error, or follow the registry if there is one (`NormIsSound`).

## Model

| member | source | states |
|---|---|---|
| LaneSchedule.LeastLoaded | cmd/goldenattribution/attribution.go:303-308 | the lane found by the inner loop has the least load, and every earlier lane has strictly more |
| LaneSchedule.GiveToLeastLoaded | cmd/goldenattribution/attribution.go:303-309 | the inner scan adds the job to the first least loaded lane and changes no other |
| LaneSchedule.LargestLoad | cmd/goldenattribution/attribution.go:311-317 | the final scan finds the largest load |
| LaneSchedule.SimulateMakespan | cmd/goldenattribution/attribution.go:297-318 | returns the largest lane load when each job in order goes to the first least loaded lane; 0 without jobs or lanes |
| LaneSchedule.WorkConserved | cmd/goldenattribution/attribution.go:301-310 | under any assignment of jobs to lanes the lane loads add up to the sum of the costs |
| LaneSchedule.LowerBounds | cmd/goldenattribution/attribution.go:301-317 | no assignment has a makespan below its largest job, nor m times its makespan below the sum |
| LaneSchedule.LastJobBound | cmd/goldenattribution/attribution.go:302-310 | m times the finish of the last job is at most the sum plus (m-1) times that job |
| LaneSchedule.GreedyUpperBound | cmd/goldenattribution/attribution.go:293-318 | in any job order m * makespan <= sum + (m-1) * largest job |
| LaneSchedule.GreedyRatio | cmd/goldenattribution/attribution.go:243 | in any order m * makespan <= (2m-1) * the makespan of every assignment |
| LongestFirst.LanesShaped | cmd/goldenattribution/attribution.go:302-310 | when every job exceeds a third of the makespan t, each lane of any assignment carries at most two jobs, and no big job beside another |
| LongestFirst.WeightFloor | cmd/goldenattribution/attribution.go:302-310 | if greedy dispatch of descending jobs leaves no lane with room for the last job, the jobs weigh at least two per lane |
| LongestFirst.RoomForLast | cmd/goldenattribution/attribution.go:302-310 | if the last of the descending jobs exceeds a third of some makespan, greedy dispatch still finishes it within that makespan |
| LongestFirst.LptRatio | cmd/goldenattribution/attribution.go:244 | on descending costs 3m * makespan <= (4m-1) * the makespan of every assignment: Graham's 4/3 - 1/(3m) |
| LaneReport.SortDescending | cmd/goldenattribution/attribution.go:320-324 | the sorted copy is descending and as long as the input |
| LaneReport.SortKeepsElements | cmd/goldenattribution/attribution.go:320-324 | it holds the same costs with the same multiplicities |
| LaneReport.DescendingUnique | cmd/goldenattribution/attribution.go:320-324 | two descending arrangements of the same costs are equal, so the library sort cannot give anything else |
| LaneReport.OptimalExists | cmd/goldenattribution/attribution.go:251 | for every job list and lane count some assignment has the least makespan of all |
| LaneReport.SortedSchedule | cmd/goldenattribution/attribution.go:244 | every assignment of the plan order has an assignment of the sorted order with the same lane loads |
| LaneReport.LptNearOptimum | cmd/goldenattribution/attribution.go:244-251 | the reported LPT makespan is within (4m-1)/(3m) of the optimum of the jobs as given |
| LaneReport.FifoNearOptimum | cmd/goldenattribution/attribution.go:243 | the reported FIFO makespan is at least the optimum and within (2m-1)/m of it |
| LaneReport.CollectCosts | cmd/goldenattribution/attribution.go:185-233 | the cost list, the render sum, and as fixed samples the positive overheads in batch order, each as often as it occurs |
| LaneReport.CostPreference | cmd/goldenattribution/attribution.go:218-232 | a positive total of the worker is the cost; else a positive queue service time; else the render time |
| LaneReport.OverheadsSnoc | cmd/goldenattribution/attribution.go:230-232 | a batch adds one fixed sample, what its cost exceeds its render time by, exactly when that is positive |
| LaneReport.MaxCost | cmd/goldenattribution/attribution.go:253-258 | the loop finds the largest cost |
| LaneReport.WorstCaseBound | cmd/goldenattribution/attribution.go:251-260 | the factor (4/3 - 1/(3m)) times the floor plus the largest cost; 0 without costs |
| LaneReport.AnalyzeLanes | cmd/goldenattribution/attribution.go:185-260 | the lane figures of a report in terms of its batches: floor, fixed samples, FIFO and LPT makespan, printed bound |
| LaneReport.CostsNonNegative | cmd/goldenattribution/attribution.go:199-232 | with non-negative render times every simulated cost is non-negative and is a total, a service time or a render time, never a mixture |
| ReportBound.BoundCriterion | cmd/goldenattribution/attribution.go:238-259 | the condition under which a makespan obeying Graham's inequality stays under the bound, and its converse where the inequality is tight |
| DominantJob.LptBesideLargest | cmd/goldenattribution/attribution.go:244 | with two lanes or more the LPT makespan is at most the largest job, or m times it is at most twice the rest of the work |
| DominantJob.OneTooMany | cmd/goldenattribution/attribution.go:301-310 | one job more than lanes puts two jobs on some lane |
| ReportBound.LptBelowPrintedBound | cmd/goldenattribution/attribution.go:238-260 | the LPT makespan is at most LPTWorstCaseBound if 3m * (all costs but the largest) <= (4m-1) * render time, or if m >= 2 and twice those costs is at most m times the bound |
| ReportBound.DominanceIsExact | cmd/goldenattribution/attribution.go:238-260 | for m >= 2 and a total of at most m+1 times the largest cost the second condition is exact: the bound covers every batch list with the same render time, total and largest cost if and only if it holds |
| ReportBound.NoOverheadIsTolerated | cmd/goldenattribution/attribution.go:232-260 | when every cost equals its RenderMS that condition holds, so LPTMakespan <= LPTWorstCaseBound |
| ReportBound.BoundCanFail | cmd/goldenattribution/attribution.go:218-260 | it is not a bound in general: three batches on one lane, render 1 and overhead 100, give makespan 303 against 104 |
| ReportBound.ToleranceIsSharp | cmd/goldenattribution/attribution.go:238-260 | for one job more than full rounds of equal costs, and any lane count, the bound holds if and only if the first condition does |
| ReportBound.ToleranceIsExact | cmd/goldenattribution/attribution.go:238-260 | at a total of km + 1 times the largest cost, for any k and m, the first condition is exact: the bound covers every batch list with the same render time, total and largest cost if and only if it holds |
| ReportBound.OneLaneExact | cmd/goldenattribution/attribution.go:238-260 | on one lane the bound holds if and only if the first condition does, for every batch list |
| FairGate.PickIsFirstAdmissible | pkg/concurrent/fair_semaphore.go:157-224 | with a free slot, the first waiter the fairness rule admits is the earliest waiter whose owner holds nothing, or else the earliest waiter |
| FairGate.PickIsAdmissible | pkg/concurrent/fair_semaphore.go:157-224 | with a free slot and anyone waiting the scan admits somebody |
| FairGate.ActivateBalanced | pkg/concurrent/fair_semaphore.go:179-182 | activating keeps total equal to the sum of the active counts and within cap, and adds one slot to that owner only |
| FairGate.DeactivateBalanced | pkg/concurrent/fair_semaphore.go:199-205 | deactivating keeps the books too, takes one slot from that owner only, and nothing from an owner without slots |
| FairGate.DrainBalanced | pkg/concurrent/fair_semaphore.go:212-230 | draining keeps the books and ends with an empty queue or a full gate |
| FairRuns.FastPathExact | pkg/concurrent/fair_semaphore.go:81-86 | in reachable states the fast path admits exactly when total < cap, and then nobody is queued |
| FairRuns.ReleaseReachable | pkg/concurrent/fair_semaphore.go:193-230 | in reachable states a release frees one slot and hands exactly that one over: to the starving waiter first in line, else to the head |
| FairRuns.ArriveInv | pkg/concurrent/fair_semaphore.go:81-89 | an arriving call keeps the invariant (slots match callers, queue matches waiters, a non-empty queue means total == cap, channels closed at most once) |
| FairRuns.AbandonInv | pkg/concurrent/fair_semaphore.go:103-113 | both cancellation paths keep the invariant although a removed waiter does not drain |
| FairRuns.GiveBackInv | pkg/concurrent/fair_semaphore.go:193-230 | returning a slot keeps the invariant |
| FairRuns.StepInv | pkg/concurrent/fair_semaphore.go:74-230 | every locked section of every caller keeps the invariant |
| FairRuns.RunInv | pkg/concurrent/fair_semaphore.go:74-230 | so it holds after every run from a state in which it holds |
| FairGuarantees.SlotsConserved | pkg/concurrent/fair_semaphore.go:91-115 | in every reachable state total equals the sum of active, is at most cap, and counts exactly the callers holding, handed or returning a slot, per owner as well; no ready channel is closed twice |
| FairGuarantees.AllReturned | pkg/concurrent/fair_semaphore.go:91-115 | when all callers have finished, active and queue are empty and total is 0 |
| FairGuarantees.NobodyStranded | pkg/concurrent/fair_semaphore.go:81-132 | no reachable state leaves an admissible waiter in the queue, and nobody is admitted past a waiter |
| FairGuarantees.FairAdmission | pkg/concurrent/fair_semaphore.go:157-230 | whoever gets a slot in any step held none, or no waiter was starving when the decision fell |
| FairGuarantees.BoundedWaiting | pkg/concurrent/fair_semaphore.go:157-230 | a waiter at index i that does not give up sees its owner hold a slot after at most i+1 releases, whatever else happens in between |
| FairGuarantees.FifoWithinOwner | pkg/concurrent/fair_semaphore.go:193-230 | over every run a waiter is never served before an earlier waiter of the same owner that does not give up |
| FairStages.HoldersAreUncancelled | pkg/concurrent/fair_semaphore.go:91-116 | over every run: no caller holding a slot had its cancellation seen, every caller giving back a handed slot had, and a caller is finished exactly when it gave its slot back or gave up waiting without one |
| FairStages.WokenHolds | pkg/concurrent/fair_semaphore.go:91-102 | a caller handed a slot while it waited and woken uncancelled holds it until its GiveBack; woken cancelled it is giving it back |
| FairStages.ArrivedStays | pkg/concurrent/fair_semaphore.go:81-89 | an arrival, as long as it does nothing else itself, holds a slot if one was free and otherwise waits, whatever the others do |
| FairSemaphores.FairSemaphore.constructor | pkg/concurrent/fair_semaphore.go:51-56 | an empty gate of the given capacity |
| FairSemaphores.FairSemaphore.AdmissibleLocked | pkg/concurrent/fair_semaphore.go:157-177 | the scan decides the fairness rule; self makes no difference |
| FairSemaphores.FairSemaphore.ActivateLocked | pkg/concurrent/fair_semaphore.go:179-182 | one slot more for the owner and in total |
| FairSemaphores.FairSemaphore.Enter | pkg/concurrent/fair_semaphore.go:81-89 | null exactly when the owner was admissible and now holds a slot more; otherwise a fresh waiter at the end of the queue |
| FairSemaphores.FairSemaphore.TryAcquire | pkg/concurrent/fair_semaphore.go:121-132 | succeeds exactly when admissible and changes nothing otherwise |
| FairSemaphores.FairSemaphore.RemoveWaiterLocked | pkg/concurrent/fair_semaphore.go:184-191 | takes exactly that waiter out of the queue |
| FairSemaphores.FairSemaphore.Abandon | pkg/concurrent/fair_semaphore.go:103-113 | tells a handed-off waiter from a queued one and removes only the latter |
| FairSemaphores.FairSemaphore.HandOver | pkg/concurrent/fair_semaphore.go:219-222 | the chosen waiter leaves the queue with a slot, its flag set and its channel closed |
| FairSemaphores.FairSemaphore.ServeFirst | pkg/concurrent/fair_semaphore.go:214-225 | one pass serves the waiter of the two-line rule, exactly when a slot is free and somebody waits |
| FairSemaphores.FairSemaphore.DrainLocked | pkg/concurrent/fair_semaphore.go:212-230 | terminates with the state of serving by the two-line rule until the queue is empty or the gate full; served waiters are flagged and closed |
| FairSemaphores.FairSemaphore.Release | pkg/concurrent/fair_semaphore.go:193-207 | one slot of the owner is freed, if it has any, and the queue drained |
| LockRegistry.RegisterInv | pkg/concurrent/keyedlocker.go:45-52 | taking a reference keeps: callers of one key share the registered entry, refs counts them, a locked entry has one holder |
| LockRegistry.UnregisterInv | pkg/concurrent/keyedlocker.go:57-62 | so does dropping it, although delete is by key |
| LockRegistry.LastReference | pkg/concurrent/keyedlocker.go:58-61 | dropping the reference takes refs to 0 if and only if no other caller references the entry |
| LockRegistry.StepInv | pkg/concurrent/keyedlocker.go:44-64 | every critical section keeps the invariant |
| LockRegistry.RunInv | pkg/concurrent/keyedlocker.go:44-64 | so it holds after every run |
| LockRegistry.PhaseIsLastSection | pkg/concurrent/keyedlocker.go:44-64 | over every run a caller holds the lock of the very key it asked for from taking the mutex until unlocking; before that it waits, then it leaves, and then it is gone |
| LockRegistry.MutualExclusion | pkg/concurrent/keyedlocker.go:44-64 | over every interleaving at most one caller is between lock and unlock for a key, although entries are deleted and recreated |
| LockRegistry.RegistryIsExact | pkg/concurrent/keyedlocker.go:45-62 | the keys of the map are exactly the keys in flight and refs equals the number of callers of the key |
| LockRegistry.BlockedOnlyBySameKey | pkg/concurrent/keyedlocker.go:54 | a waiting caller can proceed if and only if no caller of the same key holds |
| LockRegistry.SomebodyMoves | pkg/concurrent/keyedlocker.go:44-64 | while anyone is in flight somebody in flight can take a step |
| KeyedLockers.KeyedLocker.Register | pkg/concurrent/keyedlocker.go:45-52 | returns the registered or a fresh entry with one reference more |
| KeyedLockers.KeyedLocker.CreateEntry | pkg/concurrent/keyedlocker.go:47-51 | a fresh entry with one reference is registered under the key |
| KeyedLockers.KeyedLocker.Unregister | pkg/concurrent/keyedlocker.go:57-62 | one reference less; the key is deleted when none is left |
| KeyedLockers.KeyedLocker.LockEntryOf | pkg/concurrent/keyedlocker.go:54 | the mutex of that entry is taken and nothing else changes |
| KeyedLockers.KeyedLocker.UnlockEntryOf | pkg/concurrent/keyedlocker.go:56 | the mutex of that entry is released and nothing else changes |
| RecencyList.AfterShape | pkg/cacheutil/lru.go:104-137 | one operation keeps keys distinct and the list within max |
| LruTheorems.StateIsRanking | pkg/cacheutil/lru.go:104-137 | after any history a shard holds the first max keys of the most-recently-touched ranking, in that order (a touch is a Put or a Get that hits) |
| LruTheorems.Exact | pkg/cacheutil/lru.go:104-137 | a key is cached if and only if it was touched and fewer than max distinct other keys were touched since |
| LruTheorems.EntriesAreLastPuts | pkg/cacheutil/lru.go:119-137 | every entry carries the value of the last Put of its key |
| LruTheorems.GetReturnsLastPut | pkg/cacheutil/lru.go:104-114 | a Get returns the last Put value under exactly that condition and nothing otherwise |
| LruTheorems.SmallerWithinLarger | pkg/cacheutil/lru.go:104-137 | run on the same history the list of the smaller shard stays an order-preserving subsequence of the larger, with equal values |
| LruTheorems.HitsIncluded | pkg/cacheutil/lru.go:104-137 | every hit of the smaller shard is a hit of the larger with the same value |
| ShardedLru.CapacitiesShareMax | pkg/cacheutil/lru.go:58-84 | the shard capacities add up to max(max, 1) exactly |
| ShardedLru.ShardCount | pkg/cacheutil/lru.go:62-65 | 16 shards from a capacity of 64 on, otherwise one |
| ShardedLru.CapacitiesEven | pkg/cacheutil/lru.go:67-76 | no shard has less than a later one, nor more than one entry more; with the sum this fixes every capacity |
| ShardedLru.CapacityMonotone | pkg/cacheutil/lru.go:67-76 | with the same shard count a larger cache has no smaller shard |
| ShardedLru.FnvStep | pkg/cacheutil/lru.go:93-97 | one round of the loop extends the FNV-1a hash by one byte |
| ShardedLru.FnvVectors | pkg/cacheutil/lru.go:89-97 | the published values of 32-bit FNV-1a for the empty string, "a" and "foobar" |
| ShardedLru.ShardOf | pkg/cacheutil/lru.go:88-99 | the index is below the shard count |
| ShardedLru.ShardVectors | pkg/cacheutil/lru.go:98 | of sixteen shards these three keys are in the sixth, the thirteenth and the ninth |
| ShardedLru.CacheStep | pkg/cacheutil/lru.go:104-137 | one operation changes the shard of its key as the shard would on its own, and no other |
| ShardedLru.LookupExact | pkg/cacheutil/lru.go:104-137 | for the whole cache: the last Put value if fewer distinct keys of that shard than its capacity were touched since, else a miss |
| ShardedLru.LargerCacheHitsMore | pkg/cacheutil/lru.go:58-137 | with equal shard counts the larger cache hits whenever the smaller does, with the same value, and contains each of its shards in order |
| ShardedLru.LenBounded | pkg/cacheutil/lru.go:139-146 | Len never exceeds max(max, 1) |
| LruCache.Shard.MoveToFront | pkg/cacheutil/lru.go:112 | the element comes first, the others keep their order |
| LruCache.Shard.Get | pkg/cacheutil/lru.go:105-114 | list and map stay in step; the value found is returned and its key moved to the front |
| LruCache.Shard.Put | pkg/cacheutil/lru.go:120-137 | rewrites and promotes a present key; otherwise pushes the new one and evicts the last beyond max |
| LruCache.Shard.PushNew | pkg/cacheutil/lru.go:128-129 | the new entry is first in the list and registered in the map |
| LruCache.Shard.Evict | pkg/cacheutil/lru.go:130-136 | only an entry beyond max is dropped, the last one, from list and map |
| LruCache.Cache.constructor | pkg/cacheutil/lru.go:58-84 | distinct empty shards with the capacities of the split |
| LruCache.Cache.Hash | pkg/cacheutil/lru.go:93-97 | the loop computes FNV-1a in 32-bit wrap-around arithmetic |
| LruCache.Cache.ShardFor | pkg/cacheutil/lru.go:88-99 | the hash modulo the shard count |
| LruCache.Cache.Get | pkg/cacheutil/lru.go:104-114 | answers and promotes in the shard of the key; all other shards are unchanged |
| LruCache.Cache.Put | pkg/cacheutil/lru.go:119-137 | stores in the shard of the key; all other shards hold what they held |
| LruCache.Cache.Len | pkg/cacheutil/lru.go:140-152 | the sum of the shard list lengths |
| LruCache.Cache.LenWithin | pkg/cacheutil/lru.go:140-152 | which is at most max(max, 1) |
| TokenLane.RefillBounded | pkg/providerbudget/budget.go:170-174 | refilling keeps the tokens between 0 and the burst and never loses any |
| TokenLane.OperationsBounded | pkg/providerbudget/budget.go:105-205 | so do reserving, observing a rate limit and reconfiguring |
| TokenLane.NormalizedKeeps | pkg/providerbudget/budget.go:50-61 | sensible settings stay; otherwise no pacing, one permit and 30 seconds |
| TokenLane.SettingsOfLanes | pkg/providerbudget/budget.go:115-130 | a new lane starts with its burst and without pause; reconfiguring takes the normalized settings, keeps the refill time, the pause and the counters, and never adds a token |
| TokenLane.ZeroWithoutGrantExactly | pkg/providerbudget/budget.go:147-182 | reserve returns 0 without granting if and only if the lane is paced, out of cooldown, short of a permit, and short by less than a nanosecond |
| TokenLane.NewLaneWhole | pkg/providerbudget/budget.go:126 | a new lane's tokens are worth a whole number of nanoseconds |
| TokenLane.ReserveMetered | pkg/providerbudget/budget.go:157-183 | on such a lane reserve does what an integer nanosecond account does: same grants, same waits, no truncation, and it stays such a lane |
| RateGuarantees.RateBound | pkg/providerbudget/budget.go:157-224 | grants in any window [t1, t2] of any run times the interval are at most burst * interval + (t2 - t1) |
| RateGuarantees.GrantSound | pkg/providerbudget/budget.go:157-183 | reserve returns 0 if and only if it counted a grant; a paced grant costs one interval of credit; a refusal waits at least 1 ns and is counted |
| RateGuarantees.GrantedExactly | pkg/providerbudget/budget.go:162-182 | a call is granted if and only if the pause is over and, on a paced lane, one interval of credit is there |
| RateGuarantees.CallSpendsPermit | pkg/providerbudget/budget.go:162-183 | out of a pause a call on a paced lane is granted if and only if a permit is left, and a grant uses up one |
| RateGuarantees.RushGrantsExactly | pkg/providerbudget/budget.go:162-183 | of n calls at one instant out of a pause exactly min(n, permits) are granted |
| RateGuarantees.BurstIsReached | pkg/providerbudget/budget.go:115-183 | that is min(n, burst) on a new lane and on one left alone for burst * interval |
| RateGuarantees.RemainingZeroGrants | pkg/providerbudget/budget.go:207-224 | Remaining == 0 implies that an immediate reserve grants |
| RateGuarantees.RemainingExactly | pkg/providerbudget/budget.go:207-224 | the rest of the pause; else nothing if unpaced or a permit is there; else what the tokens left lack of one permit |
| RateGuarantees.RemainingIsEnough | pkg/providerbudget/budget.go:207-224 | out of a pause, waiting that long is enough for a grant |
| RateGuarantees.RemainingIsStaleExactly | pkg/providerbudget/budget.go:207-224 | Remaining reports a wait where a permit is due if and only if the lane is paced, out of cooldown, and short of a permit only because the tokens earned since are not counted |
| RateGuarantees.RemainingCanBeStale | pkg/providerbudget/budget.go:207-224 | a lane one grant after its creation reports 10 ns and grants at once |
| RateGuarantees.ReconfigureCanGrantSilently | pkg/providerbudget/budget.go:117-182 | two calls on a new lane and a Configure that changes the interval reach a zero wait that is no grant |
| RateGuarantees.UnpacedAlwaysGrants | pkg/providerbudget/budget.go:162-168 | an unpaced lane out of cooldown grants every call and spends no token |
| RateGuarantees.BurstKeptExactly | pkg/providerbudget/budget.go:39-44 | in every run at most Burst calls are granted at one instant if and only if the interval is positive |
| RateGuarantees.CooldownGrows | pkg/providerbudget/budget.go:201-204 | cooldownUntil never moves back during a run |
| RateGuarantees.PauseOfLane | pkg/providerbudget/budget.go:193-200 | a pause is as long as a positive hint says, else as the settings say |
| RateGuarantees.PauseIsLatest | pkg/providerbudget/budget.go:188-205 | after any run the pause ends when the latest-ending observation said, or when it ended before: nothing else opens, extends or shortens one |
| RateGuarantees.NoGrantDuringPause | pkg/providerbudget/budget.go:162-205 | after an observed rate limit nothing is granted until its pause is over, whatever shorter pauses follow |
| RateGuarantees.WaitedEnough | pkg/providerbudget/budget.go:162-183 | out of cooldown, waiting as long as reserve said is enough for a grant |
| RateGuarantees.AcquireTurn | pkg/providerbudget/budget.go:142-153 | one turn of the loop grants, or waits out the cooldown, or waits long enough to be granted next |
| RateGuarantees.StaysWhole | pkg/providerbudget/budget.go:157-224 | no event but a reconfiguration leaves whole nanoseconds |
| ProviderBudget.Registry.constructor | pkg/providerbudget/budget.go:93-100 | no lanes, normalized defaults |
| ProviderBudget.Registry.LaneFor | pkg/providerbudget/budget.go:123-130 | the lane of the provider, created from the defaults when missing; no other lane changes |
| ProviderBudget.Registry.Configure | pkg/providerbudget/budget.go:105-121 | a new lane from the configuration, or new parameters with the tokens capped; nothing for an empty provider |
| ProviderBudget.Registry.ReservePermit | pkg/providerbudget/budget.go:157-183 | the lane and the wait are those of Reserve; no other lane changes |
| ProviderBudget.Registry.Acquire | pkg/providerbudget/budget.go:135-154 | an undisturbed Acquire sleeps at most twice, is cancelled exactly when the context was at a check, and otherwise counts one grant no earlier than cooldownUntil |
| ProviderBudget.Registry.ObserveRateLimit | pkg/providerbudget/budget.go:188-205 | opens or extends the pause of that lane only; nothing for an empty provider |
| ProviderBudget.Registry.RemainingFor | pkg/providerbudget/budget.go:209-224 | the pause or the time to the next permit by the tokens as they were left; only creates a missing lane |
| ChunkCode.ReadsBack | scripts/ci/verify_component_fingerprint.py:18 | eight big-endian bytes give back every length below 2^64 |
| ChunkCode.FramesInOrder | scripts/ci/verify_component_fingerprint.py:16-19 | three chunks one behind the other, each after its length in eight bytes, the most significant first |
| ChunkCode.EncodeConcat | scripts/ci/verify_component_fingerprint.py:16-19 | feeding two chunk lists one after the other feeds their concatenation |
| ChunkCode.FrameSplits | scripts/ci/verify_component_fingerprint.py:16-19 | equal byte strings start with equal first chunks and equal rests |
| ChunkCode.EncodeInjective | scripts/ci/verify_component_fingerprint.py:16-19 | two chunk lists fed as the same bytes are the same list |
| FingerprintLayout.PathChunksInjective | scripts/ci/verify_component_fingerprint.py:44-63 | under one registry path a file, a directory with its files, and a missing path are never fed alike, nor two different contents |
| FingerprintLayout.DirectoryInOrder | scripts/ci/verify_component_fingerprint.py:56-59 | the i-th file of a directory gives chunk 2i, its path below the entry, and chunk 2i+1, its content |
| FingerprintLayout.PeelTriples | scripts/ci/verify_component_fingerprint.py:139-163 | a tagged section ends where the tag stops, although no count is fed |
| FingerprintLayout.PeelManifests | scripts/ci/verify_component_fingerprint.py:184-193 | the untagged manifest section ends at the first chunk that is no manifest name |
| FingerprintLayout.LayoutInjective | scripts/ci/verify_component_fingerprint.py:131-199 | the chunk list determines name, mode, dependency digests, path digests, commands, flags, manifests, toolchain and platform |
| FingerprintLayout.LayoutOfEach | scripts/ci/verify_component_fingerprint.py:131-199 | with one dependency, path, package, command, manifest and tool: the 26 chunks, tags included, in the order fed, the schema version first |
| FingerprintLayout.ManifestOrTool | scripts/ci/verify_component_fingerprint.py:184-197 | exactly a first toolchain key that is a manifest's name breaks that: then another manifest list is fed alike |
| RegistryOrder.PathsGoDown | scripts/ci/verify_component_registry.py:155-160 | in a dependency-first order every chain of dependencies runs strictly backwards |
| RegistryOrder.OrderExcludesCycles | scripts/ci/verify_component_registry.py:107-109 | so no cycle passes through an ordered component |
| RegistryOrder.Resolver.Enter | scripts/ci/verify_component_registry.py:154-155 | a new component goes on the stack |
| RegistryOrder.Resolver.Leave | scripts/ci/verify_component_registry.py:158-160 | a component whose dependencies are all ordered is appended |
| RegistryOrder.Resolver.CycleFrom | scripts/ci/verify_component_registry.py:149-152 | the reported path is a cycle through that component |
| RegistryOrder.Resolver.Visit | scripts/ci/verify_component_registry.py:143-160 | orders the component after everything it needs, and nothing else; otherwise the reported unknown name, or the start of the reported cycle, is something it needs |
| RegistryOrder.Resolver.VisitDependencies | scripts/ci/verify_component_registry.py:156-157 | all dependencies are ordered with what they need, or what is passed on stands in the way of the component itself |
| RegistryOrder.Unique | scripts/ci/verify_component_registry.py:135 | distinct, with the same members |
| RegistryOrder.OrderedIsResolvable | scripts/ci/verify_component_registry.py:107-109 | everything a member of an order needs is registered and on no cycle |
| RegistryOrder.ResolveComponents | scripts/ci/verify_component_registry.py:133-164 | succeeds if and only if something is requested and everything a requested component needs is registered and on no cycle; the order is duplicate-free, dependency-first, holds exactly what is needed, and is the one order of the requested names; otherwise the reported name or cycle is needed by a requested component |
| RegistryOrder.UniqueVisits | scripts/ci/verify_component_registry.py:135 | a name requested again changes nothing |
| DependencyOrder.OrderIsUnique | scripts/ci/verify_component_registry.py:133-164 | a list of names has one order |
| DependencyOrder.OrderOfOne | scripts/ci/verify_component_registry.py:154-160 | the order of one component is the order of its dependencies, as declared, and then itself |
| DependencyOrder.OrderOfOneMore | scripts/ci/verify_component_registry.py:162-164 | one more name leaves the order before it as it is and adds, in its own order, what is not there yet; with the law above this fixes every order |
| SortedText.SortedForgetsOrder | scripts/ci/verify_component_fingerprint.py:139 | sorted() gives the same list for every order of the same strings |
| SortedText.ByteOrder | scripts/ci/verify_component_fingerprint.py:139 | the order: the first byte that differs decides, and a beginning comes first |
| Fingerprint.SheetsEqual | scripts/ci/verify_component_fingerprint.py:131-201 | equal digests of two components mean equal top-level inputs, unless hashed messages collide |
| Fingerprint.PathHashesInjective | scripts/ci/verify_component_fingerprint.py:149-152 | equal lists of path digests mean equal paths with equal contents |
| Fingerprint.PrintInjective | scripts/ci/verify_component_fingerprint.py:108-203 | equal fingerprints mean equal inputs all the way down the dependencies, provided no two messages hashed on the way collide |
| ComponentTree.PatternsOfOneDirectory | scripts/ci/verify_component_fingerprint.py:66-75 | d, d/, d... and d/..., with or without ./ in front, all reduce to the directory d |
| ComponentTree.StripSlashes | scripts/ci/verify_component_fingerprint.py:75 | no trailing slash is left |
| ComponentTree.DependenciesComeFirst | scripts/ci/verify_component_fingerprint.py:139-147 | on a registry that load_registry accepted the recursion descends the order and stays registered |
| ComponentTree.ProbedIsReadable | scripts/ci/verify_component_fingerprint.py:184-197 | what is read off a registry satisfies the layout condition as soon as the toolchain does |
| ComponentTree.FingerprintReachesDown | scripts/ci/verify_component_fingerprint.py:131-199 | while the fingerprint of the head of a dependency chain stays the same, so does everything around its last component: dependencies, registered paths and Go package directories with their contents, planned commands, race flag and timeouts, the manifests it uses, toolchain, GOOS and GOARCH |
| ComponentTree.SameTreeSameSurroundings | scripts/ci/verify_component_fingerprint.py:131-199 | equal inputs of one component mean all that; a package directory is covered however its pattern spells it |
| ComponentTree.ManifestCovered | scripts/ci/verify_component_fingerprint.py:184-193 | go.mod and go.sum are covered exactly when there are Go packages, the three Node manifests exactly when there are Node tests and the file is there, each with the content read |
| ComponentTree.FingerprintNamesComponent | scripts/ci/verify_component_fingerprint.py:131-134 | no two components, nor two modes, have the same fingerprint |
| ComponentTree.OrderIsIrrelevant | scripts/ci/verify_component_fingerprint.py:139-149 | reordering dependency or path lists in the registry changes no fingerprint |
| Fingerprinters.Hasher.Update | scripts/ci/verify_component_fingerprint.py:16-19 | appends one framed chunk |
| Fingerprinters.HashPath | scripts/ci/verify_component_fingerprint.py:44-63 | the digest of one path |
| Fingerprinters.FeedPaths | scripts/ci/verify_component_fingerprint.py:149-163 | feeds tag, path and digest for every path |
| Fingerprinters.FeedCommands | scripts/ci/verify_component_fingerprint.py:165-168 | feeds every planned command under its tag |
| Fingerprinters.FeedSettings | scripts/ci/verify_component_fingerprint.py:170-199 | feeds flags, manifests, toolchain and platform in layout order |
| Fingerprinters.Fingerprinter.ComponentFingerprint | scripts/ci/verify_component_fingerprint.py:125-203 | the memoised result equals the fingerprint computed without the memo, and everything in the memo is such a fingerprint |
| Fingerprinters.Fingerprinter.Compute | scripts/ci/verify_component_fingerprint.py:131-201 | the digest of the chunks fed is the fingerprint |
| Fingerprinters.Fingerprinter.FeedDependencies | scripts/ci/verify_component_fingerprint.py:137-147 | feeds name and fingerprint of every dependency, recursively |
| CachePaths.SegmentsOfParts | scripts/ci/verify_component_cache.py:21 | joining splits a name at its slashes and drops empty and "." segments |
| CachePaths.LeadingSlashes | scripts/ci/verify_component_cache.py:21 | two leading slashes are kept, one and three or more are one |
| CachePaths.CacheRootIs | scripts/ci/verify_component_cache.py:14-16 | records live three segments below the root: .cache, pipelinegen, verify |
| CachePaths.EntryPathsExactly | scripts/ci/verify_component_cache.py:19-21 | two component/fingerprint pairs share a file if and only if the fingerprints are equal and the names start alike and have the same segments, or one of them spells out the cache directory; a digest has no slash |
| CachePaths.DotAlias | scripts/ci/verify_component_cache.py:19-21 | "./a" shares the files of "a" |
| CachePaths.TrailingAlias | scripts/ci/verify_component_cache.py:19-21 | so does "a/" |
| CachePaths.DoubledAlias | scripts/ci/verify_component_cache.py:19-21 | and "a//b" those of "a/b" |
| VerificationCache.SharedFileSameInputs | scripts/ci/verify_component_cache.py:19-21 | yet jobs that share a file have the same inputs, provided no hashed messages collide |
| VerificationCache.ReadCacheEntry | scripts/ci/verify_component_cache.py:24-42 | returns only a record with status PASS and the requested fingerprint; only the two exceptions caught count as no record |
| VerificationCache.CacheHitEntry | scripts/ci/verify_component_cache.py:85-96 | a hit if and only if the file holds a PASS record for that fingerprint under the current schema; an exception if and only if reading or parsing raises something other than OSError and JSONDecodeError |
| VerificationCache.Missing | scripts/ci/verify_component_cache.py:99-110 | exactly the declared artifacts that are no regular files; none exactly when all are |
| VerificationCache.MissingRequiredArtifacts | scripts/ci/verify_component_cache.py:99-110 | the loop collects them |
| VerificationCache.RecordUnder | scripts/ci/verify_component_cache.py:57-82 | a stored record has these nine fields and no other, and vouches for its fingerprint |
| VerificationCache.Cache.StoreCachePass | scripts/ci/verify_component_cache.py:57-82 | changes one file, to a record that is then a hit; nothing when the write fails |
| VerificationCache.Cache.ProcessComponent | scripts/ci/verify_component_runner.py:186-208 | no hit while a required artifact is missing; a hit runs nothing; only a pass is stored; an exception of the lookup, or of int() on the duration of a hit, leaves it |
| VerificationCache.AllEarned | scripts/ci/verify_component_runner.py:316-324 | after any history of verifications, deletions, damage and copying, every record that vouches for a fingerprint was stored by a passing verification with that fingerprint |
| VerificationCache.CacheEqualsRecomputation | scripts/ci/verify_component_runner.py:181-369 | after any such history what is reported of a component is what running its gate on these inputs would say, provided no hashed messages collide; only a file on which reading or parsing raises makes a difference: it fails the component, or with one job ends the run, and never passes it |
| VerificationCache.PassIsRemembered | scripts/ci/verify_component_cache.py:85-96 | a stored pass is a hit for the same inputs while its artifacts are there |
| WorkerPool.WorkerCount | pkg/concurrent/concurrent.go:219-224 | as asked between 1 and the number of items; below that 1, above it the number of items |
| WorkerPool.StepInHand | pkg/concurrent/concurrent.go:254-290 | a job in hand is not started yet; a running one is started and has no result yet |
| WorkerPool.StepExclusive | pkg/concurrent/concurrent.go:254-290 | no index is ever in two hands |
| WorkerPool.StepAccounted | pkg/concurrent/concurrent.go:254-290 | unless cancelled, an index taken from the channel is in a worker's hands or has its result |
| WorkerPool.StepBlamed | pkg/concurrent/concurrent.go:282-289 | a recorded error was produced by an item and cancels the pool; every error result is recorded or about to be |
| WorkerPool.StepInv | pkg/concurrent/concurrent.go:236-304 | every event keeps the whole invariant |
| WorkerPool.RunInv | pkg/concurrent/concurrent.go:236-304 | so it holds after every run |
| WorkerPool.BoundedAndOnce | pkg/concurrent/concurrent.go:248-290 | in every run each index is started at most once and at most the clamped worker count runs at a time |
| WorkerPool.NothingStartsAfterCancel | pkg/concurrent/concurrent.go:254-258 | once the context is cancelled no item is started any more |
| WorkerPool.FirstErrorStays | pkg/concurrent/concurrent.go:282-289 | the error recorded first is never replaced |
| WorkerPool.RunsAreShort | pkg/concurrent/concurrent.go:250-304 | every run ends after at most 5 * items + workers + 2 events |
| WorkerPool.NeverStuck | pkg/concurrent/concurrent.go:250-304 | until the channel is closed and all workers are gone some event is possible without outside help |
| WorkerPool.Assemble | pkg/concurrent/concurrent.go:310-314 | out[i] is the value of cell i for i > 0; out[0] is the zero value as soon as any cell was never written |
| WorkerPool.ReturnValue | pkg/concurrent/concurrent.go:306-314 | an error exactly when one was recorded, that one; otherwise one value per item: behind index 0 each its own or zero if its cell was never written, and at index 0 zero as soon as any cell was not |
| WorkerPool.ErrorsAreProduced | pkg/concurrent/concurrent.go:280-287 | a returned error is the result of a started item |
| WorkerPool.FailsExactly | pkg/concurrent/concurrent.go:210-315 | with a parent context that stays alive Map succeeds if and only if no item fails, then with fn(i) for every i; otherwise with the error of some item |
| WorkerPool.CancellationLosesAResult | pkg/concurrent/concurrent.go:254-314 | for any worker count, some run writes the result at index 0 and yet replies without error and with the zero value in its place if and only if there is more than one item |
| WorkerPool.PromiseKeptExactly | pkg/concurrent/concurrent.go:205-315 | if no item fails and not all yield zero, every complete run returns all values in item order if and only if the parent context cannot be cancelled, for any number of items and workers |
| WorkerPool.ParallelMapDelivers | pkg/concurrent/concurrent.go:321-364 | every item ends with its own value, or the zero value if it panicked |
| WorkerPool.Group.RecordError | pkg/concurrent/concurrent.go:163-173 | the first error stays and cancels |
| WorkerPool.Group.Finish | pkg/concurrent/concurrent.go:147-161 | the group's error is the first one recorded in finishing order; a nil result cancels nothing |
| Utf8Text.FirstRuneOfUtf8 | cmd/semantic-extract/text.go:79 | decoding reads back any encoded rune and its width |
| Utf8Text.FirstRuneIsPrefix | cmd/semantic-extract/text.go:79 | and what is not taken for a broken byte is the encoding of the rune it is taken for: no overlong form, no surrogate |
| Utf8Text.DecodeEncode | cmd/semantic-extract/text.go:79 | []rune(string(runes)) gives the runes back |
| Utf8Text.SlicesAlign | cmd/semantic-extract/text.go:80-97 | where no byte before them fails to decode, slicing by the computed byte offsets cuts out exactly those runes |
| Utf8Text.SliceAtPositions | cmd/semantic-extract/text.go:79-97 | in any bytes the slice between the true ends of two runes decodes to the runes between |
| Utf8Text.OffsetsExact | cmd/semantic-extract/text.go:80-83 | a computed offset is right if and only if no byte before it fails to decode |
| Utf8Text.ValidIsClean | cmd/semantic-extract/text.go:79-83 | in valid UTF-8 no byte fails to decode |
| Utf8Text.BrokenByteOverruns | cmd/semantic-extract/text.go:80-92 | a broken byte before a full stop puts the cut past the end of the text |
| WordText.WordsOfParts | cmd/semantic-extract/text.go:48 | cutting at white space splits the word list |
| WordText.TrimKeepsWords | cmd/semantic-extract/text.go:41 | TrimSpace leaves the words alone and no white space at the ends |
| WordText.SpacesListed | cmd/semantic-extract/text.go:88 | white space is these 25 code points |
| WordText.TrimExactly | cmd/semantic-extract/text.go:92 | TrimSpace takes exactly the white space at both ends |
| WordText.WordsOfJoin | cmd/semantic-extract/text.go:59 | splitting undoes joining with single spaces |
| SentenceSplitter.StartIsAfterLastCut | cmd/semantic-extract/text.go:84-96 | the current sentence starts at the text or right after the last cut |
| SentenceSplitter.SegmentsAreText | cmd/semantic-extract/text.go:84-97 | the pieces before trimming are the text, nothing lost and nothing twice |
| SentenceSplitter.CutsAreSafe | cmd/semantic-extract/text.go:85-91 | no sentence cut falls inside a word |
| SentenceSplitter.SentencesKeepWords | cmd/semantic-extract/text.go:76-101 | the sentences have the words of the text in order |
| SentenceSplitter.SentencesAreTrimmed | cmd/semantic-extract/text.go:92-98 | each without outer white space and not empty |
| SentenceSplitter.SentencesOfParts | cmd/semantic-extract/text.go:84-97 | where a text ends with a line feed, or with one of . ! ? before white space or the end, its sentences are those before and those after |
| SentenceSplitter.OneSentence | cmd/semantic-extract/text.go:84-101 | a text with no such place is one sentence, or none when blank; with the law above this fixes the sentences of every text |
| SentenceSplitter.SplitSentences | cmd/semantic-extract/text.go:76-101 | on any bytes: panics if and only if the computed offset of some cut lies past the end; otherwise returns the trimmed non-empty slices between the computed offsets |
| SentenceSplitter.CutsRightExactly | cmd/semantic-extract/text.go:80-92 | all cuts are where the runes before them end if and only if no byte before a cut fails to decode |
| SentenceSplitter.CleanCutsSuffice | cmd/semantic-extract/text.go:76-101 | then nothing panics and the sentences are the pieces of the decoded text between its cuts |
| SentenceSplitter.ValidCutsClean | cmd/semantic-extract/text.go:76-101 | which holds for all valid UTF-8 |
| SentenceSplitter.MisplacedCut | cmd/semantic-extract/text.go:80-97 | the bytes FF 2E 20 61 62 63 64: nothing panics, and the word abcd is cut after its first letter |
| WordSurvival.SplitLetters | cmd/semantic-extract/text.go:92 | cutting bytes in two never loses a letter, and leaves the number of letters only at the end of a rune |
| WordSurvival.SlicesKeepWords | cmd/semantic-extract/text.go:92-98 | slices at any ascending positions have the words of the text if and only if every position is the end of a rune with white space on one side |
| WordSurvival.WordsSurviveExactly | cmd/semantic-extract/text.go:76-101 | on any bytes without a panic the sentences have the words of the text in order if and only if every computed offset is such a position |
| WordSurvival.ScenesKeepWordsExactly | cmd/semantic-extract/text.go:33-74 | and so have the scenes |
| SentenceSplitter.ByteOffsets | cmd/semantic-extract/text.go:80-83 | the running sums of the encoded widths |
| SceneSplitter.SplitWords | cmd/semantic-extract/text.go:54-60 | an oversized sentence becomes scenes of exactly maxWords words and a rest, in order, and joined with single spaces they are its words joined so |
| SceneSplitter.TakeSentence | cmd/semantic-extract/text.go:47-71 | one round of the loop keeps words, sizes and fitting sentences intact, the sizes greedy and the text that of the sentences |
| SceneSplitter.SplitIntoScenes | cmd/semantic-extract/text.go:33-74 | on any bytes: panics exactly when the sentence cuts do; otherwise the scenes have the words of the sentences in order, 1 to maxWords each, the word counts of greedy packing (an oversized sentence in full chunks of its own), a fitting sentence stays in one scene, and joined with single spaces scenes and sentences are one text; with clean cuts these are the words and sentences of the text |
| SceneSplitter.GreedyIsBest | cmd/semantic-extract/text.go:48-71 | and no other way to put the sentences into consecutive runs of at most maxWords words, oversized ones apart, needs fewer scenes |
| Backoff.NormIsSound | pkg/retry/options.go:164-212 | all needed fields are set, idempotently; without predicate or registry nothing is retryable, with a registry exactly what it says |
| Backoff.NormKeeps | pkg/retry/options.go:164-212 | chosen values stay; the defaults are 3 attempts, 1 s, 30 s, factor 2 and a jitter of 0.25 unless disabled |
| Backoff.CappedDelay | pkg/retry/options.go:280-290 | the early-exit loop gives MaxBackoff if some product up to the attempt exceeds it, else the product |
| Backoff.GrowingCap | pkg/retry/options.go:238-290 | for a factor of at least 1 that is min(floor(Initial * Factor^n), MaxBackoff) |
| Backoff.DocumentedExactly | pkg/retry/options.go:238-290 | for any positive factor it is so if and only if the factor is at least 1, or n is 0, or the first product is within the cap, or the n-th is not below it |
| Backoff.ShrinkingDelayIsStuck | pkg/retry/options.go:281-287 | a shrinking delay that starts over the cap stays at the cap |
| Backoff.Fraction | pkg/retry/options.go:303-312 | the jitter fraction is clamped to [0, 1] |
| Backoff.FractionExactly | pkg/retry/options.go:303-312 | the fraction asked for when it is one, 1 above, 0 below or when disabled |
| Backoff.SpreadIsEven | pkg/retry/options.go:313-317 | the draw moves the delay evenly from (1-f) to (1+f) times itself |
| Backoff.BackoffFor | pkg/retry/options.go:279-318 | the capped delay spread by the draw, truncated |
| Backoff.JitterEnvelope | pkg/retry/options.go:313-317 | the result lies between (1-f) and (1+f) times the capped delay, is non-negative, and equals it without jitter |
| RetryLoop.DoWithValue | pkg/retry/retry.go:184-257 | at most as many calls as asked for, three when nothing is, and the reply, the calls and the sleeps are those of exactly one of five endings |
| RetryLoop.StopsAtOnce | pkg/retry/retry.go:194-213 | nothing is called after a success or a non-retryable error, and that outcome is returned |
| RetryLoop.SleepsLongEnough | pkg/retry/retry.go:215-253 | between two calls it sleeps once: the backoff, or the Retry-After hint of the error before when that is longer |
| RetryLoop.GivesUpOnlyFor | pkg/retry/retry.go:185-257 | attempts are left unused only after a success, an error that must not be retried, or a cancelled context |
| RetryLoop.RepliesLast | pkg/retry/retry.go:185-257 | the reply is that of the last call, or the error of the context when that stopped the loop |
| RetryLoop.HintOrderExactly | pkg/retry/retry.go:135-137 | whatever is drawn, the sleep is the documented one (larger of backoff and hint, then jitter) if and only if there is no jitter or the hint is no longer than the shortest jittered backoff |
| RetryLoop.FailClosed | pkg/retry/retry.go:185-213 | with neither predicate nor registry there is at most one call and no sleep |
| RetryLoop.EndsOneWay | pkg/retry/retry.go:184-257 | the ending, the number of calls and the reply are determined by the world |

## Left out

- Floating point: rounding and overflow of float64 costs, tokens and delays, NaN costs, and the conversion of delays beyond the int64 range.
- Go runtime objects: real clocks, timers, goroutine scheduling, contexts and channels, beyond the events above; fairness of mutexes, so no waiting time for a keyed lock.
- Nil receivers and nil contexts, and panics at construction (a fair semaphore of capacity below one); a slot released twice by its caller.
- Diagnostics that only read a field: Cap, InFlight, Waiting, Snapshot, the panic reporter and its counter.
- FairSemaphores.FairSemaphore.Enter: the blocking select after it is part of the run model (FairRuns), not of the class.
- LaneReport.AnalyzeLanes: phase sums, frame means, quantiles, rates and the top-batch table of a report; they would add only sums and sorting.
- ReportBound.LptBelowPrintedBound: sufficient only, for two lanes or more and totals above m + 1 times the largest job, where the largest LPT makespan that given totals allow is not determined, except at km + 1 times that job (ToleranceIsExact).
- ProviderBudget.Registry.Acquire: other callers using the lane in between; the rate bound and grant soundness hold for every interleaving.
- RateGuarantees.RateBound: fixed configuration only; a Configure in mid-run changes the rate being bounded.
- Fingerprinters.Hasher.Update: lengths of 2^64 bytes and more, where to_bytes raises; the injectivity theorems require lengths that fit.
- Fingerprint.PrintInjective: contents are those _read_bytes returns, so an unreadable file and a file that literally holds the marker are the same input.
- ComponentTree: a package pattern that reduces to an empty directory is skipped as in the code and is no input; planned commands are an uninterpreted function of component and mode (build_commands), and the timeouts are the text str() prints.
- os.walk, symbolic links, json and SHA-256 themselves: a directory is the list of its regular files in walk order; detect_toolchain and its subprocesses.
- VerificationCache.Cache.ProcessComponent: dry runs, blocked components, command execution, sharing of command results and timeouts; the gate is a function of the fingerprinted inputs. cache_summary and its formatting are sums over results.
- CachePaths.EntryPathsExactly: ".." segments, links and case-insensitive file systems, by which different paths can be one file.
- RegistryOrder.ResolveComponents: the field checks of load_registry.
- WorkerPool: an empty item list, which both functions return at once; logging of later errors.
- SentenceSplitter.SplitSentences: sentences are compared as runes, so which byte a replacement rune stands for is not kept; trimming and splitting look at the decoded slice.
- SceneSplitter.SplitIntoScenes: maxWords below one, on which the loop would not end; the command refuses fewer than 20.
- RetryLoop.DoWithValue: the OnRetry callback, the error wrapper search behind the Retry-After hint, and Do, which only wraps it.
- Everything else of the repository: HTTP clients, media work, SQLite, markdown reports, command lines.
