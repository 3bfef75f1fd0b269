# Browser Hive: verified model

A Dafny model of the stateful parts of Browser Hive, a fleet of browser workers behind one
coordinator, with proofs of the properties its design depends on.

`dafny verify dfyconfig.toml` checks everything.

## What is modelled

| module | part of the system |
|---|---|
| `Lifecycle` | when a context is used up, and what `ScopeConfig::validate` guarantees the pool |
| `PoolSpec` | which context a request is given: ranking, the acquisition decision, the statistics |
| `PoolProtocol` | the pool as a transition system: every critical section, compare-and-swap, dropped future and monitor phase is one step, in all three session modes |
| `PoolInvariant` | what every step of it keeps |
| `PoolSafety` | what that invariant means: capacity, ownership, no leaked slot, honest statistics |
| `PoolMonitor` | what the monitor's tick does to contexts that requests take or give back while it runs |
| `PoolQuota` | request quota, age limit and balance over whole runs |
| `PoolLimits` | the pool's decisions in the configured limits themselves, strategy by strategy, and what the statistics count |
| `PoolProgress` | what the pool can always still do: requests end, slots come back, scans settle |
| `BrowserPool` | the pool as mutable objects; each method refines one step of `PoolProtocol` |
| `OriginQuarantine` | the bounded map of refused origins against the unbounded one |
| `InFlight` | the coordinator's in-flight bookkeeping against the real free slots of the fleet |
| `Routing` | worker selection: maximum, order independence, fairness |
| `RetryLoop` | the attempts of one request, and their counts beside everyone else's |
| `PageLoad` | the page-load tracker against a declarative reading of the event trace |
| `PageVerdict` | its verdict in terms of the network events alone: what counts, how it is worded, how many there are |
| `Page`, `WaitStrategy`, `Challenge` | the polling waits, with a clock and a page whose answers are arbitrary |
| `HandOff` | the one-shot hand-off between a blocking browser call and its waiter |
| `Diagnostics`, `RateLimiter` | the repetition counter in log entries, and the limit on reports |
| `LaunchArgs` | merging Chromium's feature switches under last-switch-wins |
| `ProcessTree` | the process-tree search against reachability |
| `Sequences`, `Wrappers` | sorting, filtering, trimming; optional values and results |

How the pieces fit: `BrowserPool.Pool.Shows(s)` says that the fields of the object are those of a
state `s` that some run of the protocol reaches. Every method starts from such a state and ends in
the one its step leads to, so the whole-run theorems of `PoolSafety`,
`PoolMonitor` and `PoolQuota` hold of the object. In the same way the methods of the trackers, buffers and maps compute a function of their
old state, and the theorems are about runs of that function.

What the environment decides is arbitrary: when futures are dropped, how long a call takes, what the
page answers, in what order a hash map is walked (the earliest quarantine, the loads of a verdict).

## Where the code and its documentation differ

The model follows the code. Each of these is stated by the member named, and where a condition restores
the property, that is proved beside it.

- The in-flight correction is said to hold in every session mode. A request that ends by starting a
  session gives its count back but not its slot (`InFlight.StartedSessionsOverstate`), and a pod that
  was overfilled for that reason stays misread after its next snapshot
  (`InFlight.SnapshotHidesTheOverfill`). The exact condition is `InFlight.CorrectionIsExactIff`.
- A dropped waiter is said to hand a late value to the clean-up. It does unless the value was already
  in the channel (`HandOff.DroppedWaiterLosesIff`).
- A context is said to serve exactly `max_requests`. Two requests that list candidates together under
  the shared lock overshoot (`PoolQuota.OvershootIsReached`); a stale compare-and-swap is the only way
  to (`PoolQuota.RunStaysWithinQuotaIff`).
- In Dedicated the monitor removes a context that a returning client claimed while the tick was under
  way (`PoolMonitor.SweepCanRemoveAHeldContext`, exactly when: `PoolMonitor.HeldContextLosesItsPlaceIff`).
- The monitor is said never to see a context as idle while its stamp is old. It reads the stamp before
  the flag, so a request that ends in between is recycled as idle (`PoolMonitor.FreshContextIsRecycled`;
  exactly when: `PoolMonitor.FreshIsRecycledIff`).
- A text that itself ends like a repetition count is not collapsed and miscounts its neighbour
  (`Diagnostics.RepetitionIsCollapsedIff`, `Diagnostics.MarkedTextChangesTheCount`).
- The challenge and the strategy share one wait budget, but time spent on a JSON document that is then
  replaced by another is not taken from it: the request waits longer, or is cut by the hard timeout once
  that time reaches its margin (`Challenge.ReplacedJsonIsNotCharged`).
- With a wait selector the hard timeout is shorter than the budget `network_idle` allows itself, and cuts
  requests below 30 s on a page that never settles (`Challenge.ShortTimeoutWithSelectorIsCut`). The
  repository lists this as open.
- The `timeout` strategy sleeps in whole intervals, past its deadline unless that is a multiple of one
  (`WaitStrategy.UndisturbedTimeout`), and its clock starts only after the navigation it waits for first.

## Model

| member | source | states |
|---|---|---|
| `PoolSpec.BestIsBest` | crates/worker/src/browser_pool.rs:102-166 | the claimed candidate is the first of the smallest rank, and there is one whenever any slot has a rank |
| `PoolSpec.DecideIsSound` | crates/worker/src/browser_pool.rs:1477-1592 | every grant names a slot that may be given (idle, not used up; the oldest used-up one when replacing; a reservation only below the limit), and a request is refused exactly when the pool is full and no idle context could serve it |
| `PoolSpec.ReuseComesFirst` | crates/worker/src/browser_pool.rs:119-166 | while an idle context is eligible for the origin, the request gets one with the fewest requests, the earliest of them, never a new slot |
| `PoolSpec.QuarantineFallbackIsLastResort` | crates/worker/src/browser_pool.rs:175-192 | a context quarantined for the origin is handed out only when the pool is full and every idle context is quarantined and not used up, and then the one that recovers soonest |
| `PoolSpec.ReclaimKeepsTheBusy` | crates/worker/src/browser_pool.rs:76-89 | reclaiming keeps exactly the busy contexts, and their number is the busy count |
| `PoolLimits.UsedUpIff` | crates/common/src/config.rs:499-507 | a context is used up exactly when it is past max_lifetime under TimeBasedOnly, has served max_requests under RequestBasedOnly, or either under Hybrid |
| `PoolLimits.UsableContextIsClaimed` | crates/worker/src/browser_pool.rs:110-166 | while some idle context is neither past the limits of its strategy nor refused by the origin, a request without overrides gets one of those, with the fewest requests; no context leaves the pool and none is built |
| `PoolLimits.ScanListsTheUsable` | crates/worker/src/browser_pool.rs:119-135 | a scan lists exactly these contexts, each once, fewest requests first |
| `PoolLimits.OnlyWornContextsAreReplaced` | crates/worker/src/browser_pool.rs:196-214 | an acquisition takes out only an idle context that is past the limits of its strategy, the oldest of those, from a full pool, and, without overrides, only when none is usable |
| `PoolLimits.RefusedContextIsLastResort` | crates/worker/src/browser_pool.rs:168-194 | a context the origin still refuses goes out only from a full pool whose idle contexts are all refused and within their limits, and it is the one refused for the shortest time |
| `PoolLimits.TickFindsExpiredIff` | crates/worker/src/browser_pool.rs:1376-1394 | the monitor finds a context expired exactly when it is past the limits of its strategy or, under Hybrid only, idle or large beyond its own; in Dedicated only an idle one |
| `PoolLimits.SessionEndsIff` | crates/worker/src/browser_pool.rs:1417-1440 | a returning client's session ends exactly when its context is past those limits, idle and in the pool |
| `PoolLimits.AlwaysNewContextLeaves` | crates/worker/src/service.rs:446-477 | an AlwaysNew context leaves the pool after its request: its end queues the removal, and the removal takes it out |
| `PoolLimits.StatsCountWhatIsThere` | crates/worker/src/browser_pool.rs:1777-1828 | the totals are the contexts in the pool, the configured slots, the busy ones plus the builds, the claimed ones, and what these leave available |
| `PoolLimits.TotalRequestsAddUp` | crates/worker/src/browser_pool.rs:1813-1816 | the request total is the sum over the contexts |
| `PoolProgress.ScanIsReuse` | crates/worker/src/browser_pool.rs:157-166 | a scan and its first compare-and-swap with nothing in between are the atomic reuse |
| `PoolProgress.ScanTakesTheFirstIdle` | crates/worker/src/browser_pool.rs:157-166 | candidates that others took are passed over in order; the scan ends with the first idle one, and empty-handed only when none is |
| `PoolProgress.RecordedBlocksAreSeen` | crates/common/src/types.rs:124-163 | what a request records about its context is what later requests read off it |
| `PoolProgress.PoolCanAlwaysDrain` | crates/worker/src/browser_pool.rs:493-512 | from every reachable state the pool can drain: all requests gone, nothing reserved, every context idle, outside Dedicated every slot available |
| `PoolInvariant.StepKeepsInv` | crates/worker/src/browser_pool.rs:1477-1775 | every critical section, compare-and-swap, drop and monitor phase keeps capacity, exact reservations, and single ownership in all three modes |
| `PoolSafety.PoolIsSafeInEveryRun` | crates/worker/src/browser_pool.rs:493-512 | in every interleaving from an accepted scope: contexts plus reservations stay within the limit, the counter equals the live reservations, a context in the pool is busy exactly when it has an owner, and no two requests hold the same one |
| `PoolInvariant.NextIsReachable` | crates/worker/src/browser_pool.rs:1477-1775 | a step from a state of some run gives a state of some run: what the methods of the pool refine |
| `PoolSafety.OnlyTheOwnerRemoves` | crates/worker/src/browser_pool.rs:1740-1775 | outside Dedicated a held context leaves the pool only by its owner's removal or the recycler's own swap |
| `PoolMonitor.OnlyTheTickRemovesAHeldContext` | crates/worker/src/browser_pool.rs:1217-1231 | in Dedicated a held context leaves the pool by a step that is not its owner's removal exactly when the monitor's tick ends with that context on its list of expired ones |
| `PoolMonitor.RecordedIff` | crates/worker/src/browser_pool.rs:1217-1224 | the tick has a context on that list exactly when it looked at it in this tick and found it idle and expired |
| `PoolMonitor.HeldContextLosesItsPlaceIff` | crates/worker/src/browser_pool.rs:1217-1231 | in any run of a Dedicated pool, a held context is taken out of the pool by another's step if and only if the tick found it idle and expired, its request claimed it after that look, and the tick now ends |
| `PoolMonitor.SweepCanRemoveAHeldContext` | crates/worker/src/service.rs:2666-2671 | it happens in every Dedicated scope that allows a second request and lets sessions go idle before they are too old: from the start of the pool, a client returns in the last moment of its session's idle time, and ends up holding a context that is in no pool |
| `PoolMonitor.TakenIsExpiredUnlessStamped` | crates/worker/src/browser_pool.rs:1260-1270 | in any run, a context the Reusable tick takes is expired at that moment, unless a request stamped it after the tick looked at it |
| `PoolMonitor.FreshIsRecycledIff` | crates/worker/src/browser_pool.rs:1260-1270 | and within the idle time of that look it is not expired if and only if a request stamped it since and neither its age, its count nor its cache speaks against it |
| `PoolMonitor.FreshContextIsRecycled` | crates/worker/src/service.rs:390-405 | and that happens: a request that outlasts the idle time and ends between the tick's look and its claim leaves a context that is recycled as idle although its stamp was set that moment |
| `PoolSafety.RecyclerFindsItsSlot` | crates/worker/src/browser_pool.rs:1353-1364 | a claimed context is still in the pool when the recycler returns; the replacement takes its slot, idle |
| `PoolSafety.QuietPoolIsIdle` | crates/worker/src/service.rs:390-405 | no slot leaks: with no live request and no recycle in progress nothing is reserved, every context is idle, and outside Dedicated every slot is available |
| `PoolSafety.ReleasedContextIsNotIdle` | crates/worker/src/service.rs:348-405 | a context is never idle-expired at the moment its request ends, however long the request ran |
| `PoolSafety.StatsAreAdmission` | crates/worker/src/browser_pool.rs:1777-1828 | available_slots is positive exactly when the next acquisition is granted, in all three modes (Reusable: without routing overrides); active requests never exceed claimed slots, and the subtraction never saturates |
| `PoolSafety.CountryRequestsNeedASlot` | crates/worker/src/browser_pool.rs:1485-1564 | with routing overrides admission is exactly: a free slot, or an idle context that is used up |
| `PoolQuota.ClaimsAreNotUsedUp` | crates/worker/src/browser_pool.rs:93-166 | an existing context is claimed only while idle and, unless a listed candidate is won by compare-and-swap, only while not used up: below max_requests and not past max_lifetime where the strategy bounds them |
| `PoolQuota.UsedUpIsClaimedIff` | crates/worker/src/browser_pool.rs:102-166 | a request gets a used-up context if and only if a compare-and-swap wins one that was used up since it was listed |
| `PoolQuota.ScansListTheEligible` | crates/worker/src/browser_pool.rs:119-135 | a scan lists exactly the contexts that are idle, not used up and not quarantined for the origin at that moment |
| `PoolQuota.QuotaSurvivesIff` | crates/worker/src/browser_pool.rs:102-108 | every context stays within max(1, max_requests), those owed a request included, over a step if and only if the step is not a compare-and-swap that wins a context whose quota was used since it was listed |
| `PoolQuota.RunStaysWithinQuotaIff` | crates/common/src/config.rs:499-507 | and over a run, scans interleaved at will, if and only if it has no such compare-and-swap |
| `PoolQuota.QuotaInEveryRun` | crates/common/src/config.rs:499-507 | from the start of an accepted scope no context serves more than max(1, max_requests) requests in any run without such a compare-and-swap |
| `PoolQuota.RunServesWithinQuotaIff` | crates/common/src/config.rs:499-507 | the requests served alone stay within max(1, max_requests) throughout a run if and only if none is counted for a context that had used its quota when the request got it |
| `PoolQuota.OverdueWasWonStale` | crates/worker/src/browser_pool.rs:102-166 | and such a hold goes back to a stale compare-and-swap of the same request on the same context, earlier in the run |
| `PoolQuota.AtomicClaimsAreNeverStale` | crates/worker/src/browser_pool.rs:157-166 | runs whose every claim is one atomic step have none |
| `PoolQuota.ScansCanOvershootTheQuota` | crates/worker/src/browser_pool.rs:157-166 | two requests that list the last context together serve max_requests + 1 from it |
| `PoolQuota.OvershootIsReached` | crates/worker/src/browser_pool.rs:1485-1490 | and for every quota a run from the start of the pool gets there |
| `PoolQuota.ServeUsesTheLeastUsed` | crates/worker/src/browser_pool.rs:1485-1505 | whatever time it takes, one request adds one to a context with the fewest requests, stamps it with its end, and leaves every other context as it was |
| `PoolQuota.TrafficStaysBalanced` | crates/worker/src/browser_pool.rs:119-166 | with any waits between and within requests, counts that start within 1 of each other stay within 1 after any number of them, and their sum counts the requests |
| `BrowserPool.BrowserContext.TryClaim` | crates/worker/src/browser_pool.rs:102-108 | wins exactly when the context was idle, and then it is busy |
| `BrowserPool.BrowserContext.Release` | crates/worker/src/service.rs:390-405 | stamps the end of the request and clears the flag |
| `BrowserPool.LeastUsedCandidates` | crates/worker/src/browser_pool.rs:119-135 | the eligible contexts in stable order of request count |
| `BrowserPool.QuarantinedCandidates` | crates/worker/src/browser_pool.rs:175-189 | the idle, quarantined, not used-up contexts by the end of their quarantine |
| `BrowserPool.UsedUpCandidates` | crates/worker/src/browser_pool.rs:201-210 | the idle used-up contexts by age |
| `BrowserPool.ClaimFirst` | crates/worker/src/browser_pool.rs:157-166 | claims the first listed context that is still idle and touches no other |
| `BrowserPool.ClaimLeastUsedIdle` | crates/worker/src/browser_pool.rs:157-166 | claims the best-ranked eligible context, exactly when there is one |
| `BrowserPool.ClaimSoonestUnquarantined` | crates/worker/src/browser_pool.rs:175-194 | claims the quarantined context that recovers soonest, exactly when there is one |
| `BrowserPool.DecideLocked` | crates/worker/src/browser_pool.rs:1515-1592 | the write-locked section makes the specified decision and marks exactly the context it names |
| `BrowserPool.Pool.constructor` | crates/worker/src/browser_pool.rs:1001-1017 | a new pool, with the idle contexts a Reusable scope pre-creates, is a start of the protocol |
| `BrowserPool.Pool.TryReuse` | crates/worker/src/browser_pool.rs:1485-1490 | the optimistic lookup is the protocol's atomic reuse step |
| `BrowserPool.Pool.GetOrCreateLocked` | crates/worker/src/browser_pool.rs:1512-1592 | the write-locked section is the protocol's acquisition step; the replaced context is handed back to be released |
| `BrowserPool.Pool.ReclaimLeaked` | crates/worker/src/browser_pool.rs:76-89 | the vector keeps exactly its busy contexts in order; the others are handed back |
| `BrowserPool.Pool.CreateAlwaysNewLocked` | crates/worker/src/browser_pool.rs:1678-1715 | hands back exactly the idle contexts, then reserves exactly when the protocol grants |
| `BrowserPool.Pool.CreateDedicatedLocked` | crates/worker/src/browser_pool.rs:1637-1660 | reserves exactly when the protocol grants, and reuses nothing |
| `BrowserPool.Pool.AddBuilt` | crates/worker/src/browser_pool.rs:1610-1623 | the new context is busy before it is visible, and its reservation goes in the same section |
| `BrowserPool.Pool.DropReservation` | crates/worker/src/browser_pool.rs:499-512 | a build that ends any other way gives its slot back |
| `BrowserPool.Pool.DestroyContext` | crates/worker/src/browser_pool.rs:1740-1775 | removes every context of that id and no other, for the owner or for the task it left behind |
| `BrowserPool.Pool.EndSessionIfUsedUp` | crates/worker/src/browser_pool.rs:1417-1440 | ends the session exactly when its context is used up, in the pool and idle |
| `BrowserPool.Pool.ReclaimTick` | crates/worker/src/browser_pool.rs:1186-1205 | the AlwaysNew tick is the protocol's reclaim step, and hands back exactly the idle contexts |
| `BrowserPool.Pool.SweepExpired` | crates/worker/src/browser_pool.rs:1217-1252 | the Dedicated tick removes exactly the idle expired contexts |
| `BrowserPool.Pool.ClaimExpired` | crates/worker/src/browser_pool.rs:1260-1270 | the Reusable tick claims exactly the idle expired contexts and leaves them in place |
| `BrowserPool.Pool.SwapRecycled` | crates/worker/src/browser_pool.rs:1353-1364 | the swap replaces the claimed context by its identity, in its slot |
| `BrowserPool.Pool.GetStats` | crates/worker/src/browser_pool.rs:1777-1828 | the numbers of the specification, computed by one pass; claimed and available slots add up to the limit |
| `BrowserPool.Pool.CountRequest` | crates/worker/src/service.rs:1118-1122 | the owner's count goes up by one, and the state follows the protocol |
| `BrowserPool.Pool.EndRequest` | crates/worker/src/service.rs:390-405 | the guard's drop is the protocol's release step |
| `BrowserPool.Pool.AdoptContinuation` | crates/worker/src/service.rs:376-387 | a session continuation wins exactly when the protocol lets it |
| `OriginQuarantine.BlockedOrigins.QuarantineOrigin` | crates/common/src/types.rs:124-147 | records the deadline, making room as allowed: expired entries first, then one that ends first |
| `OriginQuarantine.BlockedOrigins.QuarantinedUntil` | crates/common/src/types.rs:153-163 | answers the live deadline and prunes an expired one |
| `OriginQuarantine.EvictedIsEarliestOfAFullMap` | crates/common/src/types.rs:132-144 | a live entry is evicted only from a map full of live entries, and it is one that ends first |
| `OriginQuarantine.EvictionHappensIff` | crates/common/src/types.rs:132-144 | exactly when the origin is new and the map is full of live entries |
| `OriginQuarantine.MapStaysBounded` | crates/common/src/types.rs:96-147 | never more than 32 entries, in any run |
| `OriginQuarantine.RunAgrees` | crates/common/src/types.rs:124-163 | after any blocks and reads with at most 32 live origins, the map holds every live entry of the unbounded map and nothing else |
| `OriginQuarantine.ReadsAnswerAsUnbounded` | crates/common/src/types.rs:153-163 | and every read answers as the unbounded map would |
| `OriginQuarantine.ReadsAnswerTheLastBlock` | crates/common/src/types.rs:124-163 | in terms of the events: it answers the end of the origin's last block while that lies ahead, and nothing otherwise |
| `OriginQuarantine.OneTooManyForgets` | crates/common/src/types.rs:124-147 | beyond 32 live origins some origin the unbounded map still refuses is forgotten |
| `InFlight.InFlightTracker.Start` | crates/coordinator/src/in_flight.rs:53-59 | one more request counted against the pod |
| `InFlight.InFlightTracker.Finish` | crates/coordinator/src/in_flight.rs:66-75 | one less; an entry that reaches zero is dropped |
| `InFlight.InFlightTracker.FreeSlots` | crates/coordinator/src/in_flight.rs:62-64 | the corrected number: available plus baseline minus now, never negative |
| `InFlight.NoRequestsNoEntries` | crates/coordinator/src/in_flight.rs:66-75 | when no request is in flight the map is empty |
| `InFlight.CorrectionIsTruthPlusDrift` | crates/coordinator/src/in_flight.rs:102-104 | after any trace of dispatches, completions and snapshots the corrected number is the pod's real free slots plus its drift: what other holdings have grown by since the snapshot, and what the pod was overfilled by at it, which its own figure cannot show |
| `InFlight.CorrectionIsExactIff` | crates/coordinator/src/in_flight.rs:9-21 | so it is the real number if and only if there is no drift, or the pod is full and the drift does not make up for it |
| `InFlight.StartedSessionsOverstate` | crates/coordinator/src/in_flight.rs:21-23 | a request that ends by starting a session leaves the pod one slot freer on paper than it is |
| `InFlight.SnapshotHidesTheOverfill` | crates/coordinator/src/worker_discovery.rs:246-257 | the pod is then sent one request too many, a snapshot of it stores 0 for -1, and the number is one too high again although nothing else was held or released since |
| `InFlight.OwnRequestsAreSeenAtOnce` | crates/coordinator/src/in_flight.rs:53-104 | a dispatch takes a slot from the real and from the corrected number and its end gives it back; other holdings move the real one only |
| `InFlight.NoPodIsEverOverfilled` | crates/coordinator/src/in_flight.rs:42-104 | dispatching only on a positive corrected number, or on the free slot of a pod that was asked, never sends a pod more than it can hold, at any point of any run |
| `Routing.PickIsAMaximum` | crates/coordinator/src/service.rs:281-312 | a candidate with the most free slots, at the number it was ranked by; none only when there is no candidate |
| `Routing.SelectionIsSound` | crates/coordinator/src/service.rs:246-273 | healthy pods first, any pod only when none is healthy, and a maximum among those |
| `Routing.PickIgnoresTheOrder` | crates/coordinator/src/service.rs:281-312 | with distinct pod names every permutation of the candidates gives the same pick |
| `Routing.NameBeforeIff` | crates/coordinator/src/service.rs:309 | names are ordered by their first difference, a shorter one first |
| `Routing.PickIsTheTurn` | crates/coordinator/src/service.rs:304-312 | of the n pods tied on the most free slots, the pick is the one with (rotation mod n) tied names before its own |
| `Routing.FairIff` | crates/coordinator/src/service.rs:310-311 | n consecutive counter values give each of n pods exactly one turn if and only if the counter does not wrap among them or n divides 2^64 |
| `Routing.EveryTiedPodServesOnce` | crates/coordinator/src/service.rs:289-312 | over an unchanged tie, n consecutive picks serve each tied pod exactly once |
| `Routing.RefusalMeansFull` | crates/coordinator/src/service.rs:824-860 | after any trace, when the best corrected number is 0 no eligible pod has more free slots than its negative drift, so without drift none has any; and without drift the number itself is real |
| `RetryLoop.ChooseRetry` | crates/coordinator/src/service.rs:1031-1113 | another attempt exactly when 10 s remain, an untried healthy pod has a free slot, and the answer was 5006 with fewer than three attempts so far, or, without a session, 5008 or none (unreachable) with fewer than two; it goes to a best such pod |
| `RetryLoop.Attempt` | crates/coordinator/src/service.rs:941-951 | an attempt is counted against its pod exactly while it runs |
| `RetryLoop.ServeAttempts` | crates/coordinator/src/service.rs:930-1126 | one to three attempts on pairwise distinct pods, each justified by the one before and the last by there being none; the tracker is as it was |
| `RetryLoop.RetriesAreHonest` | crates/coordinator/src/service.rs:158-188 | every retry has 10 s left; a session is sent again only after TERMINATING, and so is anything for the third time |
| `RetryLoop.NoRetryIsMissed` | crates/coordinator/src/service.rs:1031-1113 | and the attempts end only where they must: no time, a final outcome, the attempts used up, or no healthy pod left with a free slot |
| `RetryLoop.PlansAre` | crates/coordinator/src/service.rs:158-188 | the plan of each outcome: its reason and its number of attempts, or none |
| `RetryLoop.OneCountAtATime` | crates/coordinator/src/in_flight.rs:78-96 | beside any other requests, at most one count is live for the request, against its current pod, whether an attempt ends with or without a session |
| `RetryLoop.EveryExitRestoresTheCounts` | crates/coordinator/src/in_flight.rs:92-96 | afterwards none is, and the tracker counts the others exactly |
| `RetryLoop.RouteIsSound` | crates/coordinator/src/service.rs:824-903 | a new request is refused exactly when no eligible pod shows a free slot and the picked worker confirms it; otherwise it goes to a maximum |
| `PageLoad.PageLoadTracker.WillBeSent` | crates/worker/src/page_load.rs:149-196 | a send is the specified transition: main documents, redirects, new loads, the cap |
| `PageLoad.PageLoadTracker.Response` | crates/worker/src/page_load.rs:207-214 | headers are kept, 403 and 429 become the outcome |
| `PageLoad.PageLoadTracker.Finished` | crates/worker/src/page_load.rs:217-226 | a load with nothing wrong is forgotten, any other is kept |
| `PageLoad.PageLoadTracker.Failed` | crates/worker/src/page_load.rs:229-249 | the failure becomes the outcome |
| `PageLoad.PageLoadTracker.Verdict` | crates/worker/src/page_load.rs:259-287 | the document's marker first, then every marker load once by start time, the first five spelt out and all counted, whatever order the map is walked in |
| `PageLoad.LoadStep` | crates/worker/src/page_load.rs:149-249 | each event moves a load as the event sequence itself says |
| `PageLoad.ReadingIsUnique` | crates/worker/src/page_load.rs:149-249 | the events leave no choice of what a load is |
| `PageLoad.TrackerReadsTheTrace` | crates/worker/src/page_load.rs:149-249 | within the cap the tracker holds exactly the loads that the events since the last replaced page leave open, with the first send's start, the last send's address and the last thing that went wrong |
| `PageLoad.CapIsTheCondition` | crates/worker/src/page_load.rs:179-181 | a new load is read as the events say if and only if the cap is not reached |
| `PageLoad.PageStartIsTheLastReplacement` | crates/worker/src/page_load.rs:156-171 | the judged page starts at the last main document with another request id |
| `PageLoad.RunKnowsTheDocument` | crates/worker/src/page_load.rs:156-174 | the main document is pending exactly when its last send has no end after it |
| `PageLoad.RunKnowsTheLoadEvent` | crates/worker/src/page_load.rs:167-202 | the load event counts exactly when no main document with another id came after it |
| `PageLoad.ReplacementForgets` | crates/worker/src/page_load.rs:156-171 | after a replaced page nothing depends on what came before |
| `PageVerdict.VerdictTellsTheTrace` | crates/worker/src/page_load.rs:259-328 | the whole verdict read off the events: the document's marker, then one line for every load of the page that counts, oldest first, worded by its events; the first five spelt out, all counted |
| `PageVerdict.MarkerOfTheTrace` | crates/worker/src/page_load.rs:290-328 | an open load is a marker exactly when its events make it one: first sent as a script or stylesheet, or as XHR or fetch last sent to the same site, and last gone wrong with 403, 429 or a qualifying failure, or never and ten seconds old |
| `PageVerdict.VerdictCountsTheTrace` | crates/worker/src/page_load.rs:259-328 | the verdict's number is the number of such loads, plus one for the document |
| `PageVerdict.DocumentMarkerIsRight` | crates/worker/src/page_load.rs:272-280 | the document's marker is there exactly when its last send has no end, or its load event never fired, in these words |
| `PageVerdict.MarkerIff` | crates/worker/src/page_load.rs:290-328 | one load: an asset or same-site data that was refused with 403 or 429, has been pending ten seconds, or failed with one of twelve named errors or CORS without being cancelled, aborted or blocked by the worker itself |
| `PageVerdict.LineIsWorded` | crates/worker/src/page_load.rs:266-267 | its line is its type, the reason its events give, and its last address without query and fragment, cut at 120 characters |
| `PageVerdict.MarkersOnlyGrow` | crates/worker/src/page_load.rs:290-303 | with no new events, a later verdict only adds markers |
| `Page.FreshMeans` | crates/common/src/wait_strategy.rs:617-630 | the freshness used below: a negative look with neither a wait nor another look after it |
| `WaitStrategy.FinalSelectorVerdict` | crates/common/src/wait_strategy.rs:87-99 | out of budget, the wait selector decides by one more look; without one there is nothing to wait for |
| `WaitStrategy.AwaitIdle` | crates/common/src/wait_strategy.rs:421-497 | phase 1 ends with a quiet network, or with a verdict by its deadline plus a few calls; it times out no earlier; a page that the origin refuses ends it in its first round |
| `WaitStrategy.AwaitReady` | crates/common/src/wait_strategy.rs:499-615 | phase 1.5 waits in the page whenever 100 ms are left, for at most 30 s and within the budget |
| `WaitStrategy.AwaitSelector` | crates/common/src/wait_strategy.rs:660-747 | phase 2 ends with a skip, a hit or a final miss, by the deadline plus a few calls; a miss only after the requested time or the whole budget |
| `WaitStrategy.NetworkIdle` | crates/common/src/wait_strategy.rs:378-753 | skip is reported exactly when it was seen; Success and WaitSelectorNotFound only on a fresh miss of the skip selector; a miss only on a fresh look; Success on a hit, on a status of 403 or 429 or, without a wait selector, after the network went quiet and the document had its chance to finish; once a status read shows 403 or 429 the answer is Success, and nothing is looked at or waited for after it; a miss or a timeout only when the budget asked for is used up; all within the total budget plus six calls, the time already spent included |
| `WaitStrategy.Timeout` | crates/common/src/wait_strategy.rs:833-921 | with both selectors, skip is reported exactly when some poll saw it, any other answer comes only when the time is up, and then Success exactly when the wait selector was ever seen; undisturbed and without selectors it ends exactly at the first whole poll interval not before the deadline |
| `WaitStrategy.SleepsOvershootIff` | crates/common/src/wait_strategy.rs:899-916 | whole intervals overshoot the deadline if and only if what was left is no multiple of the interval, and by less than one |
| `WaitStrategy.UndisturbedTimeout` | crates/common/src/wait_strategy.rs:833-921 | on a page that disturbs nothing the wait is the first multiple of 500 ms not below the timeout, which is 40 s when none or more is asked for |
| `WaitStrategy.RestIsWhatIsLeft` | crates/common/src/wait_strategy.rs:265-283 | a strategy without a clock of its own is left max(1, effective - spent) and is never handed 0 |
| `Challenge.WaitOutChallenge` | crates/common/src/challenge.rs:175-237 | the outcome is what the observed documents say, none is looked past, and the window is kept |
| `Challenge.WaitForJsonBody` | crates/common/src/challenge.rs:244-266 | true exactly for a JSON document, loaded or out of budget; time passes only if the first document seen was JSON still loading |
| `Challenge.WaitTask` | crates/worker/src/service.rs:1911-2003 | the blocking task: a challenge is looked for exactly where the scope knows some and the request grants time, its outcome is what was seen and its time is charged; challenge, JSON and network_idle end within one budget plus seven calls plus the time waited for a JSON body, which is positive exactly when the first document seen was JSON still loading and budget was left; an idle timeout comes no earlier than all of these; a page that never settles takes the whole budget |
| `Challenge.AwaitPage` | crates/worker/src/service.rs:2006-2045 | no request outlives its timeout by more than 10 s and none is cut before; none is cut whose budget, JSON wait and seven calls fit below that; on a page that never settles it is cut whenever the strategy's budget is larger; and where such a page replaces a loading JSON document the answer and its time are given exactly |
| `Challenge.ShortTimeoutWithSelectorIsCut` | TODO.md:36-46 | with a wait selector and network_idle, on a page that never settles, every request below 30 s is cut at its timeout plus 10 s, and from 30 s on (a few calls aside) none is |
| `Challenge.ReplacedJsonIsNotCharged` | crates/common/src/challenge.rs:244-266 | where a page that never settles replaces a loading JSON document, the request waits its timeout and the JSON time on top of it if and only if that time is below the 10 s margin (the tie decided by the race), and is cut otherwise |
| `HandOff.StepConserves` | crates/worker/src/cdp_call.rs:107-148 | in every step the created value is in exactly one place: with the thread, in the channel, returned, cleaned up or lost |
| `HandOff.ExactlyOnce` | crates/worker/src/cdp_call.rs:107-148 | when the waiter runs to completion, a created value is returned or cleaned up, never both and never neither, and returned exactly when the caller got it |
| `HandOff.DroppedWaiterLosesIff` | crates/worker/src/cdp_call.rs:122-127 | a dropped waiter hands the value to the clean-up if and only if it had not been sent by then; otherwise it is lost |
| `HandOff.ToldWhatHappened` | crates/worker/src/cdp_call.rs:129-148 | on the steps of every possible run: Panicked is told exactly when the call panicked and this was noticed before any timeout; TimedOut exactly when the timeout fired, the last look was made and nothing was sent before the channel closed; an answer exactly when it was the call's, sent by then and looked for |
| `HandOff.WokenIff` | crates/worker/src/cdp_call.rs:129-135 | a waiter is woken exactly when the answer was sent or never will be |
| `HandOff.LateAnswers` | crates/worker/src/cdp_call.rs:136-147 | sent before the channel closes, even after the timeout, an answer is returned; sent after that, it is cleaned up and the timeout is told |
| `HandOff.FinishedRunHandsOver` | crates/worker/src/cdp_call.rs:107-148 | a run that cannot go on has ended on both sides, and what was created was returned or cleaned up once, unless a dropped wait lost it |
| `HandOff.EveryRunEnds` | crates/worker/src/cdp_call.rs:129-148 | no run has more steps than the two sides have left |
| `Diagnostics.CountedRoundTrip` | crates/worker/src/diagnostics.rs:135-149 | the body and the count are read back from the printed form, for every text and every count |
| `Diagnostics.PlainTextIff` | crates/worker/src/diagnostics.rs:135-149 | a text is read back as itself if and only if it does not look like a count |
| `Diagnostics.CutTextIsPlain` | crates/worker/src/diagnostics.rs:152-159 | a truncated text never looks like one, and its length is fixed |
| `Diagnostics.MarkerIsRead` | crates/worker/src/diagnostics.rs:143-149 | what stands in the marker counts if it is a number below 2^64, with or without a plus sign, and as one otherwise |
| `Diagnostics.EntryIsTheStart` | crates/worker/src/diagnostics.rs:152-159 | an entry is the text without the white space around it, or its first 500 characters and the mark |
| `Diagnostics.DiagnosticsBuffer.Push` | crates/worker/src/diagnostics.rs:101-124 | one category moves as specified, the others stay |
| `Diagnostics.TallyTellsTheTruth` | crates/worker/src/diagnostics.rs:101-124 | a tally holds the first distinct values in order of appearance, each with its exact number of pushes, and the counts plus dropped make up all pushes |
| `Diagnostics.AppendEncodes` | crates/worker/src/diagnostics.rs:101-124 | the text encoding refines the tally, one push at a time |
| `Diagnostics.CategoryTellsTheTruth` | crates/worker/src/diagnostics.rs:101-124 | so after any pushes of plain texts the category, read back, is that tally, within the cap |
| `Diagnostics.RepetitionIsCollapsedIff` | crates/worker/src/diagnostics.rs:109-115 | a text pushed twice is kept once if and only if it does not look like a count |
| `Diagnostics.MarkedTextChangesTheCount` | crates/worker/src/diagnostics.rs:109-115 | a text that looks like the n-th repetition of the next one turns two pushes into n + 1, modulo 2^64 |
| `Diagnostics.BufferConservesPushes` | crates/worker/src/diagnostics.rs:101-131 | over all four categories, what is read back plus dropped equals the number of pushes |
| `RateLimiter.DiagnosticsLimiter.TryAcquire` | crates/worker/src/diagnostics.rs:191-209 | one call moves the window, the used and the suppressed count as specified |
| `RateLimiter.AtMostTwiceTheLimit` | crates/worker/src/diagnostics.rs:191-209 | no half-open sixty seconds see more than twice the limit |
| `RateLimiter.TwiceTheLimitIsReached` | crates/worker/src/diagnostics.rs:197-200 | and that bound is reached, for every limit |
| `RateLimiter.SuppressedOnlyWhenFull` | crates/worker/src/diagnostics.rs:202-205 | a suppressed report comes after a full quota within the sixty seconds before it |
| `RateLimiter.SuppressedAreReported` | crates/worker/src/diagnostics.rs:202-208 | every suppressed report is reported once or still pending |
| `LaunchArgs.MergeDisableFeatures` | crates/worker/src/launch_args.rs:41-87 | the two loops compute the specified merge |
| `LaunchArgs.FeaturesParseBackIff` | crates/worker/src/launch_args.rs:20-23 | a feature list survives being written and read back if and only if every feature is trimmed, non-empty and comma-free |
| `LaunchArgs.FeaturesAreThePieces` | crates/worker/src/launch_args.rs:20-23 | a list names the features of its parts in order; a part without a comma is one feature, without the white space around it, unless that is all there is |
| `LaunchArgs.MergedIff` | crates/worker/src/launch_args.rs:49-86 | there is a merged switch exactly when an argument of the caller or an extra feature asks for one; then the library's own switches are ignored, and the caller's are never kept |
| `LaunchArgs.UnmergedIsUnchanged` | crates/worker/src/launch_args.rs:76-82 | without a switch to add the command line is what it was |
| `LaunchArgs.MergeKeepsEveryFeature` | crates/worker/src/launch_args.rs:41-87 | otherwise it holds exactly one switch, every other argument in its old order, and under last-switch-wins disables the ordered duplicate-free union of all sources, if and only if the extra features are well formed |
| `ProcessTree.Descendants` | crates/worker/src/browser_resources.rs:166-184 | each process reachable from the root exactly once, the root excluded, nothing else, for any list, cycles and duplicates included |
| `ProcessTree.ChildrenByParent` | crates/worker/src/browser_resources.rs:167-170 | the children map lists exactly the pairs |

## Left out

- Chromium, the DevTools protocol, gRPC, Kubernetes discovery, metrics, logging and environment
  parsing: a browser call is a step that answers, fails, stalls or is abandoned.
- Releasing a removed context inside Chrome: the model hands the removed contexts back and stops there.
- Browser death and pool replacement: one pool generation.
- Selection reads prune expired quarantine entries as they go. In the pool a quarantine is a read of
  the deadline map; the pruning is proved not to change any answer in `OriginQuarantine`.
- One clock reading per pool decision. The decision under the write lock is one step, although a busy
  flag can clear between its parts: a request refused at that moment might have been served.
- The monitor's look at one context is one step. In Dedicated the code reads the flag and the stamps one
  after the other.
- Recorded blocks enter the pool protocol as an arbitrary new deadline map of a held context.
- The monitor may look at the contexts of its tick in any order and more than once.
- `BrowserPool.Pool.GetStats`: without the running totals of contexts created and recycled, which nothing
  decides on.
- Session lookup and the session table of the coordinator: a session request is one with a fixed first pod.
- A discovery snapshot and a selection followed by its dispatch are single steps, and there is one
  coordinator, as the module itself requires.
- 64-bit counters other than the routing rotation, the reported count of a log entry and the parsed
  one: request counts, creation counts and the 32-bit suppressed count are unbounded.
- A worker that shuts down answers every waiting request at once: that third arm of the race is not modelled,
  nor is discarding the context of a request that is cut. The race is stated for the default strategy,
  `network_idle`.
- Host comparison: whether an address belongs to the judged site is a parameter of `PageLoad`, and
  challenge detection and the JSON content type are parameters of `Challenge`.
- Code between browser calls takes no time, and a clock can be set back by the time spent.
- Launch arguments that are not text are kept and never read as a switch, even if their bytes begin
  like one.
- The order in which the library launches its own defaults before the caller's arguments is taken as
  given; the library is not part of this model.
- `ProcessTree.Descendants`: the breadth-first order of its answer is not stated, since nothing uses it.
- Orphan reaping, request cancellation texts, metrics labels, wait-option merging, session id parsing
  and error-code tables: only easy members.
