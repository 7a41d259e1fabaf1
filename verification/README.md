# Mirage: verified models of the stateful and algorithmic core

Mirage is a censorship-resistant bridge with an adversary bench beside it. This project models the parts of it
whose correctness depends on whole runs, on every input, or on a fast form agreeing with a simple one, and proves
those properties in Dafny 4.11. `dafny verify dfyconfig.toml` checks everything.

| area | files | main results |
|---|---|---|
| flow distinguisher | `MannWhitney`, `Shuffle`, `FlowClassifier`, `FlowFeatures`, `Sorting` | the sort-and-mid-rank loop equals the pairwise AUC; the in-place shuffle reaches every order by exactly one choice sequence; the family-wise bar dominates every centred per-feature quantile, so a positive verdict margin beats the feature's own floor; the lag-1 feature lies strictly inside (-1, 1) |
| per-peer limiter | `RateLimit` | over every run the session counters equal the live guards, the table stays bounded and only idle entries are evicted; 60 times the accepted connections are at most perMinute·(60 + seconds); the session cap and the burst are exact |
| leak detector | `LeakDetector` | over any flood by one publisher at most one entry it is not the sole observer of is displaced; alerts are sound, stored observers are exact, the first correlation alerts |
| probe defence | `ProbeDetector`, `Gatekeeper` | the pruned and trimmed list decides as the full history does; a refusal has a local edge or a two-publisher quorum behind it, within 24 hours of its block; one publisher alone never causes a refusal; without evictions, refusal is exactly a block demanded by the raw failures and reports |
| claim log | `ClaimLog` | crash safety over every run of open, append, crash at any byte and reopen; after a failed append, whichever of its I/O calls failed, the exact condition under which the next append stays record-aligned, and what then loads |
| QUIC frames | `QuicFrames`, `CryptoStream` | frame parsing and RFC 9000 encoding are mutually inverse; reassembly gives a prefix of the stream, and the whole stream exactly when non-empty chunks tile it, in any frame order |
| cohort burn gossip | `ReplaySet`, `CohortReplay` | nothing is published before a local accept; a second accept, at the same or another bridge, needs an expiry or a stated gap; at most 100 admitted burns in any closed 60 s interval for every publisher that is not evicted, and a run in which an evicted one exceeds it |
| cells and CREATED flights | `Cell`, `CreatedFlight` | encode and decode are mutually inverse for any pad; any fragmentation, empty pieces included, carried over encoded cells is reassembled exactly |
| reactive censor | `ReactiveCensor` | after every observation the blocked set is a best response to the last `window` selections |
| TLS record framer | `RecordFramer` | the emitted sizes do not depend on how the stream was split into reads |

`Wrappers`, `Collections`, `Bytes`, `Sampling` and `Window` hold shared definitions.

## How the models are built

- An object that the code mutates is a class whose methods are proved against a step relation or function on an
  abstract state. Run-level theorems then speak about every sequence of states linked by that step relation.
- Each critical section under a lock is one atomic step; where an operation takes two locks in turn (detection and
  block list, quorum and block list, the two sweeps of the reaper) it is two steps with anything in between. A burn
  event may be delivered any time after its local insert, which covers a delayed publication, and the burn-rate table
  is touched by the one subscriber task only, so its check and the insert that follows are one step.
- Time is a parameter that does not go backwards. Monotonic instants count nanoseconds, so integer instants are all
  there are; Unix times count seconds.
- Hash-map iteration order, the 32-entry eviction samples and ties among minima are arbitrary choices: a theorem
  holds whichever entry was picked.
- Authenticated publishers are plain identifiers, addresses, tokens and tags are natural numbers.
- Sample values and rates are exact reals. Where the code uses wrapping or saturating arithmetic it is written out.

## Where the code and its documentation differ

The models follow the code.

- Leak detector: an observer that ages out while another joins in the same `record` raises no second alert, although
  the set of publishers changed; a `reap` in between makes it alert (`JoiningObserverAlertsIff`, `ReplacementIsSilent`).
- Claim log: realigning after a failed append truncates the file but keeps the writer's pending bytes. The next append
  is misaligned exactly when part of the refused record had landed and the realignment succeeded in full; if the seek
  after the truncation failed, the refused record comes back with its first bytes zeroed; in every other case it comes
  back whole (`AlignedAfterFailureIff`, `LoadedAfterFailure`, `MisalignedAfterPartialFlush`). A failed sync leaves the
  whole record in the file although the append reported an error (`SyncFailureKeepsRecord`). A header cut short by a
  crash is refused on the next open (`TornHeaderIsRefused`).
- Replay set: an entry past its expiry still refuses its token until it is evicted, while the lookup already reports
  it absent (`ExpiredEntryStillRefuses`).
- CRYPTO reassembly: frames that cover the stream are cut at the first overlap and after the first empty frame inside
  it (`OverlapTruncates`, `EmptyChunkTruncates`); `AssembledIsWholeIff` is the exact condition.
- Probe detector: a per-address cap below the threshold means no address is ever flagged
  (`CapBelowThresholdNeverFlags`).
- Burn rate limit: a publisher at its limit is admitted again exactly when the table is full and its entry is a stalest
  one at the time an unknown publisher arrives (`LimitForgottenIff`); 257 publishers are enough for 101 admitted burns
  within one second (`LimitExceeded`). `BurnRateBound` therefore speaks of a publisher that is not evicted.

## Model

| member | source | states |
|---|---|---|
| `MannWhitney.PairwiseCreditComplement` | crates/adversary/src/flow_classifier.rs:195-240 | the doubled pairwise credits of a over b and of b over a sum to 2·na·nb |
| `MannWhitney.AucComplement` | crates/adversary/src/flow_classifier.rs:195-240 | AUC(a, b) + AUC(b, a) = 1 for all samples, empty ones included |
| `MannWhitney.AucInUnitInterval` | crates/adversary/src/flow_classifier.rs:238-240 | the pairwise AUC is in [0, 1], so the final clamp never acts |
| `MannWhitney.FoldedIsSymmetric` | crates/adversary/src/flow_classifier.rs:545-567 | max(AUC, 1 - AUC) does not depend on class order and lies in [0.5, 1] |
| `MannWhitney.RankSumIdentity` | crates/adversary/src/flow_classifier.rs:205-239 | for any order of the pool the doubled rank sum of class a is na(na + 1) plus the pairwise credit |
| `MannWhitney.MidRankIsRank` | crates/adversary/src/flow_classifier.rs:222-237 | the mid-rank given to a span of ties in the sorted pool is the rank defined by counting smaller and equal values |
| `MannWhitney.EndOfSpan` | crates/adversary/src/flow_classifier.rs:226-229 | the inner scan ends exactly at the last pooled value equal to the first of the span |
| `MannWhitney.RankSumOfA` | crates/adversary/src/flow_classifier.rs:222-237 | the loop's rank sum is half the counting-defined doubled rank sum |
| `MannWhitney.RankFormIsPairwise` | crates/adversary/src/flow_classifier.rs:238-240 | the rank form of the statistic equals the pairwise AUC |
| `MannWhitney.PooledInOrder` | crates/adversary/src/flow_classifier.rs:217-220 | the pool is sorted and holds each tagged value of both samples once |
| `MannWhitney.SingleFeatureAuc` | crates/adversary/src/flow_classifier.rs:199-240 | the whole routine returns the pairwise AUC, one half when a sample is empty |
| `Shuffle.ShuffledByPermutes` | crates/adversary/src/flow_classifier.rs:366-371 | every round leaves a permutation of its input, whatever the draws |
| `Shuffle.FisherYatesInjective` | crates/adversary/src/flow_classifier.rs:367-371 | on distinct elements different choices give different orders |
| `Shuffle.FisherYatesReaches` | crates/adversary/src/flow_classifier.rs:367-371 | every rearrangement is produced by some choices |
| `Shuffle.EveryOrderOnce` | crates/adversary/src/flow_classifier.rs:367-371 | choice sequences and orders are in bijection, which is what makes each split equally likely |
| `Shuffle.DrawBelow` | crates/adversary/src/flow_classifier.rs:353-370 | the reduced draw is a valid position |
| `Shuffle.ShuffleInPlace` | crates/adversary/src/flow_classifier.rs:367-371 | the array afterwards is the Fisher-Yates image of the array before under the recorded choices, a permutation |
| `FlowClassifier.FeatureAccuracy` | crates/adversary/src/flow_classifier.rs:553-557 | a feature's accuracy is its folded AUC, in [0.5, 1] |
| `FlowClassifier.Measure` | crates/adversary/src/flow_classifier.rs:545-567 | the running best is the first feature of maximal accuracy, with that feature's accuracy and raw AUC |
| `FlowClassifier.MeasureIgnoresClassOrder` | crates/adversary/src/flow_classifier.rs:545-567 | swapping the classes keeps the best accuracy and feature and complements the AUC |
| `FlowClassifier.QuantileIndex` | crates/adversary/src/flow_classifier.rs:386-390 | the index is within one half of (n - 1)q, and in range |
| `FlowClassifier.QuantileByCount` | crates/adversary/src/flow_classifier.rs:386-390 | the quantile is a draw with at least (n - 1)q + 1/2 draws at most it and at least n - (n - 1)q - 1/2 at least it |
| `FlowClassifier.QuantileRises` | crates/adversary/src/flow_classifier.rs:386-390 | it rises with q, from the least draw at 0 to the greatest at 1 |
| `FlowClassifier.QuantileDominates` | crates/adversary/src/flow_classifier.rs:386-415 | pointwise domination of shifted draws implies domination of their quantiles |
| `Sorting.OrderStatisticByCount` | crates/adversary/src/flow_classifier.rs:386-390 | the k-th smallest value reaches x if and only if enough values do |
| `Sorting.OrderStatisticSplits` | crates/adversary/src/flow_classifier.rs:386-390 | the k-th of n in order has k + 1 elements at or below it and n - k at or above |
| `Sorting.OrderStatisticsDominate` | crates/adversary/src/flow_classifier.rs:386-412 | pointwise larger samples have pointwise larger order statistics |
| `Sorting.OrderStatisticShift` | crates/adversary/src/flow_classifier.rs:386-412 | shifting a sample shifts its order statistics |
| `FlowClassifier.Maxima` | crates/adversary/src/flow_classifier.rs:408-414 | each round's maximum is at least every feature's centred draw of that round, and is one of them |
| `FlowClassifier.FamilywiseDominates` | crates/adversary/src/flow_classifier.rs:386-420 | the family-wise bar is at least every per-feature floor less its median |
| `FlowClassifier.BarsByCount` | crates/adversary/src/flow_classifier.rs:386-420 | by counting draws: each centre is a median and each floor a q-quantile of the feature's draws, the bar a q-quantile of the rounds' maxima |
| `FlowClassifier.RelabellingUsesEachOnce` | crates/adversary/src/flow_classifier.rs:351-371 | an index permutation names each pooled flow exactly once |
| `FlowClassifier.RelabelledAccuracy` | crates/adversary/src/flow_classifier.rs:372-384 | one draw is the folded AUC of the first na relabelled flows against the rest |
| `FlowClassifier.PushDraws` | crates/adversary/src/flow_classifier.rs:372-384 | one round adds, to every feature, exactly the draw of that round's order |
| `FlowClassifier.Summarise` | crates/adversary/src/flow_classifier.rs:386-420 | floors and medians are the features' own quantiles and the bar is the quantile of the centred maxima |
| `FlowClassifier.PermutedDraws` | crates/adversary/src/flow_classifier.rs:351-385 | every round is a genuine relabelling, and each feature's draws are those of the recorded rounds, in order |
| `FlowClassifier.BuildNullModel` | crates/adversary/src/flow_classifier.rs:331-421 | every model built is calibrated: from `reps` genuine relabellings, or the pooled fallback when there is too little to permute |
| `FlowClassifier.Verdict` | crates/adversary/src/flow_classifier.rs:311-326 | the verdict names the first feature with the largest centred accuracy; the margin is positive if and only if some feature clears the bar, and then the winner beats its own floor |
| `FlowFeatures.DeviationsBalance` | crates/adversary/src/flow_classifier.rs:119-122 | the deviations the feature works on sum to zero |
| `FlowFeatures.MeanWithin` | crates/adversary/src/flow_classifier.rs:119-122 | the mean lies between the least and the greatest size |
| `FlowFeatures.Lag1IgnoresLevel` | crates/adversary/src/flow_classifier.rs:153-163 | a constant added to every size does not change the feature |
| `FlowFeatures.Lag1IsRatio` | crates/adversary/src/flow_classifier.rs:153-163 | it is the sum of neighbour products over the sum of squares, zero for a constant flow |
| `FlowFeatures.SlackIdentity` | crates/adversary/src/flow_classifier.rs:153-163 | twice the squares less or plus twice the neighbour products is a sum of squares |
| `FlowFeatures.SlackDefinite` | crates/adversary/src/flow_classifier.rs:153-163 | that sum vanishes only when every deviation is zero |
| `FlowFeatures.NeighboursBelowSquares` | crates/adversary/src/flow_classifier.rs:153-163 | the neighbour sum is strictly below the square sum in absolute value |
| `FlowFeatures.Lag1WithinUnit` | crates/adversary/src/flow_classifier.rs:119-163 | the lag-1 feature is strictly between -1 and 1 for every size sequence |
| `RateLimit.InitInvariant` | crates/bridge/src/rate_limit.rs:85-98 | a new limiter satisfies the invariant |
| `RateLimit.StepPreserves` | crates/bridge/src/rate_limit.rs:43-196 | acquires and guard drops keep: counters equal live guards, tokens in [0, capacity], table within its bound |
| `RateLimit.RunKeepsInvariant` | crates/bridge/src/rate_limit.rs:43-196 | every reachable state satisfies that invariant |
| `RateLimit.DropReleasesOne` | crates/bridge/src/rate_limit.rs:43-58 | a dropped guard finds its entry and releases exactly one session: the saturating subtraction never saturates |
| `RateLimit.LiveEntriesSurvive` | crates/bridge/src/rate_limit.rs:128-162 | an address with a live guard is never evicted |
| `RateLimit.EvictedIsOldestIdle` | crates/bridge/src/rate_limit.rs:128-162 | only a newcomer to a full table evicts, and only an idle entry, seen longest ago among the idle ones of 32, or of all when those 32 are live |
| `RateLimit.UntrackedRefusedIffFullAndLive` | crates/bridge/src/rate_limit.rs:121-196 | an untracked address is refused if and only if the table is full and every entry is live |
| `RateLimit.AttemptAccounting` | crates/bridge/src/rate_limit.rs:171-190 | an attempt is granted exactly below the session cap with 60·tokens + perMinute·elapsed at least 60, and costs one token and one session, or neither |
| `RateLimit.LevelGrowth` | crates/bridge/src/rate_limit.rs:171-175 | a bucket's level never falls with time and grows no faster than the refill rate |
| `RateLimit.RunKeepsPotential` | crates/bridge/src/rate_limit.rs:164-190 | grants so far plus the current level stay within capacity plus refill since the start |
| `RateLimit.RateBound` | crates/bridge/src/rate_limit.rs:85-190 | for an address not evicted in [t0, t1], 60 times the accepted connections are at most perMinute·(60 + t1 - t0) |
| `RateLimit.RefillRestoresService` | crates/bridge/src/rate_limit.rs:171-190 | after 60/perMinute seconds an address below its session cap is served again |
| `RateLimit.EmptiedIsRefused` | crates/bridge/src/rate_limit.rs:171-190 | an emptied bucket is refused until then |
| `RateLimit.BurstIsServed` | crates/bridge/src/rate_limit.rs:85-190 | a newcomer is granted exactly perMinute connections at one moment |
| `RateLimit.SessionCapHolds` | crates/bridge/src/rate_limit.rs:43-190 | over every run no address has more sessions open than the cap |
| `RateLimit.PerPeerLimiter.constructor` | crates/bridge/src/rate_limit.rs:85-98 | starts empty, with no guards out, under the given configuration |
| `RateLimit.PerPeerLimiter.FindOldestIdle` | crates/bridge/src/rate_limit.rs:139-150 | finds an idle entry seen longest ago among the given ones, or none if none is idle |
| `RateLimit.PerPeerLimiter.ChooseVictim` | crates/bridge/src/rate_limit.rs:128-150 | the sampled victim, or the full-scan one when the sample holds no idle entry |
| `RateLimit.PerPeerLimiter.AttemptOn` | crates/bridge/src/rate_limit.rs:171-190 | the bucket update and decision of one attempt |
| `RateLimit.PerPeerLimiter.TryAcquire` | crates/bridge/src/rate_limit.rs:104-196 | performs one acquire step of the model and keeps it valid |
| `RateLimit.PerPeerLimiter.ReleaseGuard` | crates/bridge/src/rate_limit.rs:43-58 | performs one drop step of the model and keeps it valid |
| `LeakDetector.RunKeepsInvariant` | crates/bridge/src/leak_detector.rs:190-267 | in every reachable state the table is within capacity and each entry's alert level is at most its publishers |
| `LeakDetector.RecordKeepsToItself` | crates/bridge/src/leak_detector.rs:208-225 | a record displaces at most one entry of others and then leaves its publisher a singleton; a publisher with a singleton keeps one and displaces nobody |
| `LeakDetector.FloodDisplacesAtMostOne` | crates/bridge/src/leak_detector.rs:208-335 | over any run of one publisher's records, the entries evicted that it does not solely observe number at most one in all |
| `LeakDetector.CorrelatedEntriesOutlastSingletons` | crates/bridge/src/leak_detector.rs:296-335 | a multi-observer entry is evicted only when no singleton is left |
| `LeakDetector.AlertsAreSound` | crates/bridge/src/leak_detector.rs:190-246 | every alert lists at least two distinct publishers that each recorded the tag within the window |
| `LeakDetector.SightingWasObserved` | crates/bridge/src/leak_detector.rs:190-267 | every stored sighting is a record made at that time, eviction or not |
| `LeakDetector.CreatedOnReceipt` | crates/bridge/src/leak_detector.rs:212-217 | along every run an entry's age runs from the receive time of the record that brought its tag in |
| `LeakDetector.StoredObserversAreExact` | crates/bridge/src/leak_detector.rs:190-267 | for an unevicted tag the stored publishers after a record are exactly those that recorded it within the window |
| `LeakDetector.RecordAlertsIff` | crates/bridge/src/leak_detector.rs:219-245 | a record alerts if and only if the live count is at least two and above the entry's previous level |
| `LeakDetector.FirstCorrelationAlerts` | crates/bridge/src/leak_detector.rs:190-246 | the first record giving an unevicted tag two live observers alerts and names them all |
| `LeakDetector.JoiningObserverAlertsIff` | crates/bridge/src/leak_detector.rs:227-267 | when a joining observer alerts, with and without a reap just before |
| `LeakDetector.ReplacementIsSilent` | crates/bridge/src/leak_detector.rs:190-267 | a run from the empty table in which one observer replaces another without an alert, and the same run with a reap, which alerts |
| `LeakDetector.Detector.constructor` | crates/bridge/src/leak_detector.rs:172-180 | starts empty, with capacity raised to at least one |
| `LeakDetector.Detector.FindOldest` | crates/bridge/src/leak_detector.rs:310-335 | an entry created earliest among the given ones |
| `LeakDetector.Detector.EvictOne` | crates/bridge/src/leak_detector.rs:310-335 | removes exactly one entry, an oldest of the first non-empty tier: own singletons, singletons, all |
| `LeakDetector.Detector.MakeRoom` | crates/bridge/src/leak_detector.rs:201-210 | evicts exactly for a new tag in a full table |
| `LeakDetector.Detector.SortedKeys` | crates/bridge/src/leak_detector.rs:236-238 | the publishers of an entry, each once, in increasing order |
| `LeakDetector.Detector.ObserveEntry` | crates/bridge/src/leak_detector.rs:218-246 | prune, insert, clamp and test on one entry |
| `LeakDetector.Detector.Record` | crates/bridge/src/leak_detector.rs:190-246 | performs one record step of the model |
| `LeakDetector.Detector.Reap` | crates/bridge/src/leak_detector.rs:251-267 | performs one reap step and returns how many entries it dropped |
| `ProbeDetector.StoredStands` | crates/bridge/src/probe_defense.rs:140-230 | along every run the stored list of an unevicted address is the trimmed recent part of its full history |
| `ProbeDetector.StoredLengthDecides` | crates/bridge/src/probe_defense.rs:170-183 | with threshold within the cap, the stored length passes the threshold exactly when the full windowed history does |
| `ProbeDetector.TrimmedDecidesAsFull` | crates/bridge/src/probe_defense.rs:140-203 | a failure sets or refreshes the flag exactly when the untrimmed history has enough failures in the window |
| `ProbeDetector.CapBelowThresholdNeverFlags` | crates/bridge/src/probe_defense.rs:140-203 | with the cap below the threshold no failure ever flags |
| `ProbeDetector.StoredUnderstates` | crates/bridge/src/probe_defense.rs:140-230 | even with eviction the stored list never holds more recent failures than happened |
| `ProbeDetector.FlaggingHasFailures` | crates/bridge/src/probe_defense.rs:140-203 | any failure that sets or refreshes a flag has at least threshold failures in the window behind it, eviction or not |
| `ProbeDetector.EdgeHasFailures` | crates/bridge/src/probe_defense.rs:140-203 | every reported edge has at least threshold failures in the window behind it, eviction or not |
| `ProbeDetector.EdgesAreApart` | crates/bridge/src/probe_defense.rs:184-203 | two edges for one address are more than the flag duration apart |
| `ProbeDetector.FlagsAreEarned` | crates/bridge/src/probe_defense.rs:140-230 | on every run a stored flag time is that of a failure that reached the threshold on the full history |
| `ProbeDetector.IsProbeIff` | crates/bridge/src/probe_defense.rs:206-213 | an address is a probe if and only if some failure within the flag duration reached the threshold on the full history |
| `ProbeDetector.EdgeIff` | crates/bridge/src/probe_defense.rs:140-203 | without evictions a failure is an edge if and only if it crosses the threshold and no crossing before it is within the flag duration |
| `ProbeDetector.EvictedIsStalest` | crates/bridge/src/probe_defense.rs:152-169 | along every run the address that makes room is, of some sample, one whose latest failure is earliest |
| `ProbeDetector.StepBounded` | crates/bridge/src/probe_defense.rs:140-230 | both tables stay within the tracking bound |
| `ProbeDetector.Detector.constructor` | crates/bridge/src/probe_defense.rs:124-131 | starts empty |
| `ProbeDetector.Detector.EvictFailures` | crates/bridge/src/probe_defense.rs:152-169 | removes the sampled address whose last failure is oldest |
| `ProbeDetector.Detector.EvictFlag` | crates/bridge/src/probe_defense.rs:189-200 | removes the sampled flag that is oldest |
| `ProbeDetector.Detector.PushFailure` | crates/bridge/src/probe_defense.rs:152-180 | makes room, prunes, appends and trims one address's list |
| `ProbeDetector.Detector.Flag` | crates/bridge/src/probe_defense.rs:188-201 | makes room and stamps the flag |
| `ProbeDetector.Detector.RecordAuthFailure` | crates/bridge/src/probe_defense.rs:140-203 | performs one failure step of the model and reports its edge |
| `ProbeDetector.Detector.Reap` | crates/bridge/src/probe_defense.rs:216-230 | performs one reap step of the model |
| `Gatekeeper.DetectorRuns` | crates/bridge/src/probe_defense.rs:606-649 | a gatekeeper run projects to a run of the probe detector |
| `Gatekeeper.ReportWasMade` | crates/bridge/src/probe_defense.rs:406-424 | every stored report was made by that publisher at that time |
| `Gatekeeper.ReachedHasCause` | crates/bridge/src/probe_defense.rs:406-424 | a reached quorum has two distinct publishers' reports within one 600 s window |
| `Gatekeeper.ReachedIff` | crates/bridge/src/probe_defense.rs:402-424 | for an address not evicted from the quorum table, a report reaches the quorum if and only if another publisher reported the address within the window |
| `Gatekeeper.BlockHasCause` | crates/bridge/src/probe_defense.rs:449-634 | whatever demands a block is a local threshold edge or a two-publisher quorum |
| `Gatekeeper.RefusedOnlyForCause` | crates/bridge/src/probe_defense.rs:292-634 | a refused address has such a cause less than 24 hours old, plus however long its block took to be added |
| `Gatekeeper.LonePublisherIsHarmless` | crates/bridge/src/probe_defense.rs:402-473 | when all reports of an address come from one publisher, however many, a refusal has a local cause |
| `Gatekeeper.BlockPersists` | crates/bridge/src/probe_defense.rs:292-330 | an unevicted block stands until at least its expiry; later adds never shorten it |
| `Gatekeeper.RefusedIff` | crates/bridge/src/probe_defense.rs:292-634 | without shadow mode and eviction from the block list, an address is refused exactly while some addition has time left: its duration, and 24 hours at most |
| `Gatekeeper.RefusedHasAddition` | crates/bridge/src/probe_defense.rs:292-321 | whatever is evicted, a refused address has such an addition: once all are over it is accepted again |
| `Gatekeeper.AdditionRefuses` | crates/bridge/src/probe_defense.rs:292-321 | an unevicted addition refuses its address until its duration or 24 hours have passed |
| `Gatekeeper.EdgeRefuses` | crates/bridge/src/probe_defense.rs:618-634 | a local edge refuses its address for the configured duration from its addition on |
| `Gatekeeper.ReportRefuses` | crates/bridge/src/probe_defense.rs:456-467 | a report that reached the quorum refuses its address for the seconds it names, a day at most |
| `Gatekeeper.DemandedDuration` | crates/bridge/src/probe_defense.rs:456-634 | exactly what duration an edge and a report ask for |
| `Gatekeeper.BlocksIffDemanded` | crates/bridge/src/probe_defense.rs:449-634 | without evictions an event demands a block if and only if the raw history does: a first crossing of the threshold, or a second publisher within the window |
| `Gatekeeper.RefusedIffDemanded` | crates/bridge/src/probe_defense.rs:292-634 | without evictions, refusal is exactly an added block demanded by the raw failures and reports, within the configured duration or the seconds reported, and 24 hours |
| `Gatekeeper.TablesStayBounded` | crates/bridge/src/probe_defense.rs:292-424 | over every run at most 16384 addresses are blocked and 4096 have reports |
| `Gatekeeper.SoftBlockList.FindSoonest` | crates/bridge/src/probe_defense.rs:292-310 | the entry that expires soonest |
| `Gatekeeper.SoftBlockList.Add` | crates/bridge/src/probe_defense.rs:292-310 | one add step; the address is then blocked as long as before, or for the duration given, 24 hours at most |
| `Gatekeeper.SweepIsInvisible` | crates/bridge/src/probe_defense.rs:314-330 | no check from the sweep on can tell whether it happened, and only entries that no longer block go |
| `Gatekeeper.SoftBlockList.Reap` | crates/bridge/src/probe_defense.rs:324-330 | every later check answers as before, and the count returned is what was dropped |
| `Gatekeeper.ProbeReportQuorum.Latest` | crates/bridge/src/probe_defense.rs:406-424 | the latest report time of an entry |
| `Gatekeeper.ProbeReportQuorum.FindStalest` | crates/bridge/src/probe_defense.rs:406-424 | the address whose latest report is oldest |
| `Gatekeeper.ProbeReportQuorum.Record` | crates/bridge/src/probe_defense.rs:406-424 | one report step and whether it reached the quorum |
| `Gatekeeper.ConnectionGatekeeper.constructor` | crates/bridge/src/probe_defense.rs:557-600 | starts in the empty state |
| `Gatekeeper.ConnectionGatekeeper.ShouldAcceptPeer` | crates/bridge/src/probe_defense.rs:606-611 | the decision of the model: refuse only a soft-blocked address outside shadow mode |
| `Gatekeeper.ConnectionGatekeeper.ObserveAuthFailure` | crates/bridge/src/probe_defense.rs:618-649 | one detection step, then, exactly for an edge outside shadow mode, one block step and a publication |
| `Gatekeeper.ConnectionGatekeeper.OnReport` | crates/bridge/src/probe_defense.rs:449-473 | one quorum step, then, exactly when it is reached, one block step with the clamped duration |
| `Gatekeeper.ConnectionGatekeeper.ReapStale` | crates/bridge/src/probe_defense.rs:573-576 | one reaper tick: the detector's sweep, then the block list's |
| `ClaimLog.RecordFormat` | crates/bridge/src/claim_log.rs:117-127 | a record is the claim id and then the root token id, 32 bytes each |
| `ClaimLog.HeaderDecides` | crates/bridge/src/claim_log.rs:79-174 | a file is refused, on opening and on loading, exactly when it is shorter than 8 bytes or does not start with the magic and version 1 |
| `ClaimLog.NewFileFormat` | crates/bridge/src/claim_log.rs:105-112 | a new file is the magic, the version and three zeros |
| `ClaimLog.DecodeEncode` | crates/bridge/src/claim_log.rs:117-191 | decoding inverts encoding of a record |
| `ClaimLog.LoadRecoversImage` | crates/bridge/src/claim_log.rs:164-191 | a header, whole records and a torn tail load as exactly those records |
| `ClaimLog.LoadedIsImage` | crates/bridge/src/claim_log.rs:164-191 | conversely whatever loads is such an image of what it loads to |
| `ClaimLog.OpenCutsTornTail` | crates/bridge/src/claim_log.rs:58-103 | opening cuts the torn tail and leaves the handle at the end of the records |
| `ClaimLog.OpenCreates` | crates/bridge/src/claim_log.rs:58-112 | opening a missing or empty file yields an empty log |
| `ClaimLog.TornHeaderIsRefused` | crates/bridge/src/claim_log.rs:58-191 | a header cut at k bytes opens only for k = 0 or 8 and loads only for k = 8 |
| `ClaimLog.AppendOnClean` | crates/bridge/src/claim_log.rs:117-143 | a successful append on a clean handle adds exactly its record |
| `ClaimLog.RunConsistent` | crates/bridge/src/claim_log.rs:58-191 | every run of open, append, crash at any byte and reopen stays consistent with the committed records |
| `ClaimLog.CrashSafety` | crates/bridge/src/claim_log.rs:58-191 | loading after any run gives exactly the committed records in order, the in-flight one only if all 64 bytes landed, and appends stay aligned |
| `ClaimLog.FailedAppend` | crates/bridge/src/claim_log.rs:117-159 | exactly which bytes, position and pending bytes any failed append leaves, whichever calls of the realignment fail, and that it loads the old records, plus the refused one when all of it landed |
| `ClaimLog.SyncFailureKeepsRecord` | crates/bridge/src/claim_log.rs:136-159 | a failed sync reports an error yet leaves the whole record and a clean log, however the realignment goes |
| `ClaimLog.FaultlessAppend` | crates/bridge/src/claim_log.rs:117-143 | through any handle at or beyond the end, an append writes a zero-filled gap, the pending bytes and its record |
| `ClaimLog.NextAppendAlignedIff` | crates/bridge/src/claim_log.rs:117-159 | the file is aligned after it if and only if the position plus the pending bytes is a whole number of records |
| `ClaimLog.AlignedAfterFailureIff` | crates/bridge/src/claim_log.rs:117-159 | after any failed append the next one is misaligned if and only if part of the refused record landed and the realignment succeeded in full |
| `ClaimLog.LoadedAfterFailure` | crates/bridge/src/claim_log.rs:117-191 | what loads after that next append in each case: the refused record whole, with its first bytes zeroed, or mixed with the new one |
| `ClaimLog.MisalignedAfterPartialFlush` | crates/bridge/src/claim_log.rs:117-159 | a concrete partial flush after which a successful append does not load back |
| `ClaimLog.Load` | crates/bridge/src/claim_log.rs:164-191 | the reading loop returns what the image defines, header errors included |
| `ClaimLog.PersistentClaimLog.OpenLog` | crates/bridge/src/claim_log.rs:58-103 | opens or refuses exactly as the model does, leaving a refused file untouched |
| `ClaimLog.PersistentClaimLog.Flush` | crates/bridge/src/claim_log.rs:136-143 | moves the landed bytes from the buffer to the file |
| `ClaimLog.PersistentClaimLog.FlushSynced` | crates/bridge/src/claim_log.rs:136-143 | flush, then sync when configured |
| `ClaimLog.PersistentClaimLog.WriteRec` | crates/bridge/src/claim_log.rs:136-143 | buffer the record, flush and sync |
| `ClaimLog.PersistentClaimLog.CutTornTail` | crates/bridge/src/claim_log.rs:147-159 | cuts a torn tail and seeks to the end |
| `ClaimLog.PersistentClaimLog.Realign` | crates/bridge/src/claim_log.rs:147-159 | the best-effort realignment, pending bytes kept |
| `ClaimLog.PersistentClaimLog.AppendRecord` | crates/bridge/src/claim_log.rs:117-134 | one append of the model, realigning on failure |
| `QuicFrames.VarintFormat` | crates/adversary/src/quic_initial.rs:131-143 | the first byte below 64, 128, 192 or 256 means 1, 2, 4 or 8 bytes, its six low bits and the rest the value, most significant first |
| `QuicFrames.AckFormat` | crates/adversary/src/quic_initial.rs:300-322 | an ACK frame is type 2 or 3, largest, delay, count, first range, the ranges, and the ECN counts |
| `QuicFrames.CryptoFormat` | crates/adversary/src/quic_initial.rs:298-334 | a CRYPTO frame is type 6, offset, length and data; PADDING is 0 and PING is 1 |
| `QuicFrames.ReadEncoded` | crates/adversary/src/quic_initial.rs:131-143 | a varint of any width is read back from its RFC 9000 encoding, whatever follows |
| `QuicFrames.EncodeRead` | crates/adversary/src/quic_initial.rs:131-143 | whatever is read re-encodes to the bytes consumed |
| `QuicFrames.ReadVarint` | crates/adversary/src/quic_initial.rs:131-143 | the accumulating loop computes the masked big-endian value, or the right error |
| `QuicFrames.ReadManyEncoded` | crates/adversary/src/quic_initial.rs:301-321 | a run of varints is read back exactly |
| `QuicFrames.EncodeReadMany` | crates/adversary/src/quic_initial.rs:301-321 | a run that was read re-encodes to the bytes consumed |
| `QuicFrames.ParseFrameEncoded` | crates/adversary/src/quic_initial.rs:291-338 | each PADDING, PING, ACK or CRYPTO frame is read back with the rest untouched |
| `QuicFrames.ParseEncoded` | crates/adversary/src/quic_initial.rs:291-338 | every list of frames is recovered from its encoding |
| `QuicFrames.EncodeParsedFrame` | crates/adversary/src/quic_initial.rs:291-338 | a parsed frame re-encodes to the bytes consumed |
| `QuicFrames.EncodeParsed` | crates/adversary/src/quic_initial.rs:291-338 | whatever parses is the encoding of the frames it parses to |
| `CryptoStream.AssembledIsPrefix` | crates/adversary/src/quic_initial.rs:339-349 | chunks that are slices of one stream assemble to a prefix of it |
| `CryptoStream.AssembledIsWholeIff` | crates/adversary/src/quic_initial.rs:339-349 | slices assemble to the whole stream if and only if, up to some offset, they are non-empty and hold each byte exactly once |
| `CryptoStream.OverlapTruncates` | crates/adversary/src/quic_initial.rs:339-349 | overlapping chunks that cover a stream, cut at the overlap |
| `CryptoStream.EmptyChunkTruncates` | crates/adversary/src/quic_initial.rs:339-349 | chunks that tile a stream with an empty one among them, cut after the empty one |
| `CryptoStream.ReassemblyIsPrefix` | crates/adversary/src/quic_initial.rs:291-350 | reassembling encoded frames that slice a stream gives a prefix of it |
| `CryptoStream.ReassemblyRecoversStream` | crates/adversary/src/quic_initial.rs:291-350 | frames that tile a stream recover it in any order, among any other frames |
| `CryptoStream.ReadVarints` | crates/adversary/src/quic_initial.rs:301-321 | the index-advancing varint loop agrees with parsing the suffix |
| `CryptoStream.WalkAck` | crates/adversary/src/quic_initial.rs:300-322 | the walker skips exactly an ACK frame or fails as parsing does |
| `CryptoStream.WalkCrypto` | crates/adversary/src/quic_initial.rs:323-334 | the walker stores exactly the CRYPTO frame's data at its offset |
| `CryptoStream.WalkFrame` | crates/adversary/src/quic_initial.rs:294-338 | one turn of the walker consumes one parsed frame |
| `CryptoStream.JoinChunks` | crates/adversary/src/quic_initial.rs:339-349 | the contiguous join in offset order |
| `CryptoStream.ReassembleCrypto` | crates/adversary/src/quic_initial.rs:291-350 | the whole walker equals parse, collect, assemble, with the same error |
| `ReplaySet.AcceptsIff` | crates/discovery/src/replay.rs:171-207 | a token is accepted exactly when no entry has it, the log takes it, and the set is not full or holds an expired entry |
| `ReplaySet.InsertMeans` | crates/discovery/src/replay.rs:157-207 | for every later lookup: an accepted token is held to its expiry and nothing else changes |
| `ReplaySet.InsertKeepsUnexpired` | crates/discovery/src/replay.rs:171-207 | an insertion never drops or alters an unexpired entry |
| `ReplaySet.InsertStaysBounded` | crates/discovery/src/replay.rs:171-207 | the set stays within its bound |
| `ReplaySet.ExpiredEntryStillRefuses` | crates/discovery/src/replay.rs:157-207 | acceptance implies the token was not held; an expired entry refuses though the lookup denies it |
| `ReplaySet.EvictionIsInvisible` | crates/discovery/src/replay.rs:142-162 | no lookup from then on can tell, and exactly the entries that no longer count as held go |
| `ReplaySet.Set.EvictExpired` | crates/discovery/src/replay.rs:142-146 | the set does not grow and every later lookup answers as before |
| `ReplaySet.Set.CheckAndInsert` | crates/discovery/src/replay.rs:171-207 | accepts and stores as the model says; a full set evicts expired entries first and fails closed |
| `CohortReplay.PublishedAfterAccept` | crates/bridge/src/cohort_replay.rs:223-250 | every burn event of the local-burn path on the wire follows an accepting local insert by its publisher |
| `CohortReplay.NoAcceptBeforeExpiry` | crates/bridge/src/cohort_replay.rs:143-250 | once a bridge inserts a token, locally or from gossip, it accepts it again only when that entry no longer counts |
| `CohortReplay.BurnIsHeld` | crates/bridge/src/cohort_replay.rs:223-285 | an accepted burn is held at its bridge up to the token's expiry, a day at most |
| `CohortReplay.TakenIsHeld` | crates/bridge/src/cohort_replay.rs:143-285 | so is a gossiped burn, to the ingestion time-to-live after the burn, a day at most |
| `CohortReplay.SingleUseAtOneBridge` | crates/bridge/src/cohort_replay.rs:223-250 | one bridge accepts one token twice only after the token's expiry or more than a day after the first time |
| `CohortReplay.DoubleAcceptNeedsGap` | crates/bridge/src/cohort_replay.rs:104-250 | after a burn event was delivered, a later accept at that bridge means the delivery was rate-limited, failed to insert, or expired |
| `CohortReplay.TwoBridgesNeedGap` | crates/bridge/src/cohort_replay.rs:104-250 | when two bridges both accept a token, the earlier burn was published, the later bridge did not hold the token, and every delivery of that burn to it left such a gap |
| `CohortReplay.BurnedIff` | crates/bridge/src/cohort_replay.rs:223-285 | a bridge reports a token as burned if and only if some event it inserted for the token still counts |
| `CohortReplay.BurnRateBound` | crates/bridge/src/cohort_replay.rs:61-135 | for any number of publishers, one whose entry is not evicted gets at most 100 burns admitted in any closed 60 s interval |
| `CohortReplay.AdmittedIff` | crates/bridge/src/cohort_replay.rs:110-135 | an unevicted publisher's burn is admitted if and only if fewer than 100 of its burns were admitted in the 60 seconds before |
| `CohortReplay.EvictedIsStalest` | crates/bridge/src/cohort_replay.rs:110-125 | along every run the publisher that makes room is one whose latest admitted burn is earliest |
| `CohortReplay.TableStaysBounded` | crates/bridge/src/cohort_replay.rs:110-125 | over every run a bridge tracks at most 256 publishers |
| `CohortReplay.SmallCohortRateBound` | crates/bridge/src/cohort_replay.rs:61-135 | with at most 256 publishers the bound holds for all of them |
| `CohortReplay.LimitForgottenIff` | crates/bridge/src/cohort_replay.rs:110-135 | a publisher at its limit can be admitted right after an unknown one if and only if the table is full and its entry is a stalest one |
| `CohortReplay.LimitExceeded` | crates/bridge/src/cohort_replay.rs:110-135 | deliveries from the empty table, all within one second and all admitted, with 101 from one publisher |
| `CohortReplay.Subscriber.FindStalest` | crates/bridge/src/cohort_replay.rs:110-125 | the publisher whose last admission is oldest |
| `CohortReplay.Subscriber.Admit` | crates/bridge/src/cohort_replay.rs:110-135 | one rate-limit step |
| `CohortReplay.Subscriber.OnTokenBurned` | crates/bridge/src/cohort_replay.rs:104-145 | one delivery: an admitted burn the set accepts is held to `ttl` seconds after the burn, others change nothing |
| `CohortReplay.Coordinator.RecordLocalBurn` | crates/bridge/src/cohort_replay.rs:223-250 | publishes exactly when the insert was accepted; the token is then held to its expiry, a day at most |
| `CohortReplay.Coordinator.AlreadyBurned` | crates/bridge/src/cohort_replay.rs:283-285 | true means that a local burn of the token at that moment is refused, whatever the log does |
| `Cell.EncodedFields` | crates/circuit/src/cell.rs:300-321 | where each field is: circuit id, command, pad length, body, pad |
| `Bytes.MostSignificantFirst` | crates/circuit/src/cell.rs:300-371 | multi-byte fields are big-endian: the first byte weighs most |
| `Cell.DecodeEncoded` | crates/circuit/src/cell.rs:280-371 | for any pad, decoding an encoding gives the cell back if and only if the constructor would build it |
| `Cell.EncodeDecoded` | crates/circuit/src/cell.rs:300-371 | re-encoding a decoded buffer with its own pad gives the buffer back, and the cell is constructible |
| `Cell.Encode` | crates/circuit/src/cell.rs:300-321 | filling the buffer in place gives the encoding, or the body or randomness error |
| `CreatedFlight.CutRest` | crates/circuit/src/extend.rs:571-599 | continuation bodies concatenate to the rest of the message and are full but for the last |
| `CreatedFlight.EncodeFragmented` | crates/circuit/src/extend.rs:571-599 | fails exactly for an over-long message or no room for a header; otherwise a fragmentation of the message |
| `CreatedFlight.DecodePartial` | crates/circuit/src/extend.rs:606-623 | an accepted first chunk is at most its declared total, itself within the limit |
| `CreatedFlight.DecodeFirst` | crates/circuit/src/extend.rs:606-623 | the first fragment decodes to the message length and its first bytes |
| `CreatedFlight.FlightIsConstructible` | crates/bridge/src/circuit_executor.rs:379-393 | every cell of a flight is one the cell constructor accepts |
| `CreatedFlight.ReadRestExact` | crates/bridge/src/circuit_executor.rs:480-500 | the loop takes exactly the continuations up to the last non-empty one that completes the message, and leaves the rest of the queue |
| `CreatedFlight.ReadCreatedSound` | crates/bridge/src/circuit_executor.rs:468-500 | a successful read has exactly the declared length and is the first chunk followed by consecutive continuations |
| `CreatedFlight.FlightIsReassembled` | crates/bridge/src/circuit_executor.rs:468-500 | any fragmentation of a message, empty continuations included, is reassembled exactly; the whole flight is consumed if and only if it does not end in an empty one |
| `CreatedFlight.WireCarriesFlight` | crates/circuit/src/cell.rs:300-371 | encoded cells decode to the same cells, whatever the pads |
| `CreatedFlight.MessageSurvivesWire` | crates/bridge/src/circuit_executor.rs:468-500 | fragment, encode with any pads, decode and reassemble is the identity on messages |
| `CreatedFlight.SendCreate` | crates/bridge/src/circuit_executor.rs:379-393 | sends the whole flight, or as much of it as the link takes before it fails, or nothing when the message or circuit id is refused |
| `CreatedFlight.ReadCreated` | crates/bridge/src/circuit_executor.rs:468-500 | the receiving loop agrees with the queue specification, errors included |
| `ReactiveCensor.TopIsOptimal` | crates/adversary/src/adaptive_routing.rs:88-108 | no arm set of the same size has more recent selections than a dominating set |
| `ReactiveCensor.TopSelectedIsBest` | crates/adversary/src/adaptive_routing.rs:88-108 | blocking the top-ranked selected arms is a best response |
| `ReactiveCensor.Rank` | crates/adversary/src/adaptive_routing.rs:100-101 | a permutation of the arms by falling count |
| `ReactiveCensor.Censor.constructor` | crates/adversary/src/adaptive_routing.rs:71-79 | clamps the capacity and window and blocks nothing |
| `ReactiveCensor.Censor.IsBlocked` | crates/adversary/src/adaptive_routing.rs:83-85 | reports exactly the blocked arms, false beyond the table |
| `ReactiveCensor.Censor.CountRecent` | crates/adversary/src/adaptive_routing.rs:94-99 | the selections of each arm in the window |
| `ReactiveCensor.Censor.BlockTop` | crates/adversary/src/adaptive_routing.rs:102-107 | marks exactly the top `capacity` arms with a positive count |
| `ReactiveCensor.Censor.Remember` | crates/adversary/src/adaptive_routing.rs:88-92 | the queue holds exactly the last `window` selections |
| `ReactiveCensor.Censor.Observe` | crates/adversary/src/adaptive_routing.rs:88-108 | after every observation the blocked set is a best response to the last `window` selections |
| `RecordFramer.FramingConserves` | scripts/wire-auc/relay.py:46-53 | emitted sizes plus the residual account for every byte, and the residual is an incomplete record |
| `RecordFramer.FramingResumes` | scripts/wire-auc/relay.py:39-53 | framing a concatenation is framing the first part and resuming from its residual |
| `RecordFramer.RecordFormat` | scripts/wire-auc/relay.py:46-48 | a record is type, version, the length most significant byte first, and the fragment |
| `RecordFramer.FramesRecords` | scripts/wire-auc/relay.py:46-53 | encoded TLS records followed by an incomplete one are framed as exactly those records |
| `RecordFramer.StreamIsConcatenation` | scripts/wire-auc/relay.py:39-45 | the bytes received are the concatenation of the reads up to the first empty one |
| `RecordFramer.DrainRecords` | scripts/wire-auc/relay.py:46-53 | the inner loop frames the buffer |
| `RecordFramer.Pump` | scripts/wire-auc/relay.py:37-53 | for every split into reads, the sizes and residual are those of the concatenation, and everything is forwarded |

## Left out

- DrawBelow: says only that the draw is in range, because the theorems hold for every value the generator can give; the modulo bias of a draw and the quality of the generator are not modelled.
- BuildNullModel: takes feature vectors and the pooled noise floor as inputs, because the other features and `noise_floor` use square roots, logarithms and empirical constants.
- CrashSafety: writing the header of a new file is one step of the run; what a crash inside the header leaves is stated by `TornHeaderIsRefused`.
- BurnRateBound: speaks of a publisher that is not evicted; `LimitExceeded` shows that it needs to.
- RateBound: speaks of an address that is not evicted in the span, because eviction forgets the bucket; an evicted address starts again with a full one.
- Floating-point rounding and NaN: statistics and token levels are exact reals.
- Statistical claims (false-positive rates, router against greedy, indistinguishability): sampled measurements, not universal statements.
- `excess_over`, `measure_all`, `measure_aggregated`, `measure_routing_resilience`: folds over the modelled routines.
- Cryptography, key schedules, handshakes and gossip signatures: a publisher is an authenticated identifier.
- `parse_client_hello`, `decrypt_initial` and fingerprint diffing: header plumbing around ciphers.
- Sockets, tasks, timeouts, mutex poisoning, logging and metrics.
- `Instant` and `checked_add` overflow; the 32-bit width of a report's expiry and of rate-limit parameters.
- I/O errors while opening a claim log, and data the operating system loses on power failure without a sync.
- The replay set's own log (`new_with_log`, compaction) and removal: a logging failure is a parameter of the insert.
- `Cell::encode_into`, which repeats `encode` on a caller's buffer.
- Extend bodies, relay sub-cells, session tasks, rendezvous routing, the next-hop pool, builder, admin, membership and distress gossip: they would add only small invariants.
- Bindings, GUI, capture and probe drivers, and the remaining Python scripts.
