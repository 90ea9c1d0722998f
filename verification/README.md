# Verified models of fdp-bench components

This project models, in Dafny, the stateful and algorithmic parts of the
fdp-bench repository: parts of a modified Aptos node (API and consensus
wrapper), a Solana publishing script, a Sui load generator and a test-port
allocator. It proves what these parts keep over all inputs and all runs.
`dafny verify dfyconfig.toml` checks everything.

| files | models |
|---|---|
| `Ledger.dfy` | the committed chain: versions grouped into contiguous blocks, epochs, growth between requests |
| `BlockPrice.dfy`, `Estimate.dfy` | the inclusion price of one block; low, market and aggressive estimates from a price list |
| `GasEstimator.dfy`, `GasHistory.dfy` | the gas estimator with its incremental price cache, as a class and as a function of the cache |
| `GasListing.dfy`, `GasRecords.dfy`, `GasAgreement.dfy`, `GasRuns.dfy`, `GasTheorems.dfy`, `GasPanics.dfy`, `GasWitnesses.dfy` | the estimator against a cache-free and fault-free reference: which blocks a request lists, where cached prices come from, agreement, unbroken runs, panics, differing replies |
| `EpochCache.dfy` | the gas schedule and execution config caches behind read/write locks |
| `Paging.dfy`, `Render.dfy`, `SimulatedEvents.dfy` | module and resource cursors; sequential rendering; in-place event renumbering |
| `LongPoll.dfy` | admission to the long-poll endpoint |
| `SafetyRules.dfy` | re-initialisation and retry around the safety rules |
| `PublishPackages.dfy`, `PublishGraph.dfy`, `PublishOrder.dfy` | the crate publishing order: the declared dependencies, their graph, the ordering loop |
| `SuiPool.dfy`, `SuiWorker.dfy`, `SuiSystem.dfy`, `SuiSafety.dfy` | benchmark workers against one chain |
| `PortAllocator.dfy` | cross-process unique ports |

Form. Objects that the source updates in place are classes (`Estimator`,
`WorkerState`, `MetricsSafetyRules`), the event slice is an array, loops are
methods with invariants; each is tied to a specification function, and the
theorems are about those functions. Concurrent protocols (locks, atomics, lock
files, workers) are step relations with one step per shared-memory operation,
and their theorems quantify over every finite run.

What is an input. The ledger, storage failures (of the on-chain settings, of
the first read of the tip's block, of each block read of the walk, of a whole
transaction scan, of a single transaction or its info), clock freshness, random
choices, memory pressure, RPC replies, port availability and indexer answers
are parameters of a step or of a call; the theorems hold for all of them.

Assumptions about the environment, each a named predicate:

- `Ledger.ValidChain`: blocks are nonempty and contiguous, epochs never
  decrease, and genesis is version 0, alone in its block and its epoch.
- `Ledger.Grows`: between requests the ledger only gains transactions; every
  block but the newest is final.
- `EpochCache.ConstantPerEpoch`: on-chain configuration is constant within an epoch.
- `Paging.ValidStore`: items come in key order, and the key of a module or a
  plain resource is the one rebuilt from its id or tag.
- `Paging.PlainBeforeGroup`: among paths of equal length, plain resource keys
  sort below resource group keys (the storage key puts the path's length first
  and its kind second). Only `Paging.EqualLengthsTrap` uses it.
- `SafetyRules.Behaved`: an out-of-date report starts from the waypoint the
  rules hold and leaves the reported one, which storage bounds.
- `SuiSystem.Executes`: a successful transaction takes only current references,
  gives its gas coin and inputs new ones, and changes nothing else that exists;
  a failed RPC changes nothing. `SuiSystem.Reports`: a reply tells the truth, but
  its effects or its object changes may be missing.

Results that differ from what the source's comments or names suggest:

- A block scan passes `last - first` as its limit, so the last transaction of a
  block is never read. The block epilogue is that transaction, so its
  limit-reached flag never reaches the estimator
  (`BlockPrice.LastTransactionIgnored`).
- The price list a request builds through the cache is not always its history.
  `GasListing.ListExact` gives the exact condition for every map and every
  fault, which can be evaluated before the walk (`Complete`). When the tip's
  block was read, it says: each history block is cached, or can be read with no cached block between it and the tip, and no
  version inside a block is cached at or below a cached history block. Three
  concrete runs with differing replies are in `GasWitnesses.dfy`: a caller
  behind the ledger version that filled the cache, a failed block read, and a
  tip block whose first read fails and whose second succeeds, so that a partial
  block is priced and cached.
- Where a cached value can be wrong: below the tip only if its scan failed as a
  whole (then it is the minimum gas price) or missed single items; and for a
  tip block recorded after a failed first read (`GasRecords.RecordedBelowTip`).
- A panic in the block scan happens under the write lock and so makes every
  later request panic (`GasPanics.PanicsForever`). `BlockPrice.PanicsExactlyWhen`
  says when a scan panics, `GasPanics.RunNeverPanics` when no run can.
- A cursor for a resource group is a plain resource key.
  `Paging.NextContinuesIff` says exactly when a next page starts where the last
  one ended. With more groups of equal path length in a row than the page
  limit, following resource cursors never ends (`Paging.EqualLengthsTrap`,
  `Paging.TrapNeverEnds`; two groups and a limit of one in
  `Paging.TwoGroupsNeverEnd`). With limit 0 a module cursor never moves.
- Bucket rounding is monotone for every bucket list, ascending or not.
- A request can be turned away from the long poll while nobody is polling:
  requests that are still backing out count too
  (`LongPoll.TurnedAwayWhileNobodyPolls`).
- A Sui reply without effects or object changes leaves references behind that
  the chain has replaced. `SuiSafety.RunTransactionsCurrent` says exactly which
  ones, and `SuiSafety.LostGasStops` that a worker whose new gas coin was not
  reported never executes a transaction again.
- If rules report a rise from 0 to 1 forever, re-initialisation never ends
  (`SafetyRules.ConstantReportNeverEnds`).

## Model

| member | source | states |
|---|---|---|
| `BlockPrice.NextBucket` | fdp-aptos/api/src/context.rs:1117-1128 | the first bucket above the price, and the price itself exactly when no bucket is above it |
| `BlockPrice.NextBucketMonotone` | fdp-aptos/api/src/context.rs:1117-1128 | rounding keeps the order of prices, whatever the bucket list |
| `BlockPrice.MajorityUseCaseFraction` | fdp-aptos/api/src/context.rs:1209-1221 | whichever largest key the hash map yields first, the share exceeds one half exactly when some contract has more than half of all counted transactions |
| `BlockPrice.GetGasPricesAndUsed` | fdp-aptos/api/src/context.rs:1168-1223 | one pass over the versions cut at the ledger version yields the prices, the block ends and the contract majority of exactly the transactions it can read; a transaction, or a user transaction's info, that cannot be read is skipped |
| `BlockPrice.ScanSees` | fdp-aptos/api/src/context.rs:1175-1207 | of the versions from the start on, cut at the limit and the ledger version, a user transaction is seen if and only if it and its info can be read, an epilogue if and only if it can be read, each unchanged |
| `BlockPrice.PricesInOrder` | fdp-aptos/api/src/context.rs:1188-1191 | the price list has one entry for each user transaction, in their order, with its price first and its gas used second |
| `BlockPrice.MajorityCounted` | fdp-aptos/api/src/context.rs:1209-1221 | the majority over the collected use cases is: one contract has more than half of the user transactions |
| `BlockPrice.GasUsedIsTotal` | fdp-aptos/api/src/context.rs:1258-1262 | the sum compared with the gas limit is the gas used of the user transactions |
| `BlockPrice.BlockMinInclusionPrice` | fdp-aptos/api/src/context.rs:1225-1283 | the decision for a block is the function of its scanned transactions whose exact meaning `InclusionExactly` gives, panics included |
| `BlockPrice.InclusionExactly` | fdp-aptos/api/src/context.rs:1225-1283 | over the transactions: a price, no price or a panic each if and only if a condition on the majority contract, the number of user transactions, the block ends and the total gas used holds; a price is the smallest rounded one |
| `BlockPrice.MinimumIsSmallestRounded` | fdp-aptos/api/src/context.rs:1267-1276 | a full block's price is attained by a scanned user transaction's rounded price and is at most all of them: rounding the minimum is the minimum of the rounded |
| `BlockPrice.PanicsExactlyWhen` | fdp-aptos/api/src/context.rs:1248-1276 | the unwrap or assertion fails if and only if there are several block ends below the full-block count, or a block without user transactions is taken for full |
| `BlockPrice.NeverPanics` | fdp-aptos/api/src/context.rs:1253-1276 | no panic when the full-block count and gas limit are positive, a block ends at most once and a reached limit implies a user transaction |
| `BlockPrice.LastTransactionIgnored` | fdp-aptos/api/src/context.rs:1241-1257 | replacing the last transaction of a block by anything leaves its scan, hence its price, unchanged |
| `BlockPrice.WindowStable` | fdp-aptos/api/src/context.rs:1241-1246 | a final block is scanned to the same transactions at every later ledger version |
| `Estimate.FromPricesDefined` | fdp-aptos/api/src/context.rs:1402-1437 | the two "prices empty" paths are reached if and only if there is no price or the market history is zero |
| `Estimate.EstimatesAreQuantiles` | fdp-aptos/api/src/context.rs:1391-1445 | with low defined as the smallest price of its window (the minimum gas price if that is empty), and median and ninetieth percentile by counting instead of sorting, the estimates are low, the larger of low and median, and the rounded larger of market and percentile |
| `Estimate.LowIsSmallest` | fdp-aptos/api/src/context.rs:1393-1400 | the low estimate is in the low window and at most every price there, or the minimum gas price when the window is empty |
| `Estimate.DefaultIsMinimum` | fdp-aptos/api/src/context.rs:1130-1136 | the default is the minimum gas price for low and market, and for aggressive the first bucket above it if there is one |
| `Estimate.EstimatesCover` | fdp-aptos/api/src/context.rs:1402-1445 | more than half of the market window is at most market and more than nine tenths of the history is at most aggressive |
| `GasEstimator.Estimator.constructor` | fdp-aptos/api/src/context.rs:1630-1636 | a new estimator has the empty cache |
| `GasEstimator.Estimator.WalkNewBlocks` | fdp-aptos/api/src/context.rs:1325-1359 | the separate read of the tip's block and the loop with its five exits find the blocks and the stopping version of the recursive walk |
| `GasEstimator.Estimator.PriceBlock` | fdp-aptos/api/src/context.rs:1372-1374 | a block costs its inclusion price, or the epoch's minimum gas price if it has none or cannot be scanned; none if the scan panics |
| `GasEstimator.Estimator.PriceNewBlocks` | fdp-aptos/api/src/context.rs:1368-1379 | the prices of the found blocks in order, each also recorded under its end version; after a panic the blocks before it are recorded |
| `GasEstimator.Estimator.CachedPrices` | fdp-aptos/api/src/context.rs:1380-1389 | the epoch's cached prices from the hit downwards, at most the remaining number |
| `GasEstimator.Estimator.ListPrices` | fdp-aptos/api/src/context.rs:1365-1389 | new prices followed, below a hit, by cached ones, and the map they leave |
| `GasEstimator.Estimator.EvictOldest` | fdp-aptos/api/src/context.rs:1446-1452 | removes smallest keys until the history length is met |
| `GasEstimator.Estimator.UpdateEstimate` | fdp-aptos/api/src/context.rs:1360-1454 | the write section after the walk: default, panic, empty-price path or stored estimate, with the whole new state |
| `GasEstimator.Estimator.EstimateGasPrice` | fdp-aptos/api/src/context.rs:1285-1455 | reply and whole new cache of a request are those of the request function on which all run theorems rest, also when the settings cannot be read and when a scan panics; it answers from the stored estimate, leaving the cache alone, if and only if that is of the request's epoch and fresh |
| `GasListing.RangeExact` | fdp-aptos/api/src/context.rs:1380-1389 | reading the cached range down from a block gives exactly the ends of the blocks wanted if and only if each of them is cached and nothing inside a block is |
| `GasListing.ListExact` | fdp-aptos/api/src/context.rs:1325-1389 | for every request, every fault and every map of the epoch's versions, the request lists exactly the ends of its history, in order, if and only if its window is complete |
| `GasRecords.FoundRecordable` | fdp-aptos/api/src/context.rs:1329-1357 | a request finds only blocks of its epoch below its tip; the tip's own block only if it is genesis or its first read failed |
| `GasRecords.StepRecords` | fdp-aptos/api/src/context.rs:1312-1454 | whatever fails, a request keeps: entries of the last updated epoch only, each recorded by a request, at most the history length |
| `GasRecords.RunRecords` | fdp-aptos/api/src/context.rs:1318-1323 | the same after every run, whatever fails and in whatever order ledger versions arrive |
| `GasRecords.RunListExact` | fdp-aptos/api/src/context.rs:1325-1389 | in every run, whatever failed before and fails now, a request lists exactly its history if and only if its window is complete |
| `GasRecords.RunHoldsBlocks` | fdp-aptos/api/src/context.rs:1376-1378 | unless a tip read failed, every entry of every run is the end of a final block of its epoch in every later ledger |
| `GasRecords.RecordedBelowTip` | fdp-aptos/api/src/context.rs:1371-1379 | a block recorded below the tip keeps its key in every later ledger; its value is the block's final price if the scan read everything, and the minimum gas price if the scan failed |
| `GasRecords.ListedSomething` | fdp-aptos/api/src/context.rs:1402-1437 | with a positive market history no request that found or hit a block takes a "prices empty" path |
| `GasRecords.PanicKeepsPrefix` | fdp-aptos/api/src/context.rs:1371-1379 | when a scan panics, the map it leaves has exactly the blocks before it recorded |
| `GasAgreement.StepAgrees` | fdp-aptos/api/src/context.rs:1312-1454 | with a complete window and right prices a computed reply is that of the reference without cache and faults, panics included |
| `GasRuns.EvictKeepsNewest` | fdp-aptos/api/src/context.rs:1446-1452 | eviction keeps as many keys as the history allows, and none that is older than a dropped one |
| `GasRuns.WindowIsKept` | fdp-aptos/api/src/context.rs:1446-1452 | so from the keys of a full window and any older blocks, or of a short window that starts its epoch, it keeps exactly the window |
| `GasRuns.InvGrows` | fdp-aptos/api/src/context.rs:1371-1379 | ledger growth between requests keeps a cached run a run |
| `GasRuns.SectionKeepsRun` | fdp-aptos/api/src/context.rs:1325-1379 | recording what a walk found, at any ledger version, and evicting turns a run, or an empty map, into a run or an empty map |
| `GasRuns.StepKeepsInv` | fdp-aptos/api/src/context.rs:1312-1454 | every request whose block reads succeed, whatever scans fail, keeps the cache an unbroken run of final blocks that is full or starts its epoch |
| `GasRuns.RunKeepsInv` | fdp-aptos/api/src/context.rs:1312-1454 | the same after every run of such requests over a growing ledger, in any order of ledger versions |
| `GasRuns.CompleteIffNotShortened` | fdp-aptos/api/src/context.rs:1335-1343 | on such a cache, with readable blocks, a window is incomplete exactly when its newest block is cached and its oldest is not |
| `GasTheorems.RunAgrees` | fdp-aptos/api/src/context.rs:1285-1455 | after any run with any faults, a computed reply equals the reference without cache and faults whenever the window is complete and each history block was recorded, or is now scanned, without errors |
| `GasTheorems.RunAgreesWithGaps` | fdp-aptos/api/src/context.rs:1344-1358 | if only block reads of walks have failed, a complete window alone makes the reply equal the reference |
| `GasTheorems.RunCompleteIff` | fdp-aptos/api/src/context.rs:1335-1389 | in such runs a request lists exactly its history if and only if each history block is cached, or readable with no cached block between it and the tip |
| `GasTheorems.RunComplete` | fdp-aptos/api/src/context.rs:1335-1343 | if all block reads succeed, a caller that is not behind earlier ones always has a complete window |
| `GasTheorems.CleanRunAgrees` | fdp-aptos/api/src/context.rs:1285-1455 | in every run without faults and with nondecreasing ledger versions every freshly computed reply equals the reference |
| `GasTheorems.RunCacheShape` | fdp-aptos/api/src/context.rs:1318-1323 | after every run without read faults, in any order of versions, a nonempty cache has at most aggressive-history entries: the ends of consecutive final blocks of the last updated epoch, each at its final price |
| `GasTheorems.FinishStores` | fdp-aptos/api/src/context.rs:1446-1454 | a completed write section records the caller's epoch and stores exactly what it replies |
| `GasTheorems.StoredIsComputed` | fdp-aptos/api/src/context.rs:1138-1166 | whatever fails, what fresh requests are served was computed by an earlier request of the recorded epoch |
| `GasTheorems.ServedExactly` | fdp-aptos/api/src/context.rs:1138-1155 | a request is answered from the cache if and only if the estimator is on, nothing is fixed, the lock is sound, and the stored estimate is of its epoch and fresh; then the cache stays as it is |
| `GasTheorems.ServedIsComputed` | fdp-aptos/api/src/context.rs:1138-1155 | in every run, whatever fails, what a request is served was computed by an earlier request of the same epoch |
| `GasTheorems.FreshIsServed` | fdp-aptos/api/src/context.rs:1157-1166 | a fresh request of the epoch of the request before it, which computed an estimate, is served that estimate |
| `GasTheorems.FixedExactly` | fdp-aptos/api/src/context.rs:1289-1301 | a failed settings read is passed on; a fixed reply comes if and only if the estimator is off or overridden, with the default in the first case and the override otherwise |
| `GasTheorems.StoredIsReference` | fdp-aptos/api/src/context.rs:1138-1166 | without faults and with nondecreasing versions it is the reference of that request |
| `GasTheorems.StepOrdered` | fdp-aptos/api/src/context.rs:1391-1454 | a request whose stored estimate is ordered replies with and stores ordered estimates |
| `GasTheorems.RunOrdered` | fdp-aptos/api/src/context.rs:1285-1455 | in every run, whatever reads fail, each estimate replied without static override has low at most market at most aggressive |
| `GasPanics.PanicsForever` | fdp-aptos/api/src/context.rs:1306-1313 | once a request has panicked, every later request that needs the cache panics |
| `GasPanics.RunNeverPanics` | fdp-aptos/api/src/context.rs:1253-1276 | with a positive full-block count, no zero gas limit and epilogues only as last transactions, no request of any run panics, whatever fails |
| `GasWitnesses.StaleCallerDiffers` | fdp-aptos/api/src/context.rs:1446-1452 | a concrete request at an older version whose aggressive estimate is 1 where the reference says 2 |
| `GasWitnesses.FailedReadDiffersLater` | fdp-aptos/api/src/context.rs:1344-1358 | a concrete run where a failed block read makes the next, fully readable request answer 1 where the reference says 2 |
| `GasWitnesses.PartialTipDiffersLater` | fdp-aptos/api/src/context.rs:1329-1334 | a concrete run where the tip's first read fails and its second succeeds: a partial block is cached and the next, fully readable request answers 7 where the block costs 2 |
| `EpochCache.NextKeepsInv` | fdp-aptos/api/src/context.rs:1462-1582 | every lock, fetch and field step keeps lock exclusion, correct carried values and a correct cached pair outside the two-field update |
| `EpochCache.RunKeepsInv` | fdp-aptos/api/src/context.rs:1462-1582 | the same in every state of every interleaving |
| `EpochCache.ReturnsOwnEpoch` | fdp-aptos/api/src/context.rs:1462-1582 | in every interleaving each caller gets the configuration of its own epoch |
| `EpochCache.CachedBelongsToEpoch` | fdp-aptos/api/src/context.rs:1532-1534 | whenever no writer is inside, the cached value is that of the recorded epoch |
| `Paging.SeekDrops` | fdp-aptos/api/src/context.rs:568-605 | seeking before filtering drops exactly the filtered items below the cursor |
| `Paging.CursorExact` | fdp-aptos/api/src/context.rs:553-557 | a key resumes at the p-th relevant item if and only if it lies above the previous item's key and not above its own |
| `Paging.CursorResumes` | fdp-aptos/api/src/context.rs:610-613 | the cursor built from a module or a plain resource resumes exactly at it |
| `Paging.CursorRepeatsIff` | fdp-aptos/api/src/context.rs:553-557 | the cursor of an item returns the item before it again if and only if it does not lie above that item's key, which happens only for resource groups |
| `Paging.NextContinuesIff` | fdp-aptos/api/src/context.rs:605-614 | for modules and resources, the next page starts at the first item left out if and only if the cursor lies above the last item returned and not above that first item |
| `Paging.WalkIsComplete` | fdp-aptos/api/src/context.rs:561-615 | if every boundary meets that condition, following cursors with a limit of at least 1 ends and the pages concatenate to the full filtered list; it fails exactly when collecting the full list fails |
| `Paging.WalkCompleteIff` | fdp-aptos/api/src/context.rs:561-615 | for distinct good items, following cursors ends with exactly the list if and only if every boundary met is clean; otherwise it loses or repeats items or never ends |
| `Paging.ModuleWalkIsComplete` | fdp-aptos/api/src/context.rs:588-614 | for modules this holds for every store, start cursor and limit of at least 1 |
| `Paging.ResourceWalkIsComplete` | fdp-aptos/api/src/context.rs:502-558 | for resources it holds whenever no page boundary falls on a resource group |
| `Paging.TrapNeverEnds` | fdp-aptos/api/src/context.rs:553-557 | more than limit groups in a row whose plain keys do not lie above the first of them: no number of pages ends the walk |
| `Paging.EqualLengthsTrap` | fdp-aptos/types/src/access_path.rs:78-82 | since keys compare path length before path kind and plain before group, groups of equal path length are such a row |
| `Paging.TwoGroupsNeverEnd` | fdp-aptos/api/src/context.rs:553-557 | a store with two groups on which pages of one item never end |
| `Paging.CollectFails` | fdp-aptos/api/src/context.rs:606-612 | collecting fails if and only if some item is bad |
| `Paging.ZeroLimitSticks` | fdp-aptos/api/src/context.rs:605-614 | a page with limit 0 is empty and returns its own cursor |
| `Paging.ListingExactly` | fdp-aptos/api/src/context.rs:588-604 | an item is listed from a cursor on if and only if it is at or after it and is bad or of the listing's kind: modules only, or resources and groups only |
| `Paging.PageIsFull` | fdp-aptos/api/src/context.rs:605-614 | a page has the first items left, as many as the limit allows, and a next cursor if and only if more are left |
| `Render.RenderSequential` | fdp-aptos/api/src/context.rs:737-768 | the loop with its mutable timestamp computes the recursive rendering and fails when a conversion fails |
| `Render.PagesStampedIff` | fdp-aptos/api/src/context.rs:749-760 | every page of a chain gets the per-version timestamps if and only if each metadata transaction, of either kind, carries its block's time and every other version keeps its predecessor's |
| `Render.OpeningMetadataSuffices` | fdp-aptos/api/src/context.rs:752-757 | that condition holds when each block but genesis opens with a metadata transaction of either kind that carries its time, and has none elsewhere |
| `Render.SequentialByTimes` | fdp-aptos/api/src/context.rs:781-788 | equal timestamps give equal renderings, failures included |
| `Render.RenderersAgree` | fdp-aptos/api/src/context.rs:737-795 | from any start version and length, the sequential renderer started at the block time of the first version, as the listing endpoint starts it, equals the per-version renderer |
| `SimulatedEvents.TranslateForSimulation` | fdp-aptos/api/src/context.rs:1038-1064 | in place: up to the first failure (no reader, failed lookup, rejected version-1 event) a version-1 or untranslated event stays, and a translated one becomes a version-1 event with the key, type and data it was translated to, numbered base plus its rank in its key; the rest are untouched, and success means no failure |
| `SimulatedEvents.NumbersGapFree` | fdp-aptos/api/src/context.rs:1050-1060 | a number is used by a key's translated events if and only if it lies in base up to base plus count, and then by exactly one event; later events have higher numbers |
| `LongPoll.NextKeepsInv` | fdp-aptos/api/src/transactions.rs:239-280 | every atomic step keeps the counter equal to long polls plus requests backing out, with at most the maximum polling |
| `LongPoll.RunKeepsInv` | fdp-aptos/api/src/transactions.rs:239-280 | the same in every state of every interleaving |
| `LongPoll.TurnedAwayExactly` | fdp-aptos/api/src/transactions.rs:239-259 | a request is turned away if and only if long polls plus requests backing out have reached the maximum |
| `LongPoll.TurnedAwayWhileNobodyPolls` | fdp-aptos/api/src/transactions.rs:239-259 | a concrete run with a maximum of one in which a request is turned away while nobody polls |
| `LongPoll.DrainsToZero` | fdp-aptos/api/src/transactions.rs:250-276 | once all requests are done the counter is zero |
| `SafetyRules.MetricsSafetyRules.PerformInitialize` | fdp-aptos/consensus/src/metrics_safety_rules.rs:40-69 | for all rules on which it ends at all: result, inner state and the versions for which proofs are requested; a failed state query is passed on before any proof is requested, a missing last proof is an internal error, and otherwise the result is that of initialising with the last proof and reports no rise |
| `SafetyRules.MetricsSafetyRules.RunPasses` | fdp-aptos/consensus/src/metrics_safety_rules.rs:43-68 | the loop does the passes of its specification and stops at the first that does not raise the waypoint |
| `SafetyRules.MetricsSafetyRules.Retry` | fdp-aptos/consensus/src/metrics_safety_rules.rs:71-85 | an operation runs once or twice; the second run happens if and only if the first error was not-initialized, incorrect-epoch or waypoint-out-of-date and initialisation returned Ok, on the state initialisation left; other errors, and a failed initialisation with the state it left, are passed on |
| `SafetyRules.PassesEndWell` | fdp-aptos/consensus/src/metrics_safety_rules.rs:43-68 | ended passes asked for at least one proof; without the last one they end in an internal error, else with what initialising with it answered, which is no rise of the waypoint |
| `SafetyRules.PassesEnd` | fdp-aptos/consensus/src/metrics_safety_rules.rs:53-66 | if reports start from the held waypoint and proofs are bounded, the passes end, and the versions requested rise strictly from the held waypoint and stay within the bound |
| `SafetyRules.InitializeEnds` | fdp-aptos/consensus/src/metrics_safety_rules.rs:40-69 | for such rules re-initialisation always ends |
| `SafetyRules.ConstantReportNeverEnds` | fdp-aptos/consensus/src/metrics_safety_rules.rs:53-66 | without the waypoint assumption no number of passes need suffice |
| `PublishGraph.AliveIffChain` | fdp-solana/ci/order-crates-for-publishing.py:110-128 | after k passes exactly the packages that start a dependency chain of k + 1 packages are left |
| `PublishGraph.SupportedSurvives` | fdp-solana/ci/order-crates-for-publishing.py:121-128 | no pass removes a member of a set whose every member depends on a member |
| `PublishGraph.AliveSettles` | fdp-solana/ci/order-crates-for-publishing.py:109-114 | after as many passes as packages, what is left is such a set |
| `PublishGraph.LeftoverReachesCycle` | fdp-solana/ci/order-crates-for-publishing.py:112-114 | what is left then is exactly the packages that reach a cycle |
| `PublishGraph.EmptyIffAcyclic` | fdp-solana/ci/order-crates-for-publishing.py:109-114 | nothing is left then if and only if the graph has no cycle |
| `PublishPackages.KeepDependencies` | fdp-solana/ci/order-crates-for-publishing.py:50-72 | a name is kept if and only if it starts with solana and some dependency of that name is not the special dev self-dependency; a dependency is collected as wrong if and only if it is such a one with an explicit version |
| `PublishPackages.ReadPackages` | fdp-solana/ci/order-crates-for-publishing.py:83-87 | graph, manifests and insertion order of the dictionary, later packages of a name replacing earlier ones |
| `PublishPackages.EntriesOfLast` | fdp-solana/ci/order-crates-for-publishing.py:83-87 | dependencies and manifest of a name are those of the last package of that name |
| `PublishPackages.EdgeIff` | fdp-solana/ci/order-crates-for-publishing.py:50-87 | the graph has an edge from x to y if and only if y is a workspace package and the last package named x declares y, by a solana name and not by the special dev self-dependency |
| `PublishPackages.AllWrongIff` | fdp-solana/ci/order-crates-for-publishing.py:54-66 | exactly the special dev self-dependencies with an explicit version, of all packages |
| `PublishPackages.KeysInOrder` | fdp-solana/ci/order-crates-for-publishing.py:83-87 | the dictionary lists names in the order of their first packages |
| `PublishPackages.NoCycleIff` | fdp-solana/ci/order-crates-for-publishing.py:107-114 | the graph is acyclic if and only if no package depends, through declared dependencies, on itself |
| `PublishOrder.DirectCycles` | fdp-solana/ci/order-crates-for-publishing.py:89-94 | exactly the pairs of packages with edges both ways, self-dependencies included |
| `PublishOrder.IsBlocked` | fdp-solana/ci/order-crates-for-publishing.py:121-125 | the for-else loop tells whether a dependency is still in the dictionary |
| `PublishOrder.ReadyPackages` | fdp-solana/ci/order-crates-for-publishing.py:118-126 | in dictionary order, exactly the packages with no dependency left in the dictionary |
| `PublishOrder.PassIsWave` | fdp-solana/ci/order-crates-for-publishing.py:118-128 | one pass lists the packages that leave the k-th survivor set and keeps the next one |
| `PublishOrder.OnePass` | fdp-solana/ci/order-crates-for-publishing.py:118-128 | a pass takes the state after k passes to the state after k + 1 |
| `PublishOrder.RemovePasses` | fdp-solana/ci/order-crates-for-publishing.py:110-128 | the loop ends with an empty dictionary or a spent budget, and no pass runs on an empty dictionary |
| `PublishOrder.OrderPackages` | fdp-solana/ci/order-crates-for-publishing.py:107-131 | an order lists all waves and took the least number of passes that empties the graph; a suspicion lists what the whole budget left |
| `PublishOrder.EmittedFacts` | fdp-solana/ci/order-crates-for-publishing.py:125-126 | after k passes each removed package is listed exactly once and no other |
| `PublishOrder.EmittedInOrder` | fdp-solana/ci/order-crates-for-publishing.py:118-128 | every workspace dependency of a listed package is listed strictly earlier |
| `PublishOrder.WaveIsChainLength` | fdp-solana/ci/order-crates-for-publishing.py:110-128 | a package is listed in pass k if and only if its longest dependency chain has k packages |
| `PublishOrder.PassesAreHeight` | fdp-solana/ci/order-crates-for-publishing.py:109-128 | the number of passes is the length of the longest chain in the workspace, so never more than the number of packages |
| `PublishOrder.SuspectedIsReport` | fdp-solana/ci/order-crates-for-publishing.py:112-114 | on the declared dependencies: the packages reported are the greatest set whose members each depend on a member, and exactly those that lead to a cycle |
| `PublishOrder.OrderedIsOrder` | fdp-solana/ci/order-crates-for-publishing.py:110-131 | an emptied dictionary means a list with every package once, after all workspace packages that it declares as dependencies, with the manifest of the last package of its name |
| `PublishOrder.GetPackages` | fdp-solana/ci/order-crates-for-publishing.py:74-131 | the script succeeds if and only if the declared dependencies have no cycle and no self dev-dependency is wrong; the early exit happens if and only if two packages depend on each other or one is wrong, and reports exactly those; order and suspicion are as above |
| `SuiPool.TrackFacts` | fdp-sui/src/main.rs:1090-1104 | tracking keeps the pool as a prefix, adds only created objects and fills it exactly up to the cap |
| `SuiPool.TrackDistinct` | fdp-sui/src/main.rs:1090-1104 | tracked ids stay distinct when created ids are new |
| `SuiPool.MutateFacts` | fdp-sui/src/main.rs:1186-1196 | positions and ids stay; each object has its reported reference or, if not reported, its old one |
| `SuiPool.SelectedDistinct` | fdp-sui/src/main.rs:1125-1134 | a wrapped-around batch no larger than the pool names pool objects, none twice |
| `SuiPool.KeepCount` | fdp-sui/src/main.rs:903-921 | pools of up to 50 objects are untouched, larger ones keep exactly the rounded-down share of their pressure level and at least 12, none is emptied |
| `SuiPool.KeptShare` | fdp-sui/src/main.rs:903-921 | above 50 objects three quarters, half and a quarter stay at levels 1, 2 and 3, rounded down, and all at other levels |
| `SuiWorker.WorkerState.constructor` | fdp-sui/src/main.rs:268-274 | a fresh worker has its gas coin and no objects |
| `SuiWorker.UpdateTx` | fdp-sui/src/main.rs:1119-1149 | an update names the worker's gas coin and the batch size or all objects, whichever is fewer |
| `SuiWorker.UpdatedIsTracked` | fdp-sui/src/main.rs:1186-1196 | although references change while changes are applied, the count of updates is the number of mutated objects named by the pool as it was |
| `SuiWorker.WorkerState.BuildUpdate` | fdp-sui/src/main.rs:1119-1149 | an error exactly without objects, else the current gas coin and the wrapped-around batch |
| `SuiWorker.WorkerState.AbsorbCreate` | fdp-sui/src/main.rs:1084-1107 | gas coin, pool and count after a create reply, whichever parts of the reply are missing |
| `SuiWorker.WorkerState.AbsorbUpdate` | fdp-sui/src/main.rs:1178-1199 | the same after an update reply, rewriting references in place and counting the mutated objects that the pool names |
| `SuiWorker.WorkerState.DropObjects` | fdp-sui/src/main.rs:912-921 | pressure keeps a prefix of the pool of the specified length |
| `SuiSafety.ExecutingWorkerOk` | fdp-sui/src/main.rs:1153-1197 | after an execution, whichever parts of the reply are missing, absorbing it will make the worker's memory match the new chain except for what it was not told, and the worker owns nothing but its own and new objects |
| `SuiSafety.OtherWorkerOk` | fdp-sui/src/main.rs:1044-1107 | an execution leaves what another worker remembers as current, or as lost, as it was |
| `SuiSafety.NextKeepsInv` | fdp-sui/src/main.rs:880-1034 | every step of every worker keeps: pools within the cap, distinct, pairwise disjoint, and each remembered reference current if and only if no change of its object went unreported |
| `SuiSafety.RunKeepsInv` | fdp-sui/src/main.rs:880-1034 | the same in every state of every interleaved run, seeding included |
| `SuiSafety.RunTransactionsCurrent` | fdp-sui/src/main.rs:1125-1176 | every transaction about to be sent names distinct objects other than its gas coin, each at its current version if and only if no change of it went unreported |
| `SuiSafety.RunPoolsMatch` | fdp-sui/src/main.rs:734-823 | between replies every pool is within the 5000 cap and distinct, and a tracked reference or gas coin is the chain's if and only if no change of it went unreported |
| `SuiSafety.NothingLostIff` | fdp-sui/src/main.rs:1086-1107 | nothing goes unreported exactly as long as every executed reply had effects and, when the transaction named inputs, object changes |
| `SuiSafety.LostGasStops` | fdp-sui/src/main.rs:1178-1183 | a worker that was once not told of its new gas coin never executes a transaction again |
| `SuiSafety.RunPoolsDisjoint` | fdp-sui/src/main.rs:1090-1104 | no two workers ever share a pool object or a gas coin |
| `SuiSafety.NextKeepsNonempty` | fdp-sui/src/main.rs:912-921 | no step empties a nonempty pool |
| `SuiSafety.RunKeepsStats` | fdp-sui/src/main.rs:1000-1012 | at every point, submitted minus success and failed is the number of workers between the two counter updates |
| `SuiSafety.RunCountsOutcomes` | fdp-sui/src/main.rs:1000-1012 | at every point of every run, success counts exactly the transactions that ended with a reply, and failed those that failed or had nothing to update, but for those not yet counted; seeding is not counted |
| `SuiSafety.StoppedTotalsBalance` | fdp-sui/src/main.rs:946-957 | once all workers have stopped, submitted equals success plus failed, and each of these is the number of transactions that ended so |
| `PortAllocator.ReadCounter` | fdp-aptos/config/src/utils.rs:116-131 | an in-range counter is kept; an unreadable or out-of-range one starts from 0 |
| `PortAllocator.BindPortFromCounter` | fdp-aptos/config/src/utils.rs:173-199 | fails if and only if all 1000 attempts fail; else it returns the first bindable port in cyclic order and the slot after it |
| `PortAllocator.NextKeepsInv` | fdp-aptos/config/src/utils.rs:114-199 | every file or bind step of every process keeps lock exclusion, the counter's slot and the history of returned ports |
| `PortAllocator.RunKeepsInv` | fdp-aptos/config/src/utils.rs:114-199 | the same in every state of every interleaving |
| `PortAllocator.MutualExclusion` | fdp-aptos/config/src/utils.rs:144-171 | at most one process is past the lock, and only while the lock file exists |
| `PortAllocator.PortsUnique` | fdp-aptos/config/src/utils.rs:114-142 | two returned ports are equal if and only if the slots advanced between them are a multiple of 20000, so they differ below that, wraparound included |
| `PortAllocator.PortsInRange` | fdp-aptos/config/src/utils.rs:26-38 | every port returned in any run lies in 10000 to 29999 |

## Left out

- HTTP endpoints, response formats, logging and metrics; node start-up; recovery manager, block preparer and deduper: plumbing around code that is not part of this model.
- VM execution, binary coding, signatures and storage iterators appear only as the assumptions listed above.
- Integer widths: versions, prices, gas sums and event numbers are naturals; the share of the majority use case is an exact fraction, where the code divides 32-bit floats and compares with 0.5.
- Reads of one request see one storage snapshot, and each request is one atomic step at the lock that decides it; the clock is a freshness flag, and the last update time is not kept apart from the stored estimate.
- GasTheorems.RunAgrees: is one-directional for replies, since different price lists can give equal estimates; the if-and-only-if is on the listed blocks, in GasRecords.RunListExact. All run theorems about the cache require a market history of at least 1.
- The expansion of resource groups into resources.
- The polling loop of a waiting request, its timeout, and cancellation of requests; page arithmetic of the listing endpoint.
- Port allocation when a process dies, or its counter write fails, while it holds the lock; the code has no recovery for the former.
- SuiSystem.Next: a failed RPC leaves the chain unchanged; load mode with refresh and save, semaphores, back-off and rate limiting, and the created and updated totals are not modelled; the blob variants are the same steps with a batch of at most 20.
- The text of the publishing script's messages; direct cycles are reported as unordered pairs, and the printed relative paths are not modelled.
- Continuous-integration, plotting and performance scripts, the device statistics tool and network identifiers: easy or pure I/O.
