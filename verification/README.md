# TopoANNS verification model

This project models the host side of TopoANNS, a disk-based approximate nearest-neighbour
search system, and proves what its index builders, its exact-rerank scans, its overlapped
two-stage pipeline and its on-disk formats promise. Vectors are sequences of reals, files are
sequences of bytes, and a square root is any function that returns the non-negative root.

The modules follow the program's parts.

* **Bound-filtered exact rerank.** `VectorMath` (Cauchy-Schwarz, triangle inequality),
  `ProductQuantizer` (reconstruction and the residual-PQ block loop), `CrossTerms` (the
  cross-term table and what the table sums recover), `ErrorBound` (the lower bound and when it
  is sound), `TopK` (the running buffer), `CheckpointScan` and `CheckpointRun` (the scan with an
  up-to-date threshold, its ladder, its rows), `IndexedSearch` (builder, tables and scan in one
  piece), `TiledScan` and `TiledScanExact` (the scan whose threshold is stale inside a tile, and
  when it is exact).
* **Overlapped pipeline.** `BatchPlan` (cutting the queries), `BoundedQueue` (the monitor, as a
  class and as a step system with sleeping and woken threads), `Pipeline` (both stage threads as
  a step system, and its invariant), `PipelineTheorems` and `PipelineErrors` (what every
  interleaving guarantees, and which failure it reports).
* **Builders and files.** `Arithmetic`, `Bytes`, `Sequences`, `Wrappers`; `PageLayout`, `VectorStore`,
  `VectorStoreReads`, `PageCache` (paged vectors); `TopologyFile`, `TopologyExtract`
  (adjacency); `PivotFiles`; `HybridEncode` (one block of the hybrid-PQ builder), `HybridResume`
  and `HybridResumeTheorems` (its pivots and files under kills and resumes); `ResumeBuild` and
  `ResumeTheorems` (those of the residual-PQ builder).
* **Smaller tools.** `Pareto`, `HotSet`, `PrefixTrace` and `PrefixReplay`.

The main results:

1. `CheckpointRun.IndexedQueryIsExact`: from the builder's stored error through the cross-term
   table and the lower bound to the scan, skipping exact reads never changes the top k.
   `ErrorBound.LowerBoundSoundIff` says that the bound is sound exactly when the stored error is at
   least the reconstruction error, `ErrorBound.BoundIsTight` that no greater bound is.
   `IndexedSearch.BuildAndQuery` runs the parts one after another, and its last buffer is the list of
   candidates whose raw vectors are nearest. `CheckpointRun.RowMeaning` says what every row's label means.
   `TiledScanExact.IndexedTiledScanIsExact` is the same chain for the stale threshold,
   `TiledScanExact.CountsOfTiles` says what the tool's counters count,
   `TiledScanExact.TiledScanExactIff` says for any bounds when that scan is exact, and
   `TiledScan.NoViolationsMeansExact` that the tool's verdict of zero violations certifies it.
2. `PipelineTheorems.OverlapRefinesSerial`, `RunsTerminate`, `DeadlockIffNoDepth` and
   `RethrownErrorIsStageFailure`: every interleaving ends, yields the serial loop's outcomes,
   and reports a stage's own failure. They rest on `BoundedQueue.ReachableNoLostWakeup` and
   `BoundedQueue.FifoConservation`.
3. `ResumeTheorems.HistoriesAreSafe` and `HybridResumeTheorems.HistoriesAreSafe`: over every history
   of kills at any byte and resumes, whatever pivots each run trains, a build of a data set with rows
   either refuses or ends with the files (and statistics) of an uninterrupted one. Over every disk
   whatever, `ResumeRefusesForeignIff` and `RefusesForeignIff` say when it refuses.
4. `VectorStore.ConvertVectors` writes byte for byte what `VectorStore.WriteFile` writes,
   `PageCache` reads what a direct read returns, `TopologyExtract.ExtractedLists` is the round trip of an
   index's neighbour lists, and `HybridEncode.EncodeHybridBlock` gives the same block under every
   interleaving of its tasks.

Some promises turned out to hold only under a condition; each has its exact condition or a
general counterexample:

* Reading a vector store back returns what was written for exactly one page size, 4096
  (`VectorStoreReads.RoundTripsIff`): the header always has 4096 bytes, but offsets skip one page.
* The cached reader and `ReadVectorById` agree except on the unused slots of the last page
  (`PageCache.CachedReadAgreesIff`).
* The last checkpoint covers all candidates exactly when `top_l` lies on the ladder
  (`CheckpointRun.LadderReachesOracleIff`); every power of two from 16 up does.
* With ring depth 0 a non-empty run can deadlock (`PipelineTheorems.DeadlockIffNoDepth`).
* The rethrown error is the first one thrown exactly when the thread that threw it also reports
  first (`PipelineErrors.FirstThrownReportedIff`).
* A build without `--resume` over existing rows that is killed can leave rows of the old pivots
  beside new or torn ones, and a later resume then completes with both. `FreshRunKeepsGoodIff` and
  `FreshThenResumeProperIff`, in `ResumeTheorems` and in `HybridResumeTheorems`, say exactly over which
  disks that cannot happen. The two builders differ: the residual-PQ builder does not load the
  pivots of a complete build, the hybrid-PQ builder overwrites its pivots in place.
* `--resume` on an empty dataset reports completion without writing the outputs (`ResumesProperlyIff`
  in both modules).
* The hybrid-PQ builder's count of selected subspaces is the total exactly when no row encoded before
  the last resume selects the outlier table (`HybridResumeTheorems.CountIsTotalIff`).
* The Pareto frontier keeps all fast-enough points of equal recall (`Pareto.DominanceFreeIff`) and
  drops points of at most -1 qps (`Pareto.CoveredIff`).
* A topology header that counts 2^58 nodes or more can pass validation, because sizes wrap
  (`TopologyFile.ReadFileValidIff`, `TopologyFile.WrappedCountAccepted`).
* The tiled scan's result is exact exactly when no filtered rank is below the final threshold; the
  tool counts violations of the stale one (`TiledScanExact.TiledScanExactIff`).
* A rejected replay read leaves the stream behind the record's header, and the next read may return a
  list that was never appended. `PrefixReplay.MismatchedReadLosesPlace` says exactly when it
  succeeds, `PrefixReplay.SuccessfulReadsReturnRecords` which traces are immune.

## Model

| member | source | states |
|---|---|---|
| `ProductQuantizer.ReconstructRow` | tools/topoanns_build_residual_pq.cpp:298-310 | one row of a flat buffer becomes the reconstruction of its code; everything outside the row is untouched |
| `ProductQuantizer.ReconstructVectors` | tools/topoanns_build_residual_pq.cpp:293-311 | the buffer holds the reconstructions of all rows, in row order |
| `ProductQuantizer.ReconstructInChunk` | tools/topoanns_build_residual_pq.cpp:301-308 | when the offsets tile the dimensions, each dimension carries the center selected by its own chunk, whatever later chunks write |
| `ProductQuantizer.ReconstructRowsRow` | tools/topoanns_build_residual_pq.cpp:298-310 | row r of the flat result depends on code row r alone |
| `ProductQuantizer.ComputeResiduals` | tools/topoanns_build_residual_pq.cpp:313-323 | fails exactly on differing sizes, otherwise element-wise base minus reconstruction |
| `ProductQuantizer.RowErrors` | tools/topoanns_build_residual_pq.cpp:580-595 | error r is the root of the squared distance between residual row r and its reconstruction |
| `ProductQuantizer.BuildResidualBlock` | tools/topoanns_build_residual_pq.cpp:566-605 | whatever codes the encoder picks, each stored error is the distance from the original vector to base plus residual reconstruction |
| `CrossTerms.BuildPq2CrossTerms` | src/search/search_resources.cpp:52-91 | rejects differing dimensions, chunk counts or offsets, otherwise fills the flat table so that every (chunk, base center, residual center) cell is twice the dot product of the two centers |
| `CrossTerms.CrossCellAt` | src/search/search_resources.cpp:72-86 | the flat index decodes to its three coordinates, so no two entries share a cell |
| `CrossTerms.ChunkIdentity` | src/search/search_resources.cpp:74-88 | on one chunk: base entry plus residual entry plus cross term is query norm plus refined distance |
| `CrossTerms.RefinedDistanceIdentity` | src/search/rerank_exact.cu:818-834 | over any chunk partition the refined candidate distance is the squared query norm plus the squared distance to base plus residual reconstruction |
| `ErrorBound.LowerBoundSound` | tools/topoanns_learned_rerank_stop_dataset.cpp:311-315 | a stored error at least the reconstruction error makes the bound at most the true squared distance, for every query |
| `ErrorBound.LowerBoundSoundIff` | tools/topoanns_pq34_bound_analysis.cpp:246-250 | the bound is sound for all queries if and only if the stored error is at least the reconstruction error |
| `ErrorBound.BoundAttained` | tools/topoanns_learned_rerank_stop_dataset.cpp:311-315 | for every query, reconstruction and stored error some vector within that error, at exactly that error unless the query is nearer, has the bound as its true squared distance |
| `ErrorBound.BoundIsTight` | tools/topoanns_learned_rerank_stop_dataset.cpp:311-315 | the bound is the greatest value that is at most the true squared distance of every vector within the stored error |
| `ErrorBound.IndexBoundSound` | tools/topoanns_learned_rerank_stop_dataset.cpp:569-578 | with the builder's stored error, the bound formed from table sums minus query norm never exceeds the true squared distance |
| `TopK.SortUnique` | tools/topoanns_learned_rerank_stop_dataset.cpp:317-322 | candidates have one sorted permutation under (distance, node id), so any correct sort gives it |
| `TopK.SortIsSortedPermutation` | tools/topoanns_learned_rerank_stop_dataset.cpp:330-330 | the sort orders its input and keeps its multiset |
| `TopK.RunningTopK.InsertIntoTopK` | tools/topoanns_learned_rerank_stop_dataset.cpp:324-343 | the buffer becomes the k least of its old content and the candidate, in order; the result says whether the candidate entered |
| `TopK.RunningTopK.ReplaceLast` | tools/topoanns_learned_rerank_stop_dataset.cpp:336-341 | overwriting the last entry and swapping it forward equals a sorted insertion |
| `TopK.TopKExtend` | tools/topoanns_learned_rerank_stop_dataset.cpp:324-343 | one insertion turns the k least of a list into the k least of the list with one more candidate |
| `TopK.PushBeyond` | tools/topoanns_learned_rerank_stop_dataset.cpp:333-335 | a full buffer is unchanged by a candidate that is not below its last entry |
| `TopK.TopKMember` | tools/topoanns_learned_rerank_stop_dataset.cpp:396-412 | a candidate is among the k least exactly when it occurs and fewer than k are strictly below it |
| `TopK.TopKSplits` | tools/topoanns_learned_rerank_stop_dataset.cpp:317-343 | by distance and node id alone: the k least and some rest make up the list, nothing in the rest is nearer, equal distances go to the smaller id, and the k least are in that order |
| `TopK.TopKMemberEarlier` | tools/topoanns_learned_rerank_stop_dataset.cpp:324-343 | a member of the top k over a longer list that already occurs in a prefix is in the prefix's top k |
| `TopK.KthNonIncreasing` | tools/topoanns_learned_rerank_stop_dataset.cpp:626-626 | the k-th distance never grows as candidates are added |
| `CheckpointScan.BuildRerankCheckpointLadder` | tools/topoanns_learned_rerank_stop_dataset.cpp:288-309 | the ladder is exactly the checkpoint values up to top_l, ascending |
| `CheckpointScan.StepIsAnEighth` | tools/topoanns_learned_rerank_stop_dataset.cpp:288-309 | from a checkpoint to the next is the greatest power of two that is at most an eighth of it, but at least 2 and at most 128 |
| `CheckpointScan.PowersOfTwoOnLadder` | tools/topoanns_learned_rerank_stop_dataset.cpp:288-309 | every power of two from 16 up is the last checkpoint of its own ladder |
| `CheckpointScan.FilteredScanIsTopK` | tools/topoanns_learned_rerank_stop_dataset.cpp:591-618 | with sound bounds the filtered buffer after any prefix is the sorted k least exact candidates of that prefix |
| `CheckpointScan.IndexScoresSound` | tools/topoanns_learned_rerank_stop_dataset.cpp:569-578 | candidates refined over an index with the builder's errors have sound bounds |
| `CheckpointScan.BuildOracleTopK` | tools/topoanns_learned_rerank_stop_dataset.cpp:396-412 | the ids of the first top_k sorted candidates whose id is valid |
| `CheckpointScan.OracleIsTopK` | tools/topoanns_learned_rerank_stop_dataset.cpp:531-547 | over scored ranks the oracle is the id list of the true top k |
| `CheckpointScan.ComputeTopKOverlap` | tools/topoanns_learned_rerank_stop_dataset.cpp:355-364 | counts the buffer entries whose id the oracle holds |
| `CheckpointScan.HitsGrow` | tools/topoanns_learned_rerank_stop_dataset.cpp:355-364 | with distinct ids, an oracle member in the running top k is never evicted later |
| `CheckpointScan.OverlapMonotone` | tools/topoanns_learned_rerank_stop_dataset.cpp:580-713 | the oracle overlap never decreases from one prefix to a longer one |
| `CheckpointRun.ReadsPlusFiltered` | tools/topoanns_learned_rerank_stop_dataset.cpp:591-618 | every valid rank is read or filtered, once |
| `CheckpointRun.CountsOfRanks` | tools/topoanns_learned_rerank_stop_dataset.cpp:591-618 | the exact reads and the filtered ranks are counted one by one: a valid rank is filtered exactly when the buffer is full and its lower bound is above the last distance |
| `CheckpointRun.RowCounts` | tools/topoanns_learned_rerank_stop_dataset.cpp:580-713 | the counts of every row are those of the ranks up to its prefix |
| `CheckpointRun.RowsSpec` | tools/topoanns_learned_rerank_stop_dataset.cpp:580-625 | rows come from increasing checkpoints at which the buffer is full, each with that prefix's values |
| `CheckpointRun.RowAtCheckpoint` | tools/topoanns_learned_rerank_stop_dataset.cpp:580-625 | no checkpoint at which the buffer is full is left without a row |
| `CheckpointRun.OverlapMeaning` | tools/topoanns_learned_rerank_stop_dataset.cpp:355-364 | the overlap with the final top k counts the common ids, is k exactly when all its ids are there, and then the two are the same list |
| `CheckpointRun.RowMeaning` | tools/topoanns_learned_rerank_stop_dataset.cpp:626-669 | for sound bounds and distinct ids every row has the exact top k of its prefix and its last distance, and a label of 0 or 1 that is 0 if and only if every id of the true top k is in the buffer |
| `CheckpointRun.RowsMonotone` | tools/topoanns_learned_rerank_stop_dataset.cpp:626-713 | along one query's rows the k-th distance never grows, the overlap never falls, and the label drops from 1 to 0 at most once |
| `CheckpointRun.LastRowIsOracle` | tools/topoanns_learned_rerank_stop_dataset.cpp:664-669 | when the ladder reaches top_l, the last row has the unfiltered buffer and label 0 |
| `CheckpointRun.IndexedQueryIsExact` | tools/topoanns_learned_rerank_stop_dataset.cpp:531-713 | builder, tables, bound, scan and ladder together: the final buffer is the exact top k over all candidates |
| `CheckpointRun.TopKIsNearest` | tools/topoanns_learned_rerank_stop_dataset.cpp:531-547 | the true top k in terms of ids and vectors: each entry is a valid id with its squared distance to the query, in order, and whoever is missing is not nearer than any entry of a full buffer |
| `CheckpointRun.LadderReachesOracleIff` | tools/topoanns_learned_rerank_stop_dataset.cpp:288-309 | the last stage has the answer for every sound input if and only if top_l is a checkpoint |
| `CheckpointRun.ComputeSquaredL2` | tools/topoanns_learned_rerank_stop_dataset.cpp:345-353 | the loop computes the squared distance |
| `CheckpointRun.CollectExact` | tools/topoanns_learned_rerank_stop_dataset.cpp:531-542 | the exact candidates of the valid ranks, in rank order |
| `CheckpointRun.CollectLowerBounds` | tools/topoanns_learned_rerank_stop_dataset.cpp:567-578 | each valid rank's lower bound, from distance minus query norm and stored error |
| `CheckpointRun.ScanWindow` | tools/topoanns_learned_rerank_stop_dataset.cpp:584-618 | one window moves buffer and counters from its first to its last rank |
| `CheckpointRun.RunStages` | tools/topoanns_learned_rerank_stop_dataset.cpp:580-713 | the stage loop emits exactly the specified rows |
| `CheckpointRun.RunQuery` | tools/topoanns_learned_rerank_stop_dataset.cpp:486-713 | a query's rows are a function of its scored ranks and ladder; none when fewer than top_k ranks are valid |
| `IndexedSearch.BuildIndex` | tools/topoanns_build_residual_pq.cpp:566-605 | block builder and cross-term table together: fails exactly on differing layouts, otherwise an index whose stored errors are exact |
| `IndexedSearch.BoundsAreTight` | tools/topoanns_learned_rerank_stop_dataset.cpp:567-578 | over such an index a rank's lower bound is the greatest value that is at most the squared distance of every vector within the stored error of what the rank's codes reconstruct |
| `IndexedSearch.Query` | tools/topoanns_learned_rerank_stop_dataset.cpp:486-713 | a query over such an index whose candidate count is a checkpoint ends with the exact top k of all candidates, by the vectors themselves, and label 0 |
| `IndexedSearch.BuildAndQuery` | tools/topoanns_learned_rerank_stop_dataset.cpp:486-713 | the same from raw vectors, codes and pivots to the rows: the last buffer holds the candidates whose raw vectors are nearest to the query |
| `TiledScan.ScanQuery` | tools/topoanns_pq34_bound_analysis.cpp:426-487 | the in-place tile loops compute the specified state: best distances, threshold, filtered count, first filtered rank, violations |
| `TiledScan.ShiftInsert` | tools/topoanns_pq34_bound_analysis.cpp:475-484 | shifting entries up from the back is insertion into the fixed-length sorted list |
| `TiledScan.InsertBestIsPush` | tools/topoanns_pq34_bound_analysis.cpp:475-484 | insertion among infinities is insertion into the growing buffer |
| `TiledScan.NoViolationsMeansExact` | tools/topoanns_pq34_bound_analysis.cpp:464-468 | zero safety violations certify the k smallest exact distances, whatever the bounds |
| `TiledScan.StaleThresholdIsExact` | tools/topoanns_pq34_bound_analysis.cpp:432-487 | with sound bounds, for every tile size: no violation, and the k smallest exact distances of all valid ranks |
| `TiledScanExact.PartsOfTiles` | tools/topoanns_pq34_bound_analysis.cpp:432-487 | every valid rank is kept or filtered, once |
| `TiledScanExact.CountsOfTiles` | tools/topoanns_pq34_bound_analysis.cpp:450-469 | for all bounds and tile sizes: the filtered count is the number of valid ranks whose bound is above the threshold of their tile, the violations are those of them whose exact distance is below it, and the first filtered rank is 1 plus the least of them, or 0 |
| `TiledScanExact.CountsFiltered` | tools/topoanns_pq34_bound_analysis.cpp:450-472 | the filtered count is the number of ranks that are not kept |
| `TiledScanExact.ThresholdOfTile` | tools/topoanns_pq34_bound_analysis.cpp:432-487 | the threshold of a tile is the k-th smallest exact distance kept in the tiles before it, or infinity |
| `TiledScanExact.KSmallestAre` | tools/topoanns_pq34_bound_analysis.cpp:426-487 | what exact means: the distances of valid ranks in order, as many as there are up to k, and no missing one is below any of k |
| `TiledScanExact.BestIsKept` | tools/topoanns_pq34_bound_analysis.cpp:471-486 | the best list is the sorted k smallest exact distances of the ranks that were kept |
| `TiledScanExact.TiledScanExactIff` | tools/topoanns_pq34_bound_analysis.cpp:432-487 | for all bounds and tile sizes: the result is the k smallest exact distances of all valid ranks if and only if no filtered rank is below the final threshold |
| `TiledScanExact.ViolationCanBeHarmless` | tools/topoanns_pq34_bound_analysis.cpp:464-468 | so a counted violation, which compares with the stale threshold, need not harm: an input with one violation and the exact result |
| `TiledScanExact.RefinedRank` | tools/topoanns_pq34_bound_analysis.cpp:407-452 | a refined candidate is scored with its squared distance and with the bound of the distance to what its codes reconstruct |
| `TiledScanExact.IndexedTiledScanIsExact` | tools/topoanns_pq34_bound_analysis.cpp:407-487 | builder, tables, clamped bound and tiled scan together: over an index with the builder's errors, no violation and the exact result for every tile size |
| `BatchPlan.BuildBatchPlan` | tools/topoanns_overlap_pipeline_eval.cpp:383-410 | an error for microbatch 0, otherwise slices that tile all queries, every one but the last of microbatch size, the last below twice that size when merging |
| `BatchPlan.PlanSizes` | tools/topoanns_overlap_pipeline_eval.cpp:393-410 | with merging no batch is smaller than a microbatch, unless all queries are, or as large as two; without it none is larger than one |
| `BatchPlan.MergedPlan` | tools/topoanns_overlap_pipeline_eval.cpp:396-403 | the merging branch: full batches, the last enlarged by the remainder |
| `BatchPlan.ExactlyOneSlice` | tools/topoanns_overlap_pipeline_eval.cpp:404-408 | every query lies in exactly one slice |
| `BatchPlan.MetricsAccount` | tools/topoanns_overlap_pipeline_eval.cpp:1889-1893 | the reported count, first and last size account for every query |
| `BatchPlan.MergedFlagMeansLargerTail` | tools/topoanns_overlap_pipeline_eval.cpp:1894-1897 | the reported flag tells exactly whether the last batch exceeds the microbatch size |
| `BoundedQueue.BoundedQueue.Push` | tools/topoanns_overlap_pipeline_eval.cpp:1193-1201 | one critical section of Push: new items, waiters and outcome, nothing else changed |
| `BoundedQueue.BoundedQueue.Pop` | tools/topoanns_overlap_pipeline_eval.cpp:1203-1213 | one critical section of Pop: new items, waiters and outcome, nothing else changed |
| `BoundedQueue.BoundedQueue.Close` | tools/topoanns_overlap_pipeline_eval.cpp:1215-1220 | closes and wakes every sleeper on both sides, items kept |
| `BoundedQueue.StepKeeps` | tools/topoanns_overlap_pipeline_eval.cpp:1193-1220 | every step of any thread, spurious wakeups included, keeps the no-lost-wakeup invariant |
| `BoundedQueue.ReachableNoLostWakeup` | tools/topoanns_overlap_pipeline_eval.cpp:1193-1220 | in every reachable state sleepers on either condition are covered by woken threads for each item or free slot, and nobody sleeps once closed |
| `BoundedQueue.MutualSleepIffNoCapacity` | tools/topoanns_overlap_pipeline_eval.cpp:1193-1213 | producers and consumers can all be asleep together exactly when the capacity is 0 |
| `BoundedQueue.SleepersAreServed` | tools/topoanns_overlap_pipeline_eval.cpp:1193-1220 | while a sleeper's condition holds, or the queue is closed, some thread on its side is runnable |
| `BoundedQueue.OneWakeupEach` | tools/topoanns_overlap_pipeline_eval.cpp:1193-1213 | a push wakes exactly one sleeping consumer, a pop exactly one sleeping producer, if there is one |
| `BoundedQueue.FifoConservation` | tools/topoanns_overlap_pipeline_eval.cpp:1199-1210 | over every run the values accepted are the values handed out followed by the queue content, in order |
| `BoundedQueue.ClosedOnlyDrains` | tools/topoanns_overlap_pipeline_eval.cpp:1196-1220 | after Close nothing is accepted, whatever the threads do |
| `Pipeline.RunSerialExperiment` | tools/topoanns_overlap_pipeline_eval.cpp:1934-1955 | one outcome per slice, in plan order, each of stage B run on the slice and on what stage A makes of it |
| `Pipeline.SerialAt` | tools/topoanns_overlap_pipeline_eval.cpp:1948-1954 | outcome i of the serial loop is stage B on slice i and on stage A's data for slice i |
| `Pipeline.StepInv` | tools/topoanns_overlap_pipeline_eval.cpp:2008-2049 | every step of either thread, failures and spurious wakeups included, keeps the pipeline invariant |
| `Pipeline.PushedInv` | tools/topoanns_overlap_pipeline_eval.cpp:2015-2020 | a completed push queues the next slice's stage A output behind the earlier ones |
| `Pipeline.PushClosedInv` | tools/topoanns_overlap_pipeline_eval.cpp:1196-1198 | a push on a closed queue keeps the invariant, under which such a push follows a failure stage B has already recorded |
| `PipelineTheorems.ReachableInv` | tools/topoanns_overlap_pipeline_eval.cpp:1994-2055 | every state of every run satisfies the invariant |
| `PipelineTheorems.DeadlockIffNoDepth` | tools/topoanns_overlap_pipeline_eval.cpp:1994-2049 | some interleaving gets stuck unfinished exactly when the ring depth is 0 and the plan is not empty |
| `PipelineTheorems.StepMeasure` | tools/topoanns_overlap_pipeline_eval.cpp:2008-2049 | every step lowers the measure of remaining work, except that a spurious wakeup raises it by one |
| `PipelineTheorems.RunsTerminate` | tools/topoanns_overlap_pipeline_eval.cpp:2008-2052 | whatever the schedule and whatever fails, a run has at most a fixed number of steps per slice plus its spurious wakeups, and ends finished when ring depth is at least 1 |
| `PipelineTheorems.OutcomesAreSerialPrefix` | tools/topoanns_overlap_pipeline_eval.cpp:2037-2043 | at every moment the stored outcomes are the serial loop's first ones, outcome j being stage B on slice j and on stage A's data for it |
| `PipelineTheorems.OverlapRefinesSerial` | tools/topoanns_overlap_pipeline_eval.cpp:1994-2055 | a finished run without stage failure has an outcome for every slice, exactly the serial ones, each of stage B on stage A's data, and no error |
| `PipelineTheorems.SortedOutcomesAreSerial` | tools/topoanns_overlap_pipeline_eval.cpp:1632-1635 | over a tiling plan, any sorted permutation of the outcomes is the serial list |
| `PipelineTheorems.RethrownErrorIsStageFailure` | tools/topoanns_overlap_pipeline_eval.cpp:2000-2055 | an error is rethrown exactly when a stage failed, and it is a stage failure, never the secondary push error |
| `PipelineTheorems.FirstRecordedStays` | tools/topoanns_overlap_pipeline_eval.cpp:2000-2005 | the first recorded error is never replaced |
| `PipelineTheorems.SoleFailureReported` | tools/topoanns_overlap_pipeline_eval.cpp:2023-2055 | a single stage failure is the one reported |
| `PipelineTheorems.FirstThrownMayLose` | tools/topoanns_overlap_pipeline_eval.cpp:2023-2048 | for every plan and depth a run in which stage A throws first but stage B's failure is reported |
| `PipelineErrors.OneFirstReport` | tools/topoanns_overlap_pipeline_eval.cpp:2000-2005 | a run that recorded an error has exactly one first report |
| `PipelineErrors.ReportIsOwn` | tools/topoanns_overlap_pipeline_eval.cpp:2023-2047 | what is reported first, and so rethrown, is a stage failure of the reporting thread itself |
| `PipelineErrors.FirstThrownReportedIff` | tools/topoanns_overlap_pipeline_eval.cpp:2000-2055 | in every run with a report the first failure thrown is the one rethrown if and only if the thread that threw it reports first, as it does when it reports before another failure is thrown |
| `PipelineErrors.ReportIffFailure` | tools/topoanns_overlap_pipeline_eval.cpp:2000-2055 | a finished run has such a report exactly if some stage failed |
| `PipelineErrors.BothReportsReachable` | tools/topoanns_overlap_pipeline_eval.cpp:2023-2048 | from every reachable state with both failures pending and nothing recorded, either can still be the one rethrown |
| `PipelineErrors.EveryCallCanFail` | tools/topoanns_overlap_pipeline_eval.cpp:2008-2049 | for every plan, and ring depth from 1 on, each set-up, stage or tear-down call of either thread can be the first failure, with exactly the calls before it done |
| `ResumeBuild.InspectPrefix` | tools/topoanns_build_residual_pq.cpp:172-193 | what the inspection reports of any byte prefix of a full output |
| `ResumeBuild.OutputDirectory.ReadExistingErrorStats` | tools/topoanns_build_residual_pq.cpp:398-428 | the sum, the least and the greatest of the first stored errors, read in bounded buffers |
| `ResumeBuild.FileStatsSummarize` | tools/topoanns_build_residual_pq.cpp:398-428 | over stored errors: the arithmetic sum, the least if there is one, and the greatest or 0 |
| `ResumeBuild.ExtendStatsSummarize` | tools/topoanns_build_residual_pq.cpp:581-595 | continuing the statistics of some errors over further rows gives the sum, least and greatest of all of them |
| `ResumeBuild.OutputDirectory.Run` | tools/topoanns_build_residual_pq.cpp:435-617 | every way one run can end, kills at any point included, satisfies the relation between the disk before and after |
| `ResumeBuild.OutputDirectory.WriteBlocks` | tools/topoanns_build_residual_pq.cpp:566-608 | the block loop appends the remaining rows to both files and folds their errors into the statistics, for any block size |
| `ResumeBuild.OutputDirectory.EncodeBlock` | tools/topoanns_build_residual_pq.cpp:568-600 | one block appends the codes and errors of its rows and brings the sum, least and greatest error up to date |
| `ResumeTheorems.ResumeRun` | tools/topoanns_build_residual_pq.cpp:450-605 | a resume on a good disk leaves a good disk, and if the data set has rows completes only with the full build and its statistics |
| `ResumeTheorems.FreshRun` | tools/topoanns_build_residual_pq.cpp:485-605 | a run on absent outputs leaves a good disk, and completes only with the full build |
| `ResumeTheorems.HistoriesAreSafe` | tools/topoanns_build_residual_pq.cpp:450-605 | after any history of kills and resumes no file mixes pivot sets, and, for a data set with rows, every completion has the files and statistics of one uninterrupted build |
| `ResumeTheorems.CompletionSummarizes` | tools/topoanns_build_residual_pq.cpp:548-614 | the statistics of a proper completion are the sum, the least and the greatest of the errors of all rows |
| `ResumeTheorems.DecisionIff` | tools/topoanns_build_residual_pq.cpp:450-483 | over every disk: a resume goes ahead exactly if both outputs are absent, or both start with this job's headers and hold the same whole number of rows, with pivots if there are rows; it starts behind these and is complete if these are all |
| `ResumeTheorems.ResumeRefusesForeignIff` | tools/topoanns_build_residual_pq.cpp:450-483 | so over every disk, good or not: the exact condition under which an unkilled resume refuses, and then nothing changes |
| `ResumeTheorems.ResumeRefusesIff` | tools/topoanns_build_residual_pq.cpp:452-477 | on a good disk, a resume that is not killed refuses exactly if the outputs are neither both absent nor hold the same whole number of rows, or the pivot file is torn |
| `ResumeTheorems.EmptyDatasetResumeWritesNothing` | tools/topoanns_build_residual_pq.cpp:478-482 | with no rows, a resume on absent outputs reports completion and writes nothing |
| `ResumeTheorems.ResumesProperlyIff` | tools/topoanns_build_residual_pq.cpp:450-605 | every completion a resume reports on a good disk is a full build if and only if the data set has rows |
| `ResumeTheorems.FreshRunKeepsGoodIff` | tools/topoanns_build_residual_pq.cpp:485-605 | over every good disk: a fresh run leaves a good disk, wherever it is killed, if and only if no output has rows |
| `ResumeTheorems.FreshThenResumeProperIff` | tools/topoanns_build_residual_pq.cpp:450-605 | over every good disk: all completions of a fresh run and the resume behind it are proper if and only if the outputs hold no whole rows, or fewer than all and those the same under both pivot sets |
| `ResumeTheorems.FreshRunOverRowsCanMix` | tools/topoanns_build_residual_pq.cpp:485-545 | how it fails: a fresh run over existing rows, killed before truncation, then a resume completes with rows of two pivot sets |
| `ResumeTheorems.MixedIsFullBuildIff` | tools/topoanns_build_residual_pq.cpp:485-545 | those outputs are a full build under the new pivots exactly when the kept rows are the new pivots' rows |
| `Bytes.LEDigit` | tools/topoanns_build_residual_pq.cpp:430-433 | header and word values are stored least significant byte first, as a little-endian host writes them |
| `PageLayout.CreateFromVectorBytes` | src/io/vector_page_layout.cpp:15-41 | fails exactly on zero sizes or a vector larger than a page, otherwise packs as many whole vectors as fit |
| `PageLayout.SlotsDisjointInPage` | src/io/vector_page_layout.cpp:50-57 | resolved slots stay inside their page, behind the header, and never overlap |
| `VectorStore.HeaderRoundTrip` | src/builder/vector_store_builder.cpp:12-104 | the header written for a store is accepted and gives back its vector count and every other field that fits its width |
| `VectorStore.HeaderAcceptedIff` | src/builder/vector_store_builder.cpp:82-104 | a header is accepted exactly if it starts with the magic and version that are written |
| `VectorStore.WriteFile` | src/builder/vector_store_builder.cpp:40-80 | fails exactly on a vector of the wrong width, otherwise writes header and zero-padded pages of consecutive vectors |
| `VectorStore.FillPage` | src/builder/vector_store_builder.cpp:62-74 | the reused page buffer holds the page's vectors and zeros behind them |
| `VectorStore.PackChunk` | tools/topoanns_build_float_subset.cpp:199-210 | one chunk through the page buffer: full pages written and cleared, the rest buffered |
| `VectorStore.PackAllPacked` | tools/topoanns_build_float_subset.cpp:191-227 | after any number of vectors the packer has written exactly the full pages and buffers the rest |
| `VectorStore.StoredVectors` | tools/topoanns_build_float_subset.cpp:185-210 | from an input that stores given vectors behind its 8-byte header, these are the vectors streamed |
| `VectorStore.ConvertVectors` | tools/topoanns_build_float_subset.cpp:175-232 | for every chunk size the packer emits the file WriteFile emits for the vectors the input stores; it fails exactly when a vector exceeds a page or the input is short |
| `VectorStoreReads.ReadsBack` | src/builder/vector_store_builder.cpp:106-132 | with 4096-byte pages every stored vector is read back and every other id is rejected |
| `VectorStoreReads.RoundTripsIff` | src/builder/vector_store_builder.cpp:106-132 | reading back works for all stores of a layout if and only if its page size is 4096 |
| `VectorStoreReads.BytesOfVector` | src/io/vector_page_layout.cpp:50-57 | the resolved offset addresses the vector, whenever the header is as long as the layout says |
| `PageCache.HostVectorStoreReader.ReadVector` | tools/topoanns_learned_rerank_stop_dataset.cpp:80-88 | whatever was read before, the result is that of a direct read; the new cache state is determined; the page is resident after success |
| `PageCache.HostVectorStoreReader.LoadPage` | tools/topoanns_learned_rerank_stop_dataset.cpp:91-107 | a short page fails without any change, otherwise the page enters and at most the oldest one leaves |
| `PageCache.LoadKeeps` | tools/topoanns_learned_rerank_stop_dataset.cpp:100-106 | order queue duplicate-free and equal to the key set, at most 4096 pages, contents as in the file, and the loaded page not evicted |
| `PageCache.CacheIsLatestLoads` | tools/topoanns_learned_rerank_stop_dataset.cpp:91-107 | after any run of reads the queue is exactly the 4096 most recent loads |
| `PageCache.SlotOfPage` | tools/topoanns_learned_rerank_stop_dataset.cpp:80-88 | a slot cut from its page equals the bytes at the resolved offset |
| `PageCache.CachedReadAgreesIff` | tools/topoanns_learned_rerank_stop_dataset.cpp:80-107 | cached reader and ReadVectorById agree except on the unused slots of the last page |
| `TopologyFile.ReadsWhatWasWritten` | src/io/topology_layout.cpp:112-171 | reading a written topology file returns the data set |
| `TopologyFile.AcceptedIff` | src/io/topology_layout.cpp:12-39 | a file is accepted exactly if it starts with the magic, version and degree that are written and is as long as the rows its header counts, in 64-bit arithmetic |
| `TopologyFile.WritesWhatWasRead` | src/io/topology_layout.cpp:112-171 | reading an accepted file and writing it again changes nothing but header bytes that are not read |
| `TopologyFile.ReadFileValidIff` | src/io/topology_layout.cpp:13-39 | an accepted file has as many rows as its header counts if and only if the count is below 2^58 |
| `TopologyFile.WrappedCountAccepted` | src/io/topology_layout.cpp:31-38 | a bare header that counts 2^58 nodes is accepted without any row |
| `TopologyFile.MakePadded` | src/io/topology_layout.cpp:85-110 | fails exactly on a wrong list count or a list of more than 64, otherwise pads each list to a row of 64 |
| `TopologyFile.PaddedRow` | src/io/topology_layout.cpp:98-107 | row i is list i followed by invalid ids |
| `TopologyExtract.NodeOfSector` | src/io/diskann_disk_index.cpp:63-74 | the computed offset of a node is its sector plus its place in it, and its record ends inside the sector |
| `TopologyExtract.NodeOfItsOwn` | src/io/diskann_disk_index.cpp:59-74 | a node with sectors of its own starts on a sector, the first one behind the header sector, and takes the least number of sectors that hold it |
| `TopologyExtract.ReadableIff` | tools/topoanns_build_float_subset.cpp:251-300 | the extraction can read the index exactly if the last sector of the last node is in the file |
| `TopologyExtract.ListRow` | tools/topoanns_build_float_subset.cpp:267-284 | round trip of a record: from a degree and list stored behind the coordinates, the row has the first 64 neighbours in place, those outside the data set made invalid, and their number is the filtered count |
| `TopologyExtract.ExtractRow` | tools/topoanns_build_float_subset.cpp:267-284 | in-range neighbours keep their places, the others become invalid and are counted |
| `TopologyExtract.RowInWindow` | tools/topoanns_build_float_subset.cpp:258-284 | a record in a sector buffer is the record at the same place in the file |
| `TopologyExtract.ExtractBySector` | tools/topoanns_build_float_subset.cpp:251-294 | the sequential sector scan produces for every node the row at its computed offset |
| `TopologyExtract.ExtractByNode` | tools/topoanns_build_float_subset.cpp:295-323 | so does the node-by-node scan |
| `TopologyExtract.ExtractTopology` | tools/topoanns_build_float_subset.cpp:234-327 | both read paths produce the rows at the computed offsets, so from an index that stores given lists the extracted file reads as their kept rows; it fails exactly when a node has room for fewer than 64 neighbours or the index is too short |
| `TopologyExtract.ExtractedLists` | tools/topoanns_build_float_subset.cpp:236-326 | round trip of a whole index: entry i of node id is neighbour i of the stored list if it is among the first 64 and in range, else the invalid id, and the filtered total is the number of stored neighbours out of range among the first 64 |
| `TopologyExtract.ExtractedFileReads` | tools/topoanns_build_float_subset.cpp:121-132 | the extracted file is what WriteFile writes for the rows, and ReadFile returns them |
| `TopologyExtract.ExtractedEntry` | tools/topoanns_build_float_subset.cpp:273-284 | each entry of the output is the node's neighbour at that place if it has one in range, else invalid |
| `TopologyExtract.KeptPlusFiltered` | tools/topoanns_build_float_subset.cpp:273-284 | valid entries plus filtered neighbours are all neighbours, at most 64 per node |
| `HybridEncode.CellHasOwner` | tools/topoanns_build_hpq.cpp:445-452 | every cell of a block belongs to one task at one position |
| `HybridEncode.TaskOwnsItsCells` | tools/topoanns_build_hpq.cpp:445-452 | every step of a task writes a cell of the block that it owns |
| `HybridEncode.StepWritesOneCell` | tools/topoanns_build_hpq.cpp:443-495 | a task's next step writes exactly one cell, and one no task has written before |
| `HybridEncode.EncodeBlock` | tools/topoanns_build_hpq.cpp:443-495 | any interleaving of the tasks gives the same row-major codes and choices and the same count |
| `HybridEncode.SequentialIsSchedule` | tools/topoanns_build_hpq.cpp:443-445 | the order of a single thread is one of these interleavings |
| `HybridEncode.PackSelectors` | tools/topoanns_build_hpq.cpp:496-503 | unpacking a row's bits returns its choices and the padding bits are zero |
| `HybridEncode.BitIsShifted` | tools/topoanns_build_hpq.cpp:496-503 | bit k of a selector byte counts from the least significant one |
| `HybridEncode.StrideIsLeast` | tools/topoanns_build_hpq.cpp:379-379 | a row takes as few selector bytes as its choices need |
| `HybridEncode.EncodeHybridBlock` | tools/topoanns_build_hpq.cpp:436-503 | hybrid codes come from the better table, the bits say which, and selected_subspaces is the number of bits set |
| `HybridEncode.HybridPrefix` | tools/topoanns_build_hpq.cpp:477-488 | chunk by chunk the hybrid error is at most the base error, strictly less once a bit is set |
| `HybridEncode.HybridNeverWorse` | tools/topoanns_build_hpq.cpp:477-493 | no row's hybrid reconstruction is farther than its base reconstruction, and it is closer exactly when a bit is set |
| `HybridResume.OutputFiles.Run` | tools/topoanns_build_hpq.cpp:357-515 | every way one run can end, from loading or retraining and overwriting the outlier pivots to the close, kills at any point included, satisfies the relation between the disk before and after |
| `HybridResume.OutputFiles.Encode` | tools/topoanns_build_hpq.cpp:396-515 | opening truncates the outputs in turn when starting at row 0; nothing is written before all are open |
| `HybridResume.OutputFiles.WriteBlocks` | tools/topoanns_build_hpq.cpp:428-515 | the block loop and the close extend every output by the remaining rows, for any block size, and count the selected subspaces of those rows |
| `HybridResumeTheorems.CompletedIff` | tools/topoanns_build_hpq.cpp:324-331 | the completed-row count of a file is n exactly when it is 8 bytes plus n whole rows, or absent with n = 0 |
| `HybridResumeTheorems.RunKeepsGood` | tools/topoanns_build_hpq.cpp:357-515 | a resume, or any run that finds no rows, mixes no pivot sets and, for a data set with rows, completes only with the full build of the pivots on disk |
| `HybridResumeTheorems.HistoriesAreSafe` | tools/topoanns_build_hpq.cpp:357-515 | so does every history of kills and runs, each training whatever pivots it trains, in which every run that finds rows resumes |
| `HybridResumeTheorems.ResumesProperlyIff` | tools/topoanns_build_hpq.cpp:376-394 | every completion a resume reports on a good disk is a full build if and only if the data set has rows |
| `HybridResumeTheorems.ResumeRefusesIff` | tools/topoanns_build_hpq.cpp:365-394 | on a good disk an unkilled resume refuses exactly when the pivots are torn or the outputs do not all hold the same whole number of rows |
| `HybridResumeTheorems.FreshRefusesIff` | tools/topoanns_build_hpq.cpp:357-364 | an unkilled run without resume refuses exactly when its own base codes were cut off inside their header |
| `HybridResumeTheorems.RefusesForeignIff` | tools/topoanns_build_hpq.cpp:357-394 | over every disk, good or not: an unkilled run refuses, without touching an output, exactly if a checked output does not start with this job's header, or it resumes and the pivots are torn or the outputs do not all hold the same whole number of rows |
| `HybridResumeTheorems.FreshRunKeepsGoodIff` | tools/topoanns_build_hpq.cpp:357-377 | over every good disk: a run without resume leaves a good disk, wherever it is killed, if and only if no output has rows or it refuses at once |
| `HybridResumeTheorems.FreshThenResumeProperIff` | tools/topoanns_build_hpq.cpp:357-515 | over every good disk: all completions of a run without resume and the resume behind it are proper if and only if the outputs hold no whole rows, or rows that are the same under the old pivots and all the next run may load |
| `HybridResumeTheorems.CountIsTotalIff` | tools/topoanns_build_hpq.cpp:427-515 | the reported count covers the rows of the completing run only; it is the total exactly when earlier rows select nothing |
| `HybridResume.SelectedIsSum` | tools/topoanns_build_hpq.cpp:427-515 | the reported count adds up the selected subspaces of the rows, each row once |
| `Pareto.ComputeParetoFrontier` | tools/topoanns_eval_sift.cpp:1068-1086 | non-decreasing recall, strictly decreasing qps, and exactly the points faster than everything behind them and than -1 |
| `Pareto.OnFrontierIff` | tools/topoanns_eval_sift.cpp:1076-1083 | a (recall, qps) pair is on the frontier if and only if it is above -1 qps and no point of strictly higher recall is at least as fast, in every order the sort may give |
| `Pareto.ScanIsFrontier` | tools/topoanns_eval_sift.cpp:1068-1086 | the scan's result is the frontier of its input |
| `Pareto.CoveredIff` | tools/topoanns_eval_sift.cpp:1078-1083 | a point is matched or beaten by the frontier if and only if some point above -1 qps does so |
| `Pareto.DominatedOnlyAtEqualRecall` | tools/topoanns_eval_sift.cpp:1070-1083 | a frontier point can only be dominated by a point of its own recall |
| `Pareto.DominanceFreeIff` | tools/topoanns_eval_sift.cpp:1068-1086 | the frontier has no dominated point if and only if no qualifying point has a faster twin of equal recall |
| `Pareto.EqualRecallBothKept` | tools/topoanns_eval_sift.cpp:1070-1083 | two points of equal recall are both kept |
| `HotSet.RunLengths` | tools/topoanns_overlap_pipeline_eval.cpp:1832-1841 | every accessed vertex once, with its exact multiplicity; the counts sum to the number of accesses |
| `HotSet.Summarize` | tools/topoanns_overlap_pipeline_eval.cpp:1849-1869 | cumulative counts, and for each percentage the accesses of the top vertices |
| `HotSet.RankedOrder` | tools/topoanns_overlap_pipeline_eval.cpp:1842-1844 | counts do not increase along the ranking and vertices of equal count come by ascending id |
| `HotSet.TopCountIsLeast` | tools/topoanns_overlap_pipeline_eval.cpp:1864-1867 | the number of top vertices is the least that is all of them or at least the given percentage |
| `HotSet.TopIsBest` | tools/topoanns_overlap_pipeline_eval.cpp:1842-1868 | no choice of equally many vertices has more accesses than the top ones |
| `HotSet.TopCoversItsShare` | tools/topoanns_overlap_pipeline_eval.cpp:1864-1868 | the top p percent of the vertices cover at least p percent of the accesses |
| `HotSet.CoverageGrows` | tools/topoanns_overlap_pipeline_eval.cpp:1864-1868 | coverage does not decrease with p |
| `HotSet.SummaryMeaning` | tools/topoanns_overlap_pipeline_eval.cpp:1832-1872 | run lengths, ranking and coverage together, measured against the number of accesses |
| `PrefixTrace.TraceFiles.AppendRerankStopPrefixTrace` | src/io/rerank_stop_prefix_trace.hpp:29-57 | truncates on a path's first append, extends later, checks sizes after opening; other paths unchanged |
| `PrefixTrace.TraceFiles.ReadRerankStopPrefixTrace` | src/io/rerank_stop_prefix_trace.hpp:59-87 | opens once per path, checks the header, advances the stream; other paths unchanged |
| `PrefixTrace.PathsAreIndependent` | src/io/rerank_stop_prefix_trace.hpp:29-87 | after any run each path is as if only its own calls had happened |
| `PrefixReplay.ReadRecordIsReadWords` | src/io/rerank_stop_prefix_trace.hpp:69-86 | reading bytes at a word position is reading the file's words: same result, same next position |
| `PrefixReplay.StepRefines` | src/io/rerank_stop_prefix_trace.hpp:29-87 | each call keeps file and stream in step with the words and a reader, with the same outcome |
| `PrefixReplay.NextCallOutcome` | src/io/rerank_stop_prefix_trace.hpp:29-87 | over any run on any mix of paths, whatever was rejected before, the next call has the outcome of the words and the reader |
| `PrefixReplay.ReadAtRecord` | src/io/rerank_stop_prefix_trace.hpp:73-86 | a read at the start of a record succeeds exactly when the dimensions match, and then stands at the next record; a rejected one stands behind the header |
| `PrefixReplay.MismatchedReadLosesPlace` | src/io/rerank_stop_prefix_trace.hpp:73-86 | for every log: after a rejected read at record k the next read succeeds exactly on the words it then finds, by the number of prefixes of the record |
| `PrefixReplay.ReplayReturnsRecords` | src/io/rerank_stop_prefix_trace.hpp:29-87 | replaying with matching dimensions returns the appended prefix lists in order; a mismatch or one more read is rejected |
| `PrefixReplay.ExhaustedForGood` | src/io/rerank_stop_prefix_trace.hpp:73-79 | a replay that ran past the end keeps failing, even after further appends |
| `PrefixReplay.SuccessfulReadsReturnRecords` | src/io/rerank_stop_prefix_trace.hpp:29-87 | if no budget, length or prefix equals the magic number, every read that succeeds returns the prefixes of some record of the file, whatever was rejected before |

## Left out

- Floating point: vectors, distances and errors are reals, so rounding, NaN, infinity and the
  float/double conversions in the distance code are not modelled. A threshold that is not ready is an
  explicit case (a buffer that is not full, or the `Infinity` slot of `TiledScan`).
- CUDA kernels, streams and device buffers: the two pipeline stages are functions of a batch slice
  that may also fail, and the table kernels appear as the sums they compute.
- The graph traversal and the entry lookup: candidates are any list of (distance, packed id).
- k-means training and nearest-center search: `encode` and `closest` stand for any codes below 256,
  one per row and chunk.
- `std::sort` where its result is not unique or not the point: `Pareto` and `HotSet` take any
  permutation sorted under the comparator; `TopK.SortUnique` shows that the candidate order has one.
- Argument parsing, CSV and JSON output, logging, timing, GPU name checks.
- Learned-stop scoring, sample pickers and ground-truth overlap.
- CheckpointRun.RunStages: a row carries prefix, label, k-th distance, overlap and both counts; the
  delta, spread, ratio and next-window columns are further functions of the same scan state.
- The 32-bit cast of ladder entries: `top_l` values are taken to be below 2^32.
- CheckpointRun.RunQuery: requires `top_k > 0`, which the tool does not check; with 0 its
  threshold would index an empty buffer.
- ProductQuantizer.RowErrors: the narrowing of each stored error to a 32-bit float is not modelled, so
  the soundness of the bound is that of the real-valued root.
- ResumeBuild.OutputDirectory.Run: a pivot file cut short by a kill is assumed to be refused when it
  is loaded, and file content is a byte string per path; directory entries and disk errors are
  not modelled.
- HybridResume.OutputFiles.Run: the base pivots are already there, since no run overwrites existing
  ones; base codes that are an input are not among the outputs. `save_bin` of DiskANN is not part of
  this model: `blends` stands for the pivot sets that can be loaded after an overwrite was cut short.
- HybridEncode.EncodeBlock: shared writes are one cell at a time.
- TiledScanExact.IndexedTiledScanIsExact: takes node ids as the refined buffer has them; the tool does not
  mask the expanded flag as the checkpoint scan does, so a flagged id is out of range here.
- The bvecs variant of the packer decodes each record before the same page loop; only the loop is modelled.
- PageCache.HostVectorStoreReader.ReadVector: returns a copy of the slot, not a pointer into the cached
  page, so how long that pointer stays valid is not modelled.
- The vector store and topology writers return whole byte strings; a file left behind by a failed
  run is not modelled. `ExtractTopology` takes the disk index layout as already loaded and requires, as
  its callers check or DiskANN guarantees, at most as many vectors as nodes and sectors that hold their nodes.
- TopologyExtract.ExtractedFileReads: requires fewer than 2^31 vectors, the most a 32-bit signed row
  count of the input can name.
- PrefixReplay.NextCallOutcome: a file that exists before the run holds whole 32-bit words; file streams
  are read without buffering.
- Pipeline.StepInv: the outcomes and error locks are held for single steps, and condition variables
  wake any one sleeper; fairness of the scheduler is not assumed.
