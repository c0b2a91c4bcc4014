/** Cutting the query range into microbatches, optionally folding a short tail into the last. */
module BatchPlan {
  import opened Arithmetic
  import opened Wrappers

  datatype BatchSlice = BatchSlice(queryOffset: nat, numQueries: nat)

  /** The slices are consecutive, non-empty, and cover exactly [0, end). */
  ghost predicate Tiles(plan: seq<BatchSlice>, end: nat) {
    && (forall i :: 0 <= i < |plan| ==> plan[i].numQueries > 0)
    && (plan != [] ==> plan[0].queryOffset == 0)
    && (forall i :: 0 < i < |plan| ==> plan[i].queryOffset == plan[i - 1].queryOffset + plan[i - 1].numQueries)
    && end == if plan == [] then 0 else plan[|plan| - 1].queryOffset + plan[|plan| - 1].numQueries
  }

  ghost predicate AllButLast(plan: seq<BatchSlice>, size: nat) {
    forall i :: 0 <= i < |plan| - 1 ==> plan[i].numQueries == size
  }

  lemma Append(plan: seq<BatchSlice>, end: nat, size: nat, microbatch: nat)
    requires Tiles(plan, end) && size > 0
    requires AllButLast(plan, microbatch) && (plan != [] ==> plan[|plan| - 1].numQueries == microbatch)
    ensures Tiles(plan + [BatchSlice(end, size)], end + size)
    ensures AllButLast(plan + [BatchSlice(end, size)], microbatch)
  {
  }

  /** Merging applies and at least one full batch exists. */
  predicate TailMerges(numQueries: nat, microbatch: nat, merge: bool)
    requires microbatch > 0
  {
    merge && numQueries % microbatch != 0 && numQueries / microbatch >= 1
  }

  /** What the last batch may hold. */
  predicate LastSize(last: nat, numQueries: nat, microbatch: nat, merge: bool)
    requires microbatch > 0
  {
    if TailMerges(numQueries, microbatch, merge) then microbatch < last < 2 * microbatch else 0 < last <= microbatch
  }

  /** BuildBatchPlan. A zero microbatch is an error. Otherwise the plan tiles the queries; every
      batch but the last has exactly the microbatch size; the last has at most that size, except
      that a merged tail makes it larger than one and smaller than two microbatches. */
  method BuildBatchPlan(numQueries: nat, microbatch: nat, mergeSmallTailBatch: bool) returns (r: Result<seq<BatchSlice>>)
    ensures r.Err? <==> microbatch == 0
    ensures r.Ok? ==> Tiles(r.value, numQueries) && AllButLast(r.value, microbatch)
    ensures r.Ok? && numQueries > 0 ==>
      r.value != [] && LastSize(r.value[|r.value| - 1].numQueries, numQueries, microbatch, mergeSmallTailBatch)
  {
    if microbatch == 0 {
      return Err;
    }
    var plan: seq<BatchSlice> := [];
    if numQueries == 0 {
      return Ok(plan);
    }
    var fullBatches, remainder := numQueries / microbatch, numQueries % microbatch;
    if mergeSmallTailBatch && remainder != 0 && fullBatches >= 1 {
      plan := MergedPlan(fullBatches, remainder, microbatch);
      assert numQueries == fullBatches * microbatch + remainder;
      return Ok(plan);
    }
    var queryOffset: nat := 0;
    while queryOffset < numQueries
      invariant queryOffset <= numQueries
      invariant Tiles(plan, queryOffset) && AllButLast(plan, microbatch)
      invariant queryOffset > 0 ==> plan != [] && 0 < plan[|plan| - 1].numQueries <= microbatch
      invariant queryOffset < numQueries && plan != [] ==> plan[|plan| - 1].numQueries == microbatch
      decreases numQueries - queryOffset
    {
      var batchQueries := if microbatch < numQueries - queryOffset then microbatch else numQueries - queryOffset;
      Append(plan, queryOffset, batchQueries, microbatch);
      plan := plan + [BatchSlice(queryOffset, batchQueries)];
      queryOffset := queryOffset + batchQueries;
    }
    return Ok(plan);
  }

  /** The merging branch: full batches, the last of them enlarged by the remainder. */
  method MergedPlan(fullBatches: nat, remainder: nat, microbatch: nat) returns (plan: seq<BatchSlice>)
    requires 0 < remainder < microbatch && fullBatches >= 1
    ensures Tiles(plan, fullBatches * microbatch + remainder) && AllButLast(plan, microbatch)
    ensures plan != [] && plan[|plan| - 1].numQueries == microbatch + remainder
  {
    plan := [];
    var queryOffset: nat := 0;
    var batch := 0;
    while batch + 1 < fullBatches
      invariant batch + 1 <= fullBatches && queryOffset == Times(batch, microbatch)
      invariant Tiles(plan, queryOffset) && AllButLast(plan, microbatch)
      invariant plan != [] ==> plan[|plan| - 1].numQueries == microbatch
    {
      Append(plan, queryOffset, microbatch, microbatch);
      plan := plan + [BatchSlice(queryOffset, microbatch)];
      queryOffset := queryOffset + microbatch;
      batch := batch + 1;
    }
    TimesIsProduct(fullBatches, microbatch);
    assert queryOffset + microbatch + remainder == fullBatches * microbatch + remainder;
    Append(plan, queryOffset, microbatch + remainder, microbatch);
    plan := plan + [BatchSlice(queryOffset, microbatch + remainder)];
  }

  datatype PlanMetrics = PlanMetrics(batchCount: nat, firstBatchQueries: nat, lastBatchQueries: nat, tailBatchMerged: bool)

  function PopulateBatchPlanMetrics(plan: seq<BatchSlice>, totalQueries: nat, microbatch: nat, merge: bool): PlanMetrics
    requires microbatch > 0
  {
    PlanMetrics(|plan|, if plan == [] then 0 else plan[0].numQueries,
                if plan == [] then 0 else plan[|plan| - 1].numQueries,
                TailMerges(totalQueries, microbatch, merge))
  }

  lemma {:induction false} OffsetsIncrease(plan: seq<BatchSlice>, end: nat, i: nat, j: nat)
    requires Tiles(plan, end) && i < j < |plan|
    ensures plan[i].queryOffset + plan[i].numQueries <= plan[j].queryOffset
    decreases j
  {
    if i < j - 1 {
      OffsetsIncrease(plan, end, i, j - 1);
    }
  }

  lemma {:induction false} FindSlice(plan: seq<BatchSlice>, end: nat, query: nat, from: nat) returns (i: nat)
    requires Tiles(plan, end) && from < |plan| && query < plan[from].queryOffset + plan[from].numQueries
    ensures i < |plan| && plan[i].queryOffset <= query < plan[i].queryOffset + plan[i].numQueries
  {
    if query < plan[from].queryOffset {
      i := FindSlice(plan, end, query, from - 1);
    } else {
      i := from;
    }
  }

  /** Every query belongs to exactly one slice. */
  lemma {:induction false} ExactlyOneSlice(plan: seq<BatchSlice>, end: nat, query: nat) returns (i: nat)
    requires Tiles(plan, end) && query < end
    ensures i < |plan| && plan[i].queryOffset <= query < plan[i].queryOffset + plan[i].numQueries
    ensures forall j :: 0 <= j < |plan| && plan[j].queryOffset <= query < plan[j].queryOffset + plan[j].numQueries ==> j == i
  {
    i := FindSlice(plan, end, query, |plan| - 1);
    forall j | 0 <= j < |plan| && plan[j].queryOffset <= query < plan[j].queryOffset + plan[j].numQueries ensures j == i {
      if j < i {
        OffsetsIncrease(plan, end, j, i);
      } else if i < j {
        OffsetsIncrease(plan, end, i, j);
      }
    }
  }

  lemma {:induction false} OffsetIs(plan: seq<BatchSlice>, end: nat, microbatch: nat, i: nat)
    requires Tiles(plan, end) && AllButLast(plan, microbatch) && i < |plan|
    ensures plan[i].queryOffset == Times(i, microbatch)
  {
    if i > 0 {
      OffsetIs(plan, end, microbatch, i - 1);
    }
  }

  /** What merging is for: with it no batch is smaller than a microbatch, unless all queries together are, and
      none is as large as two; without it none is larger than one. */
  lemma PlanSizes(plan: seq<BatchSlice>, numQueries: nat, microbatch: nat, merge: bool, i: nat)
    requires microbatch > 0 && Tiles(plan, numQueries) && AllButLast(plan, microbatch) && i < |plan|
    requires LastSize(plan[|plan| - 1].numQueries, numQueries, microbatch, merge)
    ensures !merge ==> plan[i].numQueries <= microbatch
    ensures merge && numQueries >= microbatch ==> microbatch <= plan[i].numQueries < 2 * microbatch
  {
    if merge && numQueries >= microbatch && !TailMerges(numQueries, microbatch, merge) {
      var n, last := |plan| - 1, plan[|plan| - 1].numQueries;
      OffsetIs(plan, numQueries, microbatch, n);
      TimesIsProduct(n, microbatch);
      WholeBatches(n, microbatch, last, numQueries);
    }
  }

  lemma WholeBatches(n: nat, microbatch: nat, last: nat, numQueries: nat)
    requires 0 < last <= microbatch <= numQueries && numQueries == n * microbatch + last
    requires !(numQueries % microbatch != 0 && numQueries / microbatch >= 1)
    ensures last == microbatch
  {
    assert n == 0 ==> last == microbatch;
    if n > 0 && last < microbatch {
      DivModUnique(n, microbatch, last);
    }
  }

  /** The reported sizes account for every query: full batches, the first among them, and the last one. */
  lemma MetricsAccount(plan: seq<BatchSlice>, totalQueries: nat, microbatch: nat, merge: bool)
    requires microbatch > 0 && Tiles(plan, totalQueries) && AllButLast(plan, microbatch)
    ensures var m := PopulateBatchPlanMetrics(plan, totalQueries, microbatch, merge);
      && (m.batchCount == 0 <==> totalQueries == 0)
      && (m.batchCount == 0 ==> m.firstBatchQueries == m.lastBatchQueries == 0)
      && (m.batchCount == 1 ==> m.firstBatchQueries == m.lastBatchQueries == totalQueries)
      && (m.batchCount > 1 ==> m.firstBatchQueries == microbatch
                               && Times(m.batchCount - 1, microbatch) + m.lastBatchQueries == totalQueries)
  {
    if |plan| > 1 {
      OffsetIs(plan, totalQueries, microbatch, |plan| - 1);
    }
  }

  /** The reported flag tells exactly whether the last batch exceeds the microbatch size. */
  lemma MergedFlagMeansLargerTail(plan: seq<BatchSlice>, totalQueries: nat, microbatch: nat, merge: bool)
    requires microbatch > 0 && plan != [] && totalQueries > 0
    requires LastSize(plan[|plan| - 1].numQueries, totalQueries, microbatch, merge)
    ensures var m := PopulateBatchPlanMetrics(plan, totalQueries, microbatch, merge);
      m.tailBatchMerged <==> m.lastBatchQueries > microbatch
  {
  }
}
