/** From raw vectors to the rows of one query: builder, cross terms, refined candidates and scan in one piece. */
module IndexedSearch {
  import opened CheckpointRun
  import opened CheckpointScan
  import opened CrossTerms
  import opened ErrorBound
  import opened ProductQuantizer
  import opened TopK
  import opened VectorMath
  import opened Wrappers

  /** What a search loads: pivots and codes of both stages, the cross-term table, vectors and stored errors. */
  datatype SearchIndex = SearchIndex(base: PqPivots, residual: PqPivots, table: seq<real>,
                                     baseCodes: seq<seq<Code>>, residualCodes: seq<seq<Code>>, store: Store)
  {
    ghost predicate Shaped() {
      && base.Valid() && residual.Valid() && SameLayout(base, residual) && base.Tiles() && IsCrossTable(base, residual, table)
      && |baseCodes| == |residualCodes| == |store.vectors| == |store.errorBounds|
      && forall id :: 0 <= id < |store.vectors| ==>
           |store.vectors[id]| == base.ndims && |baseCodes[id]| == base.NumChunks() && |residualCodes[id]| == base.NumChunks()
    }

    /** Every stored error is the distance to what the codes reconstruct. */
    ghost predicate Exact(sqrt: real -> real)
      requires Shaped()
    {
      forall id :: 0 <= id < |store.vectors| ==>
        store.errorBounds[id] == sqrt(SqDist(store.vectors[id], FullReconstruction(base, residual, baseCodes[id], residualCodes[id])))
    }
  }

  function RowsOf<T>(flat: seq<T>, n: nat, rows: nat): (r: seq<seq<T>>)
    requires |flat| == rows * n
    ensures |r| == rows && forall i :: 0 <= i < rows ==> r[i] == RowOf(flat, n, rows, i)
  {
    seq(rows, i requires 0 <= i < rows => RowOf(flat, n, rows, i))
  }

  /** The residual block builder and the cross-term table make an index whose errors are exact; it fails
      exactly when the two pivot sets have different layouts. */
  method BuildIndex(base: PqPivots, residual: PqPivots, vectors: seq<real>, baseCodes: seq<Code>, rows: nat,
                    encode: Vec -> seq<Code>, sqrt: real -> real) returns (r: Result<SearchIndex>)
    requires base.Valid() && residual.Valid() && base.Tiles() && base.ndims == residual.ndims
    requires forall v :: |encode(v)| == residual.NumChunks()
    requires |vectors| == rows * base.ndims && |baseCodes| == rows * base.NumChunks()
    ensures r.Ok? <==> SameLayout(base, residual)
    ensures r.Ok? ==> r.value.Shaped() && r.value.Exact(sqrt) && r.value.base == base && r.value.residual == residual
    ensures r.Ok? ==> r.value.store.vectors == RowsOf(vectors, base.ndims, rows)
  {
    var codes, errors := BuildResidualBlock(base, residual, vectors, baseCodes, rows, encode, sqrt);
    var table := BuildPq2CrossTerms(base, residual);
    if table.Err? {
      return Err;
    }
    return Ok(SearchIndex(base, residual, table.value, RowsOf(baseCodes, base.NumChunks(), rows),
                          RowsOf(codes, residual.NumChunks(), rows), Store(RowsOf(vectors, base.ndims, rows), errors)));
  }

  ghost predicate Known(index: SearchIndex, packedId: nat) {
    var c := DeviceCandidate(0.0, packedId);
    c.ValidId() ==> c.RawNodeId() < |index.store.vectors|
  }

  /** A refined candidate: table sums plus cross terms, query norm still included. */
  function Refined(index: SearchIndex, query: Vec, packedId: nat): (c: DeviceCandidate)
    requires index.Shaped() && |query| == index.base.ndims && Known(index, packedId)
    ensures c.packedId == packedId && InRange(c, query, index.store)
    ensures c.ValidId() ==>
      c.distance == RefinedDistance(index.base, index.residual, index.table, query, index.baseCodes[c.RawNodeId()], index.residualCodes[c.RawNodeId()])
  {
    var c := DeviceCandidate(0.0, packedId);
    if !c.ValidId() then c
    else c.(distance := RefinedDistance(index.base, index.residual, index.table, query,
                                        index.baseCodes[c.RawNodeId()], index.residualCodes[c.RawNodeId()]))
  }

  function AllRefined(index: SearchIndex, query: Vec, ids: seq<nat>): (ranks: seq<DeviceCandidate>)
    requires index.Shaped() && |query| == index.base.ndims && forall r :: 0 <= r < |ids| ==> Known(index, ids[r])
    ensures |ranks| == |ids| && forall r :: 0 <= r < |ids| ==> ranks[r] == Refined(index, query, ids[r])
    ensures forall r :: 0 <= r < |ids| ==> InRange(ranks[r], query, index.store)
  {
    seq(|ids|, r requires 0 <= r < |ids| => Refined(index, query, ids[r]))
  }

  /** The bound of a rank is that of the distance to what its codes reconstruct. */
  lemma {:induction false} RankBound(index: SearchIndex, query: Vec, ids: seq<nat>, sqrt: real -> real, r: nat)
    requires index.Shaped() && index.Exact(sqrt) && |query| == index.base.ndims
    requires forall r :: 0 <= r < |ids| ==> Known(index, ids[r])
    requires r < |ids| && ids[r] != INVALID_NODE_ID
    ensures ids[r] % 0x8000_0000 < |index.store.vectors|
    ensures ScoreAll(AllRefined(index, query, ids), query, index.store, sqrt)[r].lowerBound
         == SquaredL2LowerBound(sqrt, SqDist(query, Reconstructed(index, ids[r] % 0x8000_0000)), index.store.errorBounds[ids[r] % 0x8000_0000])
  {
    var c, id := AllRefined(index, query, ids)[r], ids[r] % 0x8000_0000;
    assert c.ValidId() && c.RawNodeId() == id;
    RefinedDistanceIdentity(index.base, index.residual, index.table, query, index.baseCodes[id], index.residualCodes[id]);
  }

  function Reconstructed(index: SearchIndex, id: nat): (v: Vec)
    requires index.base.Valid() && index.residual.Valid() && SameLayout(index.base, index.residual)
    requires id < |index.baseCodes| == |index.residualCodes|
    requires |index.baseCodes[id]| == |index.residualCodes[id]| == index.base.NumChunks()
    ensures |v| == index.base.ndims
  {
    FullReconstruction(index.base, index.residual, index.baseCodes[id], index.residualCodes[id])
  }

  /** The scan cannot filter more than it does: a rank's lower bound is the greatest value that is at most the
      squared distance of every vector within the stored error of what the rank's codes reconstruct. */
  lemma {:induction false} BoundsAreTight(index: SearchIndex, query: Vec, ids: seq<nat>, sqrt: real -> real, r: nat, x: real)
    requires IsSqrt(sqrt) && index.Shaped() && index.Exact(sqrt) && |query| == index.base.ndims
    requires forall r :: 0 <= r < |ids| ==> Known(index, ids[r])
    requires r < |ids| && ids[r] != INVALID_NODE_ID
    ensures ids[r] % 0x8000_0000 < |index.store.vectors|
    ensures var id := ids[r] % 0x8000_0000;
      (forall v: Vec :: |v| == |query| && sqrt(SqDist(v, Reconstructed(index, id))) <= index.store.errorBounds[id] ==> x <= SqDist(v, query))
      <==> x <= ScoreAll(AllRefined(index, query, ids), query, index.store, sqrt)[r].lowerBound
  {
    RankBound(index, query, ids, sqrt, r);
    var id := ids[r] % 0x8000_0000;
    NormSqNonNeg(Sub(index.store.vectors[id], Reconstructed(index, id)));
    BoundIsTight(sqrt, query, Reconstructed(index, id), index.store.errorBounds[id], x);
  }

  /** One query over a built index: when the number of candidates is a checkpoint and enough of them are valid,
      the last row holds the exact top k of all candidates and label 0. */
  method Query(index: SearchIndex, ids: seq<nat>, topK: nat, query: Vec, sqrt: real -> real) returns (rows: seq<Checkpoint>)
    requires IsSqrt(sqrt) && index.Shaped() && index.Exact(sqrt) && |query| == index.base.ndims
    requires forall r :: 0 <= r < |ids| ==> Known(index, ids[r])
    requires 0 < topK <= |ids| && 10 <= |ids|
    ensures var exact := ExactPrefix(ScoreAll(AllRefined(index, query, ids), query, index.store, sqrt), |ids|);
      OnLadder(|ids|) && |exact| >= topK ==>
        rows != [] && rows[|rows| - 1].buffer == TopKOf(exact, topK) && rows[|rows| - 1].stopLabel == 0
    ensures Reads(ids, query, index.store.vectors)
    ensures OnLadder(|ids|) && topK <= |set r | 0 <= r < |ids| && ids[r] != INVALID_NODE_ID| ==>
      rows != [] && IsNearest(rows[|rows| - 1].buffer, ids, query, index.store.vectors, topK)
  {
    var ranks := AllRefined(index, query, ids);
    ScoreAllScores(ranks, ids, query, index.store, sqrt);
    TopKIsNearest(ScoreAll(ranks, query, index.store, sqrt), ids, query, index.store.vectors, topK);
    NearestSize(ScoreAll(ranks, query, index.store, sqrt), ids, query, index.store.vectors, topK);
    var ladder;
    ladder, rows := RunQuery(ranks, topK, query, index.store, sqrt);
    if OnLadder(|ids|) && |ExactPrefix(ScoreAll(ranks, query, index.store, sqrt), |ids|)| >= topK {
      IndexedQueryIsExact(ranks, topK, query, index.store, sqrt, ladder, index.base, index.residual, index.table,
                          index.baseCodes, index.residualCodes);
    }
  }

  /** The whole way from vectors to rows. */
  method BuildAndQuery(base: PqPivots, residual: PqPivots, vectors: seq<real>, baseCodes: seq<Code>, rowCount: nat,
                       encode: Vec -> seq<Code>, sqrt: real -> real, ids: seq<nat>, topK: nat, query: Vec)
    returns (r: Result<SearchIndex>, rows: seq<Checkpoint>)
    requires IsSqrt(sqrt) && base.Valid() && residual.Valid() && base.Tiles() && base.ndims == residual.ndims
    requires forall v :: |encode(v)| == residual.NumChunks()
    requires |vectors| == rowCount * base.ndims && |baseCodes| == rowCount * base.NumChunks() && |query| == base.ndims
    requires forall i :: 0 <= i < |ids| ==> ids[i] == INVALID_NODE_ID || ids[i] % 0x8000_0000 < rowCount
    requires 0 < topK <= |ids| && 10 <= |ids|
    ensures r.Ok? <==> SameLayout(base, residual)
    ensures r.Ok? ==> r.value.Shaped() && r.value.store.vectors == RowsOf(vectors, base.ndims, rowCount)
    ensures r.Ok? ==> r.value.base == base && forall i :: 0 <= i < |ids| ==> Known(r.value, ids[i])
    ensures r.Ok? && OnLadder(|ids|) ==>
      var exact := ExactPrefix(ScoreAll(AllRefined(r.value, query, ids), query, r.value.store, sqrt), |ids|);
      |exact| >= topK ==> rows != [] && rows[|rows| - 1].buffer == TopKOf(exact, topK) && rows[|rows| - 1].stopLabel == 0
    ensures r.Ok? ==> Reads(ids, query, RowsOf(vectors, base.ndims, rowCount))
    ensures r.Ok? && OnLadder(|ids|) && topK <= |set i | 0 <= i < |ids| && ids[i] != INVALID_NODE_ID| ==>
      rows != [] && IsNearest(rows[|rows| - 1].buffer, ids, query, RowsOf(vectors, base.ndims, rowCount), topK)
  {
    rows := [];
    r := BuildIndex(base, residual, vectors, baseCodes, rowCount, encode, sqrt);
    if r.Ok? {
      rows := Query(r.value, ids, topK, query, sqrt);
    }
  }
}
