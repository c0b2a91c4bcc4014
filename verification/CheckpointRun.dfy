/** One query of the dataset tool: oracle, lower bounds, checkpoint windows and rows. */
module CheckpointRun {
  import opened Arithmetic
  import opened VectorMath
  import opened ProductQuantizer
  import opened CrossTerms
  import opened ErrorBound
  import opened TopK
  import opened CheckpointScan
  import opened Sequences

  /** The columns of a row that depend on the scan, plus the buffer they were taken from. */
  datatype Checkpoint = Checkpoint(prefix: nat, stopLabel: nat, currentKth: real, exactCount: nat, filteredCount: nat,
                                   overlap: nat, buffer: seq<Candidate>)

  /** Exact vector reads among the first p ranks. */
  function ReadCount(scored: seq<Scored>, k: nat, p: nat): nat
    requires k > 0 && p <= |scored|
  {
    if p == 0 then 0
    else
      ReadCount(scored, k, p - 1)
      + if scored[p - 1].valid && !Skips(ScanPrefix(scored, k, p - 1), scored[p - 1], k) then 1 else 0
  }

  /** Every valid rank is either read or filtered, once. */
  lemma {:induction false} ReadsPlusFiltered(scored: seq<Scored>, k: nat, p: nat)
    requires k > 0 && p <= |scored|
    ensures ReadCount(scored, k, p) + FilteredCount(scored, k, p) == |ExactPrefix(scored, p)|
  {
    if p > 0 {
      ReadsPlusFiltered(scored, k, p - 1);
    }
  }

  /** A full buffer's last distance is below the rank's lower bound, so the exact read is skipped. */
  ghost predicate Skipped(scored: seq<Scored>, k: nat, r: nat)
    requires k > 0 && r < |scored|
  {
    scored[r].valid && |ScanPrefix(scored, k, r)| >= k && scored[r].lowerBound > ScanPrefix(scored, k, r)[k - 1].distance
  }

  ghost function SkippedRanks(scored: seq<Scored>, k: nat, p: nat): set<nat>
    requires k > 0 && p <= |scored|
  {
    set r: nat | r < p && Skipped(scored, k, r)
  }

  ghost function ReadRanks(scored: seq<Scored>, k: nat, p: nat): set<nat>
    requires k > 0 && p <= |scored|
  {
    set r: nat | r < p && scored[r].valid && !Skipped(scored, k, r)
  }

  lemma OneMoreRank(scored: seq<Scored>, k: nat, p: nat, valid: bool, skipped: bool)
    requires k > 0 && p < |scored| && valid == scored[p].valid && skipped == Skipped(scored, k, p)
    ensures ReadRanks(scored, k, p + 1) == ReadRanks(scored, k, p) + if valid && !skipped then {p} else {}
    ensures SkippedRanks(scored, k, p + 1) == SkippedRanks(scored, k, p) + if skipped then {p} else {}
    ensures p !in ReadRanks(scored, k, p) && p !in SkippedRanks(scored, k, p)
  {
  }

  lemma CountersStep(scored: seq<Scored>, k: nat, r: nat, skipped: bool)
    requires k > 0 && r < |scored| && skipped == Skipped(scored, k, r)
    ensures ReadCount(scored, k, r + 1) == ReadCount(scored, k, r) + if scored[r].valid && !skipped then 1 else 0
    ensures FilteredCount(scored, k, r + 1) == FilteredCount(scored, k, r) + if skipped then 1 else 0
  {
  }

  /** The two counters are the numbers of the skipped and of the other valid ranks. */
  lemma {:induction false} CountsOfRanks(scored: seq<Scored>, k: nat, p: nat)
    requires k > 0 && p <= |scored|
    ensures ReadCount(scored, k, p) == |ReadRanks(scored, k, p)|
    ensures FilteredCount(scored, k, p) == |SkippedRanks(scored, k, p)|
  {
    if p > 0 {
      var r := p - 1;
      CountsOfRanks(scored, k, r);
      CountersStep(scored, k, r, Skipped(scored, k, r));
      OneMoreRank(scored, k, r, scored[r].valid, Skipped(scored, k, r));
    }
  }

  function CheckpointAt(scored: seq<Scored>, k: nat, oracleIds: seq<nat>, p: nat): Checkpoint
    requires k > 0 && p <= |scored| && |ScanPrefix(scored, k, p)| >= k
  {
    var buffer := ScanPrefix(scored, k, p);
    var overlap := Overlap(buffer, oracleIds);
    Checkpoint(p, if overlap == k then 0 else 1, buffer[k - 1].distance, ReadCount(scored, k, p),
               FilteredCount(scored, k, p), overlap, buffer)
  }

  /** A row for every checkpoint at which the buffer is full. */
  function Rows(scored: seq<Scored>, k: nat, oracleIds: seq<nat>, ladder: seq<nat>): (rows: seq<Checkpoint>)
    requires k > 0 && forall i :: 0 <= i < |ladder| ==> ladder[i] <= |scored|
    ensures |rows| <= |ladder|
  {
    if ladder == [] then []
    else
      var p := ladder[|ladder| - 1];
      Rows(scored, k, oracleIds, ladder[..|ladder| - 1])
      + if |ScanPrefix(scored, k, p)| >= k then [CheckpointAt(scored, k, oracleIds, p)] else []
  }

  ghost predicate IsRow(scored: seq<Scored>, k: nat, oracleIds: seq<nat>, row: Checkpoint)
    requires k > 0
  {
    && row.prefix <= |scored| && |ScanPrefix(scored, k, row.prefix)| >= k
    && row == CheckpointAt(scored, k, oracleIds, row.prefix)
  }

  ghost predicate HasRowAt(rows: seq<Checkpoint>, p: nat) {
    exists i :: 0 <= i < |rows| && rows[i].prefix == p
  }

  /** Rows come from increasing checkpoints of the ladder. */
  lemma {:induction false} RowsSpec(scored: seq<Scored>, k: nat, oracleIds: seq<nat>, ladder: seq<nat>, rows: seq<Checkpoint>)
    requires k > 0 && Ascending(ladder) && forall i :: 0 <= i < |ladder| ==> ladder[i] <= |scored|
    requires rows == Rows(scored, k, oracleIds, ladder)
    ensures forall i :: 0 <= i < |rows| ==> IsRow(scored, k, oracleIds, rows[i])
    ensures forall i :: 0 <= i < |rows| ==> rows[i].prefix in ladder
    ensures forall i, j :: 0 <= i < j < |rows| ==> rows[i].prefix < rows[j].prefix
  {
    if ladder != [] {
      var front, p := ladder[..|ladder| - 1], ladder[|ladder| - 1];
      var before := Rows(scored, k, oracleIds, front);
      RowsSpec(scored, k, oracleIds, front, before);
      forall i | 0 <= i < |before| ensures before[i].prefix in ladder && before[i].prefix < p {
        assert before[i].prefix in front;
      }
      if |ScanPrefix(scored, k, p)| >= k {
        assert IsRow(scored, k, oracleIds, CheckpointAt(scored, k, oracleIds, p));
      }
    }
  }

  /** No checkpoint with a full buffer is left out. */
  lemma {:induction false} RowAtCheckpoint(scored: seq<Scored>, k: nat, oracleIds: seq<nat>, ladder: seq<nat>, p: nat)
    requires k > 0 && forall i :: 0 <= i < |ladder| ==> ladder[i] <= |scored|
    requires p in ladder && p <= |scored| && |ScanPrefix(scored, k, p)| >= k
    ensures HasRowAt(Rows(scored, k, oracleIds, ladder), p)
  {
    var front, rows := ladder[..|ladder| - 1], Rows(scored, k, oracleIds, ladder);
    if ladder[|ladder| - 1] == p {
      assert rows[|rows| - 1].prefix == p;
    } else {
      assert p in front;
      RowAtCheckpoint(scored, k, oracleIds, front, p);
      var before := Rows(scored, k, oracleIds, front);
      var i :| 0 <= i < |before| && before[i].prefix == p;
      assert rows[i].prefix == p;
    }
  }

  /** The counts of a row are those of the ranks up to its prefix. */
  lemma RowCounts(scored: seq<Scored>, k: nat, oracleIds: seq<nat>, ladder: seq<nat>, row: Checkpoint)
    requires k > 0 && Ascending(ladder) && forall i :: 0 <= i < |ladder| ==> ladder[i] <= |scored|
    requires row in Rows(scored, k, oracleIds, ladder)
    ensures row.prefix <= |scored|
    ensures row.exactCount == |ReadRanks(scored, k, row.prefix)| && row.filteredCount == |SkippedRanks(scored, k, row.prefix)|
  {
    RowsSpec(scored, k, oracleIds, ladder, Rows(scored, k, oracleIds, ladder));
    assert IsRow(scored, k, oracleIds, row);
    CountsOfRanks(scored, k, row.prefix);
  }

  // ---------------------------------------------------------------- what the rows mean

  /** The ladder of a query over topL ranks. */
  ghost predicate IsLadder(ladder: seq<nat>, topL: nat) {
    Ascending(ladder) && forall p: nat :: p in ladder <==> OnLadder(p) && p <= topL
  }

  /** Along the rows of one query: the k-th distance never grows, the oracle overlap never
      drops, and the label falls from 1 to 0 at most once. */
  lemma RowsMonotone(scored: seq<Scored>, k: nat, ladder: seq<nat>, i: nat, j: nat)
    requires k > 0 && Sound(scored) && DistinctIds(ExactPrefix(scored, |scored|))
    requires Ascending(ladder) && forall i :: 0 <= i < |ladder| ==> ladder[i] <= |scored|
    requires i < j < |Rows(scored, k, Ids(TopKOf(ExactPrefix(scored, |scored|), k)), ladder)|
    ensures var rows := Rows(scored, k, Ids(TopKOf(ExactPrefix(scored, |scored|), k)), ladder);
      && rows[j].currentKth <= rows[i].currentKth
      && rows[i].overlap <= rows[j].overlap <= k
      && (rows[i].stopLabel == 0 ==> rows[j].stopLabel == 0)
  {
    var oracle := Ids(TopKOf(ExactPrefix(scored, |scored|), k));
    var rows := Rows(scored, k, oracle, ladder);
    RowsSpec(scored, k, oracle, ladder, rows);
    assert IsRow(scored, k, oracle, rows[i]) && IsRow(scored, k, oracle, rows[j]);
    var p, q := rows[i].prefix, rows[j].prefix;
    ScanPrefixShape(scored, k, q);
    OverlapMonotone(scored, k, p, q);
    FilteredScanIsTopK(scored, k, p);
    FilteredScanIsTopK(scored, k, q);
    var rest := ExactPrefixExtends(scored, p, q);
    KthNonIncreasing(ExactPrefix(scored, p), rest, k);
  }

  function SharedIds(s: seq<Candidate>, t: seq<Candidate>): set<nat> {
    set id | id in Ids(s) && id in Ids(t)
  }

  lemma HitsAreShared(s: seq<Candidate>, t: seq<Candidate>)
    ensures Hits(s, Ids(t)) == SharedIds(s, t)
  {
    forall id | id in Hits(s, Ids(t)) ensures id in Ids(s) {
      var c :| c in s && c.nodeId in Ids(t) && c.nodeId == id;
      var i :| 0 <= i < |s| && s[i] == c;
      assert Ids(s)[i] == id;
    }
    forall id | id in SharedIds(s, t) ensures id in Hits(s, Ids(t)) {
      var i :| 0 <= i < |s| && Ids(s)[i] == id;
      assert s[i] in s;
    }
  }

  lemma DistinctPrefix(s: seq<Candidate>, t: seq<Candidate>)
    requires DistinctIds(s + t)
    ensures DistinctIds(s)
  {
    forall i, j | 0 <= i < j < |s| ensures s[i].nodeId != s[j].nodeId {
      assert s[i] == (s + t)[i] && s[j] == (s + t)[j];
    }
  }

  lemma TopDistinct(s: seq<Candidate>, k: nat)
    requires DistinctIds(s)
    ensures DistinctIds(TopKOf(s, k))
  {
    SortDistinct(s);
  }

  lemma {:induction false} DistinctSize(s: seq<Candidate>)
    requires DistinctIds(s)
    ensures |SharedIds(s, s)| == |s| && forall c :: c in s ==> multiset(s)[c] == 1
  {
    if s != [] {
      var front, last := s[..|s| - 1], s[|s| - 1];
      DistinctSize(front);
      MultisetLast(s);
      assert Ids(s) == Ids(front) + [last.nodeId];
      assert SharedIds(s, s) == SharedIds(front, front) + {last.nodeId};
      assert last !in front;
    }
  }

  /** Lists of equally many distinct ids share all of them exactly if one contains the other. */
  lemma SharedAllIff(s: seq<Candidate>, t: seq<Candidate>)
    requires DistinctIds(s) && DistinctIds(t) && |s| == |t|
    ensures |SharedIds(s, t)| == |t| <==> forall id :: id in Ids(t) ==> id in Ids(s)
  {
    DistinctSize(t);
    var shared, own := SharedIds(s, t), SharedIds(t, t);
    assert shared <= own && own == shared + (own - shared);
    if forall id :: id in Ids(t) ==> id in Ids(s) {
      assert shared == own;
    }
    if |shared| == |t| {
      assert own - shared == {};
      forall id | id in Ids(t) ensures id in Ids(s) {
        assert id in own;
      }
    }
  }

  /** Once the ids of the final top k are all in a prefix's top k, the two are the same list. */
  lemma SameIdsSameTop(s: seq<Candidate>, t: seq<Candidate>, k: nat)
    requires DistinctIds(s + t) && |s| >= k
    ensures TopKOf(s, k) == TopKOf(s + t, k)
       <==> forall id :: id in Ids(TopKOf(s + t, k)) ==> id in Ids(TopKOf(s, k))
  {
    var top, truth := TopKOf(s, k), TopKOf(s + t, k);
    if forall id :: id in Ids(truth) ==> id in Ids(top) {
      DistinctPrefix(s, t);
      TopDistinct(s, k);
      TopDistinct(s + t, k);
      TopKSubset(s, k);
      TopKSubset(s + t, k);
      forall c | c in truth ensures c in top {
        var i :| 0 <= i < |truth| && truth[i] == c;
        assert Ids(truth)[i] in Ids(top);
        var j :| 0 <= j < |top| && Ids(top)[j] == c.nodeId;
        assert top[j] in s;
        SameIdSameCandidate(s + t, c, top[j]);
      }
      DistinctSize(top);
      DistinctSize(truth);
      EqualMultisets(top, truth);
      SortedTopK(s, k);
      SortedTopK(s + t, k);
      SortedPermutationsEqual(top, truth);
    }
  }

  lemma EqualMultisets(s: seq<Candidate>, t: seq<Candidate>)
    requires |s| == |t| && (forall c :: c in t ==> c in s)
    requires forall c :: c in t ==> multiset(t)[c] == 1
    ensures multiset(s) == multiset(t)
  {
    assert forall c :: c in multiset(t) ==> c in t && c in multiset(s);
    assert multiset(t) <= multiset(s);
    assert multiset(s) == multiset(t) + (multiset(s) - multiset(t));
  }

  /** The overlap of a prefix's top k with the final one counts their common ids; it is k exactly when all
      ids of the final top k are there, and then the two are the same list. */
  lemma OverlapMeaning(s: seq<Candidate>, t: seq<Candidate>, k: nat)
    requires DistinctIds(s + t) && |s| >= k
    ensures var top, truth := TopKOf(s, k), TopKOf(s + t, k);
      && Overlap(top, Ids(truth)) == |SharedIds(top, truth)|
      && (Overlap(top, Ids(truth)) == k <==> forall id :: id in Ids(truth) ==> id in Ids(top))
      && (Overlap(top, Ids(truth)) == k <==> top == truth)
  {
    var top, truth := TopKOf(s, k), TopKOf(s + t, k);
    DistinctPrefix(s, t);
    TopDistinct(s, k);
    TopDistinct(s + t, k);
    OverlapIsHits(top, Ids(truth));
    HitsAreShared(top, truth);
    SharedAllIff(top, truth);
    SameIdsSameTop(s, t, k);
  }

  /** What a row says, over sound bounds and distinct ids: its buffer is the exact top k of the ranks up to
      its prefix, and its label is 0 exactly when that already is the answer over all ranks, in other words
      when every id of the true top k is in the buffer. */
  lemma RowMeaning(scored: seq<Scored>, k: nat, ladder: seq<nat>, row: Checkpoint)
    requires k > 0 && Sound(scored) && DistinctIds(ExactPrefix(scored, |scored|))
    requires Ascending(ladder) && forall i :: 0 <= i < |ladder| ==> ladder[i] <= |scored|
    requires row in Rows(scored, k, Ids(TopKOf(ExactPrefix(scored, |scored|), k)), ladder)
    ensures row.prefix <= |scored| && row.buffer == TopKOf(ExactPrefix(scored, row.prefix), k) && |row.buffer| == k
    ensures row.currentKth == row.buffer[k - 1].distance
    ensures var truth := TopKOf(ExactPrefix(scored, |scored|), k);
      && row.overlap == |SharedIds(row.buffer, truth)|
      && row.stopLabel in {0, 1}
      && (row.stopLabel == 0 <==> forall id :: id in Ids(truth) ==> id in Ids(row.buffer))
      && (row.stopLabel == 0 <==> row.buffer == truth)
  {
    var oracle := Ids(TopKOf(ExactPrefix(scored, |scored|), k));
    RowsSpec(scored, k, oracle, ladder, Rows(scored, k, oracle, ladder));
    assert IsRow(scored, k, oracle, row);
    FilteredScanIsTopK(scored, k, row.prefix);
    var rest := ExactPrefixExtends(scored, row.prefix, |scored|);
    OverlapMeaning(ExactPrefix(scored, row.prefix), rest, k);
  }

  lemma {:induction false} OverlapWithSelf(values: seq<Candidate>, ids: seq<nat>)
    requires forall c :: c in values ==> c.nodeId in ids
    ensures Overlap(values, ids) == |values|
  {
    if values != [] {
      assert values[|values| - 1] in values;
      OverlapWithSelf(values[..|values| - 1], ids);
    }
  }

  /** When the ladder reaches topL the last row carries the unfiltered answer and label 0. */
  lemma LastRowIsOracle(scored: seq<Scored>, k: nat, ladder: seq<nat>)
    requires k > 0 && Sound(scored) && |ExactPrefix(scored, |scored|)| >= k
    requires forall i :: 0 <= i < |ladder| ==> ladder[i] <= |scored|
    requires ladder != [] && ladder[|ladder| - 1] == |scored|
    ensures var truth := TopKOf(ExactPrefix(scored, |scored|), k);
      var rows := Rows(scored, k, Ids(truth), ladder);
      rows != [] && rows[|rows| - 1].buffer == truth && rows[|rows| - 1].stopLabel == 0
  {
    var truth := TopKOf(ExactPrefix(scored, |scored|), k);
    FilteredScanIsTopK(scored, k, |scored|);
    forall c | c in truth ensures c.nodeId in Ids(truth) {
      var i :| 0 <= i < |truth| && truth[i] == c;
      assert Ids(truth)[i] == c.nodeId;
    }
    OverlapWithSelf(truth, Ids(truth));
  }

  /** The whole chain: over an index whose stored errors are the builder's, with candidates
      carrying table-sum distances and a ladder that reaches the last rank, the filtered scan
      ends with the exact top k of all candidates. */
  lemma IndexedQueryIsExact(ranks: seq<DeviceCandidate>, k: nat, query: Vec, store: Store, sqrt: real -> real, ladder: seq<nat>,
                            base: PqPivots, residual: PqPivots, table: seq<real>,
                            baseCodes: seq<seq<Code>>, residualCodes: seq<seq<Code>>)
    requires IsSqrt(sqrt) && base.Valid() && residual.Valid() && SameLayout(base, residual) && base.Tiles()
    requires IsCrossTable(base, residual, table) && |query| == base.ndims
    requires |baseCodes| == |residualCodes| == |store.vectors| == |store.errorBounds|
    requires forall id :: 0 <= id < |store.vectors| ==>
      |store.vectors[id]| == base.ndims && |baseCodes[id]| == |residualCodes[id]| == base.NumChunks()
    requires forall id :: 0 <= id < |store.vectors| ==>
      store.errorBounds[id] == sqrt(SqDist(store.vectors[id], FullReconstruction(base, residual, baseCodes[id], residualCodes[id])))
    requires forall r :: 0 <= r < |ranks| ==> InRange(ranks[r], query, store)
    requires forall r :: 0 <= r < |ranks| && ranks[r].ValidId() ==>
      InRange(ranks[r], query, store) &&
      ranks[r].distance == RefinedDistance(base, residual, table, query, baseCodes[ranks[r].RawNodeId()], residualCodes[ranks[r].RawNodeId()])
    requires k > 0 && |ExactPrefix(ScoreAll(ranks, query, store, sqrt), |ranks|)| >= k
    requires IsLadder(ladder, |ranks|) && OnLadder(|ranks|)
    ensures forall i :: 0 <= i < |ladder| ==> ladder[i] <= |ranks|
    ensures var scored := ScoreAll(ranks, query, store, sqrt);
      var truth := TopKOf(ExactPrefix(scored, |ranks|), k);
      var rows := Rows(scored, k, Ids(truth), ladder);
      rows != [] && rows[|rows| - 1].buffer == truth && rows[|rows| - 1].stopLabel == 0
  {
    assert forall i :: 0 <= i < |ladder| ==> ladder[i] in ladder;
    assert |ranks| in ladder;
    var i :| 0 <= i < |ladder| && ladder[i] == |ranks|;
    assert ladder[|ladder| - 1] in ladder;
    assert i == |ladder| - 1;
    IndexScoresSound(ranks, query, store, sqrt, base, residual, table, baseCodes, residualCodes);
    LastRowIsOracle(ScoreAll(ranks, query, store, sqrt), k, ladder);
  }

  // ---------------------------------------------------------------- the answer in terms of the vectors

  /** Ids as they are packed: the invalid one stands for no candidate, else the upper bit is a flag. */
  ghost predicate Reads(ids: seq<nat>, query: Vec, vectors: seq<Vec>) {
    forall r :: 0 <= r < |ids| && ids[r] != INVALID_NODE_ID ==>
      ids[r] % 0x8000_0000 < |vectors| && |vectors[ids[r] % 0x8000_0000]| == |query|
  }

  ghost predicate NotFarther(a: Candidate, b: Candidate) {
    a.distance < b.distance || (a.distance == b.distance && a.nodeId <= b.nodeId)
  }

  /** The buffer lists, by distance and id, the k candidates whose vectors are nearest to the query: each entry is a
      candidate with its squared distance, and whoever is missing is not nearer than any entry of a full buffer. */
  ghost predicate IsNearest(buffer: seq<Candidate>, ids: seq<nat>, query: Vec, vectors: seq<Vec>, k: nat)
    requires Reads(ids, query, vectors)
  {
    && |buffer| == Min(k, |set r | 0 <= r < |ids| && ids[r] != INVALID_NODE_ID|)
    && (forall i, j :: 0 <= i < j < |buffer| ==> NotFarther(buffer[i], buffer[j]))
    && (forall c :: c in buffer ==> Holds(ids, query, vectors, c))
    && (forall r :: 0 <= r < |ids| && ids[r] != INVALID_NODE_ID ==>
          NotMissed(buffer, Candidate(SqDist(vectors[ids[r] % 0x8000_0000], query), ids[r] % 0x8000_0000), k))
  }

  ghost predicate Holds(ids: seq<nat>, query: Vec, vectors: seq<Vec>, c: Candidate)
    requires Reads(ids, query, vectors)
  {
    exists r :: 0 <= r < |ids| && ids[r] != INVALID_NODE_ID && c == Candidate(SqDist(vectors[ids[r] % 0x8000_0000], query), ids[r] % 0x8000_0000)
  }

  ghost predicate NotMissed(buffer: seq<Candidate>, c: Candidate, k: nat) {
    c in buffer || (|buffer| == k && forall b :: b in buffer ==> NotFarther(b, c))
  }

  lemma {:induction false} ValidCount(scored: seq<Scored>, p: nat)
    requires p <= |scored|
    ensures |ExactPrefix(scored, p)| == |set r | 0 <= r < p && scored[r].valid|
  {
    var valid := set r | 0 <= r < p && scored[r].valid;
    if p == 0 {
      assert valid == {};
    } else {
      ValidCount(scored, p - 1);
      var before := set r | 0 <= r < p - 1 && scored[r].valid;
      assert valid == if scored[p - 1].valid then before + {p - 1} else before;
    }
  }

  ghost predicate ScoresOf(scored: seq<Scored>, ids: seq<nat>, query: Vec, vectors: seq<Vec>)
    requires Reads(ids, query, vectors)
  {
    |scored| == |ids| && forall r :: 0 <= r < |ids| ==>
      if ids[r] == INVALID_NODE_ID then !scored[r].valid
      else scored[r].valid && scored[r].candidate == Candidate(SqDist(vectors[ids[r] % 0x8000_0000], query), ids[r] % 0x8000_0000)
  }

  lemma {:induction false} ScoreAllScores(ranks: seq<DeviceCandidate>, ids: seq<nat>, query: Vec, store: Store, sqrt: real -> real)
    requires forall r :: 0 <= r < |ranks| ==> InRange(ranks[r], query, store)
    requires |ids| == |ranks| && forall r :: 0 <= r < |ids| ==> ids[r] == ranks[r].packedId
    ensures Reads(ids, query, store.vectors) && ScoresOf(ScoreAll(ranks, query, store, sqrt), ids, query, store.vectors)
  {
    forall r | 0 <= r < |ids| && ids[r] != INVALID_NODE_ID
      ensures ids[r] % 0x8000_0000 < |store.vectors| && |store.vectors[ids[r] % 0x8000_0000]| == |query|
    {
      assert InRange(ranks[r], query, store);
    }
  }

  lemma {:induction false} NearestSize(scored: seq<Scored>, ids: seq<nat>, query: Vec, vectors: seq<Vec>, k: nat)
    requires Reads(ids, query, vectors) && ScoresOf(scored, ids, query, vectors)
    ensures |TopKOf(ExactPrefix(scored, |scored|), k)| == Min(k, |set r | 0 <= r < |ids| && ids[r] != INVALID_NODE_ID|)
  {
    ValidCount(scored, |scored|);
    assert (set r | 0 <= r < |scored| && scored[r].valid) == set r | 0 <= r < |ids| && ids[r] != INVALID_NODE_ID;
  }

  lemma {:induction false} NearestMembers(scored: seq<Scored>, ids: seq<nat>, query: Vec, vectors: seq<Vec>, k: nat, c: Candidate) returns (r: nat)
    requires Reads(ids, query, vectors) && ScoresOf(scored, ids, query, vectors) && c in TopKOf(ExactPrefix(scored, |scored|), k)
    ensures r < |ids| && ids[r] != INVALID_NODE_ID && c == Candidate(SqDist(vectors[ids[r] % 0x8000_0000], query), ids[r] % 0x8000_0000)
  {
    ExactMembers(scored, |scored|);
    TopKSubset(ExactPrefix(scored, |scored|), k);
    r :| 0 <= r < |scored| && scored[r].valid && scored[r].candidate == c;
  }

  lemma {:induction false} NearestMissing(scored: seq<Scored>, k: nat, r: nat)
    requires r < |scored| && scored[r].valid
    ensures var top, c := TopKOf(ExactPrefix(scored, |scored|), k), scored[r].candidate;
      c in top || (|top| == k && forall b :: b in top ==> NotFarther(b, c))
  {
    var all := ExactPrefix(scored, |scored|);
    ExactMembers(scored, |scored|);
    var rest := TopKSplits(all, k);
    InTopOrRest(all, TopKOf(all, k), rest, scored[r].candidate);
  }

  /** The true top k of scored ranks is just that. */
  lemma {:induction false} TopKIsNearest(scored: seq<Scored>, ids: seq<nat>, query: Vec, vectors: seq<Vec>, k: nat)
    requires Reads(ids, query, vectors) && ScoresOf(scored, ids, query, vectors)
    ensures IsNearest(TopKOf(ExactPrefix(scored, |scored|), k), ids, query, vectors, k)
  {
    var top := TopKOf(ExactPrefix(scored, |scored|), k);
    NearestSize(scored, ids, query, vectors, k);
    var rest := TopKSplits(ExactPrefix(scored, |scored|), k);
    forall c | c in top ensures Holds(ids, query, vectors, c) {
      var r := NearestMembers(scored, ids, query, vectors, k, c);
    }
    forall r | 0 <= r < |ids| && ids[r] != INVALID_NODE_ID ensures NotMissed(top, scored[r].candidate, k) {
      NearestMissing(scored, k, r);
    }
  }

  lemma InTopOrRest(all: seq<Candidate>, top: seq<Candidate>, rest: seq<Candidate>, c: Candidate)
    requires multiset(all) == multiset(top) + multiset(rest) && c in all
    ensures c in top || c in rest
    ensures |top| + |rest| == |all|
  {
    assert c in multiset(all);
    assert |multiset(all)| == |all| && |multiset(top)| == |top| && |multiset(rest)| == |rest|;
  }

  // ---------------------------------------------------------------- short ladders

  /** Ranks 1, 1, 1, ... with the closest candidate, at distance 0, on the last rank. */
  function LateWinner(topL: nat): (scored: seq<Scored>)
    ensures |scored| == topL
  {
    seq(topL, r requires 0 <= r < topL =>
      Scored(true, Candidate(if r == topL - 1 then 0.0 else 1.0, r), 0.0))
  }

  lemma {:induction false} LateWinnerPrefix(topL: nat, p: nat)
    requires p <= topL
    ensures |ExactPrefix(LateWinner(topL), p)| == p
    ensures forall i :: 0 <= i < p ==> ExactPrefix(LateWinner(topL), p)[i] == LateWinner(topL)[i].candidate
  {
    if p > 0 {
      LateWinnerPrefix(topL, p - 1);
    }
  }

  /** The last ladder stage holds the answer over all topL ranks, for every sound input,
      exactly when topL is itself a checkpoint. */
  lemma LadderReachesOracleIff(topL: nat, k: nat)
    requires 10 <= topL && 0 < k
    ensures (forall scored: seq<Scored> :: |scored| == topL && Sound(scored) ==>
               ScanPrefix(scored, k, LadderEnd(topL)) == TopKOf(ExactPrefix(scored, topL), k))
            <==> OnLadder(topL)
  {
    if OnLadder(topL) {
      forall scored: seq<Scored> | |scored| == topL && Sound(scored)
        ensures ScanPrefix(scored, k, LadderEnd(topL)) == TopKOf(ExactPrefix(scored, topL), k)
      {
        FilteredScanIsTopK(scored, k, topL);
      }
    } else {
      var scored, e := LateWinner(topL), LadderEnd(topL);
      assert Sound(scored);
      LateWinnerPrefix(topL, e);
      LateWinnerPrefix(topL, topL);
      var winner, all := Candidate(0.0, topL - 1), ExactPrefix(scored, topL);
      FilteredScanIsTopK(scored, k, e);
      assert all[topL - 1] == winner;
      NothingBelow(all, winner);
      TopKMember(all, k, winner);
      TopKSubset(ExactPrefix(scored, e), k);
      assert winner !in ExactPrefix(scored, e);
    }
  }

  lemma {:induction false} NothingBelow(s: seq<Candidate>, c: Candidate)
    requires forall d :: d in s ==> !CandidateLess(d, c)
    ensures CountLess(s, c) == 0
  {
    if s != [] {
      assert s[|s| - 1] in s;
      NothingBelow(s[..|s| - 1], c);
    }
  }

  // ---------------------------------------------------------------- the query loop

  method ComputeSquaredL2(query: Vec, vector: Vec) returns (distance: real)
    requires |query| == |vector|
    ensures distance == SqDist(vector, query)
  {
    ghost var diffs := Sub(vector, query);
    distance := 0.0;
    for d := 0 to |query|
      invariant distance == DotRange(diffs, diffs, 0, d)
    {
      var diff := vector[d] - query[d];
      distance := distance + diff * diff;
    }
  }

  method QueryNorm(query: Vec) returns (norm: real)
    ensures norm == NormSq(query)
  {
    norm := 0.0;
    for d := 0 to |query|
      invariant norm == DotRange(query, query, 0, d)
    {
      norm := norm + query[d] * query[d];
    }
  }

  method CollectExact(ranks: seq<DeviceCandidate>, query: Vec, store: Store, sqrt: real -> real) returns (exact: seq<Candidate>)
    requires forall r :: 0 <= r < |ranks| ==> InRange(ranks[r], query, store)
    ensures exact == ExactPrefix(ScoreAll(ranks, query, store, sqrt), |ranks|)
  {
    exact := [];
    for rank := 0 to |ranks|
      invariant exact == ExactPrefix(ScoreAll(ranks, query, store, sqrt), rank)
    {
      if ranks[rank].ValidId() {
        var distance := ComputeSquaredL2(query, store.vectors[ranks[rank].RawNodeId()]);
        exact := exact + [Candidate(distance, ranks[rank].RawNodeId())];
      }
    }
  }

  method CollectLowerBounds(ranks: seq<DeviceCandidate>, query: Vec, store: Store, sqrt: real -> real) returns (lower: seq<real>)
    requires forall r :: 0 <= r < |ranks| ==> InRange(ranks[r], query, store)
    ensures |lower| == |ranks|
    ensures forall r :: 0 <= r < |ranks| && ranks[r].ValidId() ==> lower[r] == ScoreAll(ranks, query, store, sqrt)[r].lowerBound
  {
    var norm := QueryNorm(query);
    lower := [];
    for rank := 0 to |ranks|
      invariant |lower| == rank
      invariant forall r :: 0 <= r < rank && ranks[r].ValidId() ==> lower[r] == ScoreAll(ranks, query, store, sqrt)[r].lowerBound
    {
      var bound := 0.0;
      if ranks[rank].ValidId() {
        bound := SquaredL2LowerBound(sqrt, ranks[rank].distance - norm, store.errorBounds[ranks[rank].RawNodeId()]);
      }
      lower := lower + [bound];
    }
  }

  /** One window of ranks: the buffer and both counters move to window_end. */
  method ScanWindow(ranks: seq<DeviceCandidate>, query: Vec, store: Store, sqrt: real -> real, lower: seq<real>,
                    topK: nat, windowBegin: nat, windowEnd: nat, topk: RunningTopK, ghost scored: seq<Scored>)
    returns (windowExact: nat, windowFiltered: nat)
    requires topK > 0 && windowBegin <= windowEnd <= |ranks| == |lower|
    requires forall r :: 0 <= r < |ranks| ==> InRange(ranks[r], query, store)
    requires scored == ScoreAll(ranks, query, store, sqrt)
    requires forall r :: 0 <= r < |ranks| && ranks[r].ValidId() ==> lower[r] == scored[r].lowerBound
    requires topk.values == ScanPrefix(scored, topK, windowBegin)
    modifies topk
    ensures topk.values == ScanPrefix(scored, topK, windowEnd)
    ensures windowExact == ReadCount(scored, topK, windowEnd) - ReadCount(scored, topK, windowBegin)
    ensures windowFiltered == FilteredCount(scored, topK, windowEnd) - FilteredCount(scored, topK, windowBegin)
  {
    windowExact, windowFiltered := 0, 0;
    for rank := windowBegin to windowEnd
      invariant topk.values == ScanPrefix(scored, topK, rank)
      invariant windowExact == ReadCount(scored, topK, rank) - ReadCount(scored, topK, windowBegin)
      invariant windowFiltered == FilteredCount(scored, topK, rank) - FilteredCount(scored, topK, windowBegin)
    {
      var exact, filtered := ScanRank(ranks[rank], query, store, sqrt, lower[rank], topK, topk, scored, rank);
      windowExact, windowFiltered := windowExact + exact, windowFiltered + filtered;
    }
  }

  /** One rank is skipped as invalid, filtered, or read and inserted. */
  method ScanRank(c: DeviceCandidate, query: Vec, store: Store, sqrt: real -> real, lowerBound: real, topK: nat, topk: RunningTopK,
                  ghost scored: seq<Scored>, ghost rank: nat)
    returns (exact: nat, filtered: nat)
    requires topK > 0 && rank < |scored| && InRange(c, query, store) && scored[rank] == Score(c, query, store, sqrt)
    requires c.ValidId() ==> lowerBound == scored[rank].lowerBound
    requires topk.values == ScanPrefix(scored, topK, rank)
    modifies topk
    ensures topk.values == ScanPrefix(scored, topK, rank + 1)
    ensures ReadCount(scored, topK, rank + 1) == ReadCount(scored, topK, rank) + exact
    ensures FilteredCount(scored, topK, rank + 1) == FilteredCount(scored, topK, rank) + filtered
  {
    ScanPrefixShape(scored, topK, rank);
    exact, filtered := 0, 0;
    if !c.ValidId() {
      return;
    }
    var thresholdReady := |topk.values| >= topK;
    if thresholdReady {
      if lowerBound > topk.values[topK - 1].distance {
        filtered := 1;
        return;
      }
    }
    var distance := ComputeSquaredL2(query, store.vectors[c.RawNodeId()]);
    var inserted := topk.InsertIntoTopK(Candidate(distance, c.RawNodeId()), topK);
    exact := 1;
  }

  /** All checkpoints of one query: the rows are a function of the scored ranks and the ladder,
      and no row is written when fewer than topK ranks hold a candidate. */
  method RunQuery(ranks: seq<DeviceCandidate>, topK: nat, query: Vec, store: Store, sqrt: real -> real)
    returns (ladder: seq<nat>, rows: seq<Checkpoint>)
    requires topK > 0 && topK <= |ranks| && 10 <= |ranks|
    requires forall r :: 0 <= r < |ranks| ==> InRange(ranks[r], query, store)
    ensures IsLadder(ladder, |ranks|) && ladder != [] && ladder[|ladder| - 1] == LadderEnd(|ranks|)
    ensures forall i :: 0 <= i < |ladder| ==> ladder[i] <= |ranks|
    ensures var scored := ScoreAll(ranks, query, store, sqrt);
      var exact := ExactPrefix(scored, |ranks|);
      rows == if |exact| < topK then [] else Rows(scored, topK, Ids(TopKOf(exact, topK)), ladder)
  {
    var topL := |ranks|;
    ghost var scored := ScoreAll(ranks, query, store, sqrt);
    rows := [];
    ladder := BuildRerankCheckpointLadder(topL);
    assert forall i :: 0 <= i < |ladder| ==> ladder[i] in ladder;
    var oracleExact := CollectExact(ranks, query, store, sqrt);
    if |oracleExact| < topK {
      return;
    }
    var oracleIds := BuildOracleTopK(oracleExact, topK);
    OracleIsTopK(scored, topK, topL);
    rows := RunStages(ranks, topK, query, store, sqrt, ladder, oracleIds, scored);
  }

  method RunStages(ranks: seq<DeviceCandidate>, topK: nat, query: Vec, store: Store, sqrt: real -> real,
                   ladder: seq<nat>, oracleIds: seq<nat>, ghost scored: seq<Scored>)
    returns (rows: seq<Checkpoint>)
    requires topK > 0 && forall r :: 0 <= r < |ranks| ==> InRange(ranks[r], query, store)
    requires Ascending(ladder) && forall i :: 0 <= i < |ladder| ==> ladder[i] <= |ranks|
    requires scored == ScoreAll(ranks, query, store, sqrt)
    ensures rows == Rows(scored, topK, oracleIds, ladder)
  {
    var lower := CollectLowerBounds(ranks, query, store, sqrt);
    var topk := new RunningTopK();
    var processed, exactCount, filteredCount := 0, 0, 0;
    rows := [];
    for stage := 0 to |ladder|
      invariant processed == (if stage == 0 then 0 else ladder[stage - 1]) <= |ranks|
      invariant topk.values == ScanPrefix(scored, topK, processed)
      invariant exactCount == ReadCount(scored, topK, processed)
      invariant filteredCount == FilteredCount(scored, topK, processed)
      invariant rows == Rows(scored, topK, oracleIds, ladder[..stage])
    {
      var prefix := ladder[stage];
      var windowExact, windowFiltered :=
        ScanWindow(ranks, query, store, sqrt, lower, topK, processed, prefix, topk, scored);
      exactCount, filteredCount := exactCount + windowExact, filteredCount + windowFiltered;
      ScanPrefixShape(scored, topK, prefix);
      processed := prefix;
      assert ladder[..stage + 1][..stage] == ladder[..stage];
      if |topk.values| < topK {
        continue;
      }
      var currentKth := topk.values[topK - 1].distance;
      var overlap := ComputeTopKOverlap(topk.values, oracleIds);
      rows := rows + [Checkpoint(prefix, if overlap == topK then 0 else 1, currentKth, exactCount, filteredCount,
                                 overlap, topk.values)];
    }
    assert ladder[..|ladder|] == ladder;
  }
}
