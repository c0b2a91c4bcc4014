/** The checkpoint scan: exact reads in rank order, skipped when the lower bound is above the
    current k-th distance, with one CSV row per checkpoint of the ladder. */
module CheckpointScan {
  import opened Arithmetic
  import opened VectorMath
  import opened ProductQuantizer
  import opened CrossTerms
  import opened ErrorBound
  import opened TopK

  // ---------------------------------------------------------------- the ladder

  function Step(prefix: nat): (s: nat)
    ensures s > 0
  {
    if prefix >= 1024 then 128 else if prefix >= 512 then 64 else if prefix >= 256 then 32
    else if prefix >= 128 then 16 else if prefix >= 64 then 8 else if prefix >= 32 then 4 else 2
  }

  /** Which prefixes are checkpoints: multiples of a stride that doubles with the range. */
  predicate OnLadder(p: nat) {
    10 <= p && (if p <= 32 then p % 2 == 0 else if p <= 64 then p % 4 == 0 else if p <= 128 then p % 8 == 0
                else if p <= 256 then p % 16 == 0 else if p <= 512 then p % 32 == 0
                else if p <= 1024 then p % 64 == 0 else p % 128 == 0)
  }

  lemma StepIsNext(p: nat)
    requires OnLadder(p)
    ensures OnLadder(p + Step(p))
    ensures forall q: nat :: p < q < p + Step(p) ==> !OnLadder(q)
  {
    assert p % Step(p) == 0 by { StepDivides(p); }
    NextMultiple(p, Step(p));
    StepBand(p);
  }

  lemma StepDivides(p: nat)
    requires OnLadder(p)
    ensures p % Step(p) == 0
  {
  }

  /** Within one step of a checkpoint the ladder's stride is the step itself. */
  lemma StepBand(p: nat)
    requires OnLadder(p)
    ensures forall q: nat :: p < q <= p + Step(p) ==> (OnLadder(q) <==> q % Step(p) == 0)
  {
    forall q: nat | p < q <= p + Step(p) ensures OnLadder(q) <==> q % Step(p) == 0 {
      var m := Step(p);
      StepDivides(p);
      DivMod(p, m);
      BandEnd(p, p / m, m);
    }
  }

  /** A step does not cross the end of its band. */
  lemma BandEnd(p: nat, n: nat, m: nat)
    requires OnLadder(p) && m == Step(p) && p == n * m
    ensures p < 32 ==> p + m <= 32
    ensures 32 <= p < 64 ==> p + m <= 64
    ensures 64 <= p < 128 ==> p + m <= 128
    ensures 128 <= p < 256 ==> p + m <= 256
    ensures 256 <= p < 512 ==> p + m <= 512
    ensures 512 <= p < 1024 ==> p + m <= 1024
  {
  }

  /** The last checkpoint at or below topL. */
  function LadderEnd(topL: nat): (e: nat)
    requires topL >= 10
    ensures OnLadder(e) && e <= topL && forall q: nat :: e < q <= topL ==> !OnLadder(q)
  {
    if OnLadder(topL) then topL else LadderEnd(topL - 1)
  }

  ghost predicate Ascending(s: seq<nat>) {
    forall i, j :: 0 <= i < j < |s| ==> s[i] < s[j]
  }

  /** BuildRerankCheckpointLadder: exactly the checkpoints up to topL, in order. */
  method BuildRerankCheckpointLadder(topL: nat) returns (ladder: seq<nat>)
    ensures Ascending(ladder)
    ensures forall p: nat :: p in ladder <==> OnLadder(p) && p <= topL
    ensures topL >= 10 ==> ladder != [] && ladder[|ladder| - 1] == LadderEnd(topL)
  {
    ladder := [];
    var prefix := 10;
    while prefix <= topL
      invariant OnLadder(prefix) && Ascending(ladder)
      invariant forall p: nat :: p in ladder <==> OnLadder(p) && p < prefix
      invariant prefix > 10 ==> ladder != []
      invariant ladder != [] ==> ladder[|ladder| - 1] <= topL && prefix == ladder[|ladder| - 1] + Step(ladder[|ladder| - 1])
      decreases topL + 1 - prefix
    {
      StepIsNext(prefix);
      forall i | 0 <= i < |ladder| ensures ladder[i] < prefix {
        assert ladder[i] in ladder;
      }
      ladder := ladder + [prefix];
      prefix := prefix + Step(prefix);
    }
    if topL >= 10 {
      var last := ladder[|ladder| - 1];
      assert last in ladder;
      StepIsNext(last);
      assert LadderEnd(topL) in ladder;
    }
  }

  function Pow2(n: nat): nat { if n == 0 then 1 else 2 * Pow2(n - 1) }

  lemma {:induction false} Pow2Multiple(n: nat)
    requires n >= 7
    ensures Pow2(n) % 128 == 0 && Pow2(n) >= 128
  {
    if n > 7 {
      Pow2Multiple(n - 1);
      DivModUnique(Pow2(n - 1) / 128 * 2, 128, 0);
      DivMod(Pow2(n - 1), 128);
    } else {
      SmallPowers();
    }
  }

  /** The step is the greatest power of two that is at most an eighth of the prefix, but at least 2 and at most 128. */
  lemma StepIsAnEighth(p: nat) returns (n: nat)
    ensures Step(p) == Pow2(n) && 1 <= n <= 7
    ensures n > 1 ==> 8 * Step(p) <= p
    ensures n < 7 ==> p < 16 * Step(p)
  {
    SmallPowers();
    n := if p >= 1024 then 7 else if p >= 512 then 6 else if p >= 256 then 5 else if p >= 128 then 4
         else if p >= 64 then 3 else if p >= 32 then 2 else 1;
  }

  lemma SmallPowers()
    ensures Pow2(4) == 16 && Pow2(5) == 32 && Pow2(6) == 64 && Pow2(7) == 128
  {
    assert Pow2(2) == 4;
    assert Pow2(4) == 16;
    assert Pow2(6) == 64;
  }

  /** Every power of two from 16 up is its own last checkpoint. */
  lemma PowersOfTwoOnLadder(n: nat)
    requires n >= 4
    ensures Pow2(n) >= 10 && LadderEnd(Pow2(n)) == Pow2(n)
  {
    SmallPowers();
    if n >= 7 {
      Pow2Multiple(n);
    }
    OnLadderMultiple(Pow2(n));
  }

  lemma OnLadderMultiple(p: nat)
    requires p == 16 || p == 32 || p == 64 || (p >= 128 && p % 128 == 0)
    ensures OnLadder(p)
  {
  }

  // ---------------------------------------------------------------- scored ranks

  datatype DeviceCandidate = DeviceCandidate(distance: real, packedId: nat) {
    predicate ValidId() { packedId != INVALID_NODE_ID }

    function RawNodeId(): nat { if ValidId() then packedId % 0x8000_0000 else INVALID_NODE_ID }
  }

  /** What a search holds for one query: full vectors on disk, stored errors in memory. */
  datatype Store = Store(vectors: seq<Vec>, errorBounds: seq<real>)

  ghost predicate InRange(c: DeviceCandidate, query: Vec, store: Store) {
    c.ValidId() ==> c.RawNodeId() < |store.vectors| == |store.errorBounds| && |store.vectors[c.RawNodeId()]| == |query|
  }

  /** One rank: whether it holds a candidate, its exact distance, and its lower bound. */
  datatype Scored = Scored(valid: bool, candidate: Candidate, lowerBound: real)

  function Score(c: DeviceCandidate, query: Vec, store: Store, sqrt: real -> real): Scored
    requires InRange(c, query, store)
  {
    if !c.ValidId() then Scored(false, Candidate(0.0, INVALID_NODE_ID), 0.0)
    else
      var id := c.RawNodeId();
      Scored(true, Candidate(SqDist(store.vectors[id], query), id),
             SquaredL2LowerBound(sqrt, c.distance - NormSq(query), store.errorBounds[id]))
  }

  function ScoreAll(ranks: seq<DeviceCandidate>, query: Vec, store: Store, sqrt: real -> real): (scored: seq<Scored>)
    requires forall r :: 0 <= r < |ranks| ==> InRange(ranks[r], query, store)
    ensures |scored| == |ranks|
  {
    seq(|ranks|, r requires 0 <= r < |ranks| => Score(ranks[r], query, store, sqrt))
  }

  ghost predicate Sound(scored: seq<Scored>) {
    forall r :: 0 <= r < |scored| && scored[r].valid ==> scored[r].lowerBound <= scored[r].candidate.distance
  }

  /** Exact candidates of the first p ranks, as an unfiltered scan collects them. */
  function ExactPrefix(scored: seq<Scored>, p: nat): (s: seq<Candidate>)
    requires p <= |scored|
    ensures |s| <= p
  {
    if p == 0 then []
    else if scored[p - 1].valid then ExactPrefix(scored, p - 1) + [scored[p - 1].candidate]
    else ExactPrefix(scored, p - 1)
  }

  predicate Skips(buffer: seq<Candidate>, s: Scored, k: nat)
    requires k > 0
  {
    |buffer| >= k && s.lowerBound > buffer[k - 1].distance
  }

  /** The filtered buffer after the first p ranks. */
  function ScanPrefix(scored: seq<Scored>, k: nat, p: nat): (s: seq<Candidate>)
    requires k > 0 && p <= |scored|
  {
    if p == 0 then []
    else
      var before := ScanPrefix(scored, k, p - 1);
      if !scored[p - 1].valid || Skips(before, scored[p - 1], k) then before
      else Push(before, scored[p - 1].candidate, k)
  }

  function FilteredCount(scored: seq<Scored>, k: nat, p: nat): nat
    requires k > 0 && p <= |scored|
  {
    if p == 0 then 0
    else
      FilteredCount(scored, k, p - 1)
      + if scored[p - 1].valid && Skips(ScanPrefix(scored, k, p - 1), scored[p - 1], k) then 1 else 0
  }

  lemma {:induction false} ScanPrefixShape(scored: seq<Scored>, k: nat, p: nat)
    requires k > 0 && p <= |scored|
    ensures Sorted(ScanPrefix(scored, k, p)) && |ScanPrefix(scored, k, p)| <= k
  {
    if p > 0 {
      ScanPrefixShape(scored, k, p - 1);
      InsertSorted(scored[p - 1].candidate, ScanPrefix(scored, k, p - 1));
    }
  }

  /** One rank: whether it is skipped or read, the buffer is that of one more exact candidate. */
  lemma SkipChangesNothing(exact: seq<Candidate>, s: Scored, k: nat)
    requires k > 0 && s.lowerBound <= s.candidate.distance
    ensures TopKOf(exact + [s.candidate], k) == Push(TopKOf(exact, k), s.candidate, k)
    ensures Skips(TopKOf(exact, k), s, k) ==> TopKOf(exact + [s.candidate], k) == TopKOf(exact, k)
  {
    TopKExtend(exact, s.candidate, k);
    if Skips(TopKOf(exact, k), s, k) {
      PushBeyond(TopKOf(exact, k), s.candidate, k);
    }
  }

  /** Branch and bound: with sound bounds the filter never changes the buffer. */
  lemma {:induction false} FilteredScanIsTopK(scored: seq<Scored>, k: nat, p: nat)
    requires k > 0 && p <= |scored| && Sound(scored)
    ensures ScanPrefix(scored, k, p) == TopKOf(ExactPrefix(scored, p), k)
  {
    if p > 0 {
      FilteredScanIsTopK(scored, k, p - 1);
      if scored[p - 1].valid {
        SkipChangesNothing(ExactPrefix(scored, p - 1), scored[p - 1], k);
      }
    }
  }

  /** Bounds formed from an index built by the residual-PQ builder are sound. */
  lemma IndexScoresSound(ranks: seq<DeviceCandidate>, query: Vec, store: Store, sqrt: real -> real,
                         base: PqPivots, residual: PqPivots, table: seq<real>,
                         baseCodes: seq<seq<Code>>, residualCodes: seq<seq<Code>>)
    requires IsSqrt(sqrt) && base.Valid() && residual.Valid() && SameLayout(base, residual) && base.Tiles()
    requires IsCrossTable(base, residual, table) && |query| == base.ndims
    requires |baseCodes| == |residualCodes| == |store.vectors| == |store.errorBounds|
    requires forall id :: 0 <= id < |store.vectors| ==>
      |store.vectors[id]| == base.ndims && |baseCodes[id]| == |residualCodes[id]| == base.NumChunks()
    requires forall id :: 0 <= id < |store.vectors| ==>
      store.errorBounds[id] == sqrt(SqDist(store.vectors[id], FullReconstruction(base, residual, baseCodes[id], residualCodes[id])))
    requires forall r :: 0 <= r < |ranks| ==> InRange(ranks[r], query, store)
    requires forall r :: 0 <= r < |ranks| && ranks[r].ValidId() ==>
      InRange(ranks[r], query, store) &&
      ranks[r].distance == RefinedDistance(base, residual, table, query, baseCodes[ranks[r].RawNodeId()], residualCodes[ranks[r].RawNodeId()])
    ensures Sound(ScoreAll(ranks, query, store, sqrt))
  {
    var scored := ScoreAll(ranks, query, store, sqrt);
    forall r | 0 <= r < |scored| && scored[r].valid
      ensures scored[r].lowerBound <= scored[r].candidate.distance
    {
      var id := ranks[r].RawNodeId();
      IndexBoundSound(sqrt, base, residual, table, query, store.vectors[id], baseCodes[id], residualCodes[id], store.errorBounds[id]);
    }
  }

  // ---------------------------------------------------------------- oracle and overlap

  function Ids(s: seq<Candidate>): (ids: seq<nat>)
    ensures |ids| == |s|
  {
    seq(|s|, i requires 0 <= i < |s| => s[i].nodeId)
  }

  function ValidOnly(s: seq<Candidate>): seq<Candidate> {
    if s == [] then []
    else if s[|s| - 1].nodeId == INVALID_NODE_ID then ValidOnly(s[..|s| - 1])
    else ValidOnly(s[..|s| - 1]) + [s[|s| - 1]]
  }

  /** BuildOracleTopK: ids of the topK least candidates; with topK == 0 the loop never stops early. */
  method BuildOracleTopK(allExact: seq<Candidate>, topK: nat) returns (ids: seq<nat>)
    ensures ids == if topK == 0 then Ids(ValidOnly(Sort(allExact))) else Ids(Take(ValidOnly(Sort(allExact)), topK))
  {
    var sorted := Sort(allExact);
    ids := [];
    for i := 0 to |sorted|
      invariant ids == Ids(ValidOnly(sorted[..i])) && (topK > 0 ==> |ids| < topK)
    {
      assert sorted[..i + 1][..i] == sorted[..i];
      if sorted[i].nodeId != INVALID_NODE_ID {
        ids := ids + [sorted[i].nodeId];
        assert ids == Ids(ValidOnly(sorted[..i + 1]));
        if |ids| == topK {
          ValidOnlyPrefix(sorted, i + 1);
          return;
        }
      }
    }
    assert sorted[..|sorted|] == sorted;
  }

  lemma {:induction false} ValidOnlyPrefix(s: seq<Candidate>, i: nat)
    requires i <= |s|
    ensures |ValidOnly(s[..i])| <= |ValidOnly(s)| && ValidOnly(s[..i]) == ValidOnly(s)[..|ValidOnly(s[..i])|]
    decreases |s|
  {
    if i == |s| {
      assert s[..i] == s;
    } else {
      var front := s[..|s| - 1];
      ValidOnlyPrefix(front, i);
      assert front[..i] == s[..i];
    }
  }

  lemma {:induction false} ValidOnlyAll(s: seq<Candidate>)
    requires forall c :: c in s ==> c.nodeId != INVALID_NODE_ID
    ensures ValidOnly(s) == s
  {
    if s != [] {
      assert s[|s| - 1] in s;
      ValidOnlyAll(s[..|s| - 1]);
      assert s == s[..|s| - 1] + [s[|s| - 1]];
    }
  }

  /** Scored ranks never carry the invalid id, so the oracle is the ids of the true top k. */
  lemma OracleIsTopK(scored: seq<Scored>, k: nat, p: nat)
    requires p <= |scored| && forall r :: 0 <= r < |scored| && scored[r].valid ==> scored[r].candidate.nodeId < INVALID_NODE_ID
    ensures ValidOnly(Sort(ExactPrefix(scored, p))) == Sort(ExactPrefix(scored, p))
  {
    var s := ExactPrefix(scored, p);
    ExactMembers(scored, p);
    SortIsSortedPermutation(s);
    forall c | c in Sort(s) ensures c.nodeId != INVALID_NODE_ID {
      assert c in multiset(Sort(s));
      assert c in s;
      var r :| 0 <= r < p && scored[r].valid && scored[r].candidate == c;
    }
    ValidOnlyAll(Sort(s));
  }

  lemma {:induction false} ExactMembers(scored: seq<Scored>, p: nat)
    requires p <= |scored|
    ensures forall c :: c in ExactPrefix(scored, p) <==> exists r :: 0 <= r < p && scored[r].valid && scored[r].candidate == c
  {
    if p > 0 {
      ExactMembers(scored, p - 1);
    }
  }

  /** ComputeTopKOverlap. */
  function Overlap(values: seq<Candidate>, oracleIds: seq<nat>): (n: nat)
    ensures n <= |values|
  {
    if values == [] then 0
    else Overlap(values[..|values| - 1], oracleIds) + if values[|values| - 1].nodeId in oracleIds then 1 else 0
  }

  method ComputeTopKOverlap(values: seq<Candidate>, oracleIds: seq<nat>) returns (overlap: nat)
    ensures overlap == Overlap(values, oracleIds)
  {
    overlap := 0;
    for i := 0 to |values|
      invariant overlap == Overlap(values[..i], oracleIds)
    {
      assert values[..i + 1][..i] == values[..i];
      if values[i].nodeId in oracleIds {
        overlap := overlap + 1;
      }
    }
    assert values[..|values|] == values;
  }

  ghost predicate DistinctIds(s: seq<Candidate>) {
    forall i, j :: 0 <= i < j < |s| ==> s[i].nodeId != s[j].nodeId
  }

  function Hits(values: seq<Candidate>, oracleIds: seq<nat>): set<nat> {
    set c | c in values && c.nodeId in oracleIds :: c.nodeId
  }

  lemma HitsOfLast(front: seq<Candidate>, c: Candidate, oracleIds: seq<nat>)
    ensures Hits(front + [c], oracleIds) == Hits(front, oracleIds) + if c.nodeId in oracleIds then {c.nodeId} else {}
  {
  }

  lemma {:induction false} OverlapIsHits(values: seq<Candidate>, oracleIds: seq<nat>)
    requires DistinctIds(values)
    ensures Overlap(values, oracleIds) == |Hits(values, oracleIds)|
  {
    if values != [] {
      var front, c := values[..|values| - 1], values[|values| - 1];
      OverlapIsHits(front, oracleIds);
      assert values == front + [c];
      HitsOfLast(front, c, oracleIds);
      assert c.nodeId !in Hits(front, oracleIds);
    }
  }

  lemma InsertDistinct(c: Candidate, t: seq<Candidate>)
    requires DistinctIds(t) && forall x :: x in t ==> x.nodeId != c.nodeId
    ensures DistinctIds(Insert(c, t))
  {
    InsertSplit(c, t);
    var p := Position(c, t);
    forall i, j | 0 <= i < j < |Insert(c, t)| ensures Insert(c, t)[i].nodeId != Insert(c, t)[j].nodeId {
      var x := if i < p then t[i] else if i == p then c else t[i - 1];
      var y := if j < p then t[j] else if j == p then c else t[j - 1];
      assert Insert(c, t)[i] == x && Insert(c, t)[j] == y;
    }
  }

  lemma {:induction false} SortDistinct(s: seq<Candidate>)
    requires DistinctIds(s)
    ensures DistinctIds(Sort(s))
  {
    if s != [] {
      var front, c := s[..|s| - 1], s[|s| - 1];
      SortDistinct(front);
      SortIsSortedPermutation(front);
      var t := Sort(front);
      forall x | x in t ensures x.nodeId != c.nodeId {
        assert x in multiset(t);
        assert x in multiset(front);
        assert x in front;
      }
      InsertDistinct(c, t);
    }
  }

  lemma SameIdSameCandidate(s: seq<Candidate>, c: Candidate, d: Candidate)
    requires DistinctIds(s) && c in s && d in s && c.nodeId == d.nodeId
    ensures c == d
  {
  }

  /** Once an oracle member is in the running top k it stays: hits only grow. */
  lemma HitsGrow(s: seq<Candidate>, t: seq<Candidate>, u: seq<Candidate>, k: nat)
    requires DistinctIds(s + t + u)
    ensures var oracle := Ids(TopKOf(s + t + u, k));
      Hits(TopKOf(s, k), oracle) <= Hits(TopKOf(s + t, k), oracle)
  {
    var all := s + t + u;
    var oracle := Ids(TopKOf(all, k));
    forall id | id in Hits(TopKOf(s, k), oracle) ensures id in Hits(TopKOf(s + t, k), oracle) {
      var c :| c in TopKOf(s, k) && c.nodeId in oracle && c.nodeId == id;
      var j :| 0 <= j < |oracle| && oracle[j] == id;
      var d := TopKOf(all, k)[j];
      TopKSubset(s, k);
      TopKSubset(all, k);
      SameIdSameCandidate(all, c, d);
      assert c in s + t;
      TopKMemberEarlier(s + t, u, k, c);
    }
  }

  lemma {:induction false} ExactPrefixExtends(scored: seq<Scored>, p: nat, q: nat) returns (rest: seq<Candidate>)
    requires p <= q <= |scored|
    ensures ExactPrefix(scored, q) == ExactPrefix(scored, p) + rest
    decreases q
  {
    if p == q {
      rest := [];
    } else {
      rest := ExactPrefixExtends(scored, p, q - 1);
      if scored[q - 1].valid {
        rest := rest + [scored[q - 1].candidate];
      }
    }
  }

  lemma SubsetSize<T>(a: set<T>, b: set<T>)
    requires a <= b
    ensures |a| <= |b|
  {
    assert b == a + (b - a);
  }

  /** Oracle overlap never decreases from one checkpoint to a later one. */
  lemma OverlapMonotone(scored: seq<Scored>, k: nat, p: nat, q: nat)
    requires k > 0 && p <= q <= |scored| && Sound(scored) && DistinctIds(ExactPrefix(scored, |scored|))
    ensures var oracle := Ids(TopKOf(ExactPrefix(scored, |scored|), k));
      Overlap(ScanPrefix(scored, k, p), oracle) <= Overlap(ScanPrefix(scored, k, q), oracle)
  {
    var oracle := Ids(TopKOf(ExactPrefix(scored, |scored|), k));
    var t := ExactPrefixExtends(scored, p, q);
    var u := ExactPrefixExtends(scored, q, |scored|);
    var s := ExactPrefix(scored, p);
    FilteredScanIsTopK(scored, k, p);
    FilteredScanIsTopK(scored, k, q);
    HitsGrow(s, t, u, k);
    SubsetSize(Hits(TopKOf(s, k), oracle), Hits(TopKOf(s + t, k), oracle));
    forall i, j | 0 <= i < j < |s + t| ensures (s + t)[i].nodeId != (s + t)[j].nodeId {
      assert (s + t)[i] == (s + t + u)[i] && (s + t)[j] == (s + t + u)[j];
    }
    forall i, j | 0 <= i < j < |s| ensures s[i].nodeId != s[j].nodeId {
      assert s[i] == (s + t)[i] && s[j] == (s + t)[j];
    }
    SortDistinct(s);
    SortDistinct(s + t);
    OverlapIsHits(TopKOf(s, k), oracle);
    OverlapIsHits(TopKOf(s + t, k), oracle);
  }
}
