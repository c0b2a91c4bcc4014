/** The recall/qps frontier of a parameter sweep. */
module Pareto {

  datatype SweepPoint = SweepPoint(id: nat, recall: real, qps: real)

  /** The sort's comparator: recall ascending, then qps descending. */
  predicate Before(a: SweepPoint, b: SweepPoint) {
    a.recall < b.recall || (a.recall == b.recall && a.qps >= b.qps)
  }

  /** What the sort may return: points of equal recall and qps come in any order. */
  ghost predicate Ordered(points: seq<SweepPoint>, ordered: seq<SweepPoint>) {
    && multiset(ordered) == multiset(points)
    && forall i, j :: 0 <= i < j < |ordered| ==> Before(ordered[i], ordered[j])
  }

  /** Kept by the backward scan: faster than everything behind it, and than the initial -1. */
  ghost predicate Kept(ordered: seq<SweepPoint>, j: int)
    requires 0 <= j < |ordered|
  {
    ordered[j].qps > -1.0 && forall k :: j < k < |ordered| ==> ordered[k].qps < ordered[j].qps
  }

  function Reversed(s: seq<SweepPoint>): (r: seq<SweepPoint>)
    ensures |r| == |s| && forall i :: 0 <= i < |s| ==> r[i] == s[|s| - 1 - i]
  {
    if s == [] then [] else Reversed(s[1..]) + [s[0]]
  }

  /** Recall does not decrease and qps strictly decreases along the frontier. */
  ghost predicate Descending(frontier: seq<SweepPoint>) {
    forall i, j :: 0 <= i < j < |frontier| ==> frontier[i].recall <= frontier[j].recall && frontier[i].qps > frontier[j].qps
  }

  ghost predicate Ascending(collected: seq<SweepPoint>) {
    forall a, b :: 0 <= a < b < |collected| ==> collected[b].recall <= collected[a].recall && collected[b].qps > collected[a].qps
  }

  method ComputeParetoFrontier(ghost points: seq<SweepPoint>, ordered: seq<SweepPoint>) returns (frontier: seq<SweepPoint>)
    requires Ordered(points, ordered)
    ensures Descending(frontier)
    ensures forall p :: p in frontier <==> exists j :: 0 <= j < |ordered| && Kept(ordered, j) && ordered[j] == p
  {
    var collected: seq<SweepPoint> := [];
    ghost var at: seq<int> := [];
    var bestQps := -1.0;
    var i := |ordered|;
    while i > 0
      invariant 0 <= i <= |ordered|
      invariant bestQps >= -1.0 && forall k :: i <= k < |ordered| ==> ordered[k].qps <= bestQps
      invariant bestQps == -1.0 || exists k :: i <= k < |ordered| && ordered[k].qps == bestQps
      invariant CollectedAt(ordered, i, collected, at)
      invariant forall a :: 0 <= a < |collected| ==> collected[a].qps <= bestQps
      invariant Ascending(collected)
    {
      i := i - 1;
      assert Kept(ordered, i) <==> ordered[i].qps > bestQps;
      assert forall a :: 0 <= a < |collected| ==> ordered[i].recall <= collected[a].recall;
      CollectStep(ordered, i, collected, at);
      if ordered[i].qps > bestQps {
        AscendStep(collected, ordered[i]);
        collected, at := collected + [ordered[i]], at + [i];
        bestQps := ordered[i].qps;
      }
    }
    frontier := Reversed(collected);
    ReversedDescends(collected);
    forall p ensures p in frontier <==> exists j :: 0 <= j < |ordered| && Kept(ordered, j) && ordered[j] == p {
      SameElements(collected, p);
      CollectedIffKept(ordered, collected, at, p);
    }
  }

  /** The scan down to position i has collected the kept points, from the positions in `at`. */
  ghost predicate CollectedAt(ordered: seq<SweepPoint>, i: int, collected: seq<SweepPoint>, at: seq<int>) {
    && 0 <= i && |at| == |collected|
    && (forall a :: 0 <= a < |at| ==> i <= at[a] < |ordered| && Kept(ordered, at[a]) && collected[a] == ordered[at[a]])
    && (forall j :: i <= j < |ordered| && Kept(ordered, j) ==> j in at)
  }

  lemma AscendStep(collected: seq<SweepPoint>, p: SweepPoint)
    requires Ascending(collected) && forall a :: 0 <= a < |collected| ==> p.recall <= collected[a].recall && p.qps > collected[a].qps
    ensures Ascending(collected + [p])
  {
  }

  lemma ReversedDescends(collected: seq<SweepPoint>)
    requires Ascending(collected)
    ensures Descending(Reversed(collected))
  {
  }

  lemma CollectStep(ordered: seq<SweepPoint>, i: nat, collected: seq<SweepPoint>, at: seq<int>)
    requires i < |ordered| && CollectedAt(ordered, i + 1, collected, at)
    ensures Kept(ordered, i) ==> CollectedAt(ordered, i, collected + [ordered[i]], at + [i])
    ensures !Kept(ordered, i) ==> CollectedAt(ordered, i, collected, at)
  {
  }

  lemma CollectedIffKept(ordered: seq<SweepPoint>, collected: seq<SweepPoint>, at: seq<int>, p: SweepPoint)
    requires CollectedAt(ordered, 0, collected, at)
    ensures p in collected <==> exists j :: 0 <= j < |ordered| && Kept(ordered, j) && ordered[j] == p
  {
    if p in collected {
      var a :| 0 <= a < |collected| && collected[a] == p;
      assert Kept(ordered, at[a]) && ordered[at[a]] == p;
    }
    if j :| 0 <= j < |ordered| && Kept(ordered, j) && ordered[j] == p {
      var a :| 0 <= a < |at| && at[a] == j;
      assert collected[a] == p;
    }
  }

  lemma SameElements(s: seq<SweepPoint>, p: SweepPoint)
    ensures p in Reversed(s) <==> p in s
  {
    if p in s {
      var i :| 0 <= i < |s| && s[i] == p;
      assert Reversed(s)[|s| - 1 - i] == p;
    }
  }

  // ---------------------------------------------------------------- what is on the frontier

  /** The condition on the input, whatever its order. */
  predicate Qualifies(points: seq<SweepPoint>, p: SweepPoint) {
    p.qps > -1.0 && forall q :: q in points ==> !(q.recall > p.recall && q.qps >= p.qps)
  }

  ghost predicate Same(p: SweepPoint, q: SweepPoint) {
    p.recall == q.recall && p.qps == q.qps
  }

  /** Position of the last point with p's recall and qps. */
  lemma LastSame(ordered: seq<SweepPoint>, p: SweepPoint, n: nat) returns (j: nat)
    requires n <= |ordered| && exists i :: 0 <= i < n && Same(ordered[i], p)
    ensures j < n && Same(ordered[j], p) && forall k :: j < k < n ==> !Same(ordered[k], p)
  {
    if Same(ordered[n - 1], p) {
      j := n - 1;
    } else {
      j := LastSame(ordered, p, n - 1);
    }
  }

  lemma KeptQualifies(points: seq<SweepPoint>, ordered: seq<SweepPoint>, j: int)
    requires Ordered(points, ordered) && 0 <= j < |ordered| && Kept(ordered, j)
    ensures Qualifies(points, ordered[j])
  {
    forall q | q in points ensures !(q.recall > ordered[j].recall && q.qps >= ordered[j].qps) {
      SameMember(points, ordered, q);
      var k :| 0 <= k < |ordered| && ordered[k] == q;
      assert k < j ==> Before(ordered[k], ordered[j]);
    }
  }

  lemma QualifyingKept(points: seq<SweepPoint>, ordered: seq<SweepPoint>, p: SweepPoint) returns (j: nat)
    requires Ordered(points, ordered) && p in points && Qualifies(points, p)
    ensures j < |ordered| && Kept(ordered, j) && Same(ordered[j], p)
  {
    SameMember(points, ordered, p);
    var i :| 0 <= i < |ordered| && ordered[i] == p;
    j := LastSame(ordered, p, |ordered|);
    forall k | j < k < |ordered| ensures ordered[k].qps < ordered[j].qps {
      assert Before(ordered[j], ordered[k]);
      SameMember(points, ordered, ordered[k]);
    }
  }

  /** A (recall, qps) pair is on the frontier exactly when some input point has it, it is faster
      than -1, and no point of strictly higher recall is at least as fast. */
  lemma OnFrontierIff(points: seq<SweepPoint>, ordered: seq<SweepPoint>, p: SweepPoint)
    requires Ordered(points, ordered) && p in points
    ensures (exists j :: 0 <= j < |ordered| && Kept(ordered, j) && Same(ordered[j], p)) <==> Qualifies(points, p)
  {
    if j :| 0 <= j < |ordered| && Kept(ordered, j) && Same(ordered[j], p) {
      KeptQualifies(points, ordered, j);
    }
    if Qualifies(points, p) {
      var j := QualifyingKept(points, ordered, p);
    }
  }

  lemma SameMember(points: seq<SweepPoint>, ordered: seq<SweepPoint>, q: SweepPoint)
    requires multiset(ordered) == multiset(points)
    ensures q in points <==> q in ordered
  {
    assert q in multiset(points) <==> q in multiset(ordered);
  }

  // ---------------------------------------------------------------- how good the frontier is

  ghost predicate Covered(frontier: seq<SweepPoint>, p: SweepPoint) {
    exists f :: f in frontier && f.recall >= p.recall && f.qps >= p.qps
  }

  ghost predicate Sound(points: seq<SweepPoint>, frontier: seq<SweepPoint>) {
    forall f :: f in frontier ==> f in points && Qualifies(points, f)
  }

  ghost predicate Complete(points: seq<SweepPoint>, frontier: seq<SweepPoint>) {
    forall p :: p in points && Qualifies(points, p) ==> Listed(frontier, p)
  }

  ghost predicate Listed(frontier: seq<SweepPoint>, p: SweepPoint) {
    exists f :: f in frontier && Same(f, p)
  }

  /** What ComputeParetoFrontier returns is the frontier of its input. */
  lemma ScanIsFrontier(points: seq<SweepPoint>, ordered: seq<SweepPoint>, frontier: seq<SweepPoint>)
    requires Ordered(points, ordered)
    requires forall p :: p in frontier <==> exists j :: 0 <= j < |ordered| && Kept(ordered, j) && ordered[j] == p
    ensures Sound(points, frontier) && Complete(points, frontier)
  {
    forall f | f in frontier ensures f in points && Qualifies(points, f) {
      var j :| 0 <= j < |ordered| && Kept(ordered, j) && ordered[j] == f;
      SameMember(points, ordered, f);
      KeptQualifies(points, ordered, j);
    }
    forall p | p in points && Qualifies(points, p) ensures Listed(frontier, p) {
      var j := QualifyingKept(points, ordered, p);
      assert ordered[j] in frontier;
    }
  }

  /** The point of highest recall among those at least as fast as p, with ties to the fastest. */
  lemma {:induction false} Champion(points: seq<SweepPoint>, p: SweepPoint, n: nat) returns (best: SweepPoint)
    requires n <= |points| && exists i :: 0 <= i < n && points[i].qps >= p.qps && points[i].recall >= p.recall
    ensures best in points && best.qps >= p.qps && best.recall >= p.recall
    ensures forall i :: 0 <= i < n && points[i].qps >= p.qps ==> points[i].recall <= best.recall
  {
    var q := points[n - 1];
    if exists i :: 0 <= i < n - 1 && points[i].qps >= p.qps && points[i].recall >= p.recall {
      best := Champion(points, p, n - 1);
      if q.qps >= p.qps && q.recall > best.recall {
        best := q;
      }
    } else {
      best := q;
    }
  }

  ghost predicate Rival(points: seq<SweepPoint>, p: SweepPoint, q: SweepPoint) {
    q in points && q.qps > -1.0 && q.recall >= p.recall && q.qps >= p.qps
  }

  lemma RivalCovers(points: seq<SweepPoint>, frontier: seq<SweepPoint>, p: SweepPoint, q: SweepPoint)
    requires Complete(points, frontier) && Rival(points, p, q)
    ensures Covered(frontier, p)
  {
    var i :| 0 <= i < |points| && points[i] == q;
    var best := Champion(points, q, |points|);
    assert Qualifies(points, best);
    assert Listed(frontier, best);
    var f :| f in frontier && Same(f, best);
  }

  /** A point is matched or beaten in both measures by the frontier exactly when a point faster than
      -1 does so; in particular every point with qps above -1 is. */
  lemma CoveredIff(points: seq<SweepPoint>, frontier: seq<SweepPoint>, p: SweepPoint)
    requires Sound(points, frontier) && Complete(points, frontier) && p in points
    ensures Covered(frontier, p) <==> exists q :: Rival(points, p, q)
    ensures p.qps > -1.0 ==> Covered(frontier, p)
  {
    if q :| Rival(points, p, q) {
      RivalCovers(points, frontier, p, q);
    }
    if Covered(frontier, p) {
      var f :| f in frontier && f.recall >= p.recall && f.qps >= p.qps;
      assert Qualifies(points, f);
      assert Rival(points, p, f);
    }
    assert p.qps > -1.0 ==> Rival(points, p, p);
  }

  ghost predicate Dominates(q: SweepPoint, p: SweepPoint) {
    q.recall >= p.recall && q.qps >= p.qps && !Same(p, q)
  }

  /** Points of equal recall are all kept, so a frontier point can be dominated, but only by one
      with its own recall. */
  lemma DominatedOnlyAtEqualRecall(points: seq<SweepPoint>, frontier: seq<SweepPoint>, f: SweepPoint, q: SweepPoint)
    requires Sound(points, frontier) && f in frontier && q in points
    ensures Dominates(q, f) <==> q.recall == f.recall && q.qps > f.qps
  {
    assert Qualifies(points, f);
  }

  /** No input point that qualifies has a faster twin of the same recall. */
  predicate NoFasterTwin(points: seq<SweepPoint>) {
    forall p :: p in points && Qualifies(points, p) ==> Fastest(points, p)
  }

  predicate Fastest(points: seq<SweepPoint>, p: SweepPoint) {
    forall q :: q in points && q.recall == p.recall ==> q.qps <= p.qps
  }

  ghost predicate Undominated(points: seq<SweepPoint>, f: SweepPoint) {
    forall q :: q in points ==> !Dominates(q, f)
  }

  lemma UndominatedIffFastest(points: seq<SweepPoint>, f: SweepPoint)
    requires Qualifies(points, f)
    ensures Undominated(points, f) <==> Fastest(points, f)
  {
    if Undominated(points, f) {
      forall q | q in points && q.recall == f.recall ensures q.qps <= f.qps {
        assert !Dominates(q, f);
      }
    }
  }

  /** The frontier is free of dominated points exactly when no qualifying point has a faster twin. */
  lemma DominanceFreeIff(points: seq<SweepPoint>, frontier: seq<SweepPoint>)
    requires Sound(points, frontier) && Complete(points, frontier)
    ensures (forall f :: f in frontier ==> Undominated(points, f)) <==> NoFasterTwin(points)
  {
    forall f | f in frontier ensures Undominated(points, f) <==> Fastest(points, f) {
      UndominatedIffFastest(points, f);
    }
    if forall f :: f in frontier ==> Undominated(points, f) {
      forall p | p in points && Qualifies(points, p) ensures Fastest(points, p) {
        var f :| f in frontier && Same(f, p);
        assert Fastest(points, f);
      }
    }
    if NoFasterTwin(points) {
      forall f | f in frontier ensures Undominated(points, f) {
        assert f in points && Qualifies(points, f);
        assert Fastest(points, f);
      }
    }
  }

  /** Two points of equal recall are both reported. */
  lemma EqualRecallBothKept(slow: SweepPoint, fast: SweepPoint)
    requires slow.recall == fast.recall && fast.qps > slow.qps > -1.0
    ensures Ordered([slow, fast], [fast, slow])
    ensures Kept([fast, slow], 0) && Kept([fast, slow], 1) && Dominates(fast, slow)
  {
    assert multiset([slow, fast]) == multiset([fast, slow]);
  }
}
