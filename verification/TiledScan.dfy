/** The bound-analysis scan: the threshold is refreshed only at tile ends, so inside a tile it
    is stale, and filtered ranks whose exact distance beats it are counted as violations. */
module TiledScan {
  import opened Arithmetic
  import opened TopK

  /** A float slot that starts at infinity. */
  datatype Ext = Infinity | Finite(value: real)

  predicate ExtLess(a: Ext, b: Ext) {
    a.Finite? && (b.Infinity? || a.value < b.value)
  }

  datatype Rank = Rank(valid: bool, exact: real, lowerBound: real)

  datatype Progress = Progress(best: seq<Ext>, threshold: Ext, filteredCount: nat, firstFilteredRank: nat, safetyViolations: nat)

  function Start(k: nat): Progress
    requires k > 0
  {
    Progress(seq(k, _ => Infinity), Infinity, 0, 0, 0)
  }

  /** Insert x into the fixed-length list of best distances, dropping the last. */
  function InsertBest(best: seq<Ext>, x: real): (t: seq<Ext>)
    ensures |t| == |best|
  {
    if best == [] || !ExtLess(Finite(x), best[|best| - 1]) then best
    else if |best| == 1 || !ExtLess(Finite(x), best[|best| - 2]) then best[|best| - 1 := Finite(x)]
    else InsertBest(best[..|best| - 1], x) + [best[|best| - 2]]
  }

  /** Where InsertBest puts x, scanning from the back. */
  function Slot(best: seq<Ext>, x: real): (p: nat)
    ensures p <= |best|
  {
    if best != [] && ExtLess(Finite(x), best[|best| - 1]) then Slot(best[..|best| - 1], x) else |best|
  }

  lemma {:induction false} SlotSpec(best: seq<Ext>, x: real)
    ensures forall i :: Slot(best, x) <= i < |best| ==> ExtLess(Finite(x), best[i])
    ensures Slot(best, x) > 0 ==> !ExtLess(Finite(x), best[Slot(best, x) - 1])
  {
    if best != [] && ExtLess(Finite(x), best[|best| - 1]) {
      SlotSpec(best[..|best| - 1], x);
    }
  }

  lemma SlotIs(best: seq<Ext>, x: real, p: nat)
    requires p <= |best| && (p > 0 ==> !ExtLess(Finite(x), best[p - 1]))
    requires forall i :: p <= i < |best| ==> ExtLess(Finite(x), best[i])
    ensures Slot(best, x) == p
  {
    SlotSpec(best, x);
  }

  lemma {:induction false} InsertBestAt(best: seq<Ext>, x: real)
    ensures InsertBest(best, x)
         == if Slot(best, x) == |best| then best
            else best[..Slot(best, x)] + [Finite(x)] + best[Slot(best, x)..|best| - 1]
  {
    var n := |best|;
    if best != [] && ExtLess(Finite(x), best[n - 1]) {
      if n > 1 && ExtLess(Finite(x), best[n - 2]) {
        InsertBestAt(best[..n - 1], x);
        ShiftLast(best, Slot(best[..n - 1], x), Finite(x));
      } else {
        assert best[n - 1 := Finite(x)] == best[..n - 1] + [Finite(x)] + best[n - 1..n - 1];
      }
    }
  }

  lemma ShiftLast(best: seq<Ext>, p: nat, x: Ext)
    requires |best| > 1 && p < |best| - 1
    ensures var front := best[..|best| - 1];
      front[..p] + [x] + front[p..|front| - 1] + [best[|best| - 2]] == best[..p] + [x] + best[p..|best| - 1]
  {
    assert best[..|best| - 1][p..|best| - 2] + [best[|best| - 2]] == best[p..|best| - 1];
  }

  lemma InsertBestCell(best: seq<Ext>, x: real, i: nat)
    requires i < |best|
    ensures var p := Slot(best, x);
      InsertBest(best, x)[i] == if p == |best| || i < p then best[i] else if i == p then Finite(x) else best[i - 1]
  {
    InsertBestAt(best, x);
  }

  predicate Filters(p: Progress, r: Rank) {
    p.threshold.Finite? && r.lowerBound > p.threshold.value
  }

  function StepRank(p: Progress, r: Rank, index: nat): Progress {
    if !r.valid then p
    else if Filters(p, r) then
      p.(filteredCount := p.filteredCount + 1,
         firstFilteredRank := if p.firstFilteredRank == 0 then index + 1 else p.firstFilteredRank,
         safetyViolations := p.safetyViolations + if r.exact < p.threshold.value then 1 else 0)
    else p.(best := InsertBest(p.best, r.exact))
  }

  function ScanRanks(p: Progress, ranks: seq<Rank>, lo: nat, hi: nat): (q: Progress)
    requires lo <= hi <= |ranks|
    decreases hi
  {
    if lo == hi then p else StepRank(ScanRanks(p, ranks, lo, hi - 1), ranks[hi - 1], hi - 1)
  }

  function EndTile(p: Progress): Progress
    requires p.best != []
  {
    p.(threshold := p.best[|p.best| - 1])
  }

  lemma ScanKeepsLength(p: Progress, ranks: seq<Rank>, lo: nat, hi: nat)
    requires lo <= hi <= |ranks|
    ensures |ScanRanks(p, ranks, lo, hi).best| == |p.best|
    decreases hi
  {
    if lo < hi {
      ScanKeepsLength(p, ranks, lo, hi - 1);
    }
  }

  /** State after the first t tiles. */
  function ScanTiles(ranks: seq<Rank>, k: nat, tile: nat, t: nat): (p: Progress)
    requires k > 0 && tile > 0
    ensures |p.best| == k
  {
    if t == 0 then Start(k)
    else
      var before := ScanTiles(ranks, k, tile, t - 1);
      var lo, hi := Min(|ranks|, Times(t - 1, tile)), Min(|ranks|, Times(t, tile));
      ScanKeepsLength(before, ranks, lo, hi);
      EndTile(ScanRanks(before, ranks, lo, hi))
  }

  /** The tile loops, filling best in place. */
  method ScanQuery(ranks: seq<Rank>, k: nat, tile: nat) returns (best: array<Ext>, result: Progress, ghost tiles: nat)
    requires k > 0 && tile > 0
    ensures fresh(best) && result.best == best[..]
    ensures Times(tiles, tile) >= |ranks| && result == ScanTiles(ranks, k, tile, tiles)
    ensures result.safetyViolations == 0 ==> best[..] == KSmallest(ranks, k, |ranks|)
    ensures SoundBounds(ranks) ==> result.safetyViolations == 0
  {
    best := new Ext[k](_ => Infinity);
    assert best[..] == Start(k).best;
    var threshold, filteredCount, firstFilteredRank, safetyViolations := Infinity, 0, 0, 0;
    var rankBegin := 0;
    tiles := 0;
    while rankBegin < |ranks|
      invariant rankBegin == Times(tiles, tile)
      invariant best.Length == k
      invariant Progress(best[..], threshold, filteredCount, firstFilteredRank, safetyViolations)
             == ScanTiles(ranks, k, tile, tiles)
      decreases |ranks| - rankBegin
    {
      var rankEnd := Min(|ranks|, rankBegin + tile);
      filteredCount, firstFilteredRank, safetyViolations :=
        ScanTile(ranks, rankBegin, rankEnd, best, threshold, filteredCount, firstFilteredRank, safetyViolations);
      threshold := best[k - 1];
      rankBegin := rankBegin + tile;
      tiles := tiles + 1;
    }
    result := Progress(best[..], threshold, filteredCount, firstFilteredRank, safetyViolations);
    if safetyViolations == 0 {
      NoViolationsMeansExact(ranks, k, tile, tiles);
    }
    if SoundBounds(ranks) {
      TilesNoViolations(ranks, k, tile, tiles);
    }
  }

  /** The ranks of one tile, under the threshold of the tile's start. */
  method ScanTile(ranks: seq<Rank>, rankBegin: nat, rankEnd: nat, best: array<Ext>, threshold: Ext, filteredBefore: nat,
                  firstBefore: nat, violationsBefore: nat)
    returns (filteredCount: nat, firstFilteredRank: nat, safetyViolations: nat)
    requires rankBegin <= rankEnd <= |ranks| && best.Length > 0
    modifies best
    ensures Progress(best[..], threshold, filteredCount, firstFilteredRank, safetyViolations)
         == ScanRanks(Progress(old(best[..]), threshold, filteredBefore, firstBefore, violationsBefore), ranks, rankBegin, rankEnd)
  {
    filteredCount, firstFilteredRank, safetyViolations := filteredBefore, firstBefore, violationsBefore;
    ghost var before := Progress(best[..], threshold, filteredCount, firstFilteredRank, safetyViolations);
    for rank := rankBegin to rankEnd
      invariant Progress(best[..], threshold, filteredCount, firstFilteredRank, safetyViolations)
             == ScanRanks(before, ranks, rankBegin, rank)
    {
      var r := ranks[rank];
      if !r.valid {
        continue;
      }
      if threshold.Finite? && r.lowerBound > threshold.value {
        filteredCount := filteredCount + 1;
        if firstFilteredRank == 0 {
          firstFilteredRank := rank + 1;
        }
        if r.exact < threshold.value {
          safetyViolations := safetyViolations + 1;
        }
        continue;
      }
      ShiftInsert(best, r.exact);
    }
  }

  method ShiftInsert(best: array<Ext>, exact: real)
    requires best.Length > 0
    modifies best
    ensures best[..] == InsertBest(old(best[..]), exact)
  {
    var k := best.Length;
    if !ExtLess(Finite(exact), best[k - 1]) {
      return;
    }
    var insert := k - 1;
    ghost var was := best[..];
    ghost var p := Slot(was, exact);
    SlotSpec(was, exact);
    while insert > 0 && ExtLess(Finite(exact), best[insert - 1])
      invariant p <= insert < k
      invariant forall i :: 0 <= i <= insert ==> best[i] == was[i]
      invariant forall i :: insert < i < k ==> best[i] == was[i - 1]
    {
      best[insert] := best[insert - 1];
      insert := insert - 1;
    }
    best[insert] := Finite(exact);
    forall i | 0 <= i < k ensures best[i] == InsertBest(was, exact)[i] {
      InsertBestCell(was, exact, i);
    }
  }

  // ---------------------------------------------------------------- what the scan promises

  function ExactUpTo(ranks: seq<Rank>, p: nat): seq<Candidate>
    requires p <= |ranks|
  {
    if p == 0 then []
    else if ranks[p - 1].valid then ExactUpTo(ranks, p - 1) + [Candidate(ranks[p - 1].exact, 0)]
    else ExactUpTo(ranks, p - 1)
  }

  function Padded(b: seq<Candidate>, k: nat): (t: seq<Ext>)
    ensures |t| == k
  {
    seq(k, i => if 0 <= i < |b| then Finite(b[i].distance) else Infinity)
  }

  /** The k smallest exact distances of the first p ranks, in order, padded with infinity. */
  function KSmallest(ranks: seq<Rank>, k: nat, p: nat): (t: seq<Ext>)
    requires p <= |ranks|
    ensures |t| == k
  {
    Padded(TopKOf(ExactUpTo(ranks, p), k), k)
  }

  ghost predicate Anonymous(b: seq<Candidate>) {
    forall i :: 0 <= i < |b| ==> b[i].nodeId == 0
  }

  lemma PaddedSlot(b: seq<Candidate>, x: real, k: nat)
    requires Sorted(b) && Anonymous(b) && |b| <= k && k > 0
    ensures Slot(Padded(b, k), x) == Position(Candidate(x, 0), b)
  {
    InsertAt(Candidate(x, 0), b);
    SlotIs(Padded(b, k), x, Position(Candidate(x, 0), b));
  }

  lemma InsertCells(c: Candidate, b: seq<Candidate>)
    ensures var p := Position(c, b);
      forall i :: 0 <= i <= |b| ==> Insert(c, b)[i] == if i < p then b[i] else if i == p then c else b[i - 1]
  {
    InsertSplit(c, b);
  }

  /** Fixed-length insertion over infinities is insertion into the growing buffer. */
  lemma InsertBestIsPush(b: seq<Candidate>, x: real, k: nat)
    requires Sorted(b) && Anonymous(b) && |b| <= k && k > 0
    ensures InsertBest(Padded(b, k), x) == Padded(Push(b, Candidate(x, 0), k), k)
  {
    var c, best := Candidate(x, 0), Padded(b, k);
    PaddedSlot(b, x, k);
    InsertCells(c, b);
    var left, right := InsertBest(best, x), Padded(Push(b, c, k), k);
    forall i | 0 <= i < k ensures left[i] == right[i] {
      InsertBestCell(best, x, i);
    }
  }

  lemma {:induction false} AnonymousSort(s: seq<Candidate>)
    requires Anonymous(s)
    ensures Anonymous(Sort(s))
  {
    SortIsSortedPermutation(s);
    forall i | 0 <= i < |Sort(s)| ensures Sort(s)[i].nodeId == 0 {
      assert Sort(s)[i] in multiset(Sort(s));
      assert Sort(s)[i] in s;
    }
  }

  lemma {:induction false} AnonymousExact(ranks: seq<Rank>, p: nat)
    requires p <= |ranks|
    ensures Anonymous(ExactUpTo(ranks, p))
  {
    if p > 0 {
      AnonymousExact(ranks, p - 1);
    }
  }

  lemma KSmallestStep(ranks: seq<Rank>, k: nat, p: nat)
    requires k > 0 && p < |ranks|
    ensures KSmallest(ranks, k, p + 1) == if ranks[p].valid then InsertBest(KSmallest(ranks, k, p), ranks[p].exact) else KSmallest(ranks, k, p)
  {
    var s := ExactUpTo(ranks, p);
    if ranks[p].valid {
      AnonymousExact(ranks, p);
      AnonymousSort(s);
      SortedTopK(s, k);
      TopKExtend(s, Candidate(ranks[p].exact, 0), k);
      InsertBestIsPush(TopKOf(s, k), ranks[p].exact, k);
    }
  }

  ghost predicate ExtSorted(best: seq<Ext>) {
    forall i, j :: 0 <= i < j < |best| ==> !ExtLess(best[j], best[i])
  }

  lemma InsertBestSorted(best: seq<Ext>, x: real)
    requires ExtSorted(best)
    ensures ExtSorted(InsertBest(best, x))
    ensures best != [] ==> !ExtLess(best[|best| - 1], InsertBest(best, x)[|best| - 1])
  {
    SlotSpec(best, x);
    InsertBestAt(best, x);
    var p, t := Slot(best, x), InsertBest(best, x);
    if p < |best| {
      forall i, j | 0 <= i < j < |t| ensures !ExtLess(t[j], t[i]) {
        assert t[i] == if i < p then best[i] else if i == p then Finite(x) else best[i - 1];
        assert t[j] == if j < p then best[j] else if j == p then Finite(x) else best[j - 1];
        if j == p && i < p - 1 {
          assert !ExtLess(best[p - 1], best[i]);
        }
      }
    }
  }

  /** The threshold may be stale but never below the current k-th distance; as long as no
      violation was counted the kept distances are the true k smallest. */
  ghost predicate Safe(p: Progress, ranks: seq<Rank>, k: nat, upTo: nat)
    requires upTo <= |ranks|
  {
    && k > 0 && |p.best| == k && ExtSorted(p.best) && !ExtLess(p.threshold, p.best[k - 1])
    && (p.safetyViolations == 0 ==> p.best == KSmallest(ranks, k, upTo))
  }

  lemma StepSafe(p: Progress, ranks: seq<Rank>, k: nat, upTo: nat)
    requires upTo < |ranks| && Safe(p, ranks, k, upTo)
    ensures Safe(StepRank(p, ranks[upTo], upTo), ranks, k, upTo + 1)
  {
    var r := ranks[upTo];
    KSmallestStep(ranks, k, upTo);
    InsertBestSorted(p.best, r.exact);
  }

  lemma {:induction false} ScanSafe(p: Progress, ranks: seq<Rank>, k: nat, lo: nat, hi: nat)
    requires lo <= hi <= |ranks| && Safe(p, ranks, k, lo)
    ensures Safe(ScanRanks(p, ranks, lo, hi), ranks, k, hi)
    decreases hi
  {
    if lo < hi {
      ScanSafe(p, ranks, k, lo, hi - 1);
      StepSafe(ScanRanks(p, ranks, lo, hi - 1), ranks, k, hi - 1);
    }
  }

  lemma {:induction false} TilesSafe(ranks: seq<Rank>, k: nat, tile: nat, t: nat)
    requires k > 0 && tile > 0
    ensures Safe(ScanTiles(ranks, k, tile, t), ranks, k, Min(|ranks|, Times(t, tile)))
  {
    if t == 0 {
      assert Start(k).best == KSmallest(ranks, k, 0);
    } else {
      TilesSafe(ranks, k, tile, t - 1);
      ScanSafe(ScanTiles(ranks, k, tile, t - 1), ranks, k, Min(|ranks|, Times(t - 1, tile)), Min(|ranks|, Times(t, tile)));
    }
  }

  /** Zero violations certify the result, whatever the bounds: the analysis tool's verdict is
      trustworthy for any tile size even when the bounds themselves are not. */
  lemma NoViolationsMeansExact(ranks: seq<Rank>, k: nat, tile: nat, tiles: nat)
    requires k > 0 && tile > 0 && Times(tiles, tile) >= |ranks|
    requires ScanTiles(ranks, k, tile, tiles).safetyViolations == 0
    ensures ScanTiles(ranks, k, tile, tiles).best == KSmallest(ranks, k, |ranks|)
  {
    TilesSafe(ranks, k, tile, tiles);
  }

  ghost predicate SoundBounds(ranks: seq<Rank>) {
    forall r :: 0 <= r < |ranks| && ranks[r].valid ==> ranks[r].lowerBound <= ranks[r].exact
  }

  lemma {:induction false} ScanNoViolations(p: Progress, ranks: seq<Rank>, lo: nat, hi: nat)
    requires lo <= hi <= |ranks| && SoundBounds(ranks) && p.safetyViolations == 0
    ensures ScanRanks(p, ranks, lo, hi).safetyViolations == 0
    decreases hi
  {
    if lo < hi {
      ScanNoViolations(p, ranks, lo, hi - 1);
    }
  }

  lemma {:induction false} TilesNoViolations(ranks: seq<Rank>, k: nat, tile: nat, t: nat)
    requires k > 0 && tile > 0 && SoundBounds(ranks)
    ensures ScanTiles(ranks, k, tile, t).safetyViolations == 0
  {
    if t > 0 {
      TilesNoViolations(ranks, k, tile, t - 1);
      var before := ScanTiles(ranks, k, tile, t - 1);
      ScanNoViolations(before, ranks, Min(|ranks|, Times(t - 1, tile)), Min(|ranks|, Times(t, tile)));
    }
  }

  /** With sound bounds the stale threshold does no harm: no violation, and the k smallest
      exact distances survive, for every tile size. */
  lemma StaleThresholdIsExact(ranks: seq<Rank>, k: nat, tile: nat, tiles: nat)
    requires k > 0 && tile > 0 && Times(tiles, tile) >= |ranks| && SoundBounds(ranks)
    ensures ScanTiles(ranks, k, tile, tiles).safetyViolations == 0
    ensures ScanTiles(ranks, k, tile, tiles).best == KSmallest(ranks, k, |ranks|)
  {
    TilesNoViolations(ranks, k, tile, tiles);
    NoViolationsMeansExact(ranks, k, tile, tiles);
  }
}
