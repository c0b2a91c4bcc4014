/** When the tiled scan's result is exact, and that it is over an index built by the residual-PQ builder. */
module TiledScanExact {
  import opened Arithmetic
  import opened CrossTerms
  import opened ErrorBound
  import opened ProductQuantizer
  import opened Sequences
  import opened TiledScan
  import opened TopK
  import opened VectorMath
  import S = CheckpointScan

  // ---------------------------------------------------------------- kept and filtered ranks

  /** Exact candidates that ranks lo <= r < hi put into the buffer, and those that the filter drops. */
  function KeptIn(p: Progress, ranks: seq<Rank>, lo: nat, hi: nat): seq<Candidate>
    requires lo <= hi <= |ranks|
    decreases hi
  {
    if lo == hi then []
    else
      var r := ranks[hi - 1];
      KeptIn(p, ranks, lo, hi - 1)
      + if r.valid && !Filters(ScanRanks(p, ranks, lo, hi - 1), r) then [Candidate(r.exact, 0)] else []
  }

  function FilteredIn(p: Progress, ranks: seq<Rank>, lo: nat, hi: nat): seq<Candidate>
    requires lo <= hi <= |ranks|
    decreases hi
  {
    if lo == hi then []
    else
      var r := ranks[hi - 1];
      FilteredIn(p, ranks, lo, hi - 1)
      + if r.valid && Filters(ScanRanks(p, ranks, lo, hi - 1), r) then [Candidate(r.exact, 0)] else []
  }

  function Kept(ranks: seq<Rank>, k: nat, tile: nat, t: nat): seq<Candidate>
    requires k > 0 && tile > 0
  {
    if t == 0 then []
    else
      TimesMonotone(t - 1, t, tile);
      Kept(ranks, k, tile, t - 1)
      + KeptIn(ScanTiles(ranks, k, tile, t - 1), ranks, Min(|ranks|, Times(t - 1, tile)), Min(|ranks|, Times(t, tile)))
  }

  function Filtered(ranks: seq<Rank>, k: nat, tile: nat, t: nat): seq<Candidate>
    requires k > 0 && tile > 0
  {
    if t == 0 then []
    else
      TimesMonotone(t - 1, t, tile);
      Filtered(ranks, k, tile, t - 1)
      + FilteredIn(ScanTiles(ranks, k, tile, t - 1), ranks, Min(|ranks|, Times(t - 1, tile)), Min(|ranks|, Times(t, tile)))
  }

  /** all is an interleaving of kept and dropped. */
  ghost predicate AreParts(all: seq<Candidate>, kept: seq<Candidate>, dropped: seq<Candidate>) {
    if all == [] then kept == [] && dropped == []
    else
      var front, last := all[..|all| - 1], all[|all| - 1];
      || (kept != [] && kept[|kept| - 1] == last && AreParts(front, kept[..|kept| - 1], dropped))
      || (dropped != [] && dropped[|dropped| - 1] == last && AreParts(front, kept, dropped[..|dropped| - 1]))
  }

  lemma {:induction false} PartsMultiset(all: seq<Candidate>, kept: seq<Candidate>, dropped: seq<Candidate>)
    requires AreParts(all, kept, dropped)
    ensures multiset(all) == multiset(kept) + multiset(dropped)
  {
    if all != [] {
      var front, last := all[..|all| - 1], all[|all| - 1];
      MultisetLast(all);
      if kept != [] && kept[|kept| - 1] == last && AreParts(front, kept[..|kept| - 1], dropped) {
        PartsMultiset(front, kept[..|kept| - 1], dropped);
        MultisetLast(kept);
      } else {
        PartsMultiset(front, kept, dropped[..|dropped| - 1]);
        MultisetLast(dropped);
      }
    }
  }

  lemma {:induction false} PartsOfRanks(p: Progress, ranks: seq<Rank>, lo: nat, hi: nat, kept: seq<Candidate>, dropped: seq<Candidate>)
    requires lo <= hi <= |ranks| && AreParts(ExactUpTo(ranks, lo), kept, dropped)
    ensures AreParts(ExactUpTo(ranks, hi), kept + KeptIn(p, ranks, lo, hi), dropped + FilteredIn(p, ranks, lo, hi))
    decreases hi
  {
    var moreKept, moreDropped := KeptIn(p, ranks, lo, hi), FilteredIn(p, ranks, lo, hi);
    if lo == hi {
      assert kept + moreKept == kept && dropped + moreDropped == dropped;
    } else {
      PartsOfRanks(p, ranks, lo, hi - 1, kept, dropped);
      AddPart(ExactUpTo(ranks, hi - 1), kept + KeptIn(p, ranks, lo, hi - 1), dropped + FilteredIn(p, ranks, lo, hi - 1), Candidate(ranks[hi - 1].exact, 0));
      var c := Candidate(ranks[hi - 1].exact, 0);
      assert kept + (KeptIn(p, ranks, lo, hi - 1) + [c]) == kept + KeptIn(p, ranks, lo, hi - 1) + [c];
      assert dropped + (FilteredIn(p, ranks, lo, hi - 1) + [c]) == dropped + FilteredIn(p, ranks, lo, hi - 1) + [c];
      assert KeptIn(p, ranks, lo, hi - 1) + [] == KeptIn(p, ranks, lo, hi - 1);
      assert FilteredIn(p, ranks, lo, hi - 1) + [] == FilteredIn(p, ranks, lo, hi - 1);
    }
  }

  lemma AddPart(all: seq<Candidate>, kept: seq<Candidate>, dropped: seq<Candidate>, c: Candidate)
    requires AreParts(all, kept, dropped)
    ensures AreParts(all + [c], kept + [c], dropped) && AreParts(all + [c], kept, dropped + [c])
  {
    assert (all + [c])[..|all|] == all && (kept + [c])[..|kept|] == kept && (dropped + [c])[..|dropped|] == dropped;
  }

  /** Every valid rank is kept or filtered, once. */
  lemma {:induction false} PartsOfTiles(ranks: seq<Rank>, k: nat, tile: nat, t: nat)
    requires k > 0 && tile > 0
    ensures AreParts(ExactUpTo(ranks, Min(|ranks|, Times(t, tile))), Kept(ranks, k, tile, t), Filtered(ranks, k, tile, t))
  {
    if t > 0 {
      TimesMonotone(t - 1, t, tile);
      PartsOfTiles(ranks, k, tile, t - 1);
      PartsOfRanks(ScanTiles(ranks, k, tile, t - 1), ranks, Min(|ranks|, Times(t - 1, tile)), Min(|ranks|, Times(t, tile)),
                   Kept(ranks, k, tile, t - 1), Filtered(ranks, k, tile, t - 1));
    }
  }

  lemma {:induction false} AnonymousIn(p: Progress, ranks: seq<Rank>, lo: nat, hi: nat)
    requires lo <= hi <= |ranks|
    ensures Anonymous(KeptIn(p, ranks, lo, hi)) && Anonymous(FilteredIn(p, ranks, lo, hi))
    decreases hi
  {
    if lo < hi {
      AnonymousIn(p, ranks, lo, hi - 1);
    }
  }

  lemma {:induction false} AnonymousParts(ranks: seq<Rank>, k: nat, tile: nat, t: nat)
    requires k > 0 && tile > 0
    ensures Anonymous(Kept(ranks, k, tile, t)) && Anonymous(Filtered(ranks, k, tile, t))
  {
    if t > 0 {
      TimesMonotone(t - 1, t, tile);
      AnonymousParts(ranks, k, tile, t - 1);
      AnonymousIn(ScanTiles(ranks, k, tile, t - 1), ranks, Min(|ranks|, Times(t - 1, tile)), Min(|ranks|, Times(t, tile)));
    }
  }

  // ---------------------------------------------------------------- what the k smallest are

  ghost function ValidRanks(ranks: seq<Rank>, p: nat): set<nat>
    requires p <= |ranks|
  {
    set r | 0 <= r < p && ranks[r].valid
  }

  lemma OneMoreValid(ranks: seq<Rank>, p: nat)
    requires p < |ranks|
    ensures ValidRanks(ranks, p + 1) == ValidRanks(ranks, p) + (if ranks[p].valid then {p} else {}) && p !in ValidRanks(ranks, p)
  {
  }

  lemma {:induction false} ExactUpToCount(ranks: seq<Rank>, p: nat)
    requires p <= |ranks|
    ensures |ExactUpTo(ranks, p)| == |ValidRanks(ranks, p)|
  {
    if p > 0 {
      ExactUpToCount(ranks, p - 1);
      OneMoreValid(ranks, p - 1);
    }
  }

  ghost predicate HasDistance(ranks: seq<Rank>, x: real) {
    exists r :: 0 <= r < |ranks| && ranks[r].valid && ranks[r].exact == x
  }

  lemma {:induction false} ExactUpToMembers(ranks: seq<Rank>, p: nat)
    requires p <= |ranks|
    ensures forall c :: c in ExactUpTo(ranks, p) ==> HasDistance(ranks, c.distance)
    ensures forall r :: 0 <= r < p && ranks[r].valid ==> Candidate(ranks[r].exact, 0) in ExactUpTo(ranks, p)
  {
    if p > 0 {
      ExactUpToMembers(ranks, p - 1);
    }
  }

  lemma {:induction false} KSmallestInOrder(ranks: seq<Rank>, k: nat)
    ensures var t := KSmallest(ranks, k, |ranks|);
      && (forall i :: 0 <= i < k ==> (t[i].Finite? <==> i < |ValidRanks(ranks, |ranks|)|))
      && (forall i, j :: 0 <= i < j < k && t[j].Finite? ==> t[i].Finite? && t[i].value <= t[j].value)
      && (forall i :: 0 <= i < k && t[i].Finite? ==> HasDistance(ranks, t[i].value))
  {
    var all := ExactUpTo(ranks, |ranks|);
    ExactUpToCount(ranks, |ranks|);
    ExactUpToMembers(ranks, |ranks|);
    var rest := TopKSplits(all, k);
    TopKSubset(all, k);
    forall i | 0 <= i < |TopKOf(all, k)| ensures HasDistance(ranks, TopKOf(all, k)[i].distance) {
      assert TopKOf(all, k)[i] in all;
    }
  }

  lemma {:induction false} KSmallestMissing(ranks: seq<Rank>, k: nat, r: nat)
    requires r < |ranks| && ranks[r].valid
    ensures var t := KSmallest(ranks, k, |ranks|);
      Finite(ranks[r].exact) in t || forall i :: 0 <= i < k ==> t[i].Finite? && t[i].value <= ranks[r].exact
  {
    var all := ExactUpTo(ranks, |ranks|);
    ExactUpToMembers(ranks, |ranks|);
    var rest := TopKSplits(all, k);
    KeptOrNotBelow(all, TopKOf(all, k), rest, k, Candidate(ranks[r].exact, 0));
  }

  /** KSmallest in terms of the ranks: in order, as many distances as there are valid ranks, at most k, each of a
      valid rank, and the distance of a valid rank that is missing is not below any of k. */
  lemma {:induction false} KSmallestAre(ranks: seq<Rank>, k: nat)
    ensures var t := KSmallest(ranks, k, |ranks|);
      && (forall i :: 0 <= i < k ==> (t[i].Finite? <==> i < |ValidRanks(ranks, |ranks|)|))
      && (forall i, j :: 0 <= i < j < k && t[j].Finite? ==> t[i].Finite? && t[i].value <= t[j].value)
      && (forall i :: 0 <= i < k && t[i].Finite? ==> HasDistance(ranks, t[i].value))
      && (forall r :: 0 <= r < |ranks| && ranks[r].valid ==>
            Finite(ranks[r].exact) in t || forall i :: 0 <= i < k ==> t[i].Finite? && t[i].value <= ranks[r].exact)
  {
    KSmallestInOrder(ranks, k);
    forall r | 0 <= r < |ranks| && ranks[r].valid
      ensures var t := KSmallest(ranks, k, |ranks|);
        Finite(ranks[r].exact) in t || forall i :: 0 <= i < k ==> t[i].Finite? && t[i].value <= ranks[r].exact
    {
      KSmallestMissing(ranks, k, r);
    }
  }

  lemma {:induction false} KeptOrNotBelow(all: seq<Candidate>, top: seq<Candidate>, rest: seq<Candidate>, k: nat, c: Candidate)
    requires multiset(all) == multiset(top) + multiset(rest) && |top| == (if |all| < k then |all| else k) && c in all
    requires forall i, j :: 0 <= i < |top| && 0 <= j < |rest| ==> top[i].distance <= rest[j].distance
    ensures Finite(c.distance) in Padded(top, k) || (|top| == k && forall i :: 0 <= i < k ==> top[i].distance <= c.distance)
  {
    assert c in multiset(all);
    assert |multiset(all)| == |all| && |multiset(top)| == |top| && |multiset(rest)| == |rest|;
    if c in top {
      var i :| 0 <= i < |top| && top[i] == c;
      assert Padded(top, k)[i] == Finite(c.distance);
    } else {
      assert c in rest;
    }
  }

  // ---------------------------------------------------------------- the buffer holds the kept ranks

  lemma PushKept(s: seq<Candidate>, k: nat, x: real)
    requires k > 0 && Anonymous(s)
    ensures InsertBest(Padded(TopKOf(s, k), k), x) == Padded(TopKOf(s + [Candidate(x, 0)], k), k)
  {
    AnonymousSort(s);
    SortedTopK(s, k);
    TopKExtend(s, Candidate(x, 0), k);
    InsertBestIsPush(TopKOf(s, k), x, k);
  }

  lemma {:induction false} BestIsKeptIn(p: Progress, before: seq<Candidate>, ranks: seq<Rank>, k: nat, lo: nat, hi: nat)
    requires k > 0 && lo <= hi <= |ranks| && Anonymous(before) && p.best == Padded(TopKOf(before, k), k)
    ensures ScanRanks(p, ranks, lo, hi).best == Padded(TopKOf(before + KeptIn(p, ranks, lo, hi), k), k)
    decreases hi
  {
    var kept := KeptIn(p, ranks, lo, hi);
    if lo == hi {
      assert before + kept == before;
    } else {
      var front, r := KeptIn(p, ranks, lo, hi - 1), ranks[hi - 1];
      BestIsKeptIn(p, before, ranks, k, lo, hi - 1);
      AnonymousIn(p, ranks, lo, hi - 1);
      if r.valid && !Filters(ScanRanks(p, ranks, lo, hi - 1), r) {
        PushKept(before + front, k, r.exact);
        assert before + kept == before + front + [Candidate(r.exact, 0)];
      } else {
        assert kept == front;
      }
    }
  }

  lemma {:induction false} BestIsKept(ranks: seq<Rank>, k: nat, tile: nat, t: nat)
    requires k > 0 && tile > 0
    ensures ScanTiles(ranks, k, tile, t).best == Padded(TopKOf(Kept(ranks, k, tile, t), k), k)
  {
    if t == 0 {
      assert Start(k).best == Padded([], k);
    } else {
      TimesMonotone(t - 1, t, tile);
      BestIsKept(ranks, k, tile, t - 1);
      AnonymousParts(ranks, k, tile, t - 1);
      BestIsKeptIn(ScanTiles(ranks, k, tile, t - 1), Kept(ranks, k, tile, t - 1), ranks, k,
                   Min(|ranks|, Times(t - 1, tile)), Min(|ranks|, Times(t, tile)));
    }
  }

  // ---------------------------------------------------------------- what the counters count

  /** The threshold of tile t: the k-th smallest exact distance kept in the tiles before it, once there are k. */
  function TileThreshold(ranks: seq<Rank>, k: nat, tile: nat, t: nat): Ext
    requires k > 0 && tile > 0
  {
    var kept := Kept(ranks, k, tile, t);
    if |kept| >= k then Finite(TopKOf(kept, k)[k - 1].distance) else Infinity
  }

  lemma ThresholdOfTile(ranks: seq<Rank>, k: nat, tile: nat, t: nat)
    requires k > 0 && tile > 0
    ensures ScanTiles(ranks, k, tile, t).threshold == TileThreshold(ranks, k, tile, t)
  {
    if t > 0 {
      BestIsKept(ranks, k, tile, t);
      LastPadded(TopKOf(Kept(ranks, k, tile, t), k), k);
    }
  }

  lemma LastPadded(b: seq<Candidate>, k: nat)
    requires k > 0 && |b| <= k
    ensures Padded(b, k)[k - 1] == if |b| == k then Finite(b[k - 1].distance) else Infinity
  {
  }

  /** For every rank the threshold of its tile. */
  function Thresholds(ranks: seq<Rank>, k: nat, tile: nat): nat -> Ext
    requires k > 0 && tile > 0
  {
    (r: nat) => TileThreshold(ranks, k, tile, r / tile)
  }

  /** A valid rank whose lower bound is above its threshold. */
  predicate Drops(ranks: seq<Rank>, threshold: nat -> Ext, r: nat)
    requires r < |ranks|
  {
    ranks[r].valid && threshold(r).Finite? && ranks[r].lowerBound > threshold(r).value
  }

  ghost function DroppedRanks(ranks: seq<Rank>, threshold: nat -> Ext, p: nat): set<nat>
    requires p <= |ranks|
  {
    set r: nat | r < p && Drops(ranks, threshold, r)
  }

  /** The dropped ranks whose exact distance is below their threshold. */
  ghost function Violations(ranks: seq<Rank>, threshold: nat -> Ext, p: nat): set<nat>
    requires p <= |ranks|
  {
    set r: nat | r < p && Drops(ranks, threshold, r) && ranks[r].exact < threshold(r).value
  }

  /** first is 0 when nothing was dropped, else 1 plus the least dropped rank. */
  ghost predicate IsFirst(first: nat, dropped: set<nat>) {
    if dropped == {} then first == 0 else first > 0 && first - 1 in dropped && forall r :: r in dropped ==> first - 1 <= r
  }

  /** The counters after the first p ranks. */
  ghost predicate Counts(s: Progress, ranks: seq<Rank>, threshold: nat -> Ext, p: nat)
    requires p <= |ranks|
  {
    && s.filteredCount == |DroppedRanks(ranks, threshold, p)|
    && IsFirst(s.firstFilteredRank, DroppedRanks(ranks, threshold, p))
    && s.safetyViolations == |Violations(ranks, threshold, p)|
  }

  lemma FirstKeeps(first: nat, dropped: set<nat>, p: nat)
    requires IsFirst(first, dropped) && forall r :: r in dropped ==> r < p
    ensures IsFirst(if first == 0 then p + 1 else first, dropped + {p})
  {
    assert p in dropped + {p};
  }

  lemma OneMoreRank(ranks: seq<Rank>, threshold: nat -> Ext, p: nat, drops: bool, violates: bool)
    requires p < |ranks| && drops == Drops(ranks, threshold, p) && violates == (drops && ranks[p].exact < threshold(p).value)
    ensures DroppedRanks(ranks, threshold, p + 1) == DroppedRanks(ranks, threshold, p) + if drops then {p} else {}
    ensures Violations(ranks, threshold, p + 1) == Violations(ranks, threshold, p) + if violates then {p} else {}
    ensures p !in DroppedRanks(ranks, threshold, p) && p !in Violations(ranks, threshold, p)
  {
  }

  lemma StepCounts(s: Progress, ranks: seq<Rank>, threshold: nat -> Ext, p: nat)
    requires p < |ranks| && Counts(s, ranks, threshold, p) && s.threshold == threshold(p)
    ensures Counts(StepRank(s, ranks[p], p), ranks, threshold, p + 1)
  {
    var drops := ranks[p].valid && Filters(s, ranks[p]);
    OneMoreRank(ranks, threshold, p, drops, drops && ranks[p].exact < s.threshold.value);
    FirstKeeps(s.firstFilteredRank, DroppedRanks(ranks, threshold, p), p);
  }

  lemma {:induction false} CountsOfRanks(s: Progress, ranks: seq<Rank>, threshold: nat -> Ext, lo: nat, hi: nat)
    requires lo <= hi <= |ranks| && Counts(s, ranks, threshold, lo) && forall r :: lo <= r < hi ==> threshold(r) == s.threshold
    ensures Counts(ScanRanks(s, ranks, lo, hi), ranks, threshold, hi)
    ensures ScanRanks(s, ranks, lo, hi).threshold == s.threshold
    decreases hi
  {
    if lo < hi {
      CountsOfRanks(s, ranks, threshold, lo, hi - 1);
      StepCounts(ScanRanks(s, ranks, lo, hi - 1), ranks, threshold, hi - 1);
    }
  }

  /** The counters over one tile, whose ranks all have the threshold of its start. */
  lemma CountsOfTile(s: Progress, ranks: seq<Rank>, threshold: nat -> Ext, lo: nat, hi: nat)
    requires lo <= hi <= |ranks| && Counts(s, ranks, threshold, lo) && s.best != []
    requires forall r :: lo <= r < hi ==> threshold(r) == s.threshold
    ensures |ScanRanks(s, ranks, lo, hi).best| == |s.best|
    ensures Counts(EndTile(ScanRanks(s, ranks, lo, hi)), ranks, threshold, hi)
  {
    CountsOfRanks(s, ranks, threshold, lo, hi);
    ScanKeepsLength(s, ranks, lo, hi);
  }

  lemma InTile(t: nat, tile: nat, r: nat)
    requires Times(t, tile) <= r < Times(t, tile) + tile
    ensures r / tile == t
  {
    TimesIsProduct(t, tile);
    DivModUnique(t, tile, r - Times(t, tile));
  }

  /** Each rank's threshold is the scan's at the start of its tile. */
  ghost predicate AtTileStarts(threshold: nat -> Ext, ranks: seq<Rank>, k: nat, tile: nat)
    requires k > 0 && tile > 0
  {
    forall r :: 0 <= r < |ranks| ==> threshold(r) == ScanTiles(ranks, k, tile, r / tile).threshold
  }

  lemma ThresholdsOfTiles(ranks: seq<Rank>, k: nat, tile: nat)
    requires k > 0 && tile > 0
    ensures AtTileStarts(Thresholds(ranks, k, tile), ranks, k, tile)
  {
    forall r | 0 <= r < |ranks| ensures Thresholds(ranks, k, tile)(r) == ScanTiles(ranks, k, tile, r / tile).threshold {
      ThresholdOfTile(ranks, k, tile, r / tile);
    }
  }

  lemma StartCounts(ranks: seq<Rank>, k: nat, threshold: nat -> Ext)
    requires k > 0
    ensures Counts(Start(k), ranks, threshold, 0)
  {
    assert DroppedRanks(ranks, threshold, 0) == {} && Violations(ranks, threshold, 0) == {};
  }

  lemma {:induction false} CountsUpTo(ranks: seq<Rank>, k: nat, tile: nat, t: nat, threshold: nat -> Ext)
    requires k > 0 && tile > 0 && AtTileStarts(threshold, ranks, k, tile)
    ensures Counts(ScanTiles(ranks, k, tile, t), ranks, threshold, Min(|ranks|, Times(t, tile)))
  {
    if t == 0 {
      StartCounts(ranks, k, threshold);
    } else {
      CountsUpTo(ranks, k, tile, t - 1, threshold);
      var before, lo, hi := ScanTiles(ranks, k, tile, t - 1), Min(|ranks|, Times(t - 1, tile)), Min(|ranks|, Times(t, tile));
      forall r | lo <= r < hi ensures threshold(r) == before.threshold {
        InTile(t - 1, tile, r);
      }
      CountsOfTile(before, ranks, threshold, lo, hi);
    }
  }

  /** For every tile size and all bounds: the counters are the numbers of dropped ranks and of violations, and
      the first filtered rank is 1 plus the least dropped one, or 0. */
  lemma CountsOfTiles(ranks: seq<Rank>, k: nat, tile: nat, tiles: nat)
    requires k > 0 && tile > 0 && Times(tiles, tile) >= |ranks|
    ensures Counts(ScanTiles(ranks, k, tile, tiles), ranks, Thresholds(ranks, k, tile), |ranks|)
  {
    ThresholdsOfTiles(ranks, k, tile);
    CountsUpTo(ranks, k, tile, tiles, Thresholds(ranks, k, tile));
  }

  lemma {:induction false} FilteredLength(s: Progress, ranks: seq<Rank>, lo: nat, hi: nat)
    requires lo <= hi <= |ranks|
    ensures ScanRanks(s, ranks, lo, hi).filteredCount == s.filteredCount + |FilteredIn(s, ranks, lo, hi)|
    decreases hi
  {
    if lo < hi {
      FilteredLength(s, ranks, lo, hi - 1);
    }
  }

  /** As many ranks are counted as filtered as are missing among the kept ones. */
  lemma {:induction false} CountsFiltered(ranks: seq<Rank>, k: nat, tile: nat, t: nat)
    requires k > 0 && tile > 0
    ensures ScanTiles(ranks, k, tile, t).filteredCount == |Filtered(ranks, k, tile, t)|
  {
    if t > 0 {
      TimesMonotone(t - 1, t, tile);
      CountsFiltered(ranks, k, tile, t - 1);
      FilteredLength(ScanTiles(ranks, k, tile, t - 1), ranks, Min(|ranks|, Times(t - 1, tile)), Min(|ranks|, Times(t, tile)));
    }
  }

  // ---------------------------------------------------------------- when more candidates change nothing

  lemma SortOfMultiset(s: seq<Candidate>, t: seq<Candidate>)
    requires multiset(s) == multiset(t)
    ensures Sort(s) == Sort(t)
  {
    SortIsSortedPermutation(s);
    SortIsSortedPermutation(t);
    SortUnique(s, Sort(t));
  }

  /** Candidates that are not below a full buffer's last entry leave it as it is. */
  lemma {:induction false} NothingBelowKeeps(s: seq<Candidate>, more: seq<Candidate>, k: nat)
    requires k > 0 && |s| >= k && CountLess(more, TopKOf(s, k)[k - 1]) == 0
    ensures TopKOf(s + more, k) == TopKOf(s, k)
  {
    if more == [] {
      assert s + more == s;
    } else {
      var front, last := more[..|more| - 1], more[|more| - 1];
      NothingBelowKeeps(s, front, k);
      assert s + more == s + front + [last];
      TopKExtend(s + front, last, k);
      PushBeyond(TopKOf(s, k), last, k);
    }
  }

  /** An unchanged buffer means that nothing below its last entry was added. */
  lemma KeptMeansNothingBelow(s: seq<Candidate>, more: seq<Candidate>, k: nat)
    requires k > 0 && |s| >= k && TopKOf(s + more, k) == TopKOf(s, k)
    ensures CountLess(more, TopKOf(s, k)[k - 1]) == 0
  {
    var c := TopKOf(s, k)[k - 1];
    BelowIsInTop(s, k, c);
    BelowIsInTop(s + more, k, c);
    CountLessConcat(s, more, c);
  }

  /** What is below the k-th least is counted within the k least. */
  lemma BelowIsInTop(s: seq<Candidate>, k: nat, c: Candidate)
    requires k > 0 && |s| >= k && c == TopKOf(s, k)[k - 1]
    ensures CountLess(s, c) == CountLess(TopKOf(s, k), c)
  {
    SortIsSortedPermutation(s);
    CountLessSort(s, c);
    BelowIsInPrefix(Sort(s), k, c);
  }

  lemma BelowIsInPrefix(t: seq<Candidate>, k: nat, c: Candidate)
    requires Sorted(t) && 0 < k <= |t| && c == t[k - 1]
    ensures CountLess(t, c) == CountLess(t[..k], c)
  {
    assert t == t[..k] + t[k..];
    CountLessConcat(t[..k], t[k..], c);
    NoneLess(t[k..], c);
  }

  lemma {:induction false} NoneLess(s: seq<Candidate>, c: Candidate)
    requires forall i :: 0 <= i < |s| ==> !CandidateLess(s[i], c)
    ensures CountLess(s, c) == 0
  {
    if s != [] {
      NoneLess(s[..|s| - 1], c);
    }
  }

  lemma PaddedEqual(a: seq<Candidate>, b: seq<Candidate>, k: nat)
    requires |a| <= k && |b| <= k && Anonymous(a) && Anonymous(b)
    ensures Padded(a, k) == Padded(b, k) <==> a == b
  {
    if Padded(a, k) == Padded(b, k) {
      if |a| < k {
        assert !Padded(b, k)[|a|].Finite?;
      }
      if |b| < k {
        assert !Padded(a, k)[|b|].Finite?;
      }
      forall i | 0 <= i < |a| ensures a[i] == b[i] {
        assert Padded(a, k)[i] == Padded(b, k)[i];
      }
    }
  }

  ghost predicate NoneBelow(dropped: seq<Candidate>, last: Ext) {
    forall i :: 0 <= i < |dropped| ==> !ExtLess(Finite(dropped[i].distance), last)
  }

  lemma {:induction false} NoneBelowIffCount(dropped: seq<Candidate>, x: real)
    requires Anonymous(dropped)
    ensures NoneBelow(dropped, Finite(x)) <==> CountLess(dropped, Candidate(x, 0)) == 0
  {
    if dropped != [] {
      var front, last := dropped[..|dropped| - 1], dropped[|dropped| - 1];
      NoneBelowIffCount(front, x);
      if NoneBelow(front, Finite(x)) && !CandidateLess(last, Candidate(x, 0)) {
        forall i | 0 <= i < |dropped| ensures !ExtLess(Finite(dropped[i].distance), Finite(x)) {
          assert i < |front| ==> dropped[i] == front[i];
        }
      }
      assert NoneBelow(dropped, Finite(x)) ==> NoneBelow(front, Finite(x)) && !ExtLess(Finite(last.distance), Finite(x));
    }
  }

  /** Over any kept and dropped candidates: the k least of the kept are those of all exactly if nothing
      dropped is below the last of them. */
  lemma DroppingIsExactIff(kept: seq<Candidate>, dropped: seq<Candidate>, k: nat)
    requires k > 0 && Anonymous(kept) && Anonymous(dropped)
    ensures Padded(TopKOf(kept, k), k) == Padded(TopKOf(kept + dropped, k), k)
       <==> NoneBelow(dropped, Padded(TopKOf(kept, k), k)[k - 1])
  {
    AnonymousSort(kept);
    AnonymousSort(kept + dropped);
    PaddedEqual(TopKOf(kept, k), TopKOf(kept + dropped, k), k);
    if |kept| >= k {
      var c := TopKOf(kept, k)[k - 1];
      NoneBelowIffCount(dropped, c.distance);
      if CountLess(dropped, c) == 0 {
        NothingBelowKeeps(kept, dropped, k);
      }
      if TopKOf(kept, k) == TopKOf(kept + dropped, k) {
        KeptMeansNothingBelow(kept, dropped, k);
      }
    } else if dropped == [] {
      assert kept + dropped == kept;
    } else {
      assert |TopKOf(kept + dropped, k)| > |TopKOf(kept, k)|;
      assert ExtLess(Finite(dropped[0].distance), Padded(TopKOf(kept, k), k)[k - 1]);
    }
  }

  /** For all bounds, sound or not, and every tile size: the scan ends with the k smallest exact distances
      of all valid ranks if and only if no filtered rank's exact distance is below the final threshold. */
  lemma TiledScanExactIff(ranks: seq<Rank>, k: nat, tile: nat, tiles: nat)
    requires k > 0 && tile > 0 && Times(tiles, tile) >= |ranks|
    ensures ScanTiles(ranks, k, tile, tiles).best == KSmallest(ranks, k, |ranks|)
       <==> NoneBelow(Filtered(ranks, k, tile, tiles), ScanTiles(ranks, k, tile, tiles).best[k - 1])
  {
    var kept, dropped := Kept(ranks, k, tile, tiles), Filtered(ranks, k, tile, tiles);
    BestIsKept(ranks, k, tile, tiles);
    AnonymousParts(ranks, k, tile, tiles);
    PartsOfTiles(ranks, k, tile, tiles);
    PartsMultiset(ExactUpTo(ranks, |ranks|), kept, dropped);
    SortOfMultiset(ExactUpTo(ranks, |ranks|), kept + dropped);
    DroppingIsExactIff(kept, dropped, k);
  }

  /** The tool compares with the stale threshold instead: it counts a violation here, but the threshold
      had already been beaten inside the tile, so the result is exact. */
  lemma ViolationCanBeHarmless(ranks: seq<Rank>)
    requires ranks == [Rank(true, 5.0, 0.0), Rank(false, 0.0, 0.0), Rank(true, 1.0, 0.0), Rank(true, 3.0, 100.0)]
    ensures ScanTiles(ranks, 1, 2, 2).safetyViolations == 1 && ScanTiles(ranks, 1, 2, 2).best == KSmallest(ranks, 1, 4)
  {
    var tile0 := ScanTiles(ranks, 1, 2, 1);
    assert Times(0, 2) == 0 && Times(1, 2) == 2 && Times(2, 2) == 4;
    FirstTile(ranks);
    var one := Progress([Finite(1.0)], Finite(5.0), 0, 0, 0);
    assert ScanRanks(tile0, ranks, 2, 3) == StepRank(tile0, ranks[2], 2) == one;
    assert ScanRanks(tile0, ranks, 2, 4) == StepRank(one, ranks[3], 3) == Progress([Finite(1.0)], Finite(5.0), 1, 4, 1);
    assert FilteredIn(tile0, ranks, 2, 3) == [];
    assert FilteredIn(tile0, ranks, 2, 4) == [Candidate(3.0, 0)];
    assert Filtered(ranks, 1, 2, 2) == Filtered(ranks, 1, 2, 1) + [Candidate(3.0, 0)];
    TiledScanExactIff(ranks, 1, 2, 2);
  }

  lemma FirstTile(ranks: seq<Rank>)
    requires |ranks| == 4 && ranks[0] == Rank(true, 5.0, 0.0) && ranks[1] == Rank(false, 0.0, 0.0)
    ensures ScanTiles(ranks, 1, 2, 1) == Progress([Finite(5.0)], Finite(5.0), 0, 0, 0) && Filtered(ranks, 1, 2, 1) == []
  {
    var start := ScanTiles(ranks, 1, 2, 0);
    var five := Progress([Finite(5.0)], Infinity, 0, 0, 0);
    assert Times(0, 2) == 0 && Times(1, 2) == 2;
    assert start.best == [Infinity];
    assert ScanRanks(start, ranks, 0, 1) == StepRank(start, ranks[0], 0) == five;
    assert ScanRanks(start, ranks, 0, 2) == five;
    assert FilteredIn(start, ranks, 0, 1) == [];
    assert FilteredIn(start, ranks, 0, 2) == [];
    assert Filtered(ranks, 1, 2, 0) == [];
  }

  // ---------------------------------------------------------------- ranks of an index

  /** Ids are used as the refined buffer has them: node_id itself, not its lower 31 bits. */
  ghost predicate Stored(c: S.DeviceCandidate, query: Vec, store: S.Store) {
    c.ValidId() ==> c.packedId < |store.vectors| == |store.errorBounds| && |store.vectors[c.packedId]| == |query|
  }

  /** A rank as the tool scores it: exact distance, and the bound of the distance minus the query norm,
      clamped at 0. */
  function RankOf(c: S.DeviceCandidate, query: Vec, store: S.Store, sqrt: real -> real): Rank
    requires Stored(c, query, store)
  {
    if !c.ValidId() then Rank(false, 0.0, 0.0)
    else
      Rank(true, SqDist(query, store.vectors[c.packedId]),
           SquaredL2LowerBound(sqrt, Max(0.0, c.distance - NormSq(query)), store.errorBounds[c.packedId]))
  }

  function RanksOf(candidates: seq<S.DeviceCandidate>, query: Vec, store: S.Store, sqrt: real -> real): (ranks: seq<Rank>)
    requires forall r :: 0 <= r < |candidates| ==> Stored(candidates[r], query, store)
    ensures |ranks| == |candidates|
  {
    seq(|candidates|, r requires 0 <= r < |candidates| => RankOf(candidates[r], query, store, sqrt))
  }

  lemma ClampedBound(sqrt: real -> real, x: real, err: real)
    ensures SquaredL2LowerBound(sqrt, Max(0.0, x), err) == SquaredL2LowerBound(sqrt, x, err)
  {
  }

  /** The bound of a refined candidate is that of the distance to what its codes reconstruct. */
  lemma RefinedRank(c: S.DeviceCandidate, query: Vec, store: S.Store, sqrt: real -> real, base: PqPivots, residual: PqPivots, table: seq<real>,
                    baseCode: seq<Code>, residualCode: seq<Code>)
    requires c.ValidId() && Stored(c, query, store) && base.Valid() && residual.Valid() && SameLayout(base, residual) && base.Tiles()
    requires IsCrossTable(base, residual, table) && |query| == base.ndims && |baseCode| == |residualCode| == base.NumChunks()
    requires c.distance == RefinedDistance(base, residual, table, query, baseCode, residualCode)
    ensures RankOf(c, query, store, sqrt).exact == SqDist(query, store.vectors[c.packedId])
    ensures RankOf(c, query, store, sqrt).lowerBound
         == SquaredL2LowerBound(sqrt, SqDist(query, FullReconstruction(base, residual, baseCode, residualCode)), store.errorBounds[c.packedId])
  {
    RefinedDistanceIdentity(base, residual, table, query, baseCode, residualCode);
    ClampedBound(sqrt, c.distance - NormSq(query), store.errorBounds[c.packedId]);
  }

  lemma RefinedRankSound(c: S.DeviceCandidate, query: Vec, store: S.Store, sqrt: real -> real, base: PqPivots, residual: PqPivots, table: seq<real>,
                         baseCode: seq<Code>, residualCode: seq<Code>)
    requires IsSqrt(sqrt) && c.ValidId() && Stored(c, query, store)
    requires base.Valid() && residual.Valid() && SameLayout(base, residual) && base.Tiles()
    requires IsCrossTable(base, residual, table) && |query| == base.ndims && |baseCode| == |residualCode| == base.NumChunks()
    requires c.distance == RefinedDistance(base, residual, table, query, baseCode, residualCode)
    requires store.errorBounds[c.packedId] == sqrt(SqDist(store.vectors[c.packedId], FullReconstruction(base, residual, baseCode, residualCode)))
    ensures RankOf(c, query, store, sqrt).lowerBound <= RankOf(c, query, store, sqrt).exact
  {
    var vector := store.vectors[c.packedId];
    RefinedRank(c, query, store, sqrt, base, residual, table, baseCode, residualCode);
    LowerBoundSound(sqrt, query, vector, FullReconstruction(base, residual, baseCode, residualCode), store.errorBounds[c.packedId]);
    SqDistSymmetric(query, vector);
  }

  /** Builder to tiled scan: over an index with the builder's errors and candidates with table-sum distances,
      every tile size gives no violation and the k smallest exact distances of all candidates. */
  lemma {:induction false} IndexedTiledScanIsExact(candidates: seq<S.DeviceCandidate>, k: nat, tile: nat, tiles: nat, query: Vec, store: S.Store,
                                sqrt: real -> real, base: PqPivots, residual: PqPivots, table: seq<real>,
                                baseCodes: seq<seq<Code>>, residualCodes: seq<seq<Code>>)
    requires k > 0 && tile > 0 && Times(tiles, tile) >= |candidates|
    requires IsSqrt(sqrt) && base.Valid() && residual.Valid() && SameLayout(base, residual) && base.Tiles()
    requires IsCrossTable(base, residual, table) && |query| == base.ndims
    requires |baseCodes| == |residualCodes| == |store.vectors| == |store.errorBounds|
    requires forall id :: 0 <= id < |store.vectors| ==>
      |store.vectors[id]| == base.ndims && |baseCodes[id]| == |residualCodes[id]| == base.NumChunks()
    requires forall id :: 0 <= id < |store.vectors| ==>
      store.errorBounds[id] == sqrt(SqDist(store.vectors[id], FullReconstruction(base, residual, baseCodes[id], residualCodes[id])))
    requires forall r :: 0 <= r < |candidates| ==> Stored(candidates[r], query, store)
    requires forall r :: 0 <= r < |candidates| && candidates[r].ValidId() ==>
      Stored(candidates[r], query, store) &&
      candidates[r].distance == RefinedDistance(base, residual, table, query, baseCodes[candidates[r].packedId], residualCodes[candidates[r].packedId])
    ensures var ranks := RanksOf(candidates, query, store, sqrt);
      && SoundBounds(ranks)
      && ScanTiles(ranks, k, tile, tiles).safetyViolations == 0
      && ScanTiles(ranks, k, tile, tiles).best == KSmallest(ranks, k, |ranks|)
  {
    var ranks := RanksOf(candidates, query, store, sqrt);
    forall r | 0 <= r < |ranks| && ranks[r].valid ensures ranks[r].lowerBound <= ranks[r].exact {
      var id := candidates[r].packedId;
      RefinedRankSound(candidates[r], query, store, sqrt, base, residual, table, baseCodes[id], residualCodes[id]);
    }
    StaleThresholdIsExact(ranks, k, tile, tiles);
  }
}
