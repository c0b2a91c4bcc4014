/** The running top-k buffer: its order, its update, and what it holds. */
module TopK {
  import opened Sequences

  const INVALID_NODE_ID: nat := 0xffff_ffff

  datatype Candidate = Candidate(distance: real, nodeId: nat)

  predicate CandidateLess(lhs: Candidate, rhs: Candidate) {
    if lhs.distance != rhs.distance then lhs.distance < rhs.distance else lhs.nodeId < rhs.nodeId
  }

  ghost predicate Sorted(s: seq<Candidate>) {
    forall i, j :: 0 <= i < j < |s| ==> !CandidateLess(s[j], s[i])
  }

  function Take<T>(s: seq<T>, k: nat): (t: seq<T>)
    ensures |t| == if |s| < k then |s| else k
  {
    if |s| <= k then s else s[..k]
  }

  /** Insertion from the back, one comparison at a time. */
  function Insert(c: Candidate, s: seq<Candidate>): (t: seq<Candidate>)
    ensures |t| == |s| + 1
  {
    if s != [] && CandidateLess(c, s[|s| - 1]) then Insert(c, s[..|s| - 1]) + [s[|s| - 1]] else s + [c]
  }

  /** std::sort under CandidateLess; SortUnique shows there is only one sorted permutation. */
  function Sort(s: seq<Candidate>): (t: seq<Candidate>)
    ensures |t| == |s|
  {
    if s == [] then [] else Insert(s[|s| - 1], Sort(s[..|s| - 1]))
  }

  /** The k least candidates of s, in order. */
  function TopKOf(s: seq<Candidate>, k: nat): (t: seq<Candidate>)
    ensures |t| == if |s| < k then |s| else k
  {
    Take(Sort(s), k)
  }

  function Push(buffer: seq<Candidate>, c: Candidate, k: nat): (t: seq<Candidate>) {
    Take(Insert(c, buffer), k)
  }

  // ---------------------------------------------------------------- order lemmas

  /** Where Insert puts c in a sorted sequence: after everything not above c. */
  function Position(c: Candidate, s: seq<Candidate>): (p: nat)
    ensures p <= |s|
  {
    if s != [] && CandidateLess(c, s[|s| - 1]) then Position(c, s[..|s| - 1]) else |s|
  }

  lemma {:induction false} InsertAt(c: Candidate, s: seq<Candidate>)
    ensures Insert(c, s) == s[..Position(c, s)] + [c] + s[Position(c, s)..]
    ensures forall i :: Position(c, s) <= i < |s| ==> CandidateLess(c, s[i])
    ensures Position(c, s) > 0 ==> !CandidateLess(c, s[Position(c, s) - 1])
  {
    if s != [] && CandidateLess(c, s[|s| - 1]) {
      var front := s[..|s| - 1];
      InsertAt(c, front);
      var p := Position(c, s);
      assert s[p..] == front[p..] + [s[|s| - 1]];
      assert s[..p] == front[..p];
    }
  }

  lemma InsertSplit(c: Candidate, s: seq<Candidate>)
    ensures Insert(c, s) == s[..Position(c, s)] + [c] + s[Position(c, s)..]
  {
    InsertAt(c, s);
  }

  lemma PositionIs(c: Candidate, s: seq<Candidate>, p: nat)
    requires p <= |s| && (p > 0 ==> !CandidateLess(c, s[p - 1]))
    requires forall i :: p <= i < |s| ==> CandidateLess(c, s[i])
    ensures Position(c, s) == p
  {
    InsertAt(c, s);
  }

  lemma InsertSorted(c: Candidate, s: seq<Candidate>)
    requires Sorted(s)
    ensures Sorted(Insert(c, s))
  {
    InsertAt(c, s);
    var p, t := Position(c, s), Insert(c, s);
    forall i, j | 0 <= i < j < |t| ensures !CandidateLess(t[j], t[i]) {
      var x := if i < p then s[i] else if i == p then c else s[i - 1];
      var y := if j < p then s[j] else if j == p then c else s[j - 1];
      assert t[i] == x && t[j] == y;
      if j == p && i < p - 1 {
        assert !CandidateLess(c, s[p - 1]) && !CandidateLess(s[p - 1], s[i]);
      }
    }
  }

  lemma InsertMultiset(c: Candidate, s: seq<Candidate>)
    ensures multiset(Insert(c, s)) == multiset(s) + multiset{c}
  {
    InsertSplit(c, s);
    assert s == s[..Position(c, s)] + s[Position(c, s)..];
  }

  lemma {:induction false} SortSorts(s: seq<Candidate>)
    ensures Sorted(Sort(s))
  {
    if s != [] {
      SortSorts(s[..|s| - 1]);
      InsertSorted(s[|s| - 1], Sort(s[..|s| - 1]));
    }
  }

  lemma {:induction false} SortPermutes(s: seq<Candidate>)
    ensures multiset(Sort(s)) == multiset(s)
  {
    if s != [] {
      var front, last := s[..|s| - 1], s[|s| - 1];
      SortPermutes(front);
      InsertMultiset(last, Sort(front));
      MultisetLast(s);
    }
  }

  lemma SortIsSortedPermutation(s: seq<Candidate>)
    ensures Sorted(Sort(s)) && multiset(Sort(s)) == multiset(s)
  {
    SortSorts(s);
    SortPermutes(s);
  }

  lemma SameLast(s: seq<Candidate>, t: seq<Candidate>)
    requires Sorted(s) && Sorted(t) && s != [] && t != [] && multiset(s) == multiset(t)
    ensures s[|s| - 1] == t[|t| - 1]
  {
    var x, y := s[|s| - 1], t[|t| - 1];
    assert x in multiset(t) && y in multiset(s);
    var i :| 0 <= i < |t| && t[i] == x;
    var j :| 0 <= j < |s| && s[j] == y;
    assert !CandidateLess(y, x) && !CandidateLess(x, y);
  }

  lemma SameSize(s: seq<Candidate>, t: seq<Candidate>)
    requires multiset(s) == multiset(t)
    ensures |s| == |t|
  {
    assert |multiset(s)| == |s| && |multiset(t)| == |t|;
  }

  lemma Fronts(s: seq<Candidate>, t: seq<Candidate>)
    requires s != [] && t != [] && multiset(s) == multiset(t) && s[|s| - 1] == t[|t| - 1]
    ensures multiset(s[..|s| - 1]) == multiset(t[..|t| - 1])
  {
    MultisetLast(s);
    MultisetLast(t);
  }

  lemma {:induction false} SortedPermutationsEqual(s: seq<Candidate>, t: seq<Candidate>)
    requires Sorted(s) && Sorted(t) && multiset(s) == multiset(t)
    ensures s == t
    decreases |s|
  {
    SameSize(s, t);
    if s != [] {
      SameLast(s, t);
      Fronts(s, t);
      SortedPermutationsEqual(s[..|s| - 1], t[..|t| - 1]);
      assert s == s[..|s| - 1] + [s[|s| - 1]] && t == t[..|t| - 1] + [t[|t| - 1]];
    }
  }

  /** Any correct sort under CandidateLess returns Sort(s). */
  lemma SortUnique(s: seq<Candidate>, t: seq<Candidate>)
    requires Sorted(t) && multiset(t) == multiset(s)
    ensures t == Sort(s)
  {
    SortIsSortedPermutation(s);
    SortedPermutationsEqual(t, Sort(s));
  }

  lemma SortExtend(s: seq<Candidate>, c: Candidate)
    ensures Sort(s + [c]) == Insert(c, Sort(s))
  {
    assert (s + [c])[..|s|] == s;
  }

  /** Truncating before or after an insertion makes no difference to the first k. */
  lemma {:induction false} PushTruncated(s: seq<Candidate>, c: Candidate, k: nat)
    requires Sorted(s)
    ensures Take(Insert(c, s), k) == Push(Take(s, k), c, k)
  {
    if |s| > k {
      var front, last := s[..|s| - 1], s[|s| - 1];
      assert Take(front, k) == Take(s, k);
      if CandidateLess(c, last) {
        PushTruncated(front, c, k);
        assert Take(Insert(c, s), k) == Take(Insert(c, front), k);
      } else if k > 0 {
        assert !CandidateLess(last, s[k - 1]);
        assert Insert(c, Take(s, k)) == s[..k] + [c];
      }
    }
  }

  lemma SortedPositionBelow(c: Candidate, s: seq<Candidate>)
    requires Sorted(s)
    ensures forall i :: 0 <= i < Position(c, s) ==> !CandidateLess(c, s[i])
  {
    InsertAt(c, s);
  }

  /** One exact read: the buffer of a longer list is one Push away. */
  lemma TopKExtend(s: seq<Candidate>, c: Candidate, k: nat)
    ensures TopKOf(s + [c], k) == Push(TopKOf(s, k), c, k)
  {
    SortExtend(s, c);
    SortIsSortedPermutation(s);
    PushTruncated(Sort(s), c, k);
  }

  /** A candidate that is not below the k-th one leaves a full buffer unchanged. */
  lemma PushBeyond(buffer: seq<Candidate>, c: Candidate, k: nat)
    requires |buffer| == k && (k > 0 ==> !CandidateLess(c, buffer[k - 1]))
    ensures Push(buffer, c, k) == buffer
  {
    InsertAt(c, buffer);
    PositionIs(c, buffer, k);
  }

  // ---------------------------------------------------------------- who is in the top k

  /** How many entries of s are strictly below c. */
  function CountLess(s: seq<Candidate>, c: Candidate): (n: nat)
    ensures n <= |s|
  {
    if s == [] then 0
    else CountLess(s[..|s| - 1], c) + if CandidateLess(s[|s| - 1], c) then 1 else 0
  }

  lemma {:induction false} CountLessConcat(s: seq<Candidate>, t: seq<Candidate>, c: Candidate)
    ensures CountLess(s + t, c) == CountLess(s, c) + CountLess(t, c)
  {
    if t == [] {
      assert s + t == s;
    } else {
      assert (s + t)[..|s + t| - 1] == s + t[..|t| - 1];
      CountLessConcat(s, t[..|t| - 1], c);
    }
  }

  lemma {:induction false} CountLessInsert(x: Candidate, t: seq<Candidate>, c: Candidate)
    ensures CountLess(Insert(x, t), c) == CountLess(t, c) + if CandidateLess(x, c) then 1 else 0
  {
    if t != [] && CandidateLess(x, t[|t| - 1]) {
      var front := t[..|t| - 1];
      CountLessInsert(x, front, c);
      assert Insert(x, t)[..|t|] == Insert(x, front);
    } else {
      assert Insert(x, t)[..|t|] == t;
    }
  }

  lemma {:induction false} CountLessSort(s: seq<Candidate>, c: Candidate)
    ensures CountLess(Sort(s), c) == CountLess(s, c)
  {
    if s != [] {
      CountLessSort(s[..|s| - 1], c);
      CountLessInsert(s[|s| - 1], Sort(s[..|s| - 1]), c);
    }
  }

  /** In a sorted list the entries below c are a prefix. */
  lemma {:induction false} CountLessSorted(t: seq<Candidate>, c: Candidate)
    requires Sorted(t)
    ensures forall i :: 0 <= i < |t| ==> (CandidateLess(t[i], c) <==> i < CountLess(t, c))
  {
    if t != [] {
      var front := t[..|t| - 1];
      CountLessSorted(front, c);
      if CandidateLess(t[|t| - 1], c) {
        forall i | 0 <= i < |front| ensures CandidateLess(front[i], c) {
          assert !CandidateLess(t[|t| - 1], t[i]);
        }
        if |front| > 0 {
          assert |front| - 1 < CountLess(front, c);
        }
      }
    }
  }

  /** Membership without sorting: c is among the k least of s exactly when it occurs in s
      and fewer than k entries are below it. */
  lemma SortedMember(t: seq<Candidate>, k: nat, c: Candidate)
    requires Sorted(t)
    ensures c in Take(t, k) <==> c in t && CountLess(t, c) < k
  {
    CountLessSorted(t, c);
    var n := CountLess(t, c);
    if c in Take(t, k) {
      var i :| 0 <= i < |Take(t, k)| && t[i] == c;
      assert !CandidateLess(t[i], c);
    }
    if c in t && n < k {
      var i :| 0 <= i < |t| && t[i] == c;
      assert !CandidateLess(t[i], c) && n <= i;
      assert !CandidateLess(t[n], c);
      if n < i {
        assert !CandidateLess(t[i], t[n]);
      }
      assert Take(t, k)[n] == c;
    }
  }

  lemma TopKMember(s: seq<Candidate>, k: nat, c: Candidate)
    ensures c in TopKOf(s, k) <==> c in s && CountLess(s, c) < k
  {
    SortIsSortedPermutation(s);
    CountLessSort(s, c);
    SortedMember(Sort(s), k, c);
    assert c in s <==> c in multiset(s);
    assert c in Sort(s) <==> c in multiset(Sort(s));
  }

  /** A member of the final top k that is already present in a prefix is in the prefix's top k. */
  lemma TopKMemberEarlier(s: seq<Candidate>, t: seq<Candidate>, k: nat, c: Candidate)
    requires c in s && c in TopKOf(s + t, k)
    ensures c in TopKOf(s, k)
  {
    TopKMember(s + t, k, c);
    TopKMember(s, k, c);
    CountLessConcat(s, t, c);
  }

  lemma TopKSubset(s: seq<Candidate>, k: nat)
    ensures forall c :: c in TopKOf(s, k) ==> c in s
  {
    forall c | c in TopKOf(s, k) ensures c in s {
      TopKMember(s, k, c);
    }
  }

  lemma SortedTopK(s: seq<Candidate>, k: nat)
    ensures Sorted(TopKOf(s, k))
  {
    SortIsSortedPermutation(s);
  }

  /** What the k least are, by distance and node id alone: some rest completes them to s, nothing in the rest
      is closer, equal distances go to the smaller node id, and they are in that order themselves. */
  lemma TopKSplits(s: seq<Candidate>, k: nat) returns (rest: seq<Candidate>)
    ensures multiset(s) == multiset(TopKOf(s, k)) + multiset(rest)
    ensures forall i, j :: 0 <= i < |TopKOf(s, k)| && 0 <= j < |rest| ==>
      TopKOf(s, k)[i].distance < rest[j].distance
      || (TopKOf(s, k)[i].distance == rest[j].distance && TopKOf(s, k)[i].nodeId <= rest[j].nodeId)
    ensures forall i, j :: 0 <= i < j < |TopKOf(s, k)| ==>
      TopKOf(s, k)[i].distance < TopKOf(s, k)[j].distance
      || (TopKOf(s, k)[i].distance == TopKOf(s, k)[j].distance && TopKOf(s, k)[i].nodeId <= TopKOf(s, k)[j].nodeId)
  {
    SortIsSortedPermutation(s);
    var t, top := Sort(s), TopKOf(s, k);
    rest := t[|top|..];
    assert t == top + rest;
    forall i, j | 0 <= i < |top| && 0 <= j < |rest| ensures !CandidateLess(rest[j], top[i]) {
      assert top[i] == t[i] && rest[j] == t[|top| + j];
    }
  }

  /** The k-th distance never grows as more candidates are seen. */
  lemma {:induction false} KthNonIncreasing(s: seq<Candidate>, t: seq<Candidate>, k: nat)
    requires 0 < k <= |s|
    ensures TopKOf(s + t, k)[k - 1].distance <= TopKOf(s, k)[k - 1].distance
    decreases |t|
  {
    if t == [] {
      assert s + t == s;
    } else {
      var front, c := t[..|t| - 1], t[|t| - 1];
      assert s + t == (s + front) + [c];
      KthNonIncreasing(s, front, k);
      var b := TopKOf(s + front, k);
      TopKExtend(s + front, c, k);
      SortedTopK(s + front, k);
      InsertAt(c, b);
    }
  }

  // ---------------------------------------------------------------- RunningTopK

  class RunningTopK {
    var values: seq<Candidate>

    constructor ()
      ensures values == []
    {
      values := [];
    }

    /** InsertIntoTopK: the buffer becomes the k least of its old content and the candidate;
        the result tells whether the buffer changed. */
    method InsertIntoTopK(candidate: Candidate, topK: nat) returns (inserted: bool)
      requires Sorted(values) && |values| <= topK
      modifies this
      ensures values == Push(old(values), candidate, topK)
      ensures Sorted(values) && |values| <= topK
      ensures inserted <==> values != old(values)
    {
      InsertAt(candidate, values);
      InsertSorted(candidate, values);
      if topK == 0 {
        return false;
      }
      if |values| < topK {
        InsertMultiset(candidate, values);
        SortUnique(values + [candidate], Insert(candidate, values));
        values := Sort(values + [candidate]);
        return true;
      }
      if !CandidateLess(candidate, values[|values| - 1]) {
        PushBeyond(values, candidate, topK);
        return false;
      }
      ReplaceLast(candidate);
      return true;
    }

    /** The full-buffer branch: overwrite the last entry and swap it towards the front. */
    method ReplaceLast(candidate: Candidate)
      requires Sorted(values) && values != [] && CandidateLess(candidate, values[|values| - 1])
      modifies this
      ensures values == Push(old(values), candidate, |old(values)|)
      ensures values != old(values)
    {
      ghost var before := values;
      ghost var p := Position(candidate, before);
      InsertAt(candidate, before);
      SortedPositionBelow(candidate, before);
      values := values[|values| - 1 := candidate];
      var insert := |values| - 1;
      while insert > 0 && CandidateLess(values[insert], values[insert - 1])
        invariant p <= insert < |values| == |before|
        invariant values[insert] == candidate && forall i :: 0 <= i < insert ==> values[i] == before[i]
        invariant forall i :: insert < i < |values| ==> values[i] == before[i - 1]
      {
        values := values[insert := values[insert - 1]][insert - 1 := values[insert]];
        insert := insert - 1;
      }
      assert insert == p;
      assert values == Push(before, candidate, |before|);
      assert values[p] == candidate && CandidateLess(candidate, before[p]);
    }
  }
}
