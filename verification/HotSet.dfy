/** The vertex-frequency summary of an expanded-node trace. */
module HotSet {
  import opened Arithmetic

  datatype Frequency = Frequency(vertex: nat, count: nat)

  ghost predicate Ascending(s: seq<nat>) {
    forall i, j :: 0 <= i < j < |s| ==> s[i] <= s[j]
  }

  // ---------------------------------------------------------------- run lengths

  function Total(frequencies: seq<Frequency>): nat {
    if frequencies == [] then 0 else Total(frequencies[..|frequencies| - 1]) + frequencies[|frequencies| - 1].count
  }

  /** Every accessed vertex has one entry, with its multiplicity; nothing else has one. */
  ghost predicate CountsOf(frequencies: seq<Frequency>, accesses: multiset<nat>) {
    && (forall i, j :: 0 <= i < j < |frequencies| ==> frequencies[i].vertex != frequencies[j].vertex)
    && (forall i :: 0 <= i < |frequencies| ==> frequencies[i].count == accesses[frequencies[i].vertex] > 0)
    && (forall v :: v in accesses ==> HasEntry(frequencies, v))
  }

  ghost predicate HasEntry(frequencies: seq<Frequency>, v: nat) {
    exists i :: 0 <= i < |frequencies| && frequencies[i].vertex == v
  }

  /** The loop over runs of equal ids in the sorted accesses. */
  method RunLengths(accesses: seq<nat>) returns (frequencies: seq<Frequency>)
    requires Ascending(accesses)
    ensures CountsOf(frequencies, multiset(accesses)) && Total(frequencies) == |accesses|
  {
    frequencies := [];
    var begin := 0;
    while begin < |accesses|
      invariant 0 <= begin <= |accesses|
      invariant 0 < begin < |accesses| ==> accesses[begin - 1] < accesses[begin]
      invariant CountsOf(frequencies, multiset(accesses[..begin])) && Total(frequencies) == begin
    {
      var end := RunEnd(accesses, begin);
      NextRun(accesses, begin, end, frequencies);
      frequencies := frequencies + [Frequency(accesses[begin], end - begin)];
      begin := end;
    }
    assert accesses[..begin] == accesses;
  }

  /** The end of the run of equal ids that starts at begin. */
  method RunEnd(accesses: seq<nat>, begin: nat) returns (end: nat)
    requires Ascending(accesses) && begin < |accesses|
    ensures begin < end <= |accesses| && (end < |accesses| ==> accesses[end - 1] < accesses[end])
    ensures forall i :: begin <= i < end ==> accesses[i] == accesses[begin]
  {
    end := begin + 1;
    while end < |accesses| && accesses[end] == accesses[begin]
      invariant begin < end <= |accesses|
      invariant forall i :: begin <= i < end ==> accesses[i] == accesses[begin]
    {
      end := end + 1;
    }
  }

  lemma {:induction false} ConstantRun(s: seq<nat>, v: nat)
    requires forall i :: 0 <= i < |s| ==> s[i] == v
    ensures multiset(s)[v] == |s| && forall u :: u in multiset(s) ==> u == v
  {
    if s != [] {
      ConstantRun(s[..|s| - 1], v);
      assert s == s[..|s| - 1] + [v];
    }
  }

  /** A run adds one new vertex and changes no other count. */
  lemma RunCounts(accesses: seq<nat>, begin: nat, end: nat)
    requires Ascending(accesses) && begin < end <= |accesses|
    requires begin > 0 ==> accesses[begin - 1] < accesses[begin]
    requires forall i :: begin <= i < end ==> accesses[i] == accesses[begin]
    ensures multiset(accesses[..begin])[accesses[begin]] == 0 && multiset(accesses[..end])[accesses[begin]] == end - begin
    ensures forall u: nat :: u != accesses[begin] ==> multiset(accesses[..end])[u] == multiset(accesses[..begin])[u]
  {
    var v, run := accesses[begin], accesses[begin..end];
    ConstantRun(run, v);
    assert accesses[..end] == accesses[..begin] + run;
    assert v !in accesses[..begin];
  }

  lemma NextRun(accesses: seq<nat>, begin: nat, end: nat, frequencies: seq<Frequency>)
    requires Ascending(accesses) && begin < end <= |accesses|
    requires begin > 0 ==> accesses[begin - 1] < accesses[begin]
    requires forall i :: begin <= i < end ==> accesses[i] == accesses[begin]
    requires CountsOf(frequencies, multiset(accesses[..begin])) && Total(frequencies) == begin
    ensures CountsOf(frequencies + [Frequency(accesses[begin], end - begin)], multiset(accesses[..end]))
    ensures Total(frequencies + [Frequency(accesses[begin], end - begin)]) == end
  {
    RunCounts(accesses, begin, end);
    NewEntry(frequencies, Frequency(accesses[begin], end - begin), multiset(accesses[..begin]), multiset(accesses[..end]));
    assert (frequencies + [Frequency(accesses[begin], end - begin)])[..|frequencies|] == frequencies;
  }

  lemma NewEntry(frequencies: seq<Frequency>, f: Frequency, before: multiset<nat>, after: multiset<nat>)
    requires CountsOf(frequencies, before) && before[f.vertex] == 0 && after[f.vertex] == f.count > 0
    requires forall u: nat :: u != f.vertex ==> after[u] == before[u]
    ensures CountsOf(frequencies + [f], after)
  {
    var longer := frequencies + [f];
    forall u | u in after ensures HasEntry(longer, u) {
      if u == f.vertex {
        assert longer[|frequencies|].vertex == u;
      } else {
        assert HasEntry(frequencies, u);
        var i :| 0 <= i < |frequencies| && frequencies[i].vertex == u;
        assert longer[i].vertex == u;
      }
    }
  }

  // ---------------------------------------------------------------- cumulative coverage

  /** Most frequent first, equal counts by vertex id. */
  predicate Hotter(a: Frequency, b: Frequency) {
    if a.count != b.count then a.count > b.count else a.vertex < b.vertex
  }

  ghost predicate Ranked(frequencies: seq<Frequency>, ranked: seq<Frequency>) {
    && multiset(ranked) == multiset(frequencies)
    && forall i, j :: 0 <= i < j < |ranked| ==> !Hotter(ranked[j], ranked[i])
  }

  /** What the ranking is: counts do not increase, and vertices of equal count come by ascending id. */
  lemma RankedOrder(frequencies: seq<Frequency>, ranked: seq<Frequency>, i: nat, j: nat)
    requires Ranked(frequencies, ranked) && i < j < |ranked|
    ensures ranked[i].count >= ranked[j].count
    ensures ranked[i].count == ranked[j].count ==> ranked[i].vertex <= ranked[j].vertex
  {
    assert !Hotter(ranked[j], ranked[i]);
  }

  lemma {:induction false} TotalMultiset(a: seq<Frequency>, b: seq<Frequency>)
    requires multiset(a) == multiset(b)
    ensures Total(a) == Total(b)
    decreases |a|
  {
    if a == [] {
      assert b == [] by { assert |multiset(b)| == 0; }
    } else {
      var last := a[|a| - 1];
      assert a == a[..|a| - 1] + [last];
      assert last in multiset(b);
      var i :| 0 <= i < |b| && b[i] == last;
      RemoveOne(b, i);
      TotalMultiset(a[..|a| - 1], b[..i] + b[i + 1..]);
      TotalWithout(b, i);
    }
  }

  lemma RemoveOne(b: seq<Frequency>, i: nat)
    requires i < |b|
    ensures multiset(b[..i] + b[i + 1..]) == multiset(b) - multiset{b[i]}
  {
    assert b == b[..i] + [b[i]] + b[i + 1..];
  }

  lemma {:induction false} TotalWithout(b: seq<Frequency>, i: nat)
    requires i < |b|
    ensures Total(b) == Total(b[..i] + b[i + 1..]) + b[i].count
  {
    var n := |b| - 1;
    if i < n {
      TotalWithout(b[..n], i);
      assert (b[..i] + b[i + 1..])[..n - 1] == b[..n][..i] + b[..n][i + 1..];
    } else {
      assert b[..i] + b[i + 1..] == b[..n];
    }
  }

  /** How many vertices the top pct percent are. */
  function TopCount(n: nat, pct: nat): (count: nat)
    ensures count <= n
  {
    if (pct * n + 99) / 100 < n then (pct * n + 99) / 100 else n
  }

  function Covered(ranked: seq<Frequency>, pct: nat): nat {
    Total(ranked[..TopCount(|ranked|, pct)])
  }

  /** The cumulative counts and, for each requested percentage, the accesses covered. */
  method Summarize(ranked: seq<Frequency>, percents: seq<nat>) returns (cumulative: seq<nat>, covered: seq<nat>)
    ensures |cumulative| == |ranked| && forall i :: 0 <= i < |ranked| ==> cumulative[i] == Total(ranked[..i + 1])
    ensures |covered| == |percents| && forall i :: 0 <= i < |percents| ==> covered[i] == Covered(ranked, percents[i])
  {
    var running := 0;
    cumulative := [];
    for i := 0 to |ranked|
      invariant running == Total(ranked[..i])
      invariant |cumulative| == i && forall j :: 0 <= j < i ==> cumulative[j] == Total(ranked[..j + 1])
    {
      assert ranked[..i + 1][..i] == ranked[..i];
      running := running + ranked[i].count;
      cumulative := cumulative + [running];
    }
    covered := [];
    for i := 0 to |percents|
      invariant |covered| == i && forall j :: 0 <= j < i ==> covered[j] == Covered(ranked, percents[j])
    {
      var count := TopCount(|ranked|, percents[i]);
      covered := covered + [if count == 0 then 0 else cumulative[count - 1]];
    }
  }

  // ---------------------------------------------------------------- what the coverage means

  /** Accesses to the vertices at the chosen positions among the first n. */
  ghost function Chosen(ranked: seq<Frequency>, positions: set<nat>, n: nat): nat
    requires n <= |ranked|
  {
    if n == 0 then 0 else Chosen(ranked, positions, n - 1) + if n - 1 in positions then ranked[n - 1].count else 0
  }

  ghost function Size(positions: set<nat>, n: nat): (size: nat)
    ensures size <= n
  {
    if n == 0 then 0 else Size(positions, n - 1) + if n - 1 in positions then 1 else 0
  }

  ghost predicate NonIncreasing(ranked: seq<Frequency>) {
    forall i, j :: 0 <= i < j < |ranked| ==> ranked[i].count >= ranked[j].count
  }

  /** No choice of vertices has more accesses than as many vertices from the top. */
  lemma {:induction false} TopIsBest(ranked: seq<Frequency>, positions: set<nat>, n: nat)
    requires NonIncreasing(ranked) && n <= |ranked|
    ensures Chosen(ranked, positions, n) <= Total(ranked[..Size(positions, n)])
  {
    if n > 0 {
      TopIsBest(ranked, positions, n - 1);
      var k := Size(positions, n - 1);
      if n - 1 in positions {
        assert ranked[..k + 1][..k] == ranked[..k];
        assert k < n - 1 ==> ranked[k].count >= ranked[n - 1].count;
      }
    }
  }

  lemma {:induction false} TotalMonotone(ranked: seq<Frequency>, j: nat, k: nat)
    requires j <= k <= |ranked|
    ensures Total(ranked[..j]) <= Total(ranked[..k])
  {
    if j < k {
      assert ranked[..k][..k - 1] == ranked[..k - 1];
      TotalMonotone(ranked, j, k - 1);
    }
  }

  lemma {:induction false} TopAtLeast(ranked: seq<Frequency>, k: nat, m: nat)
    requires k <= |ranked| && forall i :: 0 <= i < k ==> ranked[i].count >= m
    ensures Total(ranked[..k]) >= k * m
  {
    if k > 0 {
      assert ranked[..k][..k - 1] == ranked[..k - 1];
      TopAtLeast(ranked, k - 1, m);
      assert k * m == (k - 1) * m + m;
    }
  }

  lemma {:induction false} RestAtMost(ranked: seq<Frequency>, k: nat, n: nat, m: nat)
    requires k <= n <= |ranked| && forall i :: k <= i < n ==> ranked[i].count <= m
    ensures Total(ranked[..n]) <= Total(ranked[..k]) + (n - k) * m
    decreases n
  {
    if k < n {
      assert ranked[..n][..n - 1] == ranked[..n - 1];
      RestAtMost(ranked, k, n - 1, m);
      assert (n - k) * m == (n - 1 - k) * m + m;
    }
  }

  /** The k hottest of n vertices have at least the share k / n of all accesses. */
  lemma TopShare(ranked: seq<Frequency>, k: nat)
    requires NonIncreasing(ranked) && k <= |ranked|
    ensures Total(ranked[..k]) * |ranked| >= k * Total(ranked)
  {
    var n := |ranked|;
    assert ranked[..n] == ranked;
    if k < n {
      var m := ranked[k].count;
      TopAtLeast(ranked, k, m);
      RestAtMost(ranked, k, n, m);
      ShareArithmetic(Total(ranked[..k]), Total(ranked), k, n - k, m);
    }
  }

  lemma ShareArithmetic(top: nat, total: nat, k: nat, rest: nat, m: nat)
    requires top >= k * m && total <= top + rest * m
    ensures top * (k + rest) >= k * total
  {
    MulLe(k * m, top, rest);
    MulLe(total, top + rest * m, k);
    assert k * (rest * m) == (k * m) * rest;
    assert k * (top + rest * m) == k * top + k * (rest * m);
    assert top * (k + rest) == k * top + top * rest;
  }

  /** The top pct percent of the vertices cover at least pct percent of the accesses. */
  lemma TopCoversItsShare(ranked: seq<Frequency>, pct: nat)
    requires NonIncreasing(ranked) && pct <= 100
    ensures 100 * Covered(ranked, pct) >= pct * Total(ranked)
  {
    TopShare(ranked, TopCount(|ranked|, pct));
    TopCountShare(|ranked|, pct);
    if ranked != [] {
      PercentArithmetic(Covered(ranked, pct), Total(ranked), TopCount(|ranked|, pct), |ranked|, pct);
    }
  }

  /** The least number of vertices that is all of them, or at least pct percent of them. */
  lemma TopCountIsLeast(n: nat, pct: nat, count: nat)
    ensures TopCount(n, pct) <= count <==> count >= n || 100 * count >= pct * n
  {
    CeilingOfHundredth(pct * n, count);
  }

  lemma CeilingOfHundredth(x: nat, count: nat)
    ensures (x + 99) / 100 <= count <==> 100 * count >= x
  {
  }

  lemma TopCountShare(n: nat, pct: nat)
    requires pct <= 100
    ensures 100 * TopCount(n, pct) >= pct * n
  {
    MulLe(pct, 100, n);
  }

  lemma PercentArithmetic(covered: nat, total: nat, k: nat, n: nat, pct: nat)
    requires n > 0 && covered * n >= k * total && 100 * k >= pct * n
    ensures 100 * covered >= pct * total
  {
    MulLe(pct * n, 100 * k, total);
    assert (pct * n) * total == (pct * total) * n;
    assert (100 * k) * total == 100 * (k * total) <= 100 * (covered * n) == (100 * covered) * n;
    CancelLe(pct * total, 100 * covered, n);
  }

  /** Coverage does not decrease with the percentage. */
  lemma CoverageGrows(ranked: seq<Frequency>, p: nat, q: nat)
    requires p <= q
    ensures Covered(ranked, p) <= Covered(ranked, q)
  {
    MulLe(p, q, |ranked|);
    TotalMonotone(ranked, TopCount(|ranked|, p), TopCount(|ranked|, q));
  }

  /** End to end: for the ranked run lengths of the sorted accesses, coverage is measured against the
      number of accesses, each percentage covers its share, and no equally large choice of vertices covers more. */
  lemma SummaryMeaning(accesses: seq<nat>, frequencies: seq<Frequency>, ranked: seq<Frequency>, pct: nat, positions: set<nat>)
    requires Total(frequencies) == |accesses| && Ranked(frequencies, ranked) && pct <= 100
    requires Size(positions, |ranked|) == TopCount(|ranked|, pct)
    ensures Total(ranked) == |accesses| && 100 * Covered(ranked, pct) >= pct * |accesses|
    ensures Chosen(ranked, positions, |ranked|) <= Covered(ranked, pct)
  {
    assert NonIncreasing(ranked) by {
      forall i, j | 0 <= i < j < |ranked| ensures ranked[i].count >= ranked[j].count {
        RankedOrder(frequencies, ranked, i, j);
      }
    }
    TotalMultiset(frequencies, ranked);
    TopCoversItsShare(ranked, pct);
    TopIsBest(ranked, positions, |ranked|);
  }
}
