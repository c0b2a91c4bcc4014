/** The lower bound a search derives from a refined distance and a stored residual error. */
module ErrorBound {
  import opened VectorMath
  import opened ProductQuantizer
  import opened CrossTerms

  function SquaredL2LowerBound(sqrt: real -> real, approxSqDistance: real, errorBoundL2: real): real {
    var approxL2 := sqrt(Max(approxSqDistance, 0.0));
    var lowerL2 := Max(0.0, approxL2 - errorBoundL2);
    lowerL2 * lowerL2
  }

  lemma NormSqNonNeg(u: Vec)
    ensures NormSq(u) >= 0.0
  {
    NormRangeNonNeg(u, 0, |u|);
  }

  lemma SqDistSymmetric(u: Vec, v: Vec)
    requires |u| == |v|
    ensures SqDist(u, v) == SqDist(v, u)
  {
    var a, b := Sub(u, v), Sub(v, u);
    forall i | 0 <= i < |a| ensures a[i] * a[i] == b[i] * b[i] {
      assert a[i] == -b[i];
    }
    DotRangeCongruent(a, a, b, b, 0, |u|);
  }

  lemma {:induction false} SelfDistance(u: Vec, hi: nat)
    requires hi <= |u|
    ensures DotRange(Sub(u, u), Sub(u, u), 0, hi) == 0.0
  {
    if hi > 0 {
      SelfDistance(u, hi - 1);
    }
  }

  /** The bound never exceeds the true squared distance, for every query, as soon as the
      stored error is at least the distance from the vector to its reconstruction. */
  lemma LowerBoundSound(sqrt: real -> real, query: Vec, vector: Vec, recon: Vec, err: real)
    requires IsSqrt(sqrt) && |query| == |vector| == |recon|
    requires err >= sqrt(SqDist(vector, recon))
    ensures SquaredL2LowerBound(sqrt, SqDist(query, recon), err) <= SqDist(vector, query)
  {
    NormSqNonNeg(Sub(query, recon));
    NormSqNonNeg(Sub(query, vector));
    NormSqNonNeg(Sub(vector, recon));
    SqDistSymmetric(query, vector);
    var qc, qx, xc := sqrt(SqDist(query, recon)), sqrt(SqDist(query, vector)), sqrt(SqDist(vector, recon));
    TriangleInequality(query, vector, recon, qc, qx, xc);
    var lower := Max(0.0, qc - err);
    assert 0.0 <= lower <= qx;
    var ll, lx, xx := lower * lower, lower * qx, qx * qx;
    ProductOrder(lower, lower, qx, ll, lx);
    ProductOrder(qx, lower, qx, lx, xx);
  }

  /** And only then: a smaller stored error is unsound for the query equal to the vector. */
  lemma LowerBoundSoundIff(sqrt: real -> real, vector: Vec, recon: Vec, err: real)
    requires IsSqrt(sqrt) && |vector| == |recon|
    ensures (forall query: Vec :: |query| == |vector| ==>
               SquaredL2LowerBound(sqrt, SqDist(query, recon), err) <= SqDist(vector, query))
            <==> err >= sqrt(SqDist(vector, recon))
  {
    if err >= sqrt(SqDist(vector, recon)) {
      forall query: Vec | |query| == |vector|
        ensures SquaredL2LowerBound(sqrt, SqDist(query, recon), err) <= SqDist(vector, query)
      {
        LowerBoundSound(sqrt, query, vector, recon, err);
      }
    } else {
      NormSqNonNeg(Sub(vector, recon));
      SelfDistance(vector, |vector|);
      var gap := sqrt(SqDist(vector, recon)) - err;
      var zero, square := gap * 0.0, gap * gap;
      ProductOrderStrict(gap, 0.0, gap, zero, square);
      assert SquaredL2LowerBound(sqrt, SqDist(vector, recon), err) > SqDist(vector, vector);
    }
  }

  // ---------------------------------------------------------------- no better bound exists

  ghost predicate IsScaled(u: Vec, w: Vec, t: real) {
    |w| == |u| && forall i :: 0 <= i < |u| ==> w[i] == t * u[i]
  }

  lemma {:induction false} ScaledNorm(u: Vec, w: Vec, t: real, hi: nat)
    requires hi <= |u| && IsScaled(u, w, t)
    ensures DotRange(w, w, 0, hi) == t * t * DotRange(u, u, 0, hi)
  {
    if hi > 0 {
      ScaledNorm(u, w, t, hi - 1);
      var a, before := u[hi - 1], DotRange(u, u, 0, hi - 1);
      assert (t * a) * (t * a) == t * t * (a * a);
      assert t * t * (before + a * a) == t * t * before + t * t * (a * a);
    }
  }

  lemma ScaledNormSq(u: Vec, w: Vec, t: real)
    requires IsScaled(u, w, t)
    ensures NormSq(w) == t * t * NormSq(u)
  {
    ScaledNorm(u, w, t, |u|);
  }

  /** The point that is t of the way from recon to query. */
  function Between(recon: Vec, query: Vec, t: real): (v: Vec)
    requires |recon| == |query|
    ensures |v| == |query|
  {
    seq(|query|, i requires 0 <= i < |query| => recon[i] + t * (query[i] - recon[i]))
  }

  lemma BetweenParts(recon: Vec, query: Vec, t: real)
    requires |recon| == |query|
    ensures IsScaled(Sub(query, recon), Sub(Between(recon, query, t), recon), t)
    ensures IsScaled(Sub(query, recon), Sub(Between(recon, query, t), query), t - 1.0)
  {
    var v, whole := Between(recon, query, t), Sub(query, recon);
    var done, left := Sub(v, recon), Sub(v, query);
    forall i | 0 <= i < |query| ensures done[i] == t * whole[i] && left[i] == (t - 1.0) * whole[i] {
      Portions(recon[i], query[i], t);
    }
  }

  lemma BetweenDistances(recon: Vec, query: Vec, t: real)
    requires |recon| == |query|
    ensures SqDist(Between(recon, query, t), recon) == t * t * SqDist(query, recon)
    ensures SqDist(Between(recon, query, t), query) == (t - 1.0) * (t - 1.0) * SqDist(query, recon)
  {
    var v, whole := Between(recon, query, t), Sub(query, recon);
    BetweenParts(recon, query, t);
    ScaledNormSq(whole, Sub(v, recon), t);
    ScaledNormSq(whole, Sub(v, query), t - 1.0);
  }

  lemma Portions(c: real, q: real, t: real)
    ensures (c + t * (q - c)) - c == t * (q - c)
    ensures (c + t * (q - c)) - q == (t - 1.0) * (q - c)
  {
  }

  /** A vector within the stored error of the reconstruction, at the error itself unless that is
      beyond the query, whose true squared distance is the bound. */
  lemma BoundAttained(sqrt: real -> real, query: Vec, recon: Vec, err: real) returns (vector: Vec)
    requires IsSqrt(sqrt) && |query| == |recon| && err >= 0.0
    ensures |vector| == |query| && SqDist(vector, recon) <= err * err
    ensures err <= sqrt(SqDist(query, recon)) ==> SqDist(vector, recon) == err * err
    ensures SqDist(vector, query) == SquaredL2LowerBound(sqrt, SqDist(query, recon), err)
  {
    NormSqNonNeg(Sub(query, recon));
    var d := sqrt(SqDist(query, recon));
    if err <= d && d > 0.0 {
      var t := err / d;
      vector := Between(recon, query, t);
      BetweenDistances(recon, query, t);
      PartOfLength(d, err, t, SqDist(query, recon));
    } else {
      vector := query;
      SelfDistance(query, |query|);
      Squares(d, err);
      assert Max(0.0, d - err) == 0.0;
    }
  }

  lemma PartOfLength(d: real, err: real, t: real, square: real)
    requires t * d == err && d * d == square
    ensures t * t * square == err * err && (t - 1.0) * (t - 1.0) * square == (d - err) * (d - err)
  {
    assert t * t * (d * d) == (t * d) * (t * d);
    assert (t - 1.0) * (t - 1.0) * (d * d) == ((t - 1.0) * d) * ((t - 1.0) * d);
    assert (t - 1.0) * d == err - d;
  }

  lemma Squares(x: real, y: real)
    requires 0.0 <= x
    ensures x <= y ==> x * x <= y * y
  {
    if x <= y {
      ProductOrder(y, x, y, y * x, y * y);
      ProductOrder(x, x, y, x * x, x * y);
    }
  }

  /** Tight: among the values that never exceed the true squared distance of any vector within the stored
      error of the reconstruction, the bound is the greatest. */
  lemma BoundIsTight(sqrt: real -> real, query: Vec, recon: Vec, err: real, x: real)
    requires IsSqrt(sqrt) && |query| == |recon| && err >= 0.0
    ensures (forall vector: Vec :: |vector| == |query| && sqrt(SqDist(vector, recon)) <= err ==> x <= SqDist(vector, query))
            <==> x <= SquaredL2LowerBound(sqrt, SqDist(query, recon), err)
  {
    if x <= SquaredL2LowerBound(sqrt, SqDist(query, recon), err) {
      forall vector: Vec | |vector| == |query| && sqrt(SqDist(vector, recon)) <= err ensures x <= SqDist(vector, query) {
        LowerBoundSound(sqrt, query, vector, recon, err);
      }
    } else {
      var vector := BoundAttained(sqrt, query, recon, err);
      NormSqNonNeg(Sub(vector, recon));
      SquareOrder(sqrt(SqDist(vector, recon)), err);
    }
  }

  /** Builder to search: with the error the builder stores, the bound that a search forms from
      the table sums minus the query norm is at most the exact distance it would read. */
  lemma IndexBoundSound(sqrt: real -> real, base: PqPivots, residual: PqPivots, table: seq<real>, query: Vec, vector: Vec,
                        baseCode: seq<Code>, residualCode: seq<Code>, err: real)
    requires IsSqrt(sqrt) && base.Valid() && residual.Valid() && SameLayout(base, residual) && base.Tiles()
    requires IsCrossTable(base, residual, table)
    requires |query| == |vector| == base.ndims && |baseCode| == |residualCode| == base.NumChunks()
    requires err == sqrt(SqDist(vector, FullReconstruction(base, residual, baseCode, residualCode)))
    ensures SquaredL2LowerBound(sqrt, RefinedDistance(base, residual, table, query, baseCode, residualCode) - NormSq(query), err)
         <= SqDist(vector, query)
  {
    RefinedDistanceIdentity(base, residual, table, query, baseCode, residualCode);
    LowerBoundSound(sqrt, query, vector, FullReconstruction(base, residual, baseCode, residualCode), err);
  }
}
