/** Real-valued vector algebra behind the distance tables and the residual error
    bound: range sums, Cauchy-Schwarz and the triangle inequality.
    Floating point is modelled by exact reals; std::sqrt is a parameter. */
module VectorMath {

  type Vec = seq<real>

  function Max(x: real, y: real): real { if x < y then y else x }

  function Add(u: Vec, v: Vec): (w: Vec)
    requires |u| == |v|
  {
    seq(|u|, i requires 0 <= i < |u| => u[i] + v[i])
  }

  function Sub(u: Vec, v: Vec): (w: Vec)
    requires |u| == |v|
  {
    seq(|u|, i requires 0 <= i < |u| => u[i] - v[i])
  }

  /** Sum of u[i] * v[i] over lo <= i < hi, accumulated in the loops' order. */
  function DotRange(u: Vec, v: Vec, lo: nat, hi: nat): real
    requires |u| == |v| && lo <= hi <= |u|
    decreases hi
  {
    if lo == hi then 0.0 else DotRange(u, v, lo, hi - 1) + u[hi - 1] * v[hi - 1]
  }

  function Dot(u: Vec, v: Vec): real
    requires |u| == |v|
  {
    DotRange(u, v, 0, |u|)
  }

  function NormSq(u: Vec): real { Dot(u, u) }

  function SqDist(u: Vec, v: Vec): real
    requires |u| == |v|
  {
    NormSq(Sub(u, v))
  }

  /** What the model assumes of std::sqrt: the non-negative root of every non-negative real. */
  ghost predicate IsSqrt(sqrt: real -> real) {
    forall x :: x >= 0.0 ==> sqrt(x) >= 0.0 && sqrt(x) * sqrt(x) == x
  }

  // ---------------------------------------------------------------- arithmetic

  lemma SquareOrder(x: real, y: real)
    requires y >= 0.0 && x * x <= y * y
    ensures x <= y
  {
    if y < x {
      var yy, xy, xx := y * y, x * y, x * x;
      ProductOrder(y, y, x, yy, xy);
      ProductOrderStrict(x, y, x, xy, xx);
    }
  }

  lemma MulMono(x: real, y: real, z: real)
    requires x <= y && z >= 0.0
    ensures z * x <= z * y && x * z <= y * z
  {
  }

  lemma ProductOrder(z: real, x: real, y: real, zx: real, zy: real)
    requires z >= 0.0 && x <= y && zx == z * x && zy == z * y
    ensures zx <= zy
  {
  }

  lemma ProductOrderStrict(z: real, x: real, y: real, zx: real, zy: real)
    requires z > 0.0 && x < y && zx == z * x && zy == z * y
    ensures zx < zy
  {
  }

  lemma SquareNonNeg(x: real)
    ensures x * x >= 0.0
  {
  }

  // ---------------------------------------------------------------- range sums

  lemma {:induction false} DotRangeSplit(u: Vec, v: Vec, lo: nat, mid: nat, hi: nat)
    requires |u| == |v| && lo <= mid <= hi <= |u|
    ensures DotRange(u, v, lo, hi) == DotRange(u, v, lo, mid) + DotRange(u, v, mid, hi)
    decreases hi
  {
    if mid < hi {
      DotRangeSplit(u, v, lo, mid, hi - 1);
    }
  }

  /** A range sum only depends on the entries inside the range. */
  lemma {:induction false} DotRangeCongruent(u: Vec, v: Vec, x: Vec, y: Vec, lo: nat, hi: nat)
    requires |u| == |v| && |x| == |y| && lo <= hi <= |u| && hi <= |x|
    requires forall i :: lo <= i < hi ==> u[i] * v[i] == x[i] * y[i]
    ensures DotRange(u, v, lo, hi) == DotRange(x, y, lo, hi)
    decreases hi
  {
    if lo < hi {
      DotRangeCongruent(u, v, x, y, lo, hi - 1);
    }
  }

  lemma {:induction false} NormRangeNonNeg(u: Vec, lo: nat, hi: nat)
    requires lo <= hi <= |u|
    ensures DotRange(u, u, lo, hi) >= 0.0
    decreases hi
  {
    if lo < hi {
      NormRangeNonNeg(u, lo, hi - 1);
      SquareNonNeg(u[hi - 1]);
    }
  }

  // ---------------------------------------------------------------- Cauchy-Schwarz

  lemma CauchySchwarzStep(d: real, uu: real, vv: real, a: real, b: real)
    requires uu >= 0.0 && vv >= 0.0 && d * d <= uu * vv
    ensures (d + a * b) * (d + a * b) <= (uu + a * a) * (vv + b * b)
  {
    var p, q := uu * (b * b), (a * a) * vv;
    SquareNonNeg(a);
    SquareNonNeg(b);
    assert p >= 0.0 by { MulMono(0.0, b * b, uu); }
    assert q >= 0.0 by { MulMono(0.0, a * a, vv); }
    var x := 2.0 * (a * b * d);
    var y := p + q;
    assert x * x <= y * y by {
      var ab2 := (a * b) * (a * b);
      SquareNonNeg(a * b);
      assert x * x == 4.0 * (ab2 * (d * d));
      assert ab2 * (d * d) <= ab2 * (uu * vv) by { MulMono(d * d, uu * vv, ab2); }
      assert p * q == ab2 * (uu * vv) by {
        assert p * q == (uu * (b * b)) * ((a * a) * vv);
        assert ab2 == (a * a) * (b * b);
      }
      SquareNonNeg(p - q);
      assert y * y == (p - q) * (p - q) + 4.0 * (p * q);
    }
    SquareOrder(x, y);
    assert (d + a * b) * (d + a * b) == d * d + x + (a * a) * (b * b);
    assert (uu + a * a) * (vv + b * b) == uu * vv + p + q + (a * a) * (b * b);
  }

  lemma {:induction false} CauchySchwarzRange(u: Vec, v: Vec, hi: nat)
    requires |u| == |v| && hi <= |u|
    ensures DotRange(u, v, 0, hi) * DotRange(u, v, 0, hi) <= DotRange(u, u, 0, hi) * DotRange(v, v, 0, hi)
  {
    if hi > 0 {
      CauchySchwarzRange(u, v, hi - 1);
      NormRangeNonNeg(u, 0, hi - 1);
      NormRangeNonNeg(v, 0, hi - 1);
      CauchySchwarzStep(DotRange(u, v, 0, hi - 1), DotRange(u, u, 0, hi - 1), DotRange(v, v, 0, hi - 1),
                        u[hi - 1], v[hi - 1]);
    }
  }

  lemma {:induction false} NormOfSumRange(u: Vec, v: Vec, w: Vec, hi: nat)
    requires |u| == |v| == |w| && hi <= |u|
    requires forall i :: 0 <= i < |u| ==> w[i] == u[i] + v[i]
    ensures DotRange(w, w, 0, hi)
         == DotRange(u, u, 0, hi) + 2.0 * DotRange(u, v, 0, hi) + DotRange(v, v, 0, hi)
  {
    if hi > 0 {
      NormOfSumRange(u, v, w, hi - 1);
      var a, b := u[hi - 1], v[hi - 1];
      assert (a + b) * (a + b) == a * a + 2.0 * (a * b) + b * b;
    }
  }

  /** Triangle inequality with the three lengths given as roots of squared distances. */
  lemma TriangleInequality(q: Vec, x: Vec, c: Vec, qc: real, qx: real, xc: real)
    requires |q| == |x| == |c|
    requires qc >= 0.0 && qc * qc == SqDist(q, c)
    requires qx >= 0.0 && qx * qx == SqDist(q, x)
    requires xc >= 0.0 && xc * xc == SqDist(x, c)
    ensures qc <= qx + xc
  {
    var u, v, w := Sub(q, x), Sub(x, c), Sub(q, c);
    var n := |q|;
    NormOfSumRange(u, v, w, n);
    CauchySchwarzRange(u, v, n);
    RootBound(DotRange(u, v, 0, n), qc, qx, xc);
  }

  lemma RootBound(d: real, qc: real, qx: real, xc: real)
    requires qx >= 0.0 && xc >= 0.0
    requires d * d <= (qx * qx) * (xc * xc) && qc * qc == qx * qx + 2.0 * d + xc * xc
    ensures qc <= qx + xc
  {
    var p := qx * xc;
    assert (qx * qx) * (xc * xc) == p * p;
    MulMono(0.0, xc, qx);
    SquareOrder(d, p);
    assert (qx + xc) * (qx + xc) == qx * qx + 2.0 * p + xc * xc;
    SquareOrder(qc, qx + xc);
  }
}
