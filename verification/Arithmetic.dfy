/** The few facts about products, quotients and remainders that the layouts need. */
module Arithmetic {

  function Min(a: nat, b: nat): nat { if a < b then a else b }

  lemma MulLe(j: nat, k: nat, m: nat)
    requires j <= k
    ensures j * m <= k * m && m * j <= m * k
  {
  }

  lemma CancelLe(j: nat, k: nat, m: nat)
    requires m > 0 && j * m <= k * m
    ensures j <= k
  {
    assert (j - k) * m == j * m - k * m;
    assert j - k >= 1 ==> (j - k) * m >= m;
  }

  /** A multiple has remainder 0 and the expected quotient; adding less than m changes neither. */
  lemma DivModUnique(n: nat, m: nat, r: nat)
    requires r < m
    ensures (n * m + r) / m == n && (n * m + r) % m == r
  {
    var x := n * m + r;
    var q, s := x / m, x % m;
    assert x == q * m + s;
    assert m * (n - q) == s - r;
    assert n - q >= 1 ==> m * (n - q) >= m;
    assert n - q <= -1 ==> m * (n - q) + m <= 0;
  }

  lemma DivMod(x: nat, m: nat)
    requires m > 0
    ensures x == x / m * m + x % m && x % m < m
  {
  }

  lemma MultipleMod(m: nat, k: nat)
    requires m > 0
    ensures (m * k) % m == 0 && (k * m) % m == 0 && (k * m) / m == k
  {
    DivModUnique(k, m, 0);
  }

  /** No multiple of m lies strictly between two consecutive ones. */
  lemma NextMultiple(p: nat, m: nat)
    requires m > 0 && p % m == 0
    ensures (p + m) % m == 0 && forall q: nat :: p < q < p + m ==> q % m != 0
  {
    var k := p / m;
    DivMod(p, m);
    forall q: nat | p < q < p + m ensures q % m != 0 {
      DivModUnique(k, m, q - p);
    }
    MultipleMod(m, k + 1);
  }

  /** A product of naturals as a natural, where its operands' other properties would slow that down. */
  function Product(a: nat, b: nat): nat {
    a * b
  }

  /** Place of (r, c) in a row-major buffer of rows by width. */
  function Cell(rows: nat, width: nat, r: nat, c: nat): (i: nat)
    requires r < rows && c < width
    ensures i < Product(rows, width)
  {
    MulLe(r + 1, rows, width);
    assert (r + 1) * width == r * width + width;
    r * width + c
  }

  lemma CellInjective(rows: nat, width: nat, r: nat, c: nat, s: nat, d: nat)
    requires r < rows && c < width && s < rows && d < width
    ensures Cell(rows, width, r, c) == Cell(rows, width, s, d) ==> r == s && c == d
  {
    DivModUnique(r, width, c);
    DivModUnique(s, width, d);
  }

  lemma CellSplit(rows: nat, width: nat, i: nat)
    requires i < Product(rows, width)
    ensures width > 0 && i / width < rows && i % width < width
  {
    if width > 0 {
      DivMod(i, width);
      if rows <= i / width {
        MulLe(rows, i / width, width);
      }
    }
  }

  /** n * m by repeated addition, for proofs that only ever add one more m. */
  function Times(n: nat, m: nat): nat {
    if n == 0 then 0 else Times(n - 1, m) + m
  }

  lemma {:induction false} TimesIsProduct(n: nat, m: nat)
    ensures Times(n, m) == n * m
  {
    if n > 0 {
      TimesIsProduct(n - 1, m);
      assert n * m == (n - 1) * m + m;
    }
  }

  lemma {:induction false} TimesMonotone(j: nat, k: nat, m: nat)
    requires j <= k
    ensures Times(j, m) <= Times(k, m)
  {
    if j < k {
      TimesMonotone(j, k - 1, m);
    }
  }
}
