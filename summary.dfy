/** The reduction of the N-by-horizon matrices to the plotted series: the
    arithmetic mean over the paths of each year's column. */
module Summary {
  import opened Series

  /** m has at least k rows, each with an entry for year t. */
  predicate HasColumn(m: Matrix, t: nat, k: nat) {
    k <= |m| && forall p :: 0 <= p < k ==> t < |m[p]|
  }

  /** The sum of column t over the first k rows. */
  function ColSum(m: Matrix, t: nat, k: nat): real
    requires HasColumn(m, t, k)
  {
    if k == 0 then 0.0 else ColSum(m, t, k - 1) + m[k - 1][t]
  }

  /** The per-year mean over the paths (numpy's mean along axis 0). */
  function ColumnMeans(m: Matrix, h: nat): (r: Row)
    requires |m| >= 1 && IsMatrix(m, |m|, h)
    ensures |r| == h
  {
    seq(h, t requires 0 <= t < h => ColSum(m, t, |m|) / |m| as real)
  }

  lemma {:induction false} ColSumOfIdenticalRows(m: Matrix, row: Row, t: nat, k: nat)
    requires k <= |m| && t < |row| && forall p :: 0 <= p < |m| ==> m[p] == row
    ensures ColSum(m, t, k) == k as real * row[t]
  {
    if k > 0 {
      ColSumOfIdenticalRows(m, row, t, k - 1);
    }
  }

  /** When every path is the same row, the mean series is that row. */
  lemma MeanOfIdenticalRows(m: Matrix, row: Row)
    requires |m| >= 1 && forall p :: 0 <= p < |m| ==> m[p] == row
    ensures ColumnMeans(m, |row|) == row
  {
    var r := ColumnMeans(m, |row|);
    forall t | 0 <= t < |row|
      ensures r[t] == row[t]
    {
      ColSumOfIdenticalRows(m, row, t, |m|);
    }
  }

  lemma {:induction false} ColSumOfDifferential(a: Matrix, b: Matrix, c: Matrix, d: Matrix, t: nat, k: nat)
    requires HasColumn(a, t, k) && HasColumn(b, t, k) && HasColumn(c, t, k) && HasColumn(d, t, k)
    requires forall p :: 0 <= p < k ==> d[p][t] == a[p][t] + b[p][t] - c[p][t]
    ensures ColSum(d, t, k) == ColSum(a, t, k) + ColSum(b, t, k) - ColSum(c, t, k)
  {
    if k > 0 {
      ColSumOfDifferential(a, b, c, d, t, k - 1);
    }
  }

  /** The mean of a + b - c, entry by entry, is the mean of a plus the mean
      of b minus the mean of c. */
  lemma MeanOfDifferential(a: Matrix, b: Matrix, c: Matrix, d: Matrix, h: nat)
    requires |a| >= 1 && IsMatrix(a, |a|, h) && IsMatrix(b, |a|, h) && IsMatrix(c, |a|, h) && IsMatrix(d, |a|, h)
    requires forall p, t :: 0 <= p < |a| && 0 <= t < h ==> d[p][t] == a[p][t] + b[p][t] - c[p][t]
    ensures forall t :: 0 <= t < h ==>
      ColumnMeans(d, h)[t] == ColumnMeans(a, h)[t] + ColumnMeans(b, h)[t] - ColumnMeans(c, h)[t]
  {
    var n := |a| as real;
    forall t | 0 <= t < h
      ensures ColumnMeans(d, h)[t] == ColumnMeans(a, h)[t] + ColumnMeans(b, h)[t] - ColumnMeans(c, h)[t]
    {
      ColSumOfDifferential(a, b, c, d, t, |a|);
      SplitDivision3(ColSum(a, t, |a|), ColSum(b, t, |a|), ColSum(c, t, |a|), n);
    }
  }

  lemma SplitDivision3(x: real, y: real, z: real, n: real)
    requires n > 0.0
    ensures (x + y - z) / n == x / n + y / n - z / n
  {
  }

  lemma {:induction false} ColSumOfNetWealth(f: Matrix, k0: real, r: Matrix, e: Matrix, v: Matrix, w: Matrix, t: nat, k: nat)
    requires HasColumn(f, t, k) && HasColumn(r, t, k) && HasColumn(e, t, k) && HasColumn(v, t, k) && HasColumn(w, t, k)
    requires forall p :: 0 <= p < k ==> w[p][t] == f[p][t] - k0 - r[p][t] - e[p][t] - v[p][t]
    ensures ColSum(w, t, k) == ColSum(f, t, k) - k as real * k0 - ColSum(r, t, k) - ColSum(e, t, k) - ColSum(v, t, k)
  {
    if k > 0 {
      ColSumOfNetWealth(f, k0, r, e, v, w, t, k - 1);
    }
  }

  /** The mean of f - k0 - r - e - v, entry by entry, is the mean of f less
      k0 and the means of r, e and v. */
  lemma MeanOfNetWealth(f: Matrix, k0: real, r: Matrix, e: Matrix, v: Matrix, w: Matrix, h: nat)
    requires |f| >= 1 && IsMatrix(f, |f|, h) && IsMatrix(r, |f|, h) && IsMatrix(e, |f|, h)
    requires IsMatrix(v, |f|, h) && IsMatrix(w, |f|, h)
    requires forall p, t :: 0 <= p < |f| && 0 <= t < h ==> w[p][t] == f[p][t] - k0 - r[p][t] - e[p][t] - v[p][t]
    ensures forall t :: 0 <= t < h ==>
      ColumnMeans(w, h)[t] == ColumnMeans(f, h)[t] - k0 - ColumnMeans(r, h)[t] - ColumnMeans(e, h)[t] - ColumnMeans(v, h)[t]
  {
    var n := |f| as real;
    forall t | 0 <= t < h
      ensures ColumnMeans(w, h)[t] == ColumnMeans(f, h)[t] - k0 - ColumnMeans(r, h)[t] - ColumnMeans(e, h)[t] - ColumnMeans(v, h)[t]
    {
      ColSumOfNetWealth(f, k0, r, e, v, w, t, |f|);
      SplitDivision5(ColSum(f, t, |f|), k0, ColSum(r, t, |f|), ColSum(e, t, |f|), ColSum(v, t, |f|), n);
    }
  }

  lemma SplitDivision5(x: real, k0: real, y: real, z: real, u: real, n: real)
    requires n > 0.0
    ensures (x - n * k0 - y - z - u) / n == x / n - k0 - y / n - z / n - u / n
  {
  }

  lemma {:induction false} ColSumBelow(a: Matrix, b: Matrix, t: nat, k: nat)
    requires HasColumn(a, t, k) && HasColumn(b, t, k) && k >= 1
    requires forall p :: 0 <= p < k ==> a[p][t] < b[p][t]
    ensures ColSum(a, t, k) < ColSum(b, t, k)
  {
    if k > 1 {
      ColSumBelow(a, b, t, k - 1);
    }
  }

  /** If every path of a lies below the same path of b in a year, the mean of
      a lies below the mean of b in that year. */
  lemma MeanBelow(a: Matrix, b: Matrix, h: nat)
    requires |a| >= 1 && IsMatrix(a, |a|, h) && IsMatrix(b, |a|, h)
    requires forall p, t :: 0 <= p < |a| && 0 <= t < h ==> a[p][t] < b[p][t]
    ensures forall t :: 0 <= t < h ==> ColumnMeans(a, h)[t] < ColumnMeans(b, h)[t]
  {
    forall t | 0 <= t < h
      ensures ColumnMeans(a, h)[t] < ColumnMeans(b, h)[t]
    {
      ColSumBelow(a, b, t, |a|);
      DivisionKeepsOrder(ColSum(a, t, |a|), ColSum(b, t, |a|), |a| as real);
    }
  }

  lemma DivisionKeepsOrder(x: real, y: real, n: real)
    requires x < y && n > 0.0
    ensures x / n < y / n
  {
    assert (y - x) / n > 0.0;
  }
}
