/** Yearly series of one simulated path (a row) and the N-by-horizon
    matrices that hold one row per path, with the sums, products and
    running accumulations that numpy computes along a row. */
module Series {

  type Row = seq<real>
  type Matrix = seq<Row>

  function Min(a: int, b: int): int {
    if a <= b then a else b
  }

  /** m has n rows (paths) of h entries (years) each. */
  predicate IsMatrix(m: Matrix, n: nat, h: nat) {
    |m| == n && forall p :: 0 <= p < n ==> |m[p]| == h
  }

  /** a and b have the same number of rows and matching row lengths. */
  predicate SameShape(a: Matrix, b: Matrix) {
    |a| == |b| && forall p :: 0 <= p < |a| ==> |a[p]| == |b[p]|
  }

  /** Every entry of the row is non-zero. */
  predicate NonZero(s: Row) {
    forall k :: 0 <= k < |s| ==> s[k] != 0.0
  }

  /** x to the power n, for a whole exponent n. */
  function Pow(x: real, n: nat): real {
    if n == 0 then 1.0 else x * Pow(x, n - 1)
  }

  /** A product of k equal factors c is c to the power k. */
  lemma {:induction false} ProdOfConstant(s: Row, c: real)
    requires forall k :: 0 <= k < |s| ==> s[k] == c
    ensures Prod(s) == Pow(c, |s|)
  {
    if |s| > 0 {
      ProdOfConstant(s[..|s| - 1], c);
    }
  }

  function Sum(s: Row): real {
    if |s| == 0 then 0.0 else Sum(s[..|s| - 1]) + s[|s| - 1]
  }

  function Prod(s: Row): real {
    if |s| == 0 then 1.0 else Prod(s[..|s| - 1]) * s[|s| - 1]
  }

  /** A product of non-zero factors is non-zero. */
  lemma {:induction false} ProdNonZero(s: Row)
    requires NonZero(s)
    ensures Prod(s) != 0.0
  {
    if |s| > 0 {
      ProdNonZero(s[..|s| - 1]);
    }
  }

  /** Running sum along a row (numpy's cumsum): entry t is the sum of the
      first t + 1 entries. */
  function CumSum(s: Row): (r: Row)
    ensures |r| == |s|
  {
    seq(|s|, t requires 0 <= t < |s| => Sum(s[..t + 1]))
  }

  /** Each running-sum entry adds one term to the one before. */
  lemma CumSumStep(s: Row, t: nat)
    requires t < |s|
    ensures CumSum(s)[t] == if t == 0 then s[0] else CumSum(s)[t - 1] + s[t]
  {
    SumTake(s, t);
  }

  lemma SumTake(s: Row, t: nat)
    requires t < |s|
    ensures Sum(s[..t + 1]) == Sum(s[..t]) + s[t]
  {
    var a := s[..t + 1];
    assert a[..|a| - 1] == s[..t];
  }

  /** Running product along a row (numpy's cumprod): entry t is the product
      of the first t + 1 entries. */
  function CumProd(s: Row): (r: Row)
    ensures |r| == |s|
  {
    seq(|s|, t requires 0 <= t < |s| => Prod(s[..t + 1]))
  }

  /** Each running-product entry is the one before times one more factor. */
  lemma CumProdStep(s: Row, t: nat)
    requires t < |s|
    ensures CumProd(s)[t] == if t == 0 then s[0] else CumProd(s)[t - 1] * s[t]
  {
    ProdTake(s, t);
  }

  lemma ProdTake(s: Row, t: nat)
    requires t < |s|
    ensures Prod(s[..t + 1]) == Prod(s[..t]) * s[t]
  {
    var a := s[..t + 1];
    assert a[..|a| - 1] == s[..t];
  }

  /** A running product of non-zero factors has no zero entry. */
  lemma CumProdNonZero(s: Row)
    requires NonZero(s)
    ensures NonZero(CumProd(s))
  {
    var r := CumProd(s);
    forall t | 0 <= t < |s|
      ensures r[t] != 0.0
    {
      ProdNonZero(s[..t + 1]);
    }
  }

  /** An n-row matrix of ones times a row, entry by entry (numpy broadcasts
      the row over every row of the ones). Every row of the product is the
      row itself. */
  function Broadcast(row: Row, n: nat): (m: Matrix)
    ensures IsMatrix(m, n, |row|)
    ensures forall p :: 0 <= p < n ==> m[p] == row
  {
    var ones := seq(n, p => seq(|row|, t => 1.0));
    var m := seq(n, p requires 0 <= p < n => seq(|row|, t requires 0 <= t < |row| => ones[p][t] * row[t]));
    assert forall p :: 0 <= p < n ==> m[p] == row by {
      forall p | 0 <= p < n
        ensures m[p] == row
      {
        assert forall t :: 0 <= t < |row| ==> m[p][t] == row[t];
      }
    }
    m
  }
}
