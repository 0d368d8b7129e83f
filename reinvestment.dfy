/** The cumulative reinvested cash-flow differential: for each path and
    year t, every earlier year's owning-minus-renting differential compounded
    forward at that path's own stock growth. The callback computes one path at
    a time, as the row sums of a masked lower-triangular matrix, and writes
    the result row by row into an N-by-horizon array. */
module Reinvestment {
  import opened Series

  /** Entry (t, s) of the callback's per-path matrix: the growth from year s to
      year t applied to the differential of year s below the diagonal, and 0
      above it. Every column divides by g[s], also above the diagonal. */
  function TrilEntry(diff: Row, g: Row, t: nat, s: nat): real
    requires |diff| == |g| && t < |g| && s < |g| && NonZero(g)
  {
    (if s <= t then g[t] else 0.0) / g[s] * diff[s]
  }

  /** The sum of the first k entries of row t of that matrix. */
  function TrilRowSum(diff: Row, g: Row, t: nat, k: nat): real
    requires |diff| == |g| && t < |g| && k <= |g| && NonZero(g)
  {
    if k == 0 then 0.0 else TrilRowSum(diff, g, t, k - 1) + TrilEntry(diff, g, t, k - 1)
  }

  /** The callback's per-path result: the full row sums of the masked matrix. */
  function TrilRow(diff: Row, g: Row): (v: Row)
    requires |diff| == |g| && NonZero(g)
    ensures |v| == |g|
  {
    seq(|g|, t requires 0 <= t < |g| => TrilRowSum(diff, g, t, |g|))
  }

  /** The sum over the years s < k of diff[s] * g[t] / g[s]: the
      differentials of those years grown until year t. */
  function Compounded(diff: Row, g: Row, t: nat, k: nat): real
    requires |diff| == |g| && t < |g| && k <= |g| && NonZero(g)
  {
    if k == 0 then 0.0 else Compounded(diff, g, t, k - 1) + diff[k - 1] * g[t] / g[k - 1]
  }

  /** The closed form of the reinvested value at year t: every differential
      of the years s <= t, grown from year s to year t. */
  function ReinvestedValue(diff: Row, g: Row, t: nat): real
    requires |diff| == |g| && t < |g| && NonZero(g)
  {
    Compounded(diff, g, t, t + 1)
  }

  /** The sum over the years s < k of diff[s] / g[s]: the differentials
      discounted to the start of the path. */
  function Discounted(diff: Row, g: Row, k: nat): real
    requires |diff| == |g| && k <= |g| && NonZero(g)
  {
    if k == 0 then 0.0 else Discounted(diff, g, k - 1) + diff[k - 1] / g[k - 1]
  }

  lemma ScaleDivision(d: real, a: real, b: real)
    requires b != 0.0
    ensures d * a / b == a * (d / b)
    ensures a / b * d == d * a / b
  {
  }

  /** Below and on the diagonal the masked row agrees with the closed form;
      above it every entry is zero. */
  lemma {:induction false} TrilRowSumBelow(diff: Row, g: Row, t: nat, k: nat)
    requires |diff| == |g| && t < |g| && k <= |g| && NonZero(g)
    ensures TrilRowSum(diff, g, t, k) == Compounded(diff, g, t, Min(k, t + 1))
  {
    if k > 0 {
      TrilRowSumBelow(diff, g, t, k - 1);
      var s := k - 1;
      if s <= t {
        ScaleDivision(diff[s], g[t], g[s]);
      } else {
        assert TrilEntry(diff, g, t, s) == 0.0 / g[s] * diff[s] == 0.0;
      }
    }
  }

  /** The callback's masked row sum at year t is the closed form: the sum over
      s <= t of diff[s] * g[t] / g[s]. */
  lemma TrilRowIsReinvestedValue(diff: Row, g: Row, t: nat)
    requires |diff| == |g| && t < |g| && NonZero(g)
    ensures TrilRow(diff, g)[t] == ReinvestedValue(diff, g, t)
  {
    TrilRowSumBelow(diff, g, t, |g|);
  }

  /** The compounded sum factors into the growth at year t times the
      discounted sum. */
  lemma {:induction false} CompoundedFactors(diff: Row, g: Row, t: nat, k: nat)
    requires |diff| == |g| && t < |g| && k <= |g| && NonZero(g)
    ensures Compounded(diff, g, t, k) == g[t] * Discounted(diff, g, k)
  {
    if k > 0 {
      CompoundedFactors(diff, g, t, k - 1);
      FactorStep(Compounded(diff, g, t, k), Compounded(diff, g, t, k - 1), g[t],
                 Discounted(diff, g, k), Discounted(diff, g, k - 1), diff[k - 1], g[k - 1]);
    }
  }

  lemma FactorStep(x: real, c: real, gt: real, y: real, before: real, d: real, gs: real)
    requires gs != 0.0 && c == gt * before
    requires x == c + d * gt / gs && y == before + d / gs
    ensures x == gt * y
  {
    ScaleDivision(d, gt, gs);
  }

  lemma GrowOneYear(a: real, x: real, y: real, d: real)
    requires x != 0.0
    ensures x * a * y / x + d == y * a + d
  {
  }

  /** The reinvested value obeys the one-step recurrence: the first year holds
      its own differential, and each later year grows the previous value by
      that year's growth ratio and adds its own differential. */
  lemma ReinvestedRecurrence(diff: Row, g: Row, t: nat)
    requires |diff| == |g| && t < |g| && NonZero(g)
    ensures ReinvestedValue(diff, g, t)
         == if t == 0 then diff[0]
            else ReinvestedValue(diff, g, t - 1) * g[t] / g[t - 1] + diff[t]
  {
    CompoundedFactors(diff, g, t, t + 1);
    var here := Discounted(diff, g, t);
    assert g[t] * Discounted(diff, g, t + 1) == g[t] * here + g[t] * (diff[t] / g[t]);
    assert g[t] * (diff[t] / g[t]) == diff[t];
    if t == 0 {
      assert here == 0.0;
    } else {
      CompoundedFactors(diff, g, t - 1, t);
      GrowOneYear(here, g[t - 1], g[t], diff[t]);
    }
  }

  /** A worked three-year path: differentials 10, -5 and 2 with 10% growth a
      year give 12.1 - 5.5 + 2 = 8.6 at the third year, by the masked row
      sum as well as by the closed form. */
  lemma ReinvestedExample()
    ensures TrilRow([10.0, -5.0, 2.0], [1.0, 1.1, 1.21])[2] == 8.6
    ensures ReinvestedValue([10.0, -5.0, 2.0], [1.0, 1.1, 1.21], 2) == 8.6
  {
    var diff, g := [10.0, -5.0, 2.0], [1.0, 1.1, 1.21];
    assert Compounded(diff, g, 2, 1) == 12.1;
    assert Compounded(diff, g, 2, 2) == 12.1 - 5.5;
    assert Compounded(diff, g, 2, 3) == 8.6;
    TrilRowIsReinvestedValue(diff, g, 2);
  }

  /** diff and g are n-by-h with no zero growth factor. */
  predicate Reinvestable(diff: Matrix, g: Matrix, h: nat) {
    IsMatrix(diff, |diff|, h) && IsMatrix(g, |diff|, h) &&
    forall p :: 0 <= p < |g| ==> NonZero(g[p])
  }

  /** The reinvested value of every path and year, by the closed form. */
  function Reinvested(diff: Matrix, g: Matrix, h: nat): (v: Matrix)
    requires Reinvestable(diff, g, h)
    ensures IsMatrix(v, |diff|, h)
  {
    seq(|diff|, p requires 0 <= p < |diff| =>
      seq(h, t requires 0 <= t < h => ReinvestedValue(diff[p], g[p], t)))
  }

  /** The callback's loop: start from a matrix of ones and, for each path i,
      overwrite row i with that path's masked row sums. Iteration i writes
      row i only, and every row is overwritten in full, so no initial one
      survives; the result is the closed form everywhere. */
  method ReinvestPaths(diff: Matrix, g: Matrix, h: nat) returns (v: array2<real>)
    requires Reinvestable(diff, g, h)
    ensures fresh(v) && v.Length0 == |diff| && v.Length1 == h
    ensures forall p, t :: 0 <= p < |diff| && 0 <= t < h ==> v[p, t] == ReinvestedValue(diff[p], g[p], t)
  {
    var n := |diff|;
    v := new real[n, h]((p, t) => 1.0);
    for i := 0 to n
      invariant forall p, t :: 0 <= p < i && 0 <= t < h ==> v[p, t] == ReinvestedValue(diff[p], g[p], t)
      invariant forall p, t :: i <= p < n && 0 <= t < h ==> v[p, t] == 1.0
    {
      var row := TrilRow(diff[i], g[i]);
      forall t | 0 <= t < h
        ensures row[t] == ReinvestedValue(diff[i], g[i], t)
      {
        TrilRowIsReinvestedValue(diff[i], g[i], t);
      }
      for t := 0 to h
        invariant forall p, s :: 0 <= p < i && 0 <= s < h ==> v[p, s] == ReinvestedValue(diff[p], g[p], s)
        invariant forall s :: 0 <= s < t ==> v[i, s] == row[s]
        invariant forall p, s :: i < p < n && 0 <= s < h ==> v[p, s] == 1.0
      {
        v[i, t] := row[t];
      }
    }
  }

  /** The reinvested differentials as the callback goes on to use them: the
      array the loop wrote, read back path by path. */
  method ReinvestAndReadBack(diff: Matrix, g: Matrix, h: nat) returns (m: Matrix)
    requires Reinvestable(diff, g, h)
    ensures m == Reinvested(diff, g, h)
  {
    var n := |diff|;
    var v := ReinvestPaths(diff, g, h);
    m := seq(n, p requires 0 <= p < n reads v => seq(h, t requires 0 <= t < h reads v => v[p, t]));
    forall p | 0 <= p < n
      ensures m[p] == Reinvested(diff, g, h)[p]
    {
    }
  }
}
