/** The yearly return paths of one simulation batch: the normal returns of
    the property, the two-regime ("good year" / "bad year") returns of the
    stock market, and their compounding into value and growth paths. The
    random samples themselves are inputs: standard-normal draws z and
    uniform draws u, one matrix per sampling call of the callback. */
module Returns {
  import opened Series

  /** Normal returns with the given mean and spread, from standard-normal
      draws (z * sigma + mean, entry by entry). */
  function NormalDraws(z: Matrix, mean: real, sigma: real): (r: Matrix)
    ensures SameShape(r, z)
  {
    seq(|z|, p requires 0 <= p < |z| =>
      seq(|z[p]|, t requires 0 <= t < |z[p]| => z[p][t] * sigma + mean))
  }

  /** With no spread every drawn return is the mean itself. */
  lemma DrawsWithoutSpread(z: Matrix, mean: real)
    ensures forall p, t :: 0 <= p < |z| && 0 <= t < |z[p]| ==> NormalDraws(z, mean, 0.0)[p][t] == mean
  {
  }

  /** With no spread, every path of a rectangular batch draws the same row of
      returns, whatever the standard-normal samples were. */
  lemma IdenticalPathsWithoutSpread(z: Matrix, n: nat, h: nat, mean: real)
    requires IsMatrix(z, n, h)
    ensures forall p :: 0 <= p < n ==> NormalDraws(z, mean, 0.0)[p] == seq(h, t => mean)
  {
    forall p | 0 <= p < n
      ensures NormalDraws(z, mean, 0.0)[p] == seq(h, t => mean)
    {
      var row := NormalDraws(z, mean, 0.0)[p];
      assert |row| == h;
      assert forall t :: 0 <= t < h ==> row[t] == mean;
    }
  }

  /** The Bernoulli flag of each (path, year): a uniform draw below the
      good-year probability marks a good year. */
  function GoodYearFlags(u: Matrix, prob: real): (f: seq<seq<bool>>)
    ensures |f| == |u| && forall p :: 0 <= p < |u| ==> |f[p]| == |u[p]|
  {
    seq(|u|, p requires 0 <= p < |u| =>
      seq(|u[p]|, t requires 0 <= t < |u[p]| => u[p][t] < prob))
  }

  /** Every entry lies in [0, 1), as uniform draws do. */
  predicate UnitInterval(u: Matrix) {
    forall p, t :: 0 <= p < |u| && 0 <= t < |u[p]| ==> 0.0 <= u[p][t] < 1.0
  }

  /** A probability of 1 makes every year good and a probability of 0 makes
      every year bad. */
  lemma FlagsAtCertainty(u: Matrix)
    requires UnitInterval(u)
    ensures forall p, t :: 0 <= p < |u| && 0 <= t < |u[p]| ==> GoodYearFlags(u, 1.0)[p][t]
    ensures forall p, t :: 0 <= p < |u| && 0 <= t < |u[p]| ==> !GoodYearFlags(u, 0.0)[p][t]
  {
  }

  /** The numeric value numpy gives a boolean in arithmetic. */
  function Indicator(b: bool): real {
    if b then 1.0 else 0.0
  }

  /** flag-shaped: one flag per entry of m. */
  predicate FlagsFit(flags: seq<seq<bool>>, m: Matrix) {
    |flags| == |m| && forall p :: 0 <= p < |m| ==> |flags[p]| == |m[p]|
  }

  /** The stock return of each (path, year), written as the callback writes it:
      flag * good + (1 - flag) * bad, with the flag counted as 1 or 0. It is
      the good-regime return in a good year and the bad-regime return in a
      bad year. */
  function RegimeReturns(flags: seq<seq<bool>>, good: Matrix, bad: Matrix): (r: Matrix)
    requires SameShape(good, bad) && FlagsFit(flags, good)
    ensures SameShape(r, good)
    ensures forall p, t :: 0 <= p < |good| && 0 <= t < |good[p]| ==>
      r[p][t] == if flags[p][t] then good[p][t] else bad[p][t]
  {
    seq(|good|, p requires 0 <= p < |good| =>
      seq(|good[p]|, t requires 0 <= t < |good[p]| =>
        Indicator(flags[p][t]) * good[p][t] + (1.0 - Indicator(flags[p][t])) * bad[p][t]))
  }

  /** When every year is good the stock returns are exactly the good-regime
      matrix, and when every year is bad exactly the bad-regime matrix. */
  lemma SingleRegime(flags: seq<seq<bool>>, good: Matrix, bad: Matrix)
    requires SameShape(good, bad) && FlagsFit(flags, good)
    ensures (forall p, t :: 0 <= p < |good| && 0 <= t < |good[p]| ==> flags[p][t])
      ==> RegimeReturns(flags, good, bad) == good
    ensures (forall p, t :: 0 <= p < |good| && 0 <= t < |good[p]| ==> !flags[p][t])
      ==> RegimeReturns(flags, good, bad) == bad
  {
    var r := RegimeReturns(flags, good, bad);
    if forall p, t :: 0 <= p < |good| && 0 <= t < |good[p]| ==> flags[p][t] {
      forall p | 0 <= p < |good|
        ensures r[p] == good[p]
      {
      }
    }
    if forall p, t :: 0 <= p < |good| && 0 <= t < |good[p]| ==> !flags[p][t] {
      forall p | 0 <= p < |good|
        ensures r[p] == bad[p]
      {
      }
    }
  }

  /** The two-regime stock-market returns: a flag per (path, year) from the
      uniform draws, and normal returns for each regime from their own
      standard-normal draws. */
  function StockReturns(u: Matrix, goodProb: real, zGood: Matrix, goodMean: real, goodSigma: real,
                        zBad: Matrix, badMean: real, badSigma: real): (r: Matrix)
    requires SameShape(zGood, zBad) && SameShape(u, zGood)
    ensures SameShape(r, zGood)
  {
    RegimeReturns(GoodYearFlags(u, goodProb), NormalDraws(zGood, goodMean, goodSigma),
                  NormalDraws(zBad, badMean, badSigma))
  }

  /** 1 + r for every entry of a row. */
  function OnePlus(r: Row): (g: Row)
    ensures |g| == |r|
  {
    seq(|r|, t requires 0 <= t < |r| => 1.0 + r[t])
  }

  /** The cumulative growth factor of each path: the running product of
      (1 + yearly return) along the row. */
  function Growth(r: Matrix): (g: Matrix)
    ensures SameShape(g, r)
  {
    seq(|r|, p requires 0 <= p < |r| => CumProd(OnePlus(r[p])))
  }

  /** Growth is the product of the first t + 1 yearly factors; it starts at
      the first factor and each year multiplies by that year's factor. */
  lemma GrowthCompounds(r: Matrix, p: nat, t: nat)
    requires p < |r| && t < |r[p]|
    ensures Growth(r)[p][t] == Prod(OnePlus(r[p])[..t + 1])
    ensures Growth(r)[p][t] == if t == 0 then 1.0 + r[p][0] else Growth(r)[p][t - 1] * (1.0 + r[p][t])
  {
    CumProdStep(OnePlus(r[p]), t);
  }

  /** No return of exactly -100% means no growth factor is zero. */
  lemma GrowthNonZero(r: Matrix)
    requires forall p, t :: 0 <= p < |r| && 0 <= t < |r[p]| ==> r[p][t] != -1.0
    ensures forall p :: 0 <= p < |r| ==> NonZero(Growth(r)[p])
  {
    forall p | 0 <= p < |r|
      ensures NonZero(Growth(r)[p])
    {
      CumProdNonZero(OnePlus(r[p]));
    }
  }

  /** Constant yearly returns c compound, by year t, to (1 + c) to the power
      t + 1. */
  lemma GrowthOfConstantReturns(r: Matrix, c: real)
    requires forall p, t :: 0 <= p < |r| && 0 <= t < |r[p]| ==> r[p][t] == c
    ensures forall p, t :: 0 <= p < |r| && 0 <= t < |r[p]| ==> Growth(r)[p][t] == Pow(1.0 + c, t + 1)
  {
    forall p, t | 0 <= p < |r| && 0 <= t < |r[p]|
      ensures Growth(r)[p][t] == Pow(1.0 + c, t + 1)
    {
      GrowthCompounds(r, p, t);
      ProdOfConstant(OnePlus(r[p])[..t + 1], 1.0 + c);
    }
  }

  /** The property value of each path: the purchase price compounded by the
      yearly property returns. */
  function PropertyValue(price: real, r: Matrix): (v: Matrix)
    ensures SameShape(v, r)
  {
    var g := Growth(r);
    seq(|r|, p requires 0 <= p < |r| =>
      seq(|r[p]|, t requires 0 <= t < |r[p]| => price * g[p][t]))
  }

  /** With constant yearly returns c the property value at year t is the
      price times (1 + c) to the power t + 1 on every path. */
  lemma PropertyValueOfConstantReturns(price: real, r: Matrix, c: real)
    requires forall p, t :: 0 <= p < |r| && 0 <= t < |r[p]| ==> r[p][t] == c
    ensures forall p, t :: 0 <= p < |r| && 0 <= t < |r[p]| ==>
      PropertyValue(price, r)[p][t] == price * Pow(1.0 + c, t + 1)
  {
    GrowthOfConstantReturns(r, c);
  }

  /** The property value is the price times the product of the yearly
      factors so far, and moves from one year to the next by that year's
      factor. */
  lemma PropertyValueCompounds(price: real, r: Matrix, p: nat, t: nat)
    requires p < |r| && t < |r[p]|
    ensures PropertyValue(price, r)[p][t] == price * Prod(OnePlus(r[p])[..t + 1])
    ensures PropertyValue(price, r)[p][t]
         == if t == 0 then price * (1.0 + r[p][0]) else PropertyValue(price, r)[p][t - 1] * (1.0 + r[p][t])
  {
    GrowthCompounds(r, p, t);
    if t > 0 {
      var g := Growth(r);
      assert price * g[p][t] == (price * g[p][t - 1]) * (1.0 + r[p][t]);
    }
  }
}
