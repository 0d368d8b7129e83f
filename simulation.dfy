/** The computation behind the dashboard's callback (update_plots) with its
    random samples as inputs: from one parameter set and one batch of draws
    to the two groups of plotted mean series, "Costs Over Time" and
    "Returns Over Time". */
module Simulation {
  import opened Series
  import opened Mortgage
  import opened Returns
  import opened CashFlow
  import opened Reinvestment
  import opened Summary

  /** The fixed purchase price of the flat. */
  const CostOfFlat: real := 1000000.0

  /** The fifteen slider values, in the order the callback receives them. */
  datatype Params = Params(
    rentToCost: real, maintenanceRate: real, horizon: nat, downpayment: real,
    neverPaid: real, paid: real, duration: nat, interest: real,
    flatMean: real, flatSigma: real,
    goodYearProb: real, goodYearMean: real, goodYearSigma: real,
    badYearMean: real, badYearSigma: real)

  /** The random samples of one batch, one N-by-horizon matrix per sampling
      call: standard normals for the flat returns, uniforms for the good-year
      flags, and standard normals for the good-year and the bad-year stock
      returns. */
  datatype Draws = Draws(flat: Matrix, goodYear: Matrix, good: Matrix, bad: Matrix)

  /** The four series of "Costs Over Time". */
  datatype CostSeries = CostSeries(rent: Row, maintenance: Row, loan: Row, owningMinusRenting: Row)

  /** The five series of "Returns Over Time". */
  datatype ReturnSeries = ReturnSeries(flatValue: Row, totalDebt: Row, downpaymentInvested: Row,
                                       reinvestedDifference: Row, owningMinusRenting: Row)

  /** At least one path and one year, and every draw matrix N-by-horizon. */
  predicate Shaped(prm: Params, dr: Draws) {
    var n := |dr.flat|;
    n >= 1 && prm.horizon >= 1 &&
    IsMatrix(dr.flat, n, prm.horizon) && IsMatrix(dr.goodYear, n, prm.horizon) &&
    IsMatrix(dr.good, n, prm.horizon) && IsMatrix(dr.bad, n, prm.horizon)
  }

  /** The two-regime stock returns of the batch. */
  function StockMarket(prm: Params, dr: Draws): (r: Matrix)
    requires Shaped(prm, dr)
    ensures IsMatrix(r, |dr.flat|, prm.horizon)
  {
    StockReturns(dr.goodYear, prm.goodYearProb, dr.good, prm.goodYearMean, prm.goodYearSigma,
                 dr.bad, prm.badYearMean, prm.badYearSigma)
  }

  /** What the computation needs to be defined: a positive interest rate and
      a loan of at least one year (the annuity denominator is then non-zero),
      a non-zero price-to-rent ratio, and no stock return of exactly -100%
      (every growth factor is divided by). */
  predicate ValidInputs(prm: Params, dr: Draws) {
    Shaped(prm, dr) && prm.interest > 0.0 && prm.duration >= 1 && prm.rentToCost != 0.0 &&
    forall p, t :: 0 <= p < |dr.flat| && 0 <= t < prm.horizon ==> StockMarket(prm, dr)[p][t] != -1.0
  }

  function FlatValue(prm: Params, dr: Draws): (m: Matrix)
    requires Shaped(prm, dr)
    ensures IsMatrix(m, |dr.flat|, prm.horizon)
  {
    PropertyValue(CostOfFlat, NormalDraws(dr.flat, prm.flatMean, prm.flatSigma))
  }

  function StockGrowth(prm: Params, dr: Draws): (m: Matrix)
    requires Shaped(prm, dr)
    ensures IsMatrix(m, |dr.flat|, prm.horizon)
  {
    Growth(StockMarket(prm, dr))
  }

  /** The amortised payments of every path: the same schedule in each row. */
  function PaidRepayment(prm: Params, n: nat): (m: Matrix)
    requires prm.interest > 0.0 && prm.duration >= 1
    ensures IsMatrix(m, n, prm.horizon)
  {
    Broadcast(PaymentSchedule(prm.interest, CostOfFlat * prm.paid, prm.horizon, prm.duration), n)
  }

  /** The remaining amortised balance, row by row. */
  function PaidRemaining(prm: Params, n: nat): (m: Matrix)
    requires prm.interest > 0.0 && prm.duration >= 1 && prm.horizon >= 1
    ensures IsMatrix(m, n, prm.horizon)
  {
    var paid := PaidRepayment(prm, n);
    seq(n, p requires 0 <= p < n => RemainingBalance(paid[p], prm.duration))
  }

  function TotalLoanCost(prm: Params, n: nat): (m: Matrix)
    requires prm.interest > 0.0 && prm.duration >= 1
    ensures IsMatrix(m, n, prm.horizon)
  {
    LoanCost(NeverPaidCost(prm.interest, CostOfFlat * prm.neverPaid), PaidRepayment(prm, n))
  }

  function RentCost(prm: Params, dr: Draws): (m: Matrix)
    requires Shaped(prm, dr) && prm.rentToCost != 0.0
    ensures IsMatrix(m, |dr.flat|, prm.horizon)
  {
    Rent(FlatValue(prm, dr), prm.rentToCost)
  }

  function MaintCost(prm: Params, dr: Draws): (m: Matrix)
    requires Shaped(prm, dr)
    ensures IsMatrix(m, |dr.flat|, prm.horizon)
  {
    Maintenance(FlatValue(prm, dr), prm.maintenanceRate)
  }

  function Differential(prm: Params, dr: Draws): (m: Matrix)
    requires ValidInputs(prm, dr)
    ensures IsMatrix(m, |dr.flat|, prm.horizon)
  {
    AnnualDifferential(TotalLoanCost(prm, |dr.flat|), MaintCost(prm, dr), RentCost(prm, dr))
  }

  function InvestedDownpayment(prm: Params, dr: Draws): (m: Matrix)
    requires Shaped(prm, dr)
    ensures IsMatrix(m, |dr.flat|, prm.horizon)
  {
    DownpaymentInvested(CostOfFlat, StockGrowth(prm, dr), prm.downpayment)
  }

  lemma GrowthIsReinvestable(prm: Params, dr: Draws)
    requires ValidInputs(prm, dr)
    ensures Reinvestable(Differential(prm, dr), StockGrowth(prm, dr), prm.horizon)
  {
    GrowthNonZero(StockMarket(prm, dr));
  }

  function ReinvestedDifference(prm: Params, dr: Draws): (m: Matrix)
    requires ValidInputs(prm, dr)
    ensures IsMatrix(m, |dr.flat|, prm.horizon)
  {
    GrowthIsReinvestable(prm, dr);
    Reinvested(Differential(prm, dr), StockGrowth(prm, dr), prm.horizon)
  }

  function BuyMinusRent(prm: Params, dr: Draws): (m: Matrix)
    requires ValidInputs(prm, dr)
    ensures IsMatrix(m, |dr.flat|, prm.horizon)
  {
    NetWealth(FlatValue(prm, dr), prm.neverPaid * CostOfFlat, PaidRemaining(prm, |dr.flat|),
              InvestedDownpayment(prm, dr), ReinvestedDifference(prm, dr))
  }

  /** The "Total Debt" series: the interest-only principal plus the mean
      remaining amortised balance. */
  function TotalDebt(prm: Params, n: nat): (r: Row)
    requires n >= 1 && prm.interest > 0.0 && prm.duration >= 1 && prm.horizon >= 1
    ensures |r| == prm.horizon
  {
    var means := ColumnMeans(PaidRemaining(prm, n), prm.horizon);
    seq(prm.horizon, t requires 0 <= t < prm.horizon => prm.neverPaid * CostOfFlat + means[t])
  }

  /** The two groups of plotted series; each series has one entry per year. */
  function Outcome(prm: Params, dr: Draws): (r: (CostSeries, ReturnSeries))
    requires ValidInputs(prm, dr)
    ensures var h := prm.horizon;
      |r.0.rent| == h && |r.0.maintenance| == h && |r.0.loan| == h && |r.0.owningMinusRenting| == h &&
      |r.1.flatValue| == h && |r.1.totalDebt| == h && |r.1.downpaymentInvested| == h &&
      |r.1.reinvestedDifference| == h && |r.1.owningMinusRenting| == h
  {
    var n, h := |dr.flat|, prm.horizon;
    (CostSeries(ColumnMeans(RentCost(prm, dr), h), ColumnMeans(MaintCost(prm, dr), h),
                ColumnMeans(TotalLoanCost(prm, n), h), ColumnMeans(Differential(prm, dr), h)),
     ReturnSeries(ColumnMeans(FlatValue(prm, dr), h), TotalDebt(prm, n),
                  ColumnMeans(InvestedDownpayment(prm, dr), h),
                  ColumnMeans(ReinvestedDifference(prm, dr), h), ColumnMeans(BuyMinusRent(prm, dr), h)))
  }

  /** The callback's pipeline, step by step as the callback runs it, with the
      reinvested differentials computed by the row-by-row loop over an
      N-by-horizon array. It produces exactly the series of Outcome. */
  method UpdatePlots(prm: Params, dr: Draws) returns (costs: CostSeries, gains: ReturnSeries)
    requires ValidInputs(prm, dr)
    ensures (costs, gains) == Outcome(prm, dr)
  {
    var n, h := |dr.flat|, prm.horizon;
    var flat := FlatValue(prm, dr);
    var rent := Rent(flat, prm.rentToCost);
    var loan := TotalLoanCost(prm, n);
    var remaining := PaidRemaining(prm, n);
    var maint := Maintenance(flat, prm.maintenanceRate);
    var diff := AnnualDifferential(loan, maint, rent);
    var growth := StockGrowth(prm, dr);
    var invested := DownpaymentInvested(CostOfFlat, growth, prm.downpayment);
    GrowthIsReinvestable(prm, dr);
    var reinvested := ReinvestAndReadBack(diff, growth, h);
    var net := NetWealth(flat, prm.neverPaid * CostOfFlat, remaining, invested, reinvested);
    var debtMeans := ColumnMeans(remaining, h);
    var totalDebt := seq(h, t requires 0 <= t < h => prm.neverPaid * CostOfFlat + debtMeans[t]);
    assert totalDebt == TotalDebt(prm, n);
    costs := CostSeries(ColumnMeans(rent, h), ColumnMeans(maint, h), ColumnMeans(loan, h), ColumnMeans(diff, h));
    gains := ReturnSeries(ColumnMeans(flat, h), totalDebt,
                          ColumnMeans(invested, h), ColumnMeans(reinvested, h), ColumnMeans(net, h));
  }

  /** The total loan cost of every path and year is the interest-only cost
      plus that year's amortised payment: the annuity during the loan and
      nothing after it. */
  lemma LoanCostPerYear(prm: Params, n: nat)
    requires prm.interest > 0.0 && prm.duration >= 1
    ensures forall p, t :: 0 <= p < n && 0 <= t < prm.horizon ==>
      TotalLoanCost(prm, n)[p][t]
        == prm.interest * (prm.neverPaid * CostOfFlat)
           + (if t < prm.duration then AnnuityPayment(prm.interest, CostOfFlat * prm.paid, prm.duration) else 0.0)
  {
    var sched := PaymentSchedule(prm.interest, CostOfFlat * prm.paid, prm.horizon, prm.duration);
    assert forall p :: 0 <= p < n ==> PaidRepayment(prm, n)[p] == sched;
  }

  /** The plotted "Loan" series is that same per-year cost, since every path
      pays the same. */
  lemma LoanSeries(prm: Params, dr: Draws)
    requires ValidInputs(prm, dr)
    ensures forall t :: 0 <= t < prm.horizon ==>
      Outcome(prm, dr).0.loan[t]
        == prm.interest * (prm.neverPaid * CostOfFlat)
           + (if t < prm.duration then AnnuityPayment(prm.interest, CostOfFlat * prm.paid, prm.duration) else 0.0)
  {
    var n, h := |dr.flat|, prm.horizon;
    var payment := AnnuityPayment(prm.interest, CostOfFlat * prm.paid, prm.duration);
    var row := seq(h, t requires 0 <= t < h =>
      prm.interest * (prm.neverPaid * CostOfFlat) + (if t < prm.duration then payment else 0.0));
    var loan := TotalLoanCost(prm, n);
    LoanCostPerYear(prm, n);
    forall p | 0 <= p < n
      ensures loan[p] == row
    {
      assert forall t :: 0 <= t < h ==> loan[p][t] == row[t];
    }
    MeanOfIdenticalRows(loan, row);
    OutcomeLoan(prm, dr);
  }

  /** The plotted Loan series is the mean of the total loan costs. */
  lemma OutcomeLoan(prm: Params, dr: Draws)
    requires ValidInputs(prm, dr)
    ensures Outcome(prm, dr).0.loan == ColumnMeans(TotalLoanCost(prm, |dr.flat|), prm.horizon)
  {
  }

  /** The plotted "Total Debt" is the interest-only principal plus the
      annuity times the loan years still to come; when the loan ends within
      the horizon, it falls to the interest-only principal from the last loan
      year on. */
  lemma TotalDebtSeries(prm: Params, n: nat)
    requires n >= 1 && prm.interest > 0.0 && prm.duration >= 1 && prm.horizon >= 1
    ensures forall t :: 0 <= t < prm.horizon ==>
      TotalDebt(prm, n)[t]
        == prm.neverPaid * CostOfFlat
           + AnnuityPayment(prm.interest, CostOfFlat * prm.paid, prm.duration)
             * (prm.duration - Min(t + 1, prm.duration)) as real
    ensures prm.duration <= prm.horizon ==>
      forall t :: prm.duration - 1 <= t < prm.horizon ==> TotalDebt(prm, n)[t] == prm.neverPaid * CostOfFlat
  {
    var sched := PaymentSchedule(prm.interest, CostOfFlat * prm.paid, prm.horizon, prm.duration);
    var row := RemainingBalance(sched, prm.duration);
    var remaining := PaidRemaining(prm, n);
    forall p | 0 <= p < n
      ensures remaining[p] == row
    {
      assert PaidRepayment(prm, n)[p] == sched;
    }
    MeanOfIdenticalRows(remaining, row);
    forall t | 0 <= t < prm.horizon {
      RemainingOfSchedule(prm.interest, CostOfFlat * prm.paid, prm.horizon, prm.duration, t);
    }
    if prm.duration <= prm.horizon {
      RemainingReachesZero(prm.interest, CostOfFlat * prm.paid, prm.horizon, prm.duration);
    }
  }

  /** The "Owning minus Renting" cost series is the loan series plus the
      maintenance series minus the rent series. */
  lemma CostsAddUp(prm: Params, dr: Draws)
    requires ValidInputs(prm, dr)
    ensures forall t :: 0 <= t < prm.horizon ==>
      Outcome(prm, dr).0.owningMinusRenting[t]
        == Outcome(prm, dr).0.loan[t] + Outcome(prm, dr).0.maintenance[t] - Outcome(prm, dr).0.rent[t]
  {
    MeanOfDifferential(TotalLoanCost(prm, |dr.flat|), MaintCost(prm, dr), RentCost(prm, dr),
                       Differential(prm, dr), prm.horizon);
  }

  /** The "Owning minus Renting" wealth series is the flat value less the
      total debt, the invested down payment and the reinvested differentials. */
  lemma ReturnsAddUp(prm: Params, dr: Draws)
    requires ValidInputs(prm, dr)
    ensures forall t :: 0 <= t < prm.horizon ==>
      Outcome(prm, dr).1.owningMinusRenting[t]
        == Outcome(prm, dr).1.flatValue[t] - Outcome(prm, dr).1.totalDebt[t]
           - Outcome(prm, dr).1.downpaymentInvested[t] - Outcome(prm, dr).1.reinvestedDifference[t]
  {
    MeanOfNetWealth(FlatValue(prm, dr), prm.neverPaid * CostOfFlat, PaidRemaining(prm, |dr.flat|),
                    InvestedDownpayment(prm, dr), ReinvestedDifference(prm, dr), BuyMinusRent(prm, dr),
                    prm.horizon);
  }

  /** For the same draws, raising the price-to-rent ratio lowers the mean
      rent of every year, as long as every flat value is positive. */
  lemma RentSeriesFalls(prm: Params, dr: Draws, high: real)
    requires ValidInputs(prm, dr) && 0.0 < prm.rentToCost < high
    requires forall p, t :: 0 <= p < |dr.flat| && 0 <= t < prm.horizon ==> FlatValue(prm, dr)[p][t] > 0.0
    ensures ValidInputs(prm.(rentToCost := high), dr)
    ensures forall t :: 0 <= t < prm.horizon ==>
      Outcome(prm.(rentToCost := high), dr).0.rent[t] < Outcome(prm, dr).0.rent[t]
  {
    var higher := prm.(rentToCost := high);
    assert StockMarket(higher, dr) == StockMarket(prm, dr);
    assert FlatValue(higher, dr) == FlatValue(prm, dr);
    RentFallsWithRatio(FlatValue(prm, dr), prm.rentToCost, high);
    MeanBelow(RentCost(higher, dr), RentCost(prm, dr), prm.horizon);
  }

  /** Every path of m is the same row. */
  predicate IdenticalRows(m: Matrix) {
    forall p, q :: 0 <= p < |m| && 0 <= q < |m| ==> m[p] == m[q]
  }

  /** A batch with nothing left to chance: no spread in the flat returns or
      in either stock regime, a good-year probability of 0 or 1, and uniform
      samples in [0, 1). */
  predicate WithoutRandomness(prm: Params, dr: Draws) {
    prm.flatSigma == 0.0 && prm.goodYearSigma == 0.0 && prm.badYearSigma == 0.0 &&
    (prm.goodYearProb == 0.0 || prm.goodYearProb == 1.0) && UnitInterval(dr.goodYear)
  }

  /** The yearly stock return of the only regime such a batch can draw. */
  function CertainStockReturn(prm: Params): real {
    if prm.goodYearProb == 1.0 then prm.goodYearMean else prm.badYearMean
  }

  /** With no spread in the flat returns, every path's flat value at year t is
      the price compounded t + 1 times at the mean return. */
  lemma FlatValueWithoutSpread(prm: Params, dr: Draws)
    requires Shaped(prm, dr) && prm.flatSigma == 0.0
    ensures forall p, t :: 0 <= p < |dr.flat| && 0 <= t < prm.horizon ==>
      FlatValue(prm, dr)[p][t] == CostOfFlat * Pow(1.0 + prm.flatMean, t + 1)
    ensures IdenticalRows(FlatValue(prm, dr))
  {
    var flat := FlatValue(prm, dr);
    DrawsWithoutSpread(dr.flat, prm.flatMean);
    PropertyValueOfConstantReturns(CostOfFlat, NormalDraws(dr.flat, prm.flatMean, prm.flatSigma), prm.flatMean);
    forall p, q | 0 <= p < |flat| && 0 <= q < |flat|
      ensures flat[p] == flat[q]
    {
      assert forall t :: 0 <= t < prm.horizon ==> flat[p][t] == flat[q][t];
    }
  }

  /** Without randomness every path draws the certain regime's mean return in
      every year, and its stock growth at year t is that return compounded
      t + 1 times. */
  lemma StockMarketWithoutRandomness(prm: Params, dr: Draws)
    requires Shaped(prm, dr) && WithoutRandomness(prm, dr)
    ensures forall p :: 0 <= p < |dr.flat| ==>
      StockMarket(prm, dr)[p] == seq(prm.horizon, t => CertainStockReturn(prm))
    ensures forall p, t :: 0 <= p < |dr.flat| && 0 <= t < prm.horizon ==>
      StockGrowth(prm, dr)[p][t] == Pow(1.0 + CertainStockReturn(prm), t + 1)
    ensures IdenticalRows(StockGrowth(prm, dr))
  {
    var n, h := |dr.flat|, prm.horizon;
    var flags := GoodYearFlags(dr.goodYear, prm.goodYearProb);
    var good := NormalDraws(dr.good, prm.goodYearMean, prm.goodYearSigma);
    var bad := NormalDraws(dr.bad, prm.badYearMean, prm.badYearSigma);
    FlagsAtCertainty(dr.goodYear);
    SingleRegime(flags, good, bad);
    IdenticalPathsWithoutSpread(dr.good, n, h, prm.goodYearMean);
    IdenticalPathsWithoutSpread(dr.bad, n, h, prm.badYearMean);
    var market := StockMarket(prm, dr);
    assert forall p :: 0 <= p < n ==> market[p] == seq(h, t => CertainStockReturn(prm));
    GrowthOfConstantReturns(market, CertainStockReturn(prm));
    var growth := StockGrowth(prm, dr);
    forall p, q | 0 <= p < n && 0 <= q < n
      ensures growth[p] == growth[q]
    {
    }
  }

  /** Paths with the same flat value have the same yearly differential:
      every path pays the same loan. */
  lemma DifferentialRowsIdentical(prm: Params, dr: Draws)
    requires ValidInputs(prm, dr) && IdenticalRows(FlatValue(prm, dr))
    ensures IdenticalRows(Differential(prm, dr))
  {
    var n, h := |dr.flat|, prm.horizon;
    var sched := PaymentSchedule(prm.interest, CostOfFlat * prm.paid, h, prm.duration);
    assert forall p :: 0 <= p < n ==> PaidRepayment(prm, n)[p] == sched;
    var loan, flat, diff := TotalLoanCost(prm, n), FlatValue(prm, dr), Differential(prm, dr);
    forall p, q | 0 <= p < n && 0 <= q < n
      ensures diff[p] == diff[q]
    {
      assert loan[p] == loan[q] && flat[p] == flat[q];
      assert forall t :: 0 <= t < h ==> diff[p][t] == diff[q][t];
    }
  }

  /** Paths with the same differential and the same stock growth have the
      same reinvested differentials. */
  lemma ReinvestedRowsIdentical(prm: Params, dr: Draws)
    requires ValidInputs(prm, dr) && IdenticalRows(Differential(prm, dr)) && IdenticalRows(StockGrowth(prm, dr))
    ensures IdenticalRows(ReinvestedDifference(prm, dr))
  {
    var n, h := |dr.flat|, prm.horizon;
    var reinvested := ReinvestedDifference(prm, dr);
    forall p, q | 0 <= p < n && 0 <= q < n
      ensures reinvested[p] == reinvested[q]
    {
      assert forall t :: 0 <= t < h ==> reinvested[p][t] == reinvested[q][t];
    }
  }

  /** Paths with the same flat value, stock growth and reinvested
      differentials have the same net wealth: every path owes the same
      remaining balance. */
  lemma NetWealthRowsIdentical(prm: Params, dr: Draws)
    requires ValidInputs(prm, dr) && IdenticalRows(FlatValue(prm, dr)) && IdenticalRows(StockGrowth(prm, dr))
    requires IdenticalRows(ReinvestedDifference(prm, dr))
    ensures IdenticalRows(BuyMinusRent(prm, dr))
  {
    var n, h := |dr.flat|, prm.horizon;
    var sched := PaymentSchedule(prm.interest, CostOfFlat * prm.paid, h, prm.duration);
    assert forall p :: 0 <= p < n ==> PaidRepayment(prm, n)[p] == sched;
    var remaining, invested, net := PaidRemaining(prm, n), InvestedDownpayment(prm, dr), BuyMinusRent(prm, dr);
    forall p, q | 0 <= p < n && 0 <= q < n
      ensures net[p] == net[q]
    {
      assert remaining[p] == remaining[q];
      assert forall t :: 0 <= t < h ==> invested[p][t] == invested[q][t];
      assert forall t :: 0 <= t < h ==> net[p][t] == net[q][t];
    }
  }

  /** Paths with the same flat value and the same stock growth pay the same
      rent and maintenance and hold the same invested down payment. */
  lemma CostRowsIdentical(prm: Params, dr: Draws)
    requires ValidInputs(prm, dr) && IdenticalRows(FlatValue(prm, dr)) && IdenticalRows(StockGrowth(prm, dr))
    ensures IdenticalRows(RentCost(prm, dr)) && IdenticalRows(MaintCost(prm, dr))
    ensures IdenticalRows(InvestedDownpayment(prm, dr))
  {
    var n, h := |dr.flat|, prm.horizon;
    var flat, growth := FlatValue(prm, dr), StockGrowth(prm, dr);
    var rent, maint, invested := RentCost(prm, dr), MaintCost(prm, dr), InvestedDownpayment(prm, dr);
    forall p, q | 0 <= p < n && 0 <= q < n
      ensures rent[p] == rent[q] && maint[p] == maint[q] && invested[p] == invested[q]
    {
      assert flat[p] == flat[q] && growth[p] == growth[q];
      assert forall t :: 0 <= t < h ==> rent[p][t] == rent[q][t];
      assert forall t :: 0 <= t < h ==> maint[p][t] == maint[q][t];
      assert forall t :: 0 <= t < h ==> invested[p][t] == invested[q][t];
    }
  }

  /** Without randomness all paths of a batch coincide: the flat value, the
      rent, the maintenance, the stock growth, the invested down payment, the
      yearly differential, the reinvested differentials and the net wealth
      are the same on every path, so each plotted mean is that one path. */
  lemma PathsIdenticalWithoutRandomness(prm: Params, dr: Draws)
    requires ValidInputs(prm, dr) && WithoutRandomness(prm, dr)
    ensures IdenticalRows(FlatValue(prm, dr)) && IdenticalRows(StockGrowth(prm, dr))
    ensures IdenticalRows(Differential(prm, dr)) && IdenticalRows(ReinvestedDifference(prm, dr))
    ensures IdenticalRows(BuyMinusRent(prm, dr))
    ensures IdenticalRows(RentCost(prm, dr)) && IdenticalRows(MaintCost(prm, dr))
    ensures IdenticalRows(InvestedDownpayment(prm, dr))
    ensures Outcome(prm, dr).0.rent == RentCost(prm, dr)[0]
    ensures Outcome(prm, dr).0.maintenance == MaintCost(prm, dr)[0]
    ensures Outcome(prm, dr).1.downpaymentInvested == InvestedDownpayment(prm, dr)[0]
    ensures Outcome(prm, dr).0.owningMinusRenting == Differential(prm, dr)[0]
    ensures Outcome(prm, dr).1.reinvestedDifference == ReinvestedDifference(prm, dr)[0]
    ensures Outcome(prm, dr).1.owningMinusRenting == BuyMinusRent(prm, dr)[0]
    ensures forall t :: 0 <= t < prm.horizon ==>
      Outcome(prm, dr).1.flatValue[t] == CostOfFlat * Pow(1.0 + prm.flatMean, t + 1)
  {
    FlatValueWithoutSpread(prm, dr);
    StockMarketWithoutRandomness(prm, dr);
    DifferentialRowsIdentical(prm, dr);
    ReinvestedRowsIdentical(prm, dr);
    NetWealthRowsIdentical(prm, dr);
    CostRowsIdentical(prm, dr);
    var rent, maint, invested := RentCost(prm, dr), MaintCost(prm, dr), InvestedDownpayment(prm, dr);
    MeanOfIdenticalRows(rent, rent[0]);
    MeanOfIdenticalRows(maint, maint[0]);
    MeanOfIdenticalRows(invested, invested[0]);
    var flat, diff := FlatValue(prm, dr), Differential(prm, dr);
    var reinvested, net := ReinvestedDifference(prm, dr), BuyMinusRent(prm, dr);
    MeanOfIdenticalRows(flat, flat[0]);
    MeanOfIdenticalRows(diff, diff[0]);
    MeanOfIdenticalRows(reinvested, reinvested[0]);
    MeanOfIdenticalRows(net, net[0]);
  }

  /** A purchase paid entirely out of pocket, with neither an amortised nor
      an interest-only loan, has no loan cost in any year. */
  lemma NoLoanNoCost(prm: Params, n: nat)
    requires prm.interest > 0.0 && prm.duration >= 1 && prm.paid == 0.0 && prm.neverPaid == 0.0
    ensures forall p, t :: 0 <= p < n && 0 <= t < prm.horizon ==> TotalLoanCost(prm, n)[p][t] == 0.0
  {
    LoanCostPerYear(prm, n);
    NothingBorrowedNothingPaid(prm.interest, prm.duration);
  }
}
