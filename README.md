# Buy-versus-rent Monte Carlo: a Dafny model of the accounting core

The application is a small dashboard. It compares buying a flat with renting one.
- **Inputs:** fifteen sliders (price-to-rent ratio, maintenance rate, horizon, down payment, loan split, interest, and the return distributions of the flat and the stock market).
- **What it does:** it simulates N paths of a horizon of years and plots the per-year means of the costs and returns of owning against renting.

This project models the deterministic accounting core of its callback `update_plots` (`src/app.py`). The random samples are inputs to the model: standard-normal matrices for the flat returns and the two stock regimes, and a uniform matrix for the good-year flags.

The core, module by module:

- **Series:** rows, N-by-horizon matrices, and numpy's running sum and running product along a row.
- **Mortgage:** the loan.
  - The interest-only part pays `interest × principal` every year.
  - The amortised part pays the French-system annuity `value·i / (1 − (1+i)^−duration)` in every year before the end of the loan, and 0 afterwards.
  - The remaining amortised balance. The source computes this as a straight line (`payment[0]·duration − cumulative payments`), which counts the interest still to be paid as debt. The model keeps that formula. For comparison, it also gives a reference declining-principal recurrence, and proves that the annuity clears it exactly.
- **Returns:**
  - normal returns from standard-normal draws;
  - the two-regime stock returns, written as the source writes them (`flag·good + (1 − flag)·bad`);
  - compounding into the property value and the stock growth factor.
- **CashFlow:** rent, maintenance, total loan cost, the owning-minus-renting differential, the invested down payment, and net wealth.
- **Reinvestment:** the per-path reinvested differential.
  - The source builds this as the row sums of a masked lower-triangular matrix. It fills an N-by-horizon array of ones row by row, in a loop; the model does the same on an `array2`.
  - The model proves that this equals the closed form `V[t] = Σ_{s≤t} diff[s]·g[t]/g[s]`, and that it obeys the one-step recurrence.
- **Summary:** the column means (numpy's `mean(axis=0)`) that become the plotted series, and how they distribute over sums.
- **Simulation:**
  - the parameter record, the draws, and the two groups of series ("Costs Over Time" and "Returns Over Time");
  - the whole pipeline as a function (`Outcome`);
  - the callback as a method (`UpdatePlots`), which runs the array loop and produces exactly `Outcome`.

The source has no validation step of its own. The model's preconditions assume:
- a positive interest rate, which the slider's range guarantees (`src/app.py:38`);
- a loan of at least one year (`src/app.py:35`);
- a non-zero price-to-rent ratio (`src/app.py:17`);
- at least one path and one year (the fixed path count, and `src/app.py:23`);
- no stock return of exactly −100%. Line 155 divides by every growth factor, including those above the diagonal.

The slider ranges and the fixed path count guarantee the first four; the last holds for the sampled returns with probability one. Some of these are stronger than the formulas need: see "Non-positive interest rates" under "## Left out".

## Model

The Simulation functions FlatValue (line 142), RentCost (143), MaintCost (147), Differential (148), StockGrowth (149), InvestedDownpayment (150), ReinvestedDifference (153-155) and BuyMinusRent (157) have no row of their own. Each is the matching CashFlow, Returns or Reinvestment member applied to the callback's parameters, giving the callback's matrix of that name; the rows of those members and the Simulation lemmas below state their properties.

| member | source | states |
|---|---|---|
| Mortgage.AnnuityPayment | src/app.py:103-105 | for a non-negative principal the annuity is at least the interest on it, and for a positive principal it is strictly more, so each payment also repays principal |
| Mortgage.AnnuityClearsLoan | src/app.py:103-105 | paying the annuity every year for the loan's duration leaves no principal owed, under the declining-balance recurrence with interest added each year |
| Mortgage.OutstandingClosedForm | src/app.py:103-105 | closed form of the principal still owed after k annual payments: `B_k·i = value·i·(1+i)^k − payment·((1+i)^k − 1)` |
| Mortgage.NothingBorrowedNothingPaid | src/app.py:105 | the annuity on a zero principal is zero |
| Mortgage.NeverPaidCost | src/app.py:107-108 | the interest-only payment is the one that leaves the principal unchanged after a year of interest |
| Mortgage.InterestOnlyKeepsPrincipal | src/app.py:107-108 | paying only the interest every year leaves the principal owed in full after any number of years, under the declining-balance recurrence |
| Mortgage.PaidCost | src/app.py:103-105 | the payment due in a year is the annuity when the year is before the loan's end and exactly 0 from the loan's end on |
| Mortgage.PaymentSchedule | src/app.py:144 | the schedule has one entry per year: the same annuity in every loan year and 0 in every later year |
| Mortgage.SumPaysFor | src/app.py:144 | a row that pays p for the first duration years has paid p·min(k, duration) after k years |
| Mortgage.PaidInFirstYears | src/app.py:144 | after k years the schedule has paid the annuity times min(k, duration) |
| Mortgage.ScheduleTotal | src/app.py:144 | when the loan ends within the horizon, its payments add up to duration × annuity |
| Mortgage.RemainingBalance | src/app.py:146 | the balance has one entry per year; Mortgage.RemainingOfRow gives its values |
| Mortgage.RemainingOfRow | src/app.py:146 | on a row paying p while the loan runs, the balance after year t is p times the loan years still to come, duration − min(t+1, duration) |
| Mortgage.RemainingOfSchedule | src/app.py:144-146 | the source's balance after year t is the annuity times the loan years still to come |
| Mortgage.RemainingReachesZero | src/app.py:144-146 | when duration ≤ horizon, the balance is annuity × (duration − t − 1) for t < duration, and 0 for every t ≥ duration − 1 |
| Mortgage.RemainingNonIncreasing | src/app.py:144-146 | with i > 0 and a non-negative principal, the balance is never negative and never grows from one year to a later one |
| Mortgage.RemainingRowNonIncreasing | src/app.py:146 | on a row paying a non-negative p while the loan runs, the balance is non-negative and non-increasing |
| Mortgage.RemainingPairs | src/app.py:146 | for t ≤ u the balance at u is not above the balance at t |
| Series.CumSumStep | src/app.py:146 | each running-sum entry is the previous entry plus this year's term, and the first entry is the first term |
| Series.CumProdStep | src/app.py:142 | each running-product entry is the previous entry times this year's factor, and the first entry is the first factor |
| Series.CumProdNonZero | src/app.py:149 | a running product of non-zero factors has no zero entry |
| Series.Broadcast | src/app.py:144 | the entry-by-entry product of an n-row matrix of ones with a row (`np.ones((n, h)) * row`) has n rows, each equal to the row itself |
| Series.CumSum | src/app.py:146 | the running sum has one entry per year; Series.CumSumStep gives its values |
| Series.CumProd | src/app.py:142 | the running product has one entry per year; Series.CumProdStep gives its values |
| Series.ProdOfConstant | src/app.py:142 | a product of k equal factors c is c to the power k |
| Returns.NormalDraws | src/app.py:113-114 | the scaled draws keep the shape of the standard-normal matrix; Returns.DrawsWithoutSpread gives their values without spread |
| Returns.DrawsWithoutSpread | src/app.py:113-114 | with zero spread every drawn return is the mean, for the stock regimes here and for the flat draw inlined at line 142 |
| Returns.IdenticalPathsWithoutSpread | src/app.py:113-114 | with zero spread every path has the same row of returns, whatever the samples were; the same holds for the flat draw at line 142 |
| Returns.GoodYearFlags | src/app.py:112 | one flag per uniform sample; Returns.FlagsAtCertainty gives the flags at probability 0 and 1 |
| Returns.FlagsAtCertainty | src/app.py:112 | for samples in [0, 1), probability 1 flags every year good and probability 0 flags every year bad |
| Returns.RegimeReturns | src/app.py:116 | each stock return is the good-regime return when its flag is true and the bad-regime return otherwise |
| Returns.SingleRegime | src/app.py:116 | all flags true gives exactly the good-regime matrix; all flags false gives exactly the bad-regime matrix |
| Returns.StockReturns | src/app.py:110-116 | the two-regime returns have the shape of the draws; Returns.RegimeReturns gives each entry |
| Returns.GrowthCompounds | src/app.py:149 | the stock growth at year t is the product of (1 + return) over years 0..t, and it satisfies g[t] = g[t−1]·(1 + r[t]) |
| Returns.Growth | src/app.py:149 | the growth matrix has the shape of the returns; Returns.GrowthCompounds gives its values |
| Returns.GrowthOfConstantReturns | src/app.py:149 | constant yearly returns c give growth (1 + c) to the power t + 1 at year t on every path |
| Returns.PropertyValue | src/app.py:142 | the flat-value matrix has the shape of the returns; Returns.PropertyValueCompounds gives its values |
| Returns.PropertyValueOfConstantReturns | src/app.py:142 | constant yearly returns c give the flat value price × (1 + c) to the power t + 1 at year t on every path |
| Returns.GrowthNonZero | src/app.py:149 | with no return of exactly −100%, no growth factor is zero |
| Returns.PropertyValueCompounds | src/app.py:142 | the flat value at year t is the price times the product of (1 + return) over years 0..t, and each year multiplies the previous value by (1 + r[t]) |
| CashFlow.Rent | src/app.py:143 | rent times the price-to-rent ratio gives back the flat value, entry by entry |
| CashFlow.RentFallsWithRatio | src/app.py:143 | for a positive flat value, a higher price-to-rent ratio gives a strictly lower rent |
| CashFlow.Maintenance | src/app.py:147 | maintenance is never negative for a non-negative rate and value |
| CashFlow.LoanCost | src/app.py:145 | the loan-cost matrix has the shape of the payments; Simulation.LoanCostPerYear gives its values |
| CashFlow.DownpaymentInvested | src/app.py:150 | a path with growth factor 1 holds exactly the down payment, and a path whose market has grown holds at least a non-negative down payment |
| CashFlow.AnnualDifferential | src/app.py:148 | the differential has the shape of the loan-cost matrix |
| CashFlow.NetWealth | src/app.py:157 | net wealth has the shape of the flat-value matrix |
| Reinvestment.TrilRowSumBelow | src/app.py:155 | the first k entries of the masked row t sum to the closed form over the years s < min(k, t+1); the entries above the diagonal contribute nothing |
| Reinvestment.TrilRowIsReinvestedValue | src/app.py:155 | the masked row sum at year t equals Σ_{s≤t} diff[s]·g[t]/g[s] |
| Reinvestment.CompoundedFactors | src/app.py:155 | the compounded sum is g[t] times the sum of the differentials discounted by their own year's growth |
| Reinvestment.ReinvestedRecurrence | src/app.py:155 | V[0] = diff[0], and V[t] = V[t−1]·g[t]/g[t−1] + diff[t] |
| Reinvestment.ReinvestedExample | src/app.py:155 | for diff = [10, −5, 2] and g = [1, 1.1, 1.21], both the masked row sum and the closed form give 8.6 at the third year |
| Reinvestment.TrilRow | src/app.py:155 | the masked row sums have one entry per year; Reinvestment.TrilRowIsReinvestedValue gives their values |
| Reinvestment.Reinvested | src/app.py:153-155 | the reinvested matrix is N-by-horizon; its entries are the closed form that Reinvestment.TrilRowIsReinvestedValue equates with the masked row sums |
| Reinvestment.ReinvestPaths | src/app.py:153-155 | the loop returns a fresh N-by-horizon array whose every entry, in every row, is the closed-form reinvested value, so none of the initial ones survives |
| Reinvestment.ReinvestAndReadBack | src/app.py:153-157 | the array the loop writes, read back path by path for line 157, is exactly the closed-form reinvested matrix |
| Summary.ColumnMeans | src/app.py:160-173 | a mean series has one entry per year; the Summary.Mean lemmas below give its values |
| Summary.ColSumOfIdenticalRows | src/app.py:160-173 | a column over k identical rows sums to k times that row's entry |
| Summary.MeanOfIdenticalRows | src/app.py:162 | when every path is the same row, the mean series is that row |
| Summary.ColSumOfDifferential | src/app.py:160-163 | column sums distribute over a + b − c |
| Summary.MeanOfDifferential | src/app.py:160-163 | the mean of a + b − c is the mean of a plus the mean of b minus the mean of c |
| Summary.ColSumOfNetWealth | src/app.py:169-173 | column sums distribute over f − k0 − r − e − v |
| Summary.MeanOfNetWealth | src/app.py:169-173 | the mean of f − k0 − r − e − v is the mean of f minus k0 minus the means of r, e and v |
| Summary.ColSumBelow | src/app.py:160 | a column that lies below another in every row has a smaller sum |
| Summary.MeanBelow | src/app.py:160 | a matrix below another in every entry has a mean series below the other's in every year |
| Simulation.StockMarket | src/app.py:149 | the batch's stock returns form an N-by-horizon matrix; Returns.RegimeReturns gives each entry |
| Simulation.PaidRepayment | src/app.py:144 | the amortised payments form an N-by-horizon matrix; each row is Mortgage.PaymentSchedule |
| Simulation.PaidRemaining | src/app.py:146 | the remaining balances form an N-by-horizon matrix; Simulation.TotalDebtSeries gives their mean |
| Simulation.TotalLoanCost | src/app.py:145 | the total loan costs form an N-by-horizon matrix; Simulation.LoanCostPerYear gives each entry |
| Simulation.GrowthIsReinvestable | src/app.py:149-155 | the batch's differentials and stock growth meet what the triangular sum needs: the right shape and no zero growth factor |
| Simulation.TotalDebt | src/app.py:170 | the Total Debt series has one entry per year; Simulation.TotalDebtSeries gives its values |
| Simulation.Outcome | src/app.py:142-173 | each of the nine plotted series has one entry per year of the horizon; the Simulation lemmas below give their values |
| Simulation.UpdatePlots | src/app.py:142-173 | the callback's pipeline, including the row-by-row array loop, gives exactly the series of Outcome |
| Simulation.LoanCostPerYear | src/app.py:144-145 | every path's total loan cost in year t is i × interest-only principal, plus the annuity while t < duration and 0 afterwards |
| Simulation.LoanSeries | src/app.py:162 | the plotted Loan series is that same per-year cost |
| Simulation.TotalDebtSeries | src/app.py:170 | Total Debt is the interest-only principal plus annuity × (duration − min(t+1, duration)); when the loan ends within the horizon it falls to the interest-only principal from the last loan year on |
| Simulation.CostsAddUp | src/app.py:160-163 | the plotted Owning minus Renting cost is Loan + Maintenance − Rent in every year |
| Simulation.ReturnsAddUp | src/app.py:169-173 | the plotted Owning minus Renting wealth is Flat Value − Total Debt − Return if Downpayment Invested − Return on Difference in every year |
| Simulation.NoLoanNoCost | src/app.py:144-145 | with neither an amortised nor an interest-only loan, the total loan cost is zero on every path in every year |
| Simulation.FlatValueWithoutSpread | src/app.py:142 | with zero flat-return spread, every path's flat value at year t is the price × (1 + mean) to the power t + 1, so all flat-value paths are identical |
| Simulation.StockMarketWithoutRandomness | src/app.py:112-116 | with zero spreads and a good-year probability of 0 or 1, every path's stock return in every year is the certain regime's mean, and its growth at year t is (1 + mean) to the power t + 1 |
| Simulation.DifferentialRowsIdentical | src/app.py:148 | paths with the same flat value have the same yearly differential |
| Simulation.ReinvestedRowsIdentical | src/app.py:153-155 | paths with the same differential and stock growth have the same reinvested differentials |
| Simulation.NetWealthRowsIdentical | src/app.py:157 | paths with the same flat value, stock growth and reinvested differentials have the same net wealth |
| Simulation.CostRowsIdentical | src/app.py:143-150 | paths with the same flat value and stock growth have the same rent, maintenance and invested down payment |
| Simulation.PathsIdenticalWithoutRandomness | src/app.py:142-173 | without randomness all paths of a batch coincide in flat value, rent, maintenance, growth, invested down payment, differential, reinvested differentials and net wealth, and the plotted rent, maintenance, down payment, differential, reinvested and wealth means are that one path, the flat value being price × (1 + mean) to the power t + 1 |
| Simulation.RentSeriesFalls | src/app.py:160 | for the same draws and positive flat values, raising the price-to-rent ratio lowers the mean rent of every year |

## Left out

- The Dash application, its layout and sliders, the callback wiring and the server start (`src/app.py:1-93`, `181-182`). They are user interface and server plumbing.
- Figure construction and styling with plotly (`src/app.py:159-178`). Only the column means that feed the traces are modelled.
- Random number generation (`np.random.rand` and `np.random.randn`). The samples are inputs (`Simulation.Draws`), and no property of their distributions is claimed.
- Floating-point rounding, NaN and infinity. Values are mathematical reals, under the preconditions above.
- The fixed 10,000 paths. The model works for any N ≥ 1.
- The unused `durations=15` parameter of `calculate_paid_cost`. Its body reads the enclosing `duration`, which equals the value the callback passes. `Mortgage.PaidCost` takes the loan duration directly.
- The integer price 1,000,000 is modelled as a real constant (`Simulation.CostOfFlat`). In the source every product with it is already a float.
- Input validation. The source has no validation step. The preconditions horizon ≥ 1 and N ≥ 1 (`Simulation.Shaped`, `Mortgage.RemainingBalance`) exclude an error path of the source: with a zero horizon, `paid_loan_repayment[:, 0]` at line 146 indexes an empty array and raises an IndexError. A negative horizon or path count makes the array constructors at lines 142 and 144 raise a ValueError. The model does not represent these errors. The excluded zero duration, zero ratio and −100% stock year raise nothing in the source: numpy warns and produces NaN or infinity, which the model leaves out with floating point. Interest rates are covered on the next line.
- Non-positive interest rates: `Mortgage.AnnuityPayment` and `Simulation.ValidInputs` require i > 0. The source returns finite payments for −1 < i < 0 at line 105. For i = −1 it raises a ZeroDivisionError there, because `1/((1 + i)**duration)` is plain Python float division. For i = 0 the denominator is 0.0, and dividing the numpy array at line 144 by it gives NaN with a warning. The model represents none of these cases.
- `simulate_house_return` (`src/app.py:118-119`) is defined but never called. Line 142 inlines the same draw, and `Returns.NormalDraws` models it there.
- Mortgage.PaidCost: it computes flag × (value·i / d) where the source computes ((flag·value)·i) / d. The two are equal over the reals and differ only in floating-point rounding.
- Mortgage.RemainingReachesZero: it assumes duration ≤ horizon. The source allows a loan longer than the horizon; the balance is then still given exactly by Mortgage.RemainingOfSchedule, but never reaches zero within the horizon.
- CashFlow.AnnualDifferential, CashFlow.NetWealth: their own contracts state only the shape. The entry-by-entry formulas are carried to the plotted series by Simulation.CostsAddUp and Simulation.ReturnsAddUp.
