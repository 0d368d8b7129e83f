/** The yearly cash flows of owning against renting, entry by entry over the
    N-by-horizon matrices: rent, maintenance, total loan cost, their
    differential, the invested down payment and the net wealth of buying
    rather than renting. */
module CashFlow {
  import opened Series

  /** The rent of an equivalent home: the property value divided by the
      price-to-rent ratio, so that rent times the ratio gives back the value. */
  function Rent(flat: Matrix, rentToCost: real): (r: Matrix)
    requires rentToCost != 0.0
    ensures SameShape(r, flat)
    ensures forall p, t :: 0 <= p < |flat| && 0 <= t < |flat[p]| ==> r[p][t] * rentToCost == flat[p][t]
  {
    seq(|flat|, p requires 0 <= p < |flat| =>
      seq(|flat[p]|, t requires 0 <= t < |flat[p]| => flat[p][t] / rentToCost))
  }

  /** A higher price-to-rent ratio means a lower rent for every positive
      property value. */
  lemma RentFallsWithRatio(flat: Matrix, low: real, high: real)
    requires 0.0 < low < high
    ensures forall p, t :: 0 <= p < |flat| && 0 <= t < |flat[p]| && flat[p][t] > 0.0 ==>
      Rent(flat, high)[p][t] < Rent(flat, low)[p][t]
  {
    forall p, t | 0 <= p < |flat| && 0 <= t < |flat[p]| && flat[p][t] > 0.0
      ensures Rent(flat, high)[p][t] < Rent(flat, low)[p][t]
    {
      DivisionFalls(flat[p][t], low, high);
    }
  }

  lemma DivisionFalls(x: real, low: real, high: real)
    requires x > 0.0 && 0.0 < low < high
    ensures x / high < x / low
  {
    var a, b := x / high, x / low;
    assert a * high == x == b * low;
    assert a * high < b * high;
  }

  /** The yearly maintenance: a fixed fraction of the property value. It is
      never negative for a non-negative rate and value. */
  function Maintenance(flat: Matrix, rate: real): (m: Matrix)
    ensures SameShape(m, flat)
    ensures forall p, t :: 0 <= p < |flat| && 0 <= t < |flat[p]| && rate >= 0.0 && flat[p][t] >= 0.0 ==>
      m[p][t] >= 0.0
  {
    seq(|flat|, p requires 0 <= p < |flat| =>
      seq(|flat[p]|, t requires 0 <= t < |flat[p]| => flat[p][t] * rate))
  }

  /** The total loan cost of each (path, year): the interest-only cost, the
      same in every year, plus that year's amortised payment. */
  function LoanCost(interestOnly: real, paid: Matrix): (l: Matrix)
    ensures SameShape(l, paid)
  {
    seq(|paid|, p requires 0 <= p < |paid| =>
      seq(|paid[p]|, t requires 0 <= t < |paid[p]| => interestOnly + paid[p][t]))
  }

  /** What owning costs more than renting in each (path, year): loan plus
      maintenance minus rent. */
  function AnnualDifferential(loan: Matrix, maint: Matrix, rent: Matrix): (d: Matrix)
    requires SameShape(loan, maint) && SameShape(loan, rent)
    ensures SameShape(d, loan)
  {
    seq(|loan|, p requires 0 <= p < |loan| =>
      seq(|loan[p]|, t requires 0 <= t < |loan[p]| => loan[p][t] + maint[p][t] - rent[p][t]))
  }

  /** The down payment, had it been invested in the stock market instead:
      its amount grown by each path's stock growth factor. Where the growth
      factor is 1 it is the down payment itself, and where the market has
      grown it is at least the down payment. */
  function DownpaymentInvested(price: real, growth: Matrix, outOfPocket: real): (v: Matrix)
    ensures SameShape(v, growth)
    ensures forall p, t :: 0 <= p < |growth| && 0 <= t < |growth[p]| && growth[p][t] == 1.0 ==>
      v[p][t] == price * outOfPocket
    ensures forall p, t :: 0 <= p < |growth| && 0 <= t < |growth[p]| && price * outOfPocket >= 0.0 && growth[p][t] >= 1.0 ==>
      v[p][t] >= price * outOfPocket
  {
    seq(|growth|, p requires 0 <= p < |growth| =>
      seq(|growth[p]|, t requires 0 <= t < |growth[p]| => price * growth[p][t] * outOfPocket))
  }

  /** Net wealth of buying rather than renting: the property value less the
      interest-only principal, the remaining amortised balance, the invested
      down payment and the reinvested differentials. */
  function NetWealth(flat: Matrix, neverPrincipal: real, remaining: Matrix,
                     invested: Matrix, reinvested: Matrix): (w: Matrix)
    requires SameShape(flat, remaining) && SameShape(flat, invested) && SameShape(flat, reinvested)
    ensures SameShape(w, flat)
  {
    seq(|flat|, p requires 0 <= p < |flat| =>
      seq(|flat[p]|, t requires 0 <= t < |flat[p]| =>
        flat[p][t] - neverPrincipal - remaining[p][t] - invested[p][t] - reinvested[p][t]))
  }
}
