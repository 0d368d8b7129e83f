/** The two loan components of the purchase: an amortised ("paid") part
    repaid by fixed yearly annuity payments (the French system) over the
    loan duration, and an interest-only ("never paid") part whose principal
    is never reduced. */
module Mortgage {
  import opened Series

  lemma {:induction false} PowAboveOne(x: real, n: nat)
    requires x > 1.0 && n >= 1
    ensures Pow(x, n) > 1.0
  {
    if n > 1 {
      PowAboveOne(x, n - 1);
      var y := Pow(x, n - 1);
      assert x * y - y == (x - 1.0) * y;
      assert (x - 1.0) * y > 0.0;
    }
  }

  /** The denominator of the annuity formula, 1 - 1/(1+i)^duration, lies
      strictly between 0 and 1. */
  lemma AnnuityDenominator(i: real, duration: nat)
    requires i > 0.0 && duration >= 1
    ensures Pow(1.0 + i, duration) > 1.0
    ensures 0.0 < 1.0 - 1.0 / Pow(1.0 + i, duration) < 1.0
  {
    PowAboveOne(1.0 + i, duration);
  }

  lemma MulSubDistrib(p: real, x: real, y: real)
    ensures p * x - p * y == p * (x - y)
  {
  }

  lemma MulMonotone(p: real, a: real, b: real)
    requires p >= 0.0 && a <= b
    ensures p * a <= p * b
  {
    assert p * b - p * a == p * (b - a);
  }

  lemma DivideByFraction(a: real, d: real)
    requires 0.0 < d < 1.0
    ensures a >= 0.0 ==> a / d >= a
    ensures a > 0.0 ==> a / d > a
  {
    var r := a / d;
    assert r * d == a;
    assert r - a == r * (1.0 - d);
    if a > 0.0 { assert r > 0.0; }
    if a >= 0.0 { assert r >= 0.0; }
  }

  /** The fixed yearly payment that amortises value over duration years at
      rate i. It is more than the interest i * value alone, so each payment
      also repays principal. */
  function AnnuityPayment(i: real, value: real, duration: nat): (r: real)
    requires i > 0.0 && duration >= 1
    ensures value >= 0.0 ==> r >= i * value
    ensures value > 0.0 ==> r > i * value
  {
    AnnuityDenominator(i, duration);
    var d := 1.0 - 1.0 / Pow(1.0 + i, duration);
    DivideByFraction(value * i, d);
    value * i / d
  }

  /** With nothing borrowed, nothing is paid. */
  lemma NothingBorrowedNothingPaid(i: real, duration: nat)
    requires i > 0.0 && duration >= 1
    ensures AnnuityPayment(i, 0.0, duration) == 0.0
  {
    AnnuityDenominator(i, duration);
    var d := 1.0 - 1.0 / Pow(1.0 + i, duration);
    assert 0.0 * i / d == 0.0;
  }

  /** The amortised payment due in a given year: the annuity while the year
      is before the end of the loan, nothing afterwards. The callback
      multiplies the annuity by the truth value of year < duration. */
  function PaidCost(i: real, value: real, year: int, duration: nat): (r: real)
    requires i > 0.0 && duration >= 1
    ensures r == if year < duration then AnnuityPayment(i, value, duration) else 0.0
  {
    var due := if year < duration then 1.0 else 0.0;
    due * AnnuityPayment(i, value, duration)
  }

  /** The yearly interest on the interest-only part of the loan: the payment
      that, a year after interest at rate i is added, leaves the principal
      where it was. */
  function NeverPaidCost(i: real, value: real): (r: real)
    ensures OutstandingPrincipal(value, i, r, 1) == value
  {
    i * value
  }

  /** s pays p in each of the first duration years and nothing afterwards. */
  predicate PaysFor(s: Row, p: real, duration: nat) {
    forall t :: 0 <= t < |s| ==> s[t] == if t < duration then p else 0.0
  }

  /** The amortised payment for each year 0 .. horizon-1 (PaidCost applied
      to the year indices): the same annuity in every year of the loan and
      exactly zero from the loan duration on. */
  function PaymentSchedule(i: real, value: real, horizon: nat, duration: nat): (r: Row)
    requires i > 0.0 && duration >= 1
    ensures |r| == horizon
    ensures PaysFor(r, AnnuityPayment(i, value, duration), duration)
  {
    seq(horizon, t => PaidCost(i, value, t, duration))
  }

  /** A row that pays p for duration years has paid p * min(k, duration)
      after k years. */
  lemma {:induction false} SumPaysFor(s: Row, p: real, duration: nat, k: nat)
    requires PaysFor(s, p, duration) && k <= |s|
    ensures Sum(s[..k]) == p * Min(k, duration) as real
  {
    if k > 0 {
      SumPaysFor(s, p, duration, k - 1);
      SumTake(s, k - 1);
      if k <= duration {
        assert p * Min(k, duration) as real == p * Min(k - 1, duration) as real + p;
      }
    }
  }

  /** What has been paid in the first k years: one annuity per year, for at
      most duration years. */
  lemma PaidInFirstYears(i: real, value: real, horizon: nat, duration: nat, k: nat)
    requires i > 0.0 && duration >= 1 && k <= horizon
    ensures Sum(PaymentSchedule(i, value, horizon, duration)[..k])
         == AnnuityPayment(i, value, duration) * Min(k, duration) as real
  {
    var s, p := PaymentSchedule(i, value, horizon, duration), AnnuityPayment(i, value, duration);
    assert PaysFor(s, p, duration);
    SumPaysFor(s, p, duration, k);
  }

  /** Over the whole loan, when it ends within the horizon, the payments add
      up to duration times the annuity. */
  lemma ScheduleTotal(i: real, value: real, horizon: nat, duration: nat)
    requires i > 0.0 && 1 <= duration <= horizon
    ensures Sum(PaymentSchedule(i, value, horizon, duration)[..duration])
         == duration as real * AnnuityPayment(i, value, duration)
  {
    PaidInFirstYears(i, value, horizon, duration, duration);
  }

  /** The amortised balance the callback reports at the end of each year: the
      year-0 payment times the duration, minus the payments made so far
      (a straight-line figure, not the declining principal). */
  function RemainingBalance(paid: Row, duration: nat): (r: Row)
    requires |paid| >= 1
    ensures |r| == |paid|
  {
    var c := CumSum(paid);
    seq(|paid|, t requires 0 <= t < |paid| => paid[0] * duration as real - c[t])
  }

  /** On a row that pays p for duration years, the remaining balance after
      year t is p times the number of loan years still to come. */
  lemma RemainingOfRow(paid: Row, p: real, duration: nat, t: nat)
    requires PaysFor(paid, p, duration) && duration >= 1 && t < |paid|
    ensures RemainingBalance(paid, duration)[t] == p * (duration - Min(t + 1, duration)) as real
  {
    SumPaysFor(paid, p, duration, t + 1);
    assert CumSum(paid)[t] == p * Min(t + 1, duration) as real;
    assert paid[0] == p;
    MulSubDistrib(p, duration as real, Min(t + 1, duration) as real);
  }

  /** On the payment schedule the remaining balance after year t is the
      annuity times the number of loan years still to come. */
  lemma RemainingOfSchedule(i: real, value: real, horizon: nat, duration: nat, t: nat)
    requires i > 0.0 && duration >= 1 && t < horizon
    ensures RemainingBalance(PaymentSchedule(i, value, horizon, duration), duration)[t]
         == AnnuityPayment(i, value, duration) * (duration - Min(t + 1, duration)) as real
  {
    RemainingOfRow(PaymentSchedule(i, value, horizon, duration), AnnuityPayment(i, value, duration), duration, t);
  }

  /** When the loan ends within the horizon, the balance counts down by one
      annuity a year and is zero from the last loan year on. */
  lemma RemainingReachesZero(i: real, value: real, horizon: nat, duration: nat)
    requires i > 0.0 && 1 <= duration <= horizon
    ensures forall t :: 0 <= t < duration ==>
      RemainingBalance(PaymentSchedule(i, value, horizon, duration), duration)[t]
        == AnnuityPayment(i, value, duration) * (duration - t - 1) as real
    ensures forall t :: duration - 1 <= t < horizon ==>
      RemainingBalance(PaymentSchedule(i, value, horizon, duration), duration)[t] == 0.0
  {
    var paid := PaymentSchedule(i, value, horizon, duration);
    var p := AnnuityPayment(i, value, duration);
    forall t | 0 <= t < horizon
      ensures RemainingBalance(paid, duration)[t] == p * (duration - Min(t + 1, duration)) as real
    {
      RemainingOfRow(paid, p, duration, t);
    }
  }

  /** For a non-negative principal the balance never goes below zero and
      never grows from one year to a later one. */
  lemma RemainingNonIncreasing(i: real, value: real, horizon: nat, duration: nat)
    requires i > 0.0 && duration >= 1 && horizon >= 1 && value >= 0.0
    ensures forall t :: 0 <= t < horizon ==>
      RemainingBalance(PaymentSchedule(i, value, horizon, duration), duration)[t] >= 0.0
    ensures forall t, u :: 0 <= t <= u < horizon ==>
      RemainingBalance(PaymentSchedule(i, value, horizon, duration), duration)[u]
        <= RemainingBalance(PaymentSchedule(i, value, horizon, duration), duration)[t]
  {
    var paid := PaymentSchedule(i, value, horizon, duration);
    var p := AnnuityPayment(i, value, duration);
    assert p >= 0.0;
    RemainingRowNonIncreasing(paid, p, duration);
  }

  lemma RemainingRowNonIncreasing(paid: Row, p: real, duration: nat)
    requires PaysFor(paid, p, duration) && duration >= 1 && |paid| >= 1 && p >= 0.0
    ensures forall t :: 0 <= t < |paid| ==> RemainingBalance(paid, duration)[t] >= 0.0
    ensures forall t, u :: 0 <= t <= u < |paid| ==>
      RemainingBalance(paid, duration)[u] <= RemainingBalance(paid, duration)[t]
  {
    forall t | 0 <= t < |paid|
      ensures RemainingBalance(paid, duration)[t] >= 0.0
    {
      RemainingOfRow(paid, p, duration, t);
      MulMonotone(p, 0.0, (duration - Min(t + 1, duration)) as real);
    }
    forall t, u | 0 <= t <= u < |paid|
      ensures RemainingBalance(paid, duration)[u] <= RemainingBalance(paid, duration)[t]
    {
      RemainingPairs(paid, p, duration, t, u);
    }
  }

  lemma RemainingPairs(paid: Row, p: real, duration: nat, t: nat, u: nat)
    requires PaysFor(paid, p, duration) && duration >= 1 && t <= u < |paid| && p >= 0.0
    ensures RemainingBalance(paid, duration)[u] <= RemainingBalance(paid, duration)[t]
  {
    var later, earlier := duration - Min(u + 1, duration), duration - Min(t + 1, duration);
    assert later <= earlier;
    RemainingOfRow(paid, p, duration, t);
    RemainingOfRow(paid, p, duration, u);
    ScaledOrder(RemainingBalance(paid, duration)[u], RemainingBalance(paid, duration)[t], p, later as real, earlier as real);
  }

  lemma ScaledOrder(x: real, y: real, p: real, a: real, b: real)
    requires x == p * a && y == p * b && p >= 0.0 && a <= b
    ensures x <= y
  {
    MulMonotone(p, a, b);
  }

  /** Reference definition of a French-system loan: the principal still owed
      after k years when each year adds interest at rate i and one payment
      is made. */
  function OutstandingPrincipal(value: real, i: real, payment: real, k: nat): real {
    if k == 0 then value else OutstandingPrincipal(value, i, payment, k - 1) * (1.0 + i) - payment
  }

  lemma {:induction false} OutstandingClosedForm(value: real, i: real, payment: real, k: nat)
    ensures OutstandingPrincipal(value, i, payment, k) * i
         == value * i * Pow(1.0 + i, k) - payment * (Pow(1.0 + i, k) - 1.0)
  {
    if k == 0 {
      assert Pow(1.0 + i, 0) == 1.0;
    } else {
      OutstandingClosedForm(value, i, payment, k - 1);
      ClosedFormStep(value, i, payment, OutstandingPrincipal(value, i, payment, k - 1), Pow(1.0 + i, k - 1),
                     OutstandingPrincipal(value, i, payment, k), Pow(1.0 + i, k));
    }
  }

  lemma ClosedFormStep(value: real, i: real, payment: real, b: real, q: real, next: real, qNext: real)
    requires b * i == value * i * q - payment * (q - 1.0)
    requires next == b * (1.0 + i) - payment && qNext == (1.0 + i) * q
    ensures next * i == value * i * qNext - payment * (qNext - 1.0)
  {
    calc {
      next * i;
      (b * (1.0 + i) - payment) * i;
      (b * i) * (1.0 + i) - payment * i;
      (value * i * q - payment * (q - 1.0)) * (1.0 + i) - payment * i;
      value * i * ((1.0 + i) * q) - payment * ((1.0 + i) * q - 1.0);
    }
  }

  /** Paying only the interest, year after year, never reduces the
      principal: the interest-only part is owed in full after any number of
      years. */
  lemma {:induction false} InterestOnlyKeepsPrincipal(value: real, i: real, k: nat)
    ensures OutstandingPrincipal(value, i, NeverPaidCost(i, value), k) == value
  {
    if k > 0 {
      InterestOnlyKeepsPrincipal(value, i, k - 1);
    }
  }

  /** The annuity payment is the one that clears the loan: paying it every
      year for duration years leaves no principal owed. */
  lemma AnnuityClearsLoan(i: real, value: real, duration: nat)
    requires i > 0.0 && duration >= 1
    ensures OutstandingPrincipal(value, i, AnnuityPayment(i, value, duration), duration) == 0.0
  {
    var p := AnnuityPayment(i, value, duration);
    var q := Pow(1.0 + i, duration);
    AnnuityDenominator(i, duration);
    PowAboveOne(1.0 + i, duration);
    var d := 1.0 - 1.0 / q;
    assert p * d == value * i;
    assert p * (q - 1.0) == p * d * q;
    OutstandingClosedForm(value, i, p, duration);
    var b := OutstandingPrincipal(value, i, p, duration);
    assert b * i == 0.0;
  }
}
