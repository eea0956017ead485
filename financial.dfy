/**
 * The financial formulas: loan payment, compound and simple interest,
 * future and present value, return on investment, two depreciation
 * schedules, annuities, break-even and net present value.
 *
 * Numbers are exact reals and every exponent is an integer. A result is
 * `None` exactly when the JavaScript computation leaves the finite numbers:
 * a division by zero, or zero raised to a negative power, whose Infinity or
 * NaN then reaches the returned value.
 */
module Financial {
  import opened Wrappers

  // ---------------------------------------------------------------------
  // Powers and division
  // ---------------------------------------------------------------------

  function Pow(x: real, n: nat): (p: real)
  {
    if n == 0 then 1.0 else x * Pow(x, n - 1)
  }

  lemma {:induction false} PowOfOne(n: nat)
    ensures Pow(1.0, n) == 1.0
  {
    if n > 0 {
      PowOfOne(n - 1);
    }
  }

  lemma {:induction false} PowPositive(x: real, n: nat)
    requires x > 0.0
    ensures Pow(x, n) > 0.0
  {
    if n > 0 {
      PowPositive(x, n - 1);
    }
  }

  lemma {:induction false} PowNonzero(x: real, n: nat)
    requires x != 0.0
    ensures Pow(x, n) != 0.0
  {
    if n > 0 {
      PowNonzero(x, n - 1);
    }
  }

  /** Bernoulli's inequality: (1 + m)^n ≥ 1 + n·m for m > 0, strictly from n = 2 on. */
  lemma {:induction false} Bernoulli(m: real, n: nat)
    requires m > 0.0
    ensures Pow(1.0 + m, n) >= 1.0 + n as real * m
    ensures n >= 2 ==> Pow(1.0 + m, n) > 1.0 + n as real * m
  {
    if n > 0 {
      Bernoulli(m, n - 1);
      assert Pow(1.0 + m, n) == (1.0 + m) * Pow(1.0 + m, n - 1);
      BernoulliStep(m, (n - 1) as real, Pow(1.0 + m, n - 1));
    }
  }

  /** One step of Bernoulli's inequality: p ≥ 1 + k·m gives (1 + m)·p ≥ 1 + (k + 1)·m, strictly when k ≥ 1. */
  lemma BernoulliStep(m: real, k: real, p: real)
    requires m > 0.0 && k >= 0.0 && p >= 1.0 + k * m
    ensures (1.0 + m) * p >= 1.0 + (k + 1.0) * m
    ensures k >= 1.0 ==> (1.0 + m) * p > 1.0 + (k + 1.0) * m
  {
    MulAtLeast(1.0 + m, p, 1.0 + k * m);
    assert (1.0 + m) * (1.0 + k * m) == 1.0 + (k + 1.0) * m + (k * m) * m;
    if k > 0.0 {
      PositiveProduct(k * m, m);
    }
  }

  lemma PositiveProduct(a: real, b: real)
    requires a > 0.0 && b > 0.0
    ensures a * b > 0.0
  {
  }

  /** a·x ≥ a·y for a > 0 and x ≥ y. */
  lemma MulAtLeast(a: real, x: real, y: real)
    requires a > 0.0 && x >= y
    ensures a * x >= a * y
  {
    assert a * x - a * y == a * (x - y);
  }

  /** A base above 1 raised to a positive power is above 1. */
  lemma PowAboveOne(x: real, n: nat)
    requires x > 1.0 && n >= 1
    ensures Pow(x, n) > 1.0
  {
    Bernoulli(x - 1.0, n);
    assert n as real * (x - 1.0) > 0.0;
  }

  /** A base between 0 and 1 raised to a positive power stays between 0 and 1. */
  lemma {:induction false} PowBelowOne(x: real, n: nat)
    requires 0.0 < x < 1.0 && n >= 1
    ensures 0.0 < Pow(x, n) < 1.0
  {
    if n > 1 {
      PowBelowOne(x, n - 1);
      var p := Pow(x, n - 1);
      assert x * p < p;
    }
  }

  /** Raising to a positive power keeps the strict order of positive bases. */
  lemma {:induction false} PowMonotone(a: real, b: real, n: nat)
    requires 0.0 < a < b && n >= 1
    ensures Pow(a, n) < Pow(b, n)
  {
    if n > 1 {
      PowMonotone(a, b, n - 1);
      PowPositive(a, n - 1);
      var p, q := Pow(a, n - 1), Pow(b, n - 1);
      assert a * p < b * p;
      assert b * p < b * q;
    }
  }

  /** x^(i + j) = x^i · x^j. */
  lemma {:induction false} PowAdd(x: real, i: nat, j: nat)
    ensures Pow(x, i + j) == Pow(x, i) * Pow(x, j)
  {
    if j > 0 {
      PowAdd(x, i, j - 1);
      assert Pow(x, i + j) == x * Pow(x, i + j - 1);
    }
  }

  /** x^(i·j) = (x^i)^j. */
  lemma {:induction false} PowMul(x: real, i: nat, j: nat)
    ensures Pow(x, i * j) == Pow(Pow(x, i), j)
  {
    if j > 0 {
      var a: nat := i * (j - 1);
      assert i * j == a + i;
      PowMul(x, i, j - 1);
      PowAdd(x, a, i);
      calc {
        Pow(x, i * j);
        Pow(x, a + i);
        Pow(x, a) * Pow(x, i);
        Pow(Pow(x, i), j - 1) * Pow(x, i);
        Pow(x, i) * Pow(Pow(x, i), j - 1);
        Pow(Pow(x, i), j);
      }
    }
  }

  /** The powers of reciprocal numbers are reciprocal. */
  lemma {:induction false} PowOfReciprocal(v: real, x: real, n: nat)
    requires v * x == 1.0
    ensures Pow(v, n) * Pow(x, n) == 1.0
  {
    if n > 0 {
      PowOfReciprocal(v, x, n - 1);
      var p, q := Pow(v, n - 1), Pow(x, n - 1);
      assert (v * p) * (x * q) == (v * x) * (p * q);
    }
  }

  /** v + v^2 + … + v^n: with v = 1/(1 + m), the value of n payments of 1, each discounted at m per period. */
  function Geometric(v: real, n: nat): real {
    if n == 0 then 0.0 else Geometric(v, n - 1) + Pow(v, n)
  }

  /** The closed form of the discounted sum: m·(v + … + v^n) = 1 − v^n when v·(1 + m) = 1. */
  lemma {:induction false} GeometricClosed(v: real, m: real, n: nat)
    requires v * (1.0 + m) == 1.0
    ensures Geometric(v, n) * m == 1.0 - Pow(v, n)
  {
    if n > 0 {
      GeometricClosed(v, m, n - 1);
      var p := Pow(v, n - 1);
      assert v * m == 1.0 - v;
      assert Geometric(v, n) * m == (1.0 - p) + p * (v * m);
    }
  }

  /** n discount factors between 0 and 1 sum to a value between 0 and n. */
  lemma {:induction false} GeometricBelow(v: real, n: nat)
    requires 0.0 < v < 1.0 && n >= 1
    ensures 0.0 < Geometric(v, n) < n as real
  {
    PowBelowOne(v, n);
    if n > 1 {
      GeometricBelow(v, n - 1);
    }
  }

  /** The sum grows strictly with the discount factor. */
  lemma {:induction false} GeometricMonotone(v1: real, v2: real, n: nat)
    requires 0.0 < v1 < v2 && n >= 1
    ensures Geometric(v1, n) < Geometric(v2, n)
  {
    PowMonotone(v1, v2, n);
    if n > 1 {
      GeometricMonotone(v1, v2, n - 1);
    }
  }

  /** The discount factor 1/(1 + m) of a positive rate lies strictly between 0 and 1. */
  lemma DiscountFactor(m: real)
    requires m > 0.0
    ensures 0.0 < 1.0 / (1.0 + m) < 1.0
    ensures (1.0 / (1.0 + m)) * (1.0 + m) == 1.0
  {
  }

  /** For m > 0 and n ≥ 1: 0 < (1 − (1 + m)^−n)/m < n, the present value of n payments of 1. */
  lemma DiscountedTotalBelow(m: real, n: nat)
    requires m > 0.0 && n >= 1
    ensures Pow(1.0 + m, n) > 1.0
    ensures 0.0 < (1.0 - 1.0 / Pow(1.0 + m, n)) / m < n as real
  {
    PowAboveOne(1.0 + m, n);
    var v := 1.0 / (1.0 + m);
    DiscountFactor(m);
    PowOfReciprocal(v, 1.0 + m, n);
    GeometricClosed(v, m, n);
    GeometricBelow(v, n);
    var q := Pow(1.0 + m, n);
    ReciprocalOfProduct(Pow(v, n), q);
    QuotientOfProduct(Geometric(v, n), m, 1.0 - Pow(v, n));
  }

  /** p·q = 1 makes p the reciprocal 1/q. */
  lemma ReciprocalOfProduct(p: real, q: real)
    requires p * q == 1.0
    ensures q != 0.0 && p == 1.0 / q
  {
  }

  /** g·m = d makes g the quotient d/m. */
  lemma QuotientOfProduct(g: real, m: real, d: real)
    requires m != 0.0 && g * m == d
    ensures g == d / m
  {
  }

  /** For m > 0 and n ≥ 2: ((1 + m)^n − 1)/m > n, the future value of n payments of 1. */
  lemma GrownTotalAbove(m: real, n: nat)
    requires m > 0.0 && n >= 2
    ensures (Pow(1.0 + m, n) - 1.0) / m > n as real
  {
    Bernoulli(m, n);
    var q := Pow(1.0 + m, n);
    assert q - 1.0 > n as real * m;
    assert (q - 1.0) / m > (n as real * m) / m;
  }

  /** a/b > 0 for positive a and b. */
  lemma PositiveQuotient(a: real, b: real)
    requires a > 0.0 && b > 0.0
    ensures a / b > 0.0
  {
  }

  /** A natural power is zero exactly when a zero base is raised to a positive power. */
  lemma PowIsZero(x: real, n: nat)
    ensures Pow(x, n) == 0.0 <==> x == 0.0 && n > 0
  {
    if x != 0.0 {
      PowNonzero(x, n);
    }
  }

  /** `Math.pow(x, n)` for an integer n; `None` for zero to a negative power, which is Infinity. */
  function PowInt(x: real, n: int): (p: Option<real>)
    ensures p.None? <==> x == 0.0 && n < 0
    ensures n >= 0 ==> p == Some(Pow(x, n))
    ensures p.Some? ==> (p.value == 0.0 <==> x == 0.0 && n > 0)
  {
    if n >= 0 then
      PowIsZero(x, n);
      Some(Pow(x, n))
    else if x == 0.0 then None
    else
      PowNonzero(x, -n);
      Some(1.0 / Pow(x, -n))
  }

  /** `a / b`, which is not finite when b is 0. */
  function Div(a: real, b: real): (q: Option<real>)
    ensures q.None? <==> b == 0.0
    ensures q.Some? ==> q.value * b == a
  {
    if b == 0.0 then None else Some(a / b)
  }

  // ---------------------------------------------------------------------
  // The formulas
  // ---------------------------------------------------------------------

  /** The monthly rate r/100/12 of an annual percentage. */
  function MonthlyRate(annualRate: real): real {
    annualRate / 100.0 / 12.0
  }

  /** The level monthly payment that repays the principal over years·12 months. */
  function CalculateLoanPayment(principal: real, annualRate: real, years: int): (r: Option<real>)
    ensures MonthlyRate(annualRate) == 0.0 ==>
              (r.Some? <==> years != 0) && (r.Some? ==> r.value * (years * 12) as real == principal)
  {
    var monthlyRate := MonthlyRate(annualRate);
    var numberOfPayments := years * 12;
    if monthlyRate == 0.0 then Div(principal, numberOfPayments as real)
    else
      match PowInt(1.0 + monthlyRate, numberOfPayments)
      case None => None
      case Some(q) => Div(principal * monthlyRate * q, q - 1.0)
  }

  /** The principal grown by `1 + r/f` per period over f·years periods; f = 0 makes the power `x^0`, which is 1. */
  function CalculateFutureValue(principal: real, annualRate: real, years: int, compoundingFrequency: int := 12): (v: Option<real>)
    ensures v.None? <==> compoundingFrequency != 0 && compoundingFrequency * years < 0
                         && 1.0 + annualRate / 100.0 / compoundingFrequency as real == 0.0
    ensures compoundingFrequency == 0 ==> v == Some(principal)
  {
    var rate := annualRate / 100.0;
    if compoundingFrequency == 0 then Some(principal)
    else
      match PowInt(1.0 + rate / compoundingFrequency as real, compoundingFrequency * years)
      case None => None
      case Some(g) => Some(principal * g)
  }

  /** The grown amount less the principal. */
  function CalculateCompoundInterest(principal: real, annualRate: real, years: int, compoundingFrequency: int := 12): (i: Option<real>)
    ensures i.None? <==> compoundingFrequency != 0 && compoundingFrequency * years < 0
                         && 1.0 + annualRate / 100.0 / compoundingFrequency as real == 0.0
    ensures compoundingFrequency == 0 ==> i == Some(0.0)
  {
    var rate := annualRate / 100.0;
    var growth := if compoundingFrequency == 0 then Some(1.0)
                  else PowInt(1.0 + rate / compoundingFrequency as real, compoundingFrequency * years);
    match growth
    case None => None
    case Some(g) => Some(principal * g - principal)
  }

  /** P·r·y/100. */
  function CalculateSimpleInterest(principal: real, annualRate: real, years: real): (i: real)
    ensures annualRate == 0.0 || years == 0.0 || principal == 0.0 ==> i == 0.0
  {
    (principal * annualRate * years) / 100.0
  }

  /** (final − initial) / initial · 100, with no guard on initial. */
  function CalculateROI(initialInvestment: real, finalValue: real): (r: Option<real>)
    ensures r.None? <==> initialInvestment == 0.0
    ensures r.Some? ==> r.value * initialInvestment == (finalValue - initialInvestment) * 100.0
  {
    match Div(finalValue - initialInvestment, initialInvestment)
    case None => None
    case Some(q) => Some(q * 100.0)
  }

  /** (cost − salvage) / life, with no guard on life. */
  function CalculateStraightLineDepreciation(cost: real, salvageValue: real, usefulLife: real): (d: Option<real>)
    ensures d.None? <==> usefulLife == 0.0
    ensures d.Some? ==> d.value * usefulLife == cost - salvageValue
  {
    Div(cost - salvageValue, usefulLife)
  }

  /** cost · (1 − rate/100)^(year − 1) · rate/100. */
  function CalculateDecliningBalanceDepreciation(cost: real, rate: real, year: int): (d: Option<real>)
    ensures d.None? <==> rate == 100.0 && year < 1
    ensures year >= 1 && rate == 100.0 ==> d == Some(if year == 1 then cost else 0.0)
  {
    match PowInt(1.0 - rate / 100.0, year - 1)
    case None => None
    case Some(q) => Some(cost * q * (rate / 100.0))
  }

  /** fv / (1 + r/100)^years; dividing by an infinite power gives 0. */
  function CalculatePresentValue(futureValue: real, annualRate: real, years: int): (v: Option<real>)
    ensures v.None? <==> 1.0 + annualRate / 100.0 == 0.0 && years > 0
    ensures 1.0 + annualRate / 100.0 == 0.0 && years < 0 ==> v == Some(0.0)
    ensures v.Some? && years >= 0 ==> v.value * Pow(1.0 + annualRate / 100.0, years) == futureValue
  {
    var rate := annualRate / 100.0;
    match PowInt(1.0 + rate, years)
    case None => Some(0.0)
    case Some(q) => Div(futureValue, q)
  }

  /** The value after years·12 monthly payments, each growing at the monthly rate. */
  function CalculateAnnuityFutureValue(payment: real, annualRate: real, years: int): (v: Option<real>)
    ensures MonthlyRate(annualRate) == 0.0 ==> v.Some? && v.value == payment * (years * 12) as real
  {
    var monthlyRate := MonthlyRate(annualRate);
    var numberOfPayments := years * 12;
    if monthlyRate == 0.0 then Some(payment * numberOfPayments as real)
    else
      match PowInt(1.0 + monthlyRate, numberOfPayments)
      case None => None
      case Some(q) => Some(payment * (q - 1.0) / monthlyRate)
  }

  /** The value today of years·12 monthly payments, each discounted at the monthly rate. */
  function CalculateAnnuityPresentValue(payment: real, annualRate: real, years: int): (v: Option<real>)
    ensures MonthlyRate(annualRate) == 0.0 ==> v.Some? && v.value == payment * (years * 12) as real
  {
    var monthlyRate := MonthlyRate(annualRate);
    var numberOfPayments := years * 12;
    if monthlyRate == 0.0 then Some(payment * numberOfPayments as real)
    else
      match PowInt(1.0 + monthlyRate, -numberOfPayments)
      case None => None
      case Some(q) => Some(payment * (1.0 - q) / monthlyRate)
  }

  /** fixed / (price − variable), with no guard on the margin. */
  function CalculateBreakEvenPoint(fixedCosts: real, pricePerUnit: real, variableCostPerUnit: real): (b: Option<real>)
    ensures b.None? <==> pricePerUnit == variableCostPerUnit
    ensures b.Some? ==> b.value * (pricePerUnit - variableCostPerUnit) == fixedCosts
  {
    Div(fixedCosts, pricePerUnit - variableCostPerUnit)
  }

  // ---------------------------------------------------------------------
  // Net present value
  // ---------------------------------------------------------------------

  /** The first k cash flows, the i-th discounted over i + 1 periods. */
  function Discounted(cashFlows: seq<real>, growth: real, k: nat): real
    requires k <= |cashFlows|
    requires growth != 0.0
  {
    if k == 0 then 0.0
    else
      PowNonzero(growth, k);
      Discounted(cashFlows, growth, k - 1) + cashFlows[k - 1] / Pow(growth, k)
  }

  /** −initial plus every cash flow divided by (1 + r/100)^(i+1), accumulated in order. */
  method CalculateNPV(initialInvestment: real, cashFlows: seq<real>, discountRate: real) returns (npv: Option<real>)
    ensures 1.0 + discountRate / 100.0 != 0.0 ==>
              npv == Some(-initialInvestment + Discounted(cashFlows, 1.0 + discountRate / 100.0, |cashFlows|))
    ensures 1.0 + discountRate / 100.0 == 0.0 ==> (npv.None? <==> |cashFlows| > 0)
    ensures |cashFlows| == 0 ==> npv == Some(-initialInvestment)
  {
    var rate := discountRate / 100.0;
    var total := -initialInvestment;
    var finite := true;
    for index := 0 to |cashFlows|
      invariant finite <==> index == 0 || 1.0 + rate != 0.0
      invariant 1.0 + rate != 0.0 ==> total == -initialInvestment + Discounted(cashFlows, 1.0 + rate, index)
      invariant index == 0 ==> total == -initialInvestment
    {
      var p := Pow(1.0 + rate, index + 1);
      if p == 0.0 {
        finite := false;
      } else {
        total := total + cashFlows[index] / p;
      }
      if 1.0 + rate != 0.0 {
        PowNonzero(1.0 + rate, index + 1);
      } else {
        assert p == 0.0;
      }
    }
    npv := if finite then Some(total) else None;
  }

  function Sum(s: seq<real>): real {
    if s == [] then 0.0 else Sum(s[..|s| - 1]) + s[|s| - 1]
  }

  /** Undiscounted, the cash flows simply add up. */
  lemma {:induction false} DiscountedAtZeroRate(cashFlows: seq<real>, k: nat)
    requires k <= |cashFlows|
    ensures Discounted(cashFlows, 1.0, k) == Sum(cashFlows[..k])
  {
    if k > 0 {
      DiscountedAtZeroRate(cashFlows, k - 1);
      PowOfOne(k);
      assert cashFlows[..k][..k - 1] == cashFlows[..k - 1];
    }
  }

  /** Positive cash flows at a rate above −100% have a positive present value. */
  lemma {:induction false} DiscountedPositive(cashFlows: seq<real>, growth: real, k: nat)
    requires k <= |cashFlows| && 0 < k
    requires growth > 0.0
    requires forall i :: 0 <= i < |cashFlows| ==> cashFlows[i] > 0.0
    ensures Discounted(cashFlows, growth, k) > 0.0
  {
    PowPositive(growth, k);
    var p := Pow(growth, k);
    assert cashFlows[k - 1] / p > 0.0;
    if k > 1 {
      DiscountedPositive(cashFlows, growth, k - 1);
    }
  }

  /** 10000 invested, 5000 back in each of three years, no discounting: 5000. */
  lemma NpvZeroRateExample()
    ensures -10000.0 + Discounted([5000.0, 5000.0, 5000.0], 1.0 + 0.0 / 100.0, 3) == 5000.0
  {
    var cf := [5000.0, 5000.0, 5000.0];
    DiscountedAtZeroRate(cf, 3);
    assert cf[..3] == cf;
    assert cf[..2] == [5000.0, 5000.0];
    assert cf[..2][..1] == [5000.0];
  }

  // ---------------------------------------------------------------------
  // Properties
  // ---------------------------------------------------------------------

  /** 12000 over 2 years at 0%: 500 a month. */
  lemma LoanZeroRateExample()
    ensures CalculateLoanPayment(12000.0, 0.0, 2) == Some(500.0)
  {
  }

  /** The loan payment is exactly the payment whose annuity present value is the principal. */
  lemma LoanPaymentRepaysPrincipal(principal: real, annualRate: real, years: nat)
    requires MonthlyRate(annualRate) != 0.0 && 1.0 + MonthlyRate(annualRate) != 0.0
    requires CalculateLoanPayment(principal, annualRate, years).Some?
    ensures CalculateAnnuityPresentValue(CalculateLoanPayment(principal, annualRate, years).value, annualRate, years).Some?
    ensures CalculateAnnuityPresentValue(CalculateLoanPayment(principal, annualRate, years).value, annualRate, years).value
            == principal
  {
    var m := MonthlyRate(annualRate);
    var n := years * 12;
    var q := Pow(1.0 + m, n);
    PowNonzero(1.0 + m, n);
    assert PowInt(1.0 + m, n) == Some(q);
    LoanForm(principal, annualRate, years, m, q);
    var payment := CalculateLoanPayment(principal, annualRate, years).value;
    AnnuityForms(payment, annualRate, years, m, q);
    PaymentDiscountsToPrincipal(principal, m, q, payment);
  }

  /** The loan payment for a non-zero rate, with the power q = (1 + m)^(years·12) named. */
  lemma LoanForm(principal: real, annualRate: real, years: nat, m: real, q: real)
    requires m == MonthlyRate(annualRate) && m != 0.0
    requires q == Pow(1.0 + m, years * 12)
    ensures CalculateLoanPayment(principal, annualRate, years).Some? <==> q != 1.0
    ensures q != 1.0 ==> CalculateLoanPayment(principal, annualRate, years).value * (q - 1.0) == principal * m * q
  {
    assert PowInt(1.0 + m, years * 12) == Some(q);
  }

  /** The algebra behind the loan payment: a payment with payment·(q − 1) = P·m·q has payment·(1 − 1/q)/m = P. */
  lemma PaymentDiscountsToPrincipal(principal: real, m: real, q: real, payment: real)
    requires m != 0.0 && q != 0.0 && q != 1.0
    requires payment * (q - 1.0) == principal * m * q
    ensures payment * (1.0 - 1.0 / q) / m == principal
  {
    var factor := 1.0 - 1.0 / q;
    assert factor * q == q - 1.0;
    assert payment * factor * q == principal * m * q;
    assert payment * factor == principal * m by {
      assert (payment * factor - principal * m) * q == 0.0;
    }
  }

  /** Compound interest is the future value less the principal, for the same arguments. */
  lemma CompoundIsFutureValueGain(principal: real, annualRate: real, years: int, compoundingFrequency: int)
    ensures CalculateCompoundInterest(principal, annualRate, years, compoundingFrequency).Some?
            <==> CalculateFutureValue(principal, annualRate, years, compoundingFrequency).Some?
    ensures CalculateFutureValue(principal, annualRate, years, compoundingFrequency).Some? ==>
              CalculateCompoundInterest(principal, annualRate, years, compoundingFrequency).value
              == CalculateFutureValue(principal, annualRate, years, compoundingFrequency).value - principal
  {
  }

  /** At 0% the future value is the principal, for every period count and frequency. */
  lemma FutureValueZeroRate(principal: real, years: int, compoundingFrequency: int)
    ensures CalculateFutureValue(principal, 0.0, years, compoundingFrequency) == Some(principal)
  {
    if compoundingFrequency != 0 {
      var n := compoundingFrequency * years;
      if n >= 0 {
        PowOfOne(n);
      } else {
        PowOfOne(-n);
      }
      assert PowInt(1.0, n) == Some(1.0);
    }
  }

  /** At 0% the present value is the future amount. */
  lemma PresentValueZeroRate(futureValue: real, years: int)
    ensures CalculatePresentValue(futureValue, 0.0, years) == Some(futureValue)
  {
    if years >= 0 {
      PowOfOne(years);
    } else {
      PowOfOne(-years);
    }
    assert PowInt(1.0, years) == Some(1.0);
  }

  /** Discounting an annually compounded amount over the same years gives back the principal. */
  lemma PresentValueUndoesFutureValue(principal: real, annualRate: real, years: nat)
    requires 1.0 + annualRate / 100.0 != 0.0
    ensures CalculateFutureValue(principal, annualRate, years, 1).Some?
    ensures CalculatePresentValue(CalculateFutureValue(principal, annualRate, years, 1).value, annualRate, years).Some?
    ensures CalculatePresentValue(CalculateFutureValue(principal, annualRate, years, 1).value, annualRate, years).value
            == principal
  {
    var x := 1.0 + annualRate / 100.0;
    assert 1.0 + annualRate / 100.0 / 1 as real == x;
    assert 1 * years == years;
    var g := Pow(x, years);
    PowNonzero(x, years);
    assert PowInt(x, years) == Some(g);
    var fv := CalculateFutureValue(principal, annualRate, years, 1).value;
    assert fv == principal * g;
    assert fv / g == principal;
  }

  /** With no interest, both annuity values are the plain total of the payments, payment·years·12. */
  lemma AnnuityZeroRate(payment: real, years: int)
    ensures CalculateAnnuityFutureValue(payment, 0.0, years) == Some(payment * (years * 12) as real)
    ensures CalculateAnnuityPresentValue(payment, 0.0, years) == Some(payment * (years * 12) as real)
  {
  }

  /** The annuity's future value is its present value grown over all the months. */
  lemma AnnuityFutureIsPresentGrown(payment: real, annualRate: real, years: nat)
    requires MonthlyRate(annualRate) != 0.0 && 1.0 + MonthlyRate(annualRate) != 0.0
    ensures CalculateAnnuityFutureValue(payment, annualRate, years).Some?
    ensures CalculateAnnuityPresentValue(payment, annualRate, years).Some?
    ensures CalculateAnnuityFutureValue(payment, annualRate, years).value
            == CalculateAnnuityPresentValue(payment, annualRate, years).value * Pow(1.0 + MonthlyRate(annualRate), years * 12)
  {
    var m := MonthlyRate(annualRate);
    var q := Pow(1.0 + m, years * 12);
    PowNonzero(1.0 + m, years * 12);
    AnnuityForms(payment, annualRate, years, m, q);
    GrowthOfDiscount(payment, m, q);
  }

  /** Both annuity values for a non-zero rate, with the power q = (1 + m)^(years·12) named. */
  lemma AnnuityForms(payment: real, annualRate: real, years: nat, m: real, q: real)
    requires m == MonthlyRate(annualRate) && m != 0.0
    requires q == Pow(1.0 + m, years * 12) && q != 0.0
    ensures CalculateAnnuityFutureValue(payment, annualRate, years).Some?
    ensures CalculateAnnuityFutureValue(payment, annualRate, years).value == payment * (q - 1.0) / m
    ensures CalculateAnnuityPresentValue(payment, annualRate, years).Some?
    ensures CalculateAnnuityPresentValue(payment, annualRate, years).value == payment * (1.0 - 1.0 / q) / m
  {
    AnnuityFutureForm(payment, annualRate, years, m, q);
    AnnuityPresentForm(payment, annualRate, years, m, q);
  }

  lemma AnnuityFutureForm(payment: real, annualRate: real, years: nat, m: real, q: real)
    requires m == MonthlyRate(annualRate) && m != 0.0
    requires q == Pow(1.0 + m, years * 12)
    ensures CalculateAnnuityFutureValue(payment, annualRate, years).Some?
    ensures CalculateAnnuityFutureValue(payment, annualRate, years).value == payment * (q - 1.0) / m
  {
    assert PowInt(1.0 + m, years * 12) == Some(q);
  }

  lemma AnnuityPresentForm(payment: real, annualRate: real, years: nat, m: real, q: real)
    requires m == MonthlyRate(annualRate) && m != 0.0
    requires q == Pow(1.0 + m, years * 12) && q != 0.0
    ensures CalculateAnnuityPresentValue(payment, annualRate, years).Some?
    ensures CalculateAnnuityPresentValue(payment, annualRate, years).value == payment * (1.0 - 1.0 / q) / m
  {
    var n := years * 12;
    assert PowInt(1.0 + m, -n) == Some(1.0 / q) by {
      if n == 0 {
        assert q == 1.0;
      } else {
        assert 1.0 + m != 0.0;
        assert -(-n) == n;
      }
    }
  }

  /** The algebra behind the annuity values: p·(q − 1)/m = p·(1 − 1/q)/m · q. */
  lemma GrowthOfDiscount(payment: real, m: real, q: real)
    requires m != 0.0 && q != 0.0
    ensures payment * (q - 1.0) / m == (payment * (1.0 - 1.0 / q) / m) * q
  {
    var factor := 1.0 - 1.0 / q;
    assert factor * q == q - 1.0;
    assert payment * (q - 1.0) == payment * factor * q;
  }

  /** 1000 at 5% for 3 years: 150; nothing at 0% or over 0 years. */
  lemma SimpleInterestExamples()
    ensures CalculateSimpleInterest(1000.0, 5.0, 3.0) == 150.0
    ensures CalculateSimpleInterest(1000.0, 0.0, 3.0) == 0.0
    ensures CalculateSimpleInterest(1000.0, 5.0, 0.0) == 0.0
  {
  }

  lemma RoiExamples()
    ensures CalculateROI(10000.0, 12000.0) == Some(20.0)
    ensures CalculateROI(10000.0, 8000.0) == Some(-20.0)
    ensures CalculateROI(10000.0, 10000.0) == Some(0.0)
    ensures CalculateROI(5000.0, 10000.0) == Some(100.0)
  {
  }

  lemma StraightLineExamples()
    ensures CalculateStraightLineDepreciation(50000.0, 5000.0, 10.0) == Some(4500.0)
    ensures CalculateStraightLineDepreciation(10000.0, 0.0, 5.0) == Some(2000.0)
  {
  }

  /** 10000 fixed at a margin of 20 per unit: 500 units; a thinner margin needs more units. */
  lemma BreakEvenExamples()
    ensures CalculateBreakEvenPoint(10000.0, 50.0, 30.0) == Some(500.0)
    ensures CalculateBreakEvenPoint(10000.0, 50.0, 40.0).value > CalculateBreakEvenPoint(10000.0, 50.0, 30.0).value
  {
  }

  /** Positive fixed costs: the smaller the positive margin, the higher the break-even point. */
  lemma BreakEvenFallsWithMargin(fixedCosts: real, price: real, variable1: real, variable2: real)
    requires fixedCosts > 0.0
    requires 0.0 < price - variable1 < price - variable2
    ensures CalculateBreakEvenPoint(fixedCosts, price, variable1).value
            > CalculateBreakEvenPoint(fixedCosts, price, variable2).value
  {
    var m1, m2 := price - variable1, price - variable2;
    var b1, b2 := fixedCosts / m1, fixedCosts / m2;
    assert b1 * m1 == fixedCosts && b2 * m2 == fixedCosts;
    assert b2 > 0.0;
    assert b1 * m1 == b2 * m2;
    assert b2 * m2 > b2 * m1;
  }

  /** The first year writes off rate% of the cost. */
  lemma DecliningFirstYear(cost: real, rate: real)
    ensures CalculateDecliningBalanceDepreciation(cost, rate, 1).Some?
    ensures CalculateDecliningBalanceDepreciation(cost, rate, 1).value == cost * rate / 100.0
  {
    assert PowInt(1.0 - rate / 100.0, 0) == Some(1.0);
  }

  /** Each later year is the previous one times (1 − rate/100). */
  lemma DecliningNextYear(cost: real, rate: real, year: nat)
    requires year >= 1
    ensures CalculateDecliningBalanceDepreciation(cost, rate, year + 1).Some?
    ensures CalculateDecliningBalanceDepreciation(cost, rate, year).Some?
    ensures CalculateDecliningBalanceDepreciation(cost, rate, year + 1).value
            == CalculateDecliningBalanceDepreciation(cost, rate, year).value * (1.0 - rate / 100.0)
  {
    var x := 1.0 - rate / 100.0;
    var p := Pow(x, year - 1);
    assert Pow(x, year) == x * p;
    assert cost * (x * p) * (rate / 100.0) == (cost * p * (rate / 100.0)) * x;
  }

  /** For a positive cost and 0 < rate < 100, every year writes off strictly less than the one before. */
  lemma DecliningDecreases(cost: real, rate: real, year: nat)
    requires year >= 1
    requires cost > 0.0 && 0.0 < rate < 100.0
    ensures CalculateDecliningBalanceDepreciation(cost, rate, year + 1).value
            < CalculateDecliningBalanceDepreciation(cost, rate, year).value
  {
    DecliningNextYear(cost, rate, year);
    var x := 1.0 - rate / 100.0;
    PowPositive(x, year - 1);
    var d := CalculateDecliningBalanceDepreciation(cost, rate, year).value;
    assert d == cost * Pow(x, year - 1) * (rate / 100.0);
    assert d > 0.0 by {
      assert cost * Pow(x, year - 1) > 0.0;
    }
    assert d * x < d;
  }

  /** 10000 at 20%: 2000 in the first year, less in the second. */
  lemma DecliningExamples()
    ensures CalculateDecliningBalanceDepreciation(10000.0, 20.0, 1).Some?
    ensures CalculateDecliningBalanceDepreciation(10000.0, 20.0, 1).value == 2000.0
    ensures CalculateDecliningBalanceDepreciation(10000.0, 20.0, 2).value
            < CalculateDecliningBalanceDepreciation(10000.0, 20.0, 1).value
  {
    DecliningFirstYear(10000.0, 20.0);
    DecliningDecreases(10000.0, 20.0, 1);
  }

  // ---------------------------------------------------------------------
  // Positive rates
  // ---------------------------------------------------------------------

  /** At a positive rate, compounding f ≥ 1 times a year over years ≥ 1 grows a positive principal, so the interest is positive. */
  lemma FutureValueAbovePrincipal(principal: real, annualRate: real, years: int, compoundingFrequency: int)
    requires principal > 0.0 && annualRate > 0.0 && years >= 1 && compoundingFrequency >= 1
    ensures CalculateFutureValue(principal, annualRate, years, compoundingFrequency).Some?
    ensures CalculateFutureValue(principal, annualRate, years, compoundingFrequency).value > principal
    ensures CalculateCompoundInterest(principal, annualRate, years, compoundingFrequency).Some?
    ensures CalculateCompoundInterest(principal, annualRate, years, compoundingFrequency).value > 0.0
  {
    var x := 1.0 + annualRate / 100.0 / compoundingFrequency as real;
    var n := compoundingFrequency * years;
    assert n >= years by {
      MulIntAtLeast(years, compoundingFrequency);
    }
    PowAboveOne(x, n);
    var g := Pow(x, n);
    assert PowInt(x, n) == Some(g);
    PositiveProduct(principal, g - 1.0);
    assert principal * g - principal == principal * (g - 1.0);
  }

  /** b·a ≥ b for a ≥ 1 and b ≥ 1. */
  lemma MulIntAtLeast(b: int, a: int)
    requires a >= 1 && b >= 1
    ensures a * b >= b
  {
  }

  /** Compound interest for f ≥ 1 periods a year, with the growth factor g = (1 + r/f)^(f·years) named. */
  lemma CompoundForm(principal: real, annualRate: real, years: int, compoundingFrequency: int, g: real)
    requires compoundingFrequency >= 1 && years >= 1
    requires g == Pow(1.0 + annualRate / 100.0 / compoundingFrequency as real, compoundingFrequency * years)
    ensures CalculateCompoundInterest(principal, annualRate, years, compoundingFrequency).Some?
    ensures CalculateCompoundInterest(principal, annualRate, years, compoundingFrequency).value == principal * g - principal
  {
    var x := 1.0 + annualRate / 100.0 / compoundingFrequency as real;
    var n := compoundingFrequency * years;
    assert PowInt(x, n) == Some(g);
  }

  /** (1 + r/12)^(12·years) > (1 + r)^years for r > 0 and years ≥ 1: a year of monthly growth beats one annual step. */
  lemma MonthlyGrowthBeatsAnnual(r: real, years: nat)
    requires r > 0.0 && years >= 1
    ensures Pow(1.0 + r / 12.0, 12 * years) > Pow(1.0 + r, years)
  {
    var m := r / 12.0;
    Bernoulli(m, 12);
    var monthlyYear := Pow(1.0 + m, 12);
    assert monthlyYear > 1.0 + r;
    PowMul(1.0 + m, 12, years);
    PowMonotone(1.0 + r, monthlyYear, years);
  }

  /** Compounding monthly earns strictly more than compounding once a year, at the same positive rate. */
  lemma MonthlyBeatsAnnual(principal: real, annualRate: real, years: int)
    requires principal > 0.0 && annualRate > 0.0 && years >= 1
    ensures CalculateCompoundInterest(principal, annualRate, years, 12).Some?
    ensures CalculateCompoundInterest(principal, annualRate, years, 1).Some?
    ensures CalculateCompoundInterest(principal, annualRate, years, 12).value
            > CalculateCompoundInterest(principal, annualRate, years, 1).value
  {
    var r := annualRate / 100.0;
    MonthlyGrowthBeatsAnnual(r, years);
    var g12 := Pow(1.0 + r / 12.0, 12 * years);
    var g1 := Pow(1.0 + r, years);
    assert r / 1 as real == r && 1 * years == years;
    CompoundForm(principal, annualRate, years, 12, g12);
    CompoundForm(principal, annualRate, years, 1, g1);
    GainOrder(principal, g1, g12);
  }

  /** p·g1 − p < p·g2 − p for p > 0 and g1 < g2. */
  lemma GainOrder(p: real, g1: real, g2: real)
    requires p > 0.0 && g1 < g2
    ensures p * g1 - p < p * g2 - p
  {
    PositiveProduct(p, g2 - g1);
    assert p * g2 - p * g1 == p * (g2 - g1);
  }

  /** The repository's example: 1000 at 5% for a year earns more compounded monthly than annually. */
  lemma MonthlyBeatsAnnualExample()
    ensures CalculateCompoundInterest(1000.0, 5.0, 1, 12).Some?
    ensures CalculateCompoundInterest(1000.0, 5.0, 1, 1).Some?
    ensures CalculateCompoundInterest(1000.0, 5.0, 1, 12).value > CalculateCompoundInterest(1000.0, 5.0, 1, 1).value
  {
    MonthlyBeatsAnnual(1000.0, 5.0, 1);
  }

  /** At a positive rate over years ≥ 1, a positive future amount is worth strictly less, and still more than 0, today. */
  lemma PresentValueBelowFuture(futureValue: real, annualRate: real, years: int)
    requires futureValue > 0.0 && annualRate > 0.0 && years >= 1
    ensures CalculatePresentValue(futureValue, annualRate, years).Some?
    ensures 0.0 < CalculatePresentValue(futureValue, annualRate, years).value < futureValue
  {
    var x := 1.0 + annualRate / 100.0;
    PowAboveOne(x, years);
    assert PowInt(x, years) == Some(Pow(x, years));
    QuotientBelow(futureValue, Pow(x, years));
  }

  /** 0 < a/g < a for a > 0 and g > 1. */
  lemma QuotientBelow(a: real, g: real)
    requires a > 0.0 && g > 1.0
    ensures 0.0 < a / g < a
  {
    PositiveQuotient(a, g);
    var v := a / g;
    assert v * g == a;
    PositiveProduct(v, g - 1.0);
    assert v * g - v == v * (g - 1.0);
  }

  /** At a positive rate over years ≥ 1, the annuity grows to strictly more than the sum of its payments. */
  lemma AnnuityFutureAboveTotal(payment: real, annualRate: real, years: int)
    requires payment > 0.0 && annualRate > 0.0 && years >= 1
    ensures CalculateAnnuityFutureValue(payment, annualRate, years).Some?
    ensures CalculateAnnuityFutureValue(payment, annualRate, years).value > payment * (years * 12) as real
  {
    var m := MonthlyRate(annualRate);
    var n := years * 12;
    AnnuityFutureForm(payment, annualRate, years, m, Pow(1.0 + m, n));
    GrownPaymentsAboveTotal(payment, m, n);
  }

  /** p·((1 + m)^n − 1)/m > p·n for p > 0, m > 0 and n ≥ 2. */
  lemma GrownPaymentsAboveTotal(p: real, m: real, n: nat)
    requires p > 0.0 && m > 0.0 && n >= 2
    ensures p * (Pow(1.0 + m, n) - 1.0) / m > p * n as real
  {
    GrownTotalAbove(m, n);
    ScaledAbove(p, Pow(1.0 + m, n) - 1.0, m, n as real);
  }

  /** p·d/m > p·n for p > 0, m ≠ 0 and d/m > n. */
  lemma ScaledAbove(p: real, d: real, m: real, n: real)
    requires p > 0.0 && m != 0.0 && d / m > n
    ensures p * d / m > p * n
  {
    var f := d / m;
    assert p * d / m == p * f;
    PositiveProduct(p, f - n);
    assert p * f - p * n == p * (f - n);
  }

  /** At a positive rate over years ≥ 1, the annuity is worth strictly less than the sum of its payments today, and more than 0. */
  lemma AnnuityPresentBelowTotal(payment: real, annualRate: real, years: int)
    requires payment > 0.0 && annualRate > 0.0 && years >= 1
    ensures CalculateAnnuityPresentValue(payment, annualRate, years).Some?
    ensures 0.0 < CalculateAnnuityPresentValue(payment, annualRate, years).value < payment * (years * 12) as real
  {
    var m := MonthlyRate(annualRate);
    var n := years * 12;
    PresentPaymentsBelowTotal(payment, m, n);
    AnnuityPresentForm(payment, annualRate, years, m, Pow(1.0 + m, n));
  }

  /** 0 < p·(1 − (1 + m)^−n)/m < p·n for p > 0, m > 0 and n ≥ 1. */
  lemma PresentPaymentsBelowTotal(p: real, m: real, n: nat)
    requires p > 0.0 && m > 0.0 && n >= 1
    ensures Pow(1.0 + m, n) != 0.0
    ensures 0.0 < p * (1.0 - 1.0 / Pow(1.0 + m, n)) / m < p * n as real
  {
    DiscountedTotalBelow(m, n);
    ScaledBetween(p, 1.0 - 1.0 / Pow(1.0 + m, n), m, n as real);
  }

  /** 0 < p·d/m < p·n for p > 0, m ≠ 0 and 0 < d/m < n. */
  lemma ScaledBetween(p: real, d: real, m: real, n: real)
    requires p > 0.0 && m != 0.0 && 0.0 < d / m < n
    ensures 0.0 < p * d / m < p * n
  {
    var f := d / m;
    assert p * d / m == p * f;
    PositiveProduct(p, f);
    PositiveProduct(p, n - f);
    assert p * n - p * f == p * (n - f);
  }

  /** (1 − (1 + m)^−n)/m = v + v^2 + … + v^n with v = 1/(1 + m). */
  lemma DiscountedIsGeometric(m: real, n: nat)
    requires m != 0.0 && 1.0 + m != 0.0
    ensures Pow(1.0 + m, n) != 0.0
    ensures (1.0 - 1.0 / Pow(1.0 + m, n)) / m == Geometric(1.0 / (1.0 + m), n)
  {
    PowNonzero(1.0 + m, n);
    var v := 1.0 / (1.0 + m);
    assert v * (1.0 + m) == 1.0;
    PowOfReciprocal(v, 1.0 + m, n);
    ReciprocalOfProduct(Pow(v, n), Pow(1.0 + m, n));
    GeometricClosed(v, m, n);
    QuotientOfProduct(Geometric(v, n), m, 1.0 - Pow(v, n));
  }

  /** The annuity's present value is the payment times v + v^2 + … + v^n, with v = 1/(1 + m) the monthly discount factor. */
  lemma AnnuityPresentIsGeometric(payment: real, annualRate: real, years: nat)
    requires MonthlyRate(annualRate) != 0.0 && 1.0 + MonthlyRate(annualRate) != 0.0
    ensures CalculateAnnuityPresentValue(payment, annualRate, years).Some?
    ensures CalculateAnnuityPresentValue(payment, annualRate, years).value
            == payment * Geometric(1.0 / (1.0 + MonthlyRate(annualRate)), years * 12)
  {
    var m := MonthlyRate(annualRate);
    DiscountedIsGeometric(m, years * 12);
    var q := Pow(1.0 + m, years * 12);
    AnnuityPresentForm(payment, annualRate, years, m, q);
    Reassociate(payment, 1.0 - 1.0 / q, m);
  }

  /** p·d/m = p·(d/m). */
  lemma Reassociate(p: real, d: real, m: real)
    requires m != 0.0
    ensures p * d / m == p * (d / m)
  {
  }

  /** A loan at a positive rate over years ≥ 1 has a positive payment, and the payments add up to more than the principal. */
  lemma LoanPaymentPositive(principal: real, annualRate: real, years: int)
    requires principal > 0.0 && annualRate > 0.0 && years >= 1
    ensures CalculateLoanPayment(principal, annualRate, years).Some?
    ensures CalculateLoanPayment(principal, annualRate, years).value > 0.0
    ensures CalculateLoanPayment(principal, annualRate, years).value * (years * 12) as real > principal
  {
    var m := MonthlyRate(annualRate);
    var q := Pow(1.0 + m, years * 12);
    PowAboveOne(1.0 + m, years * 12);
    LoanForm(principal, annualRate, years, m, q);
    var payment := CalculateLoanPayment(principal, annualRate, years).value;
    PaymentPositive(principal, m, q, payment);
    LoanPaymentRepaysPrincipal(principal, annualRate, years);
    AnnuityPresentBelowTotal(payment, annualRate, years);
  }

  /** payment·(q − 1) = P·m·q with P, m > 0 and q > 1 makes the payment positive. */
  lemma PaymentPositive(principal: real, m: real, q: real, payment: real)
    requires principal > 0.0 && m > 0.0 && q > 1.0
    requires payment * (q - 1.0) == principal * m * q
    ensures payment > 0.0
  {
    PositiveProduct(principal, m);
    PositiveProduct(principal * m, q);
    if payment <= 0.0 {
      NonPositiveProduct(payment, q - 1.0);
    }
  }

  lemma NonPositiveProduct(a: real, b: real)
    requires a <= 0.0 && b > 0.0
    ensures a * b <= 0.0
  {
  }

  /** The loan payment for a positive principal is the principal divided by the discounted sum v + … + v^n, v = 1/(1 + m). */
  lemma LoanPaymentOverGeometric(principal: real, annualRate: real, years: int, v: real)
    requires principal > 0.0 && annualRate > 0.0 && years >= 1
    requires v == 1.0 / (1.0 + MonthlyRate(annualRate))
    ensures CalculateLoanPayment(principal, annualRate, years).Some?
    ensures Geometric(v, years * 12) > 0.0
    ensures CalculateLoanPayment(principal, annualRate, years).value == principal / Geometric(v, years * 12)
  {
    DiscountFactor(MonthlyRate(annualRate));
    GeometricBelow(v, years * 12);
    LoanPaymentPositive(principal, annualRate, years);
    var payment := CalculateLoanPayment(principal, annualRate, years).value;
    LoanPaymentRepaysPrincipal(principal, annualRate, years);
    AnnuityPresentIsGeometric(payment, annualRate, years);
    QuotientOfProduct(payment, Geometric(v, years * 12), principal);
  }

  /** At a higher positive rate, the same loan over the same years costs a strictly higher payment. */
  lemma LoanPaymentRisesWithRate(principal: real, rate1: real, rate2: real, years: int)
    requires principal > 0.0 && 0.0 < rate1 < rate2 && years >= 1
    ensures CalculateLoanPayment(principal, rate1, years).Some?
    ensures CalculateLoanPayment(principal, rate2, years).Some?
    ensures CalculateLoanPayment(principal, rate1, years).value < CalculateLoanPayment(principal, rate2, years).value
  {
    var n := years * 12;
    var v1, v2 := 1.0 / (1.0 + MonthlyRate(rate1)), 1.0 / (1.0 + MonthlyRate(rate2));
    var g1, g2 := Geometric(v1, n), Geometric(v2, n);
    assert 0.0 < g2 < g1 by {
      DiscountOrder(MonthlyRate(rate1), MonthlyRate(rate2));
      GeometricMonotone(v2, v1, n);
      GeometricBelow(v2, n);
    }
    LoanPaymentOverGeometric(principal, rate1, years, v1);
    LoanPaymentOverGeometric(principal, rate2, years, v2);
    QuotientOrder(principal, g1, g2);
  }

  /** A higher positive rate has a smaller discount factor. */
  lemma DiscountOrder(m1: real, m2: real)
    requires 0.0 < m1 < m2
    ensures 0.0 < 1.0 / (1.0 + m2) < 1.0 / (1.0 + m1) < 1.0
  {
    DiscountFactor(m1);
    DiscountFactor(m2);
    QuotientOrder(1.0, 1.0 + m2, 1.0 + m1);
  }

  /** P/g1 < P/g2 for P > 0 and 0 < g2 < g1. */
  lemma QuotientOrder(total: real, g1: real, g2: real)
    requires total > 0.0 && 0.0 < g2 < g1
    ensures total / g1 < total / g2
  {
    var p1, p2 := total / g1, total / g2;
    assert p1 * g1 == total && p2 * g2 == total;
    if p2 <= p1 {
      MulAtLeast(g2, p1, p2);
      PositiveQuotient(total, g1);
      PositiveProduct(p1, g1 - g2);
      assert false;
    }
  }

  /** The repository's example: 10000 over 3 years costs more a month at 10% than at 5%. */
  lemma LoanHigherRateExample()
    ensures CalculateLoanPayment(10000.0, 5.0, 3).Some?
    ensures CalculateLoanPayment(10000.0, 10.0, 3).Some?
    ensures CalculateLoanPayment(10000.0, 5.0, 3).value < CalculateLoanPayment(10000.0, 10.0, 3).value
  {
    LoanPaymentRisesWithRate(10000.0, 5.0, 10.0, 3);
  }

  /** The repository's positive-rate examples: growth beats the principal, discounting stays below it, and loan payments are positive. */
  lemma PositiveRateExamples()
    ensures CalculateFutureValue(1000.0, 5.0, 5, 12).Some? && CalculateFutureValue(1000.0, 5.0, 5, 12).value > 1000.0
    ensures CalculatePresentValue(1000.0, 5.0, 5).Some? && CalculatePresentValue(1000.0, 5.0, 5).value < 1000.0
    ensures CalculateAnnuityFutureValue(100.0, 5.0, 10).Some? && CalculateAnnuityFutureValue(100.0, 5.0, 10).value > 12000.0
    ensures CalculateAnnuityPresentValue(100.0, 5.0, 10).Some? && CalculateAnnuityPresentValue(100.0, 5.0, 10).value < 12000.0
    ensures CalculateLoanPayment(0.01, 5.0, 1).Some? && CalculateLoanPayment(0.01, 5.0, 1).value > 0.0
    ensures CalculateLoanPayment(1000000.0, 5.0, 30).Some? && CalculateLoanPayment(1000000.0, 5.0, 30).value > 0.0
  {
    FutureValueAbovePrincipal(1000.0, 5.0, 5, 12);
    PresentValueBelowFuture(1000.0, 5.0, 5);
    AnnuityFutureAboveTotal(100.0, 5.0, 10);
    AnnuityPresentBelowTotal(100.0, 5.0, 10);
    LoanPaymentPositive(0.01, 5.0, 1);
    LoanPaymentPositive(1000000.0, 5.0, 30);
  }
}
