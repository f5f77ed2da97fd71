/**
 The arithmetic behind a fixed-rate loan: the monthly rate derived from an
 annual percentage, the balance left after a number of equal payments, and
 the annuity payment that retires the loan in a given number of months.
 Everything is over exact reals; `src/main.rs` computes in binary floating
 point.
 */
module Annuity {
  import opened Power

  /** The monthly rate as a fraction: an annual percentage over 12 months and 100. */
  function MonthlyRate(interestRate: real): (r: real)
    ensures r * 1200.0 == interestRate
    ensures r > 0.0 <==> interestRate > 0.0
  {
    interestRate / 12.0 / 100.0
  }

  /**
   The annuity formula divides by `(1 + r)^n - 1`; it is defined exactly when
   that power is not 1. For a positive term this rules out a zero rate.
   */
  predicate PaymentDefined(r: real, n: nat)
  {
    Pow(1.0 + r, n) != 1.0
  }

  /** A positive rate over a positive term always admits the formula. */
  lemma PositiveRateDefined(r: real, n: nat)
    requires r > 0.0
    requires n >= 1
    ensures PaymentDefined(r, n)
    ensures Pow(1.0 + r, n) > 1.0
  {
    PowAboveOne(1.0 + r, n);
  }

  /** Over a positive term the formula can only be defined for a non-zero rate. */
  lemma DefinedRateNonZero(r: real, n: nat)
    requires n >= 1
    requires PaymentDefined(r, n)
    ensures r != 0.0
  {
    PowOfOne(n);
  }

  /**
   The outstanding balance after `k` equal payments: each month the interest
   `balance * r` is charged and the rest of the payment reduces the balance.
   */
  function Balance(principal: real, r: real, payment: real, k: nat): real
    decreases k
  {
    if k == 0 then principal
    else
      Balance(principal, r, payment, k - 1)
        - (payment - Balance(principal, r, payment, k - 1) * r)
  }

  /** One more payment charges interest on the current balance and deducts the rest. */
  lemma BalanceStep(principal: real, r: real, payment: real, k: nat)
    ensures Balance(principal, r, payment, k + 1)
         == Balance(principal, r, payment, k) - (payment - Balance(principal, r, payment, k) * r)
  {
  }

  /**
   Paying one month and then k more is paying k + 1 months: the balance after
   k + 1 payments equals the balance after k payments on the loan that is left
   after the first.
   */
  lemma {:induction false} BalanceShift(principal: real, r: real, payment: real, k: nat)
    ensures Balance(principal, r, payment, k + 1)
         == Balance(principal - (payment - principal * r), r, payment, k)
    decreases k
  {
    if k > 0 {
      BalanceShift(principal, r, payment, k - 1);
    }
  }

  /**
   Closed form of the balance, scaled by `r` so that no division is needed:
   r * B(k) == r * P * (1+r)^k - M * ((1+r)^k - 1).
   */
  lemma {:induction false} BalanceClosedForm(principal: real, r: real, payment: real, k: nat)
    ensures r * Balance(principal, r, payment, k)
         == r * principal * Pow(1.0 + r, k) - payment * (Pow(1.0 + r, k) - 1.0)
    decreases k
  {
    if k > 0 {
      BalanceClosedForm(principal, r, payment, k - 1);
      BalanceClosedFormNext(principal, r, payment, k);
    }
  }

  /** The closed form carries over from k - 1 payments to k payments. */
  lemma BalanceClosedFormNext(principal: real, r: real, payment: real, k: nat)
    requires k > 0
    requires r * Balance(principal, r, payment, k - 1)
          == r * principal * Pow(1.0 + r, k - 1) - payment * (Pow(1.0 + r, k - 1) - 1.0)
    ensures r * Balance(principal, r, payment, k)
         == r * principal * Pow(1.0 + r, k) - payment * (Pow(1.0 + r, k) - 1.0)
  {
  }

  /**
   For a non-zero rate the recurrence agrees with the closed form after every
   number of payments: B(k) == P * (1+r)^k - M * ((1+r)^k - 1) / r.
   */
  lemma BalanceMatchesClosedForm(principal: real, r: real, payment: real, k: nat)
    requires r != 0.0
    ensures Balance(principal, r, payment, k)
         == principal * Pow(1.0 + r, k) - payment * (Pow(1.0 + r, k) - 1.0) / r
  {
    BalanceClosedForm(principal, r, payment, k);
  }

  /**
   The fixed monthly payment of the annuity formula,
   P * r * (1+r)^n / ((1+r)^n - 1). It solves the annuity equation and leaves
   nothing owing after n months.
   */
  function MonthlyPayment(principal: real, r: real, n: nat): (m: real)
    requires PaymentDefined(r, n)
    ensures m * (Pow(1.0 + r, n) - 1.0) == principal * r * Pow(1.0 + r, n)
    ensures Balance(principal, r, m, n) == 0.0
  {
    QuotientTimes(principal * r * Pow(1.0 + r, n), Pow(1.0 + r, n) - 1.0);
    PaymentRetiresLoan(principal, r, n, principal * r * Pow(1.0 + r, n) / (Pow(1.0 + r, n) - 1.0));
    principal * r * Pow(1.0 + r, n) / (Pow(1.0 + r, n) - 1.0)
  }

  /** A payment satisfying m * ((1+r)^n - 1) == P * r * (1+r)^n leaves a zero balance. */
  lemma PaymentRetiresLoan(principal: real, r: real, n: nat, m: real)
    requires PaymentDefined(r, n)
    requires m * (Pow(1.0 + r, n) - 1.0) == principal * r * Pow(1.0 + r, n)
    ensures Balance(principal, r, m, n) == 0.0
  {
    DefinedRateNonZero(r, n);
    BalanceClosedForm(principal, r, m, n);
    ZeroFactor(r, Balance(principal, r, m, n));
  }

  /** The annuity payment is the one and only payment that retires the loan in n months. */
  lemma PaymentUnique(principal: real, r: real, n: nat, x: real)
    requires PaymentDefined(r, n)
    ensures Balance(principal, r, x, n) == 0.0 <==> x == MonthlyPayment(principal, r, n)
  {
    if Balance(principal, r, x, n) == 0.0 {
      RetiringPaymentEquation(principal, r, n, x);
      CancelFactor(x, MonthlyPayment(principal, r, n), Pow(1.0 + r, n) - 1.0,
        principal * r * Pow(1.0 + r, n));
    }
  }

  /** Any payment that retires the loan satisfies the annuity equation. */
  lemma RetiringPaymentEquation(principal: real, r: real, n: nat, x: real)
    requires Balance(principal, r, x, n) == 0.0
    ensures x * (Pow(1.0 + r, n) - 1.0) == principal * r * Pow(1.0 + r, n)
  {
    BalanceClosedForm(principal, r, x, n);
  }

  /** With a positive rate and principal the payment exceeds the first month's interest. */
  lemma PaymentExceedsFirstInterest(principal: real, r: real, n: nat)
    requires principal > 0.0
    requires r > 0.0
    requires n >= 1
    ensures PaymentDefined(r, n)
    ensures MonthlyPayment(principal, r, n) > principal * r
  {
    PositiveRateDefined(r, n);
    ProductPositive(principal, r);
    QuotientExceeds(MonthlyPayment(principal, r, n), principal * r, Pow(1.0 + r, n));
  }

  /**
   When the payment exceeds the interest on the principal, the balance never
   rises above the principal and falls strictly every month.
   */
  lemma {:induction false} BalanceFalls(principal: real, r: real, payment: real, k: nat)
    requires r > 0.0
    requires payment > principal * r
    ensures Balance(principal, r, payment, k) <= principal
    ensures Balance(principal, r, payment, k + 1) < Balance(principal, r, payment, k)
    decreases k
  {
    if k > 0 {
      BalanceFalls(principal, r, payment, k - 1);
    }
    BalanceStep(principal, r, payment, k);
    ScaleMonotone(Balance(principal, r, payment, k), principal, r);
  }

  /** Over any stretch of months the balance falls strictly. */
  lemma {:induction false} BalanceFallsBetween(principal: real, r: real, payment: real, j: nat, k: nat)
    requires r > 0.0
    requires payment > principal * r
    requires j < k
    ensures Balance(principal, r, payment, k) < Balance(principal, r, payment, j)
    decreases k
  {
    BalanceFalls(principal, r, payment, k - 1);
    if j < k - 1 {
      BalanceFallsBetween(principal, r, payment, j, k - 1);
    }
  }

  // Small facts over plain numbers, used to hand products to the solver in
  // the shape the goals use.

  /** Multiplying back by the divisor. */
  lemma QuotientTimes(a: real, d: real)
    requires d != 0.0
    ensures (a / d) * d == a
  {
  }

  /** Two numbers with the same non-zero multiple are equal. */
  lemma CancelFactor(a: real, b: real, d: real, c: real)
    requires d != 0.0
    requires a * d == c
    requires b * d == c
    ensures a == b
  {
  }

  /** A zero product with a non-zero factor has a zero other factor. */
  lemma ZeroFactor(r: real, b: real)
    requires r != 0.0
    requires r * b == 0.0
    ensures b == 0.0
  {
  }

  /** If m * (q - 1) == a * q with a > 0 and q > 1, then m > a. */
  lemma QuotientExceeds(m: real, a: real, q: real)
    requires a > 0.0
    requires q > 1.0
    requires m * (q - 1.0) == a * q
    ensures m > a
  {
    if m <= a {
      ProductNonNegative(a - m, q - 1.0);
      assert false;
    }
  }

  lemma ProductNonNegative(a: real, b: real)
    requires a >= 0.0
    requires b >= 0.0
    ensures a * b >= 0.0
  {
  }

  lemma ProductPositive(a: real, b: real)
    requires a > 0.0
    requires b > 0.0
    ensures a * b > 0.0
  {
  }

  lemma ScaleMonotone(a: real, b: real, r: real)
    requires a <= b
    requires r > 0.0
    ensures a * r <= b * r
  {
  }

  lemma ScaleStrict(a: real, b: real, r: real)
    requires a < b
    requires r > 0.0
    ensures a * r < b * r
  {
  }
}
