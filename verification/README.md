# Amortization schedule

A Dafny model of the amortization engine in `src/main.rs`. The engine takes
three inputs: a principal, an annual interest rate in percent, and a term in
months. From them it builds one `Payment` record per month. Each record holds:

- the payment number;
- the fixed annuity payment;
- the split of that payment into interest on the outstanding balance and a
  principal part;
- the balance left afterwards.

The program's shell asks for the term in whole years and turns it into months.

The model works over exact `real` arithmetic in four modules:

- `Power` (`power.dfy`): a whole-number power `Pow`. It stands in for
  `f64::powf`, which the source always calls with an integral exponent (the
  term in months).
- `Annuity` (`annuity.dfy`):
  - the monthly rate `interest_rate / 12 / 100`;
  - `Balance`, a reference definition of the balance after `k` equal payments
    under the loop's recurrence;
  - the closed form of that balance;
  - the annuity payment `P·r·(1+r)^n / ((1+r)^n − 1)`, proved to be the one
    and only payment that leaves nothing owing after `n` months.
- `Amortization` (`amortization.dfy`):
  - the `Payment` datatype;
  - `Chained`, the record-to-record recurrence;
  - `Run`, the monthly loop as a recursive function;
  - `AmortizationSchedule`, the schedule itself;
  - `CalculateAmortizationSchedule`, the imperative loop of the source, proved
    equal to the function;
  - lemmas relating the records to the reference balance, the closed form and
    the monotone pay-down.
- `Term` (`term.dfy`): the term in years as months, and the schedule for a
  term given in years.

The source has no guard on its inputs. Over the reals, the payment formula is
defined exactly when `(1+r)^n ≠ 1`. This is `PaymentDefined`, and the schedule
requires it through `ScheduleDefined` whenever the term is positive. For a
positive term this excludes only rates with `(1+r)^n = 1`: the zero rate, and
`r = −2` for an even term. Every other rate is covered, negative rates
included. On that whole domain the last record's balance is exactly zero.

The code has no zero-rate special case and checks none of its inputs: it
never rejects a non-positive principal, a negative rate or a zero term.

The model follows the code. A zero rate, where the code divides `0/0`, lies
outside `ScheduleDefined`. A zero term gives the empty schedule. Any other
principal and rate are accepted, except `r = −2` over an even term, where
`(1+r)^n = 1` as well.

## Model

`Power.Pow` is a mathematical primitive standing in for the `f64::powf` calls
at src/main.rs:35-36, not a modelled function with a contract of its own;
the lemmas about the payment and the closed form state what the program
needs from it.

| member | source | states |
|---|---|---|
| Annuity.MonthlyRate | src/main.rs:33 | The monthly rate times 1200 is the annual percentage, and the monthly rate is positive exactly when the annual rate is. |
| Annuity.PositiveRateDefined | src/main.rs:33-36 | For a positive rate over a positive term the payment formula's denominator is non-zero: (1+r)^n exceeds 1. |
| Annuity.DefinedRateNonZero | src/main.rs:34-36 | Over a positive term the payment formula can only be defined for a non-zero monthly rate. |
| Annuity.BalanceShift | src/main.rs:41-44 | Paying one month and then k more from the balance left is the same as paying k + 1 months: the loop can be restarted from any month's balance. |
| Annuity.BalanceClosedForm | src/main.rs:38-44 | For every rate, r times the balance after k payments equals r·P·(1+r)^k − M·((1+r)^k − 1). |
| Annuity.BalanceMatchesClosedForm | src/main.rs:38-44 | For a non-zero rate the loop's balance after k payments is P·(1+r)^k − M·((1+r)^k − 1)/r. |
| Annuity.MonthlyPayment | src/main.rs:34-36 | The payment solves the annuity equation M·((1+r)^n − 1) = P·r·(1+r)^n, and running the loop's recurrence n months with it leaves a zero balance. |
| Annuity.PaymentRetiresLoan | src/main.rs:34-44 | Any payment that solves the annuity equation leaves nothing owing after n months. |
| Annuity.RetiringPaymentEquation | src/main.rs:34-44 | Conversely, any payment that leaves nothing owing after n months solves the annuity equation. |
| Annuity.PaymentUnique | src/main.rs:34-44 | A payment leaves a zero balance after n months if and only if it is the annuity payment. |
| Annuity.PaymentExceedsFirstInterest | src/main.rs:34-36 | With a positive principal and rate, the annuity payment is larger than the first month's interest P·r. |
| Annuity.BalanceFalls | src/main.rs:42-44 | When the payment exceeds the interest on the principal, the balance never rises above the principal and falls strictly every month. |
| Annuity.BalanceFallsBetween | src/main.rs:42-44 | Under the same condition the balance after k payments is below the balance after any j < k payments. |
| Amortization.Run | src/main.rs:38-53 | The loop run for `count` months from month number `month` yields `count` records, numbered consecutively from `month`, that follow the monthly recurrence from the opening balance. |
| Amortization.ChainedAt | src/main.rs:42-51 | Each record of a chain carries the fixed payment, and its interest and principal parts add up to it. Its interest is charged on the opening balance for the first record and on the previous record's remaining balance after that. Its remaining balance is that balance less its principal part. |
| Amortization.ChainedRemaining | src/main.rs:38-44 | The remaining balance on the k-th record of a chain is the reference balance after k payments. |
| Amortization.ChainedBalance | src/main.rs:42-44 | Record i of a chain charges interest on the reference balance after i payments, puts the rest of the payment to principal, and leaves the balance after i + 1 payments. |
| Amortization.AmortizationSchedule | src/main.rs:28-56 | The schedule has one record per month of the term, numbered 1 to N. Its records follow the recurrence with the annuity payment at the monthly rate. The last record leaves a zero balance. |
| Amortization.ScheduleRecord | src/main.rs:41-52 | Record i of the schedule is number i + 1 and carries the annuity payment, split into interest and principal. Its interest is principal·r for the first month and the previous remaining balance·r after that. Its remaining balance is the previous one less its principal part. |
| Amortization.ChainedClosedForm | src/main.rs:38-44 | At a non-zero rate the k-th record of a chain leaves the closed-form balance P·(1+r)^k − M·((1+r)^k − 1)/r. |
| Amortization.ScheduleClosedForm | src/main.rs:33-53 | For every rate in the schedule's domain the monthly rate is non-zero, and after k payments the schedule leaves P·(1+r)^k − M·((1+r)^k − 1)/r. |
| Amortization.ChainedPrincipalPositive | src/main.rs:42-43 | In a chain at a positive rate whose payment exceeds the interest on the opening balance, every record retires some principal. |
| Amortization.ChainedFalls | src/main.rs:42-44 | In such a chain, from each record to the next the remaining balance and the interest part fall strictly and the principal part grows strictly. |
| Amortization.ChainedAbove | src/main.rs:42-44 | In such a chain a record before the k-th payment leaves more than the reference balance after k payments. |
| Amortization.ChainedAmortizes | src/main.rs:41-53 | Such a chain pays the loan down steadily: positive principal parts, strictly falling balances and interest, strictly growing principal parts, and every record before the last leaving more than the last. |
| Amortization.ScheduleAmortizes | src/main.rs:28-56 | With a positive principal and rate the schedule is defined for every term. Every payment retires principal. Balances and interest fall strictly from record to record while principal parts grow. Every record but the last leaves a positive balance, so the loan is not paid off early. |
| Amortization.CalculateAmortizationSchedule | src/main.rs:28-56 | The imperative loop, one record pushed per month, returns exactly the schedule the functional definition describes. |
| Term.TermInMonths | src/main.rs:80 | The number of months is a multiple of 12 whose twelfth is the term in years. |
| Term.ScheduleForYears | src/main.rs:80-82 | A term of y years gives 12·y records numbered from 1, and nothing owing after the last when y > 0. |
| Term.PositiveRateYearsDefined | src/main.rs:71-82 | Any positive annual rate gives a defined schedule for every whole-year term. |

## Left out

- Console input and parsing (src/main.rs:58-78), including the panics on malformed input: I/O is outside the model. The three inputs become parameters.
- Printing the schedule (src/main.rs:84-87) and the `Display` implementation with two-decimal formatting (src/main.rs:14-26): output formatting only.
- `f64` arithmetic: all arithmetic is over exact reals. The model has no rounding, so its final balance is exactly zero where the program's is only close to zero. It also has no NaN or infinity.
- AmortizationSchedule: requires `ScheduleDefined`, because over the reals the payment quotient has no value where the code divides by zero (a zero rate, or `(1+r)^n = 1` in general). There every record the code builds carries NaN or an infinity in its payment and balance fields.
- CalculateAmortizationSchedule: for a zero term `src/main.rs` still computes a payment, whose divisor `(1+r)^0 - 1` is zero: ±∞ from (P·r)/0, or NaN when P·r = 0. It never stores that payment. The model returns the empty schedule without evaluating the quotient.
- TermInMonths: does not model `usize` overflow of `term_in_years * 12`. The term is an unbounded natural number.
- `Pow` models `f64::powf` only at whole-number exponents. These are the only exponents the source uses, since the term in months is converted from an integer.
