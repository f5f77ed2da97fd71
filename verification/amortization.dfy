/**
 The amortization schedule of a fixed-rate loan: one record per month that
 splits the fixed payment into interest on the outstanding balance and a
 principal part that reduces it. Modelled over exact reals.
 */
module Amortization {
  import opened Power
  import opened Annuity

  /** One month of the schedule. */
  datatype Payment = Payment(
    paymentNumber: nat,
    principalPayment: real,
    interestPayment: real,
    totalPayment: real,
    remainingBalance: real)

  /**
   The records `s` follow the monthly recurrence from an opening `balance`:
   the first record carries `payment`, split into interest on the opening
   balance and a principal part that its remaining balance deducts, and the
   records after it follow the recurrence from that remaining balance.
   */
  predicate Chained(s: seq<Payment>, balance: real, r: real, payment: real)
    decreases |s|
  {
    || |s| == 0
    || (&& s[0].totalPayment == payment
        && s[0].interestPayment == balance * r
        && s[0].principalPayment == payment - s[0].interestPayment
        && s[0].remainingBalance == balance - s[0].principalPayment
        && Chained(s[1..], s[0].remainingBalance, r, payment))
  }

  /**
   The monthly loop, run for `count` months starting with month number `month`
   on an outstanding `balance`: each month charges interest on the balance,
   puts the rest of the payment towards the principal and records the result.
   */
  function Run(balance: real, r: real, payment: real, month: nat, count: nat): (s: seq<Payment>)
    ensures |s| == count
    ensures forall i :: 0 <= i < |s| ==> s[i].paymentNumber == month + i
    ensures Chained(s, balance, r, payment)
    decreases count
  {
    if count == 0 then []
    else
      var interest := balance * r;
      var principalPart := payment - interest;
      var next := balance - principalPart;
      var head := Payment(month, principalPart, interest, payment, next);
      var rest := Run(next, r, payment, month + 1, count - 1);
      assert ([head] + rest)[1..] == rest;
      [head] + rest
  }

  /**
   Record i of a chain: it carries the payment, charges interest on the
   balance the record before it left (the opening balance for record 0) and
   deducts the rest of the payment from that balance.
   */
  lemma {:induction false} ChainedAt(s: seq<Payment>, balance: real, r: real, payment: real, i: nat)
    requires Chained(s, balance, r, payment)
    requires i < |s|
    ensures s[i].totalPayment == payment
    ensures s[i].principalPayment + s[i].interestPayment == s[i].totalPayment
    ensures i == 0 ==> s[i].interestPayment == balance * r
    ensures i == 0 ==> s[i].remainingBalance == balance - s[i].principalPayment
    ensures 0 < i ==> s[i].interestPayment == s[i - 1].remainingBalance * r
    ensures 0 < i ==> s[i].remainingBalance == s[i - 1].remainingBalance - s[i].principalPayment
    decreases i
  {
    if i > 0 {
      var tail := s[1..];
      ChainedAt(tail, s[0].remainingBalance, r, payment, i - 1);
      assert tail[i - 1] == s[i];
      if i > 1 {
        assert tail[i - 2] == s[i - 1];
      }
    }
  }

  /** In a chain, the record of the k-th payment leaves the balance after k payments. */
  lemma {:induction false} ChainedRemaining(s: seq<Payment>, balance: real, r: real, payment: real, k: nat)
    requires Chained(s, balance, r, payment)
    requires 1 <= k <= |s|
    ensures s[k - 1].remainingBalance == Balance(balance, r, payment, k)
    decreases k
  {
    if k > 1 {
      var tail := s[1..];
      var j := k - 1;
      assert tail[j - 1] == s[k - 1];
      ChainedRemaining(tail, s[0].remainingBalance, r, payment, j);
      BalanceShift(balance, r, payment, j);
    }
  }

  /** In a chain, record i charges interest on the balance after i payments. */
  lemma ChainedBalance(s: seq<Payment>, balance: real, r: real, payment: real, i: nat)
    requires Chained(s, balance, r, payment)
    requires i < |s|
    ensures s[i].interestPayment == Balance(balance, r, payment, i) * r
    ensures s[i].principalPayment == payment - Balance(balance, r, payment, i) * r
    ensures s[i].remainingBalance == Balance(balance, r, payment, i + 1)
  {
    ChainedAt(s, balance, r, payment, i);
    ChainedRemaining(s, balance, r, payment, i + 1);
    if i > 0 {
      ChainedRemaining(s, balance, r, payment, i);
    }
  }

  /** The precondition under which the schedule is defined. */
  predicate ScheduleDefined(interestRate: real, termInMonths: nat)
  {
    termInMonths == 0 || PaymentDefined(MonthlyRate(interestRate), termInMonths)
  }

  /**
   The schedule for a loan of `principal` at an annual `interestRate` percent
   over `termInMonths` months: records numbered 1..N, each carrying the same
   annuity payment split into interest and principal, the balance chained
   from record to record, and nothing owing after the last one.
   */
  function AmortizationSchedule(principal: real, interestRate: real, termInMonths: nat): (s: seq<Payment>)
    requires ScheduleDefined(interestRate, termInMonths)
    ensures |s| == termInMonths
    ensures forall i :: 0 <= i < |s| ==> s[i].paymentNumber == i + 1
    ensures 0 < termInMonths ==>
      var r := MonthlyRate(interestRate);
      Chained(s, principal, r, MonthlyPayment(principal, r, termInMonths))
    ensures 0 < |s| ==> s[|s| - 1].remainingBalance == 0.0
  {
    if termInMonths == 0 then []
    else
      var r := MonthlyRate(interestRate);
      var payment := MonthlyPayment(principal, r, termInMonths);
      var s := Run(principal, r, payment, 1, termInMonths);
      ChainedRemaining(s, principal, r, payment, termInMonths);
      s
  }

  /**
   Record i of the schedule, for the monthly rate r and the annuity payment m
   of the loan: it is payment number i + 1, carries m, splits it into interest
   and principal, charges interest on the principal (first record) or on the
   balance the record before it left, and deducts its principal part from that
   balance.
   */
  lemma ScheduleRecord(principal: real, interestRate: real, termInMonths: nat, i: nat, r: real, m: real)
    requires ScheduleDefined(interestRate, termInMonths)
    requires i < termInMonths
    requires r == MonthlyRate(interestRate)
    requires m == MonthlyPayment(principal, r, termInMonths)
    ensures
      var s := AmortizationSchedule(principal, interestRate, termInMonths);
      && s[i].paymentNumber == i + 1
      && s[i].totalPayment == m
      && s[i].principalPayment + s[i].interestPayment == m
      && (i == 0 ==> s[i].interestPayment == principal * r)
      && (i == 0 ==> s[i].remainingBalance == principal - s[i].principalPayment)
      && (0 < i ==> s[i].interestPayment == s[i - 1].remainingBalance * r)
      && (0 < i ==> s[i].remainingBalance == s[i - 1].remainingBalance - s[i].principalPayment)
  {
    ChainedAt(AmortizationSchedule(principal, interestRate, termInMonths), principal, r, m, i);
  }

  /**
   In a chain at a non-zero rate, the record of the k-th payment leaves the
   closed-form balance P * (1+r)^k - M * ((1+r)^k - 1) / r.
   */
  lemma ChainedClosedForm(s: seq<Payment>, balance: real, r: real, payment: real, k: nat)
    requires Chained(s, balance, r, payment)
    requires r != 0.0
    requires 1 <= k <= |s|
    ensures s[k - 1].remainingBalance
         == balance * Pow(1.0 + r, k) - payment * (Pow(1.0 + r, k) - 1.0) / r
  {
    ChainedRemaining(s, balance, r, payment, k);
    BalanceMatchesClosedForm(balance, r, payment, k);
  }

  /**
   After k payments the schedule leaves the closed-form balance
   P * (1+r)^k - m * ((1+r)^k - 1) / r, where r is the monthly rate and m the
   annuity payment of the loan.
   */
  lemma ScheduleClosedForm(principal: real, interestRate: real, termInMonths: nat, k: nat, r: real, m: real)
    requires ScheduleDefined(interestRate, termInMonths)
    requires 1 <= k <= termInMonths
    requires r == MonthlyRate(interestRate)
    requires m == MonthlyPayment(principal, r, termInMonths)
    ensures r != 0.0
    ensures AmortizationSchedule(principal, interestRate, termInMonths)[k - 1].remainingBalance
         == principal * Pow(1.0 + r, k) - m * (Pow(1.0 + r, k) - 1.0) / r
  {
    DefinedRateNonZero(r, termInMonths);
    ChainedClosedForm(AmortizationSchedule(principal, interestRate, termInMonths), principal, r, m, k);
  }

  /**
   In a chain at a positive rate whose payment exceeds the interest on the
   opening balance, every record retires some principal.
   */
  lemma ChainedPrincipalPositive(s: seq<Payment>, balance: real, r: real, payment: real, i: nat)
    requires Chained(s, balance, r, payment)
    requires r > 0.0
    requires payment > balance * r
    requires i < |s|
    ensures s[i].principalPayment > 0.0
  {
    ChainedBalance(s, balance, r, payment, i);
    BalanceFalls(balance, r, payment, i);
    ScaleMonotone(Balance(balance, r, payment, i), balance, r);
  }

  /**
   In such a chain, from one record to the next the remaining balance and the
   interest part fall and the principal part grows.
   */
  lemma ChainedFalls(s: seq<Payment>, balance: real, r: real, payment: real, j: nat)
    requires Chained(s, balance, r, payment)
    requires r > 0.0
    requires payment > balance * r
    requires j + 1 < |s|
    ensures s[j + 1].remainingBalance < s[j].remainingBalance
    ensures s[j + 1].interestPayment < s[j].interestPayment
    ensures s[j + 1].principalPayment > s[j].principalPayment
  {
    ChainedBalance(s, balance, r, payment, j);
    ChainedBalance(s, balance, r, payment, j + 1);
    BalanceFalls(balance, r, payment, j);
    BalanceFalls(balance, r, payment, j + 1);
    ScaleStrict(Balance(balance, r, payment, j + 1), Balance(balance, r, payment, j), r);
  }

  /**
   A chain at a positive rate whose payment exceeds the interest on the
   opening balance pays the loan down steadily: every record retires some
   principal; from each record to the next the balance falls strictly, the
   interest part shrinks and the principal part grows; and every record
   before the last leaves more than the last one does.
   */
  lemma ChainedAmortizes(s: seq<Payment>, balance: real, r: real, payment: real)
    requires Chained(s, balance, r, payment)
    requires r > 0.0
    requires payment > balance * r
    ensures forall i :: 0 <= i < |s| ==> s[i].principalPayment > 0.0
    ensures forall j :: 0 <= j < |s| - 1 ==>
      && s[j + 1].remainingBalance < s[j].remainingBalance
      && s[j + 1].interestPayment < s[j].interestPayment
      && s[j + 1].principalPayment > s[j].principalPayment
    ensures forall i :: 0 <= i < |s| - 1 ==> s[i].remainingBalance > s[|s| - 1].remainingBalance
  {
    forall i | 0 <= i < |s|
      ensures s[i].principalPayment > 0.0
    {
      ChainedPrincipalPositive(s, balance, r, payment, i);
    }
    forall j | 0 <= j < |s| - 1
      ensures s[j + 1].remainingBalance < s[j].remainingBalance
      ensures s[j + 1].interestPayment < s[j].interestPayment
      ensures s[j + 1].principalPayment > s[j].principalPayment
    {
      ChainedFalls(s, balance, r, payment, j);
    }
    forall i | 0 <= i < |s| - 1
      ensures s[i].remainingBalance > s[|s| - 1].remainingBalance
    {
      ChainedAbove(s, balance, r, payment, i, |s|);
      ChainedRemaining(s, balance, r, payment, |s|);
    }
  }

  /**
   In a chain at a positive rate whose payment exceeds the interest on the
   opening balance, a record before the k-th payment leaves more than the
   balance after k payments.
   */
  lemma ChainedAbove(s: seq<Payment>, balance: real, r: real, payment: real, i: nat, k: nat)
    requires Chained(s, balance, r, payment)
    requires r > 0.0
    requires payment > balance * r
    requires i + 1 < k
    requires i < |s|
    ensures s[i].remainingBalance > Balance(balance, r, payment, k)
  {
    ChainedBalance(s, balance, r, payment, i);
    BalanceFallsBetween(balance, r, payment, i + 1, k);
  }

  /**
   With a positive rate and principal the loan is paid down steadily: every
   payment retires some principal; from each record to the next the balance
   falls strictly, the interest part shrinks and the principal part grows;
   and every record but the last leaves a positive balance, so the loan is
   not paid off early.
   */
  lemma ScheduleAmortizes(principal: real, interestRate: real, termInMonths: nat)
    requires principal > 0.0
    requires interestRate > 0.0
    ensures ScheduleDefined(interestRate, termInMonths)
    ensures
      var s := AmortizationSchedule(principal, interestRate, termInMonths);
      && (forall i :: 0 <= i < |s| ==> s[i].principalPayment > 0.0)
      && (forall j :: 0 <= j < |s| - 1 ==>
        && s[j + 1].remainingBalance < s[j].remainingBalance
        && s[j + 1].interestPayment < s[j].interestPayment
        && s[j + 1].principalPayment > s[j].principalPayment)
      && (forall i :: 0 <= i < |s| - 1 ==> s[i].remainingBalance > 0.0)
  {
    if termInMonths > 0 {
      var r := MonthlyRate(interestRate);
      PositiveRateDefined(r, termInMonths);
      var m := MonthlyPayment(principal, r, termInMonths);
      PaymentExceedsFirstInterest(principal, r, termInMonths);
      ChainedAmortizes(AmortizationSchedule(principal, interestRate, termInMonths), principal, r, m);
    }
  }

  /**
   The loop of `src/main.rs`, record by record: computes the same schedule as
   the functional definition.
   */
  method CalculateAmortizationSchedule(principal: real, interestRate: real, termInMonths: nat)
    returns (schedule: seq<Payment>)
    requires ScheduleDefined(interestRate, termInMonths)
    ensures schedule == AmortizationSchedule(principal, interestRate, termInMonths)
  {
    schedule := [];
    if termInMonths == 0 {
      return;
    }
    var monthlyInterestRate := MonthlyRate(interestRate);
    var monthlyPayment := MonthlyPayment(principal, monthlyInterestRate, termInMonths);
    var remainingBalance := principal;
    ghost var whole := Run(principal, monthlyInterestRate, monthlyPayment, 1, termInMonths);
    var month := 1;
    while month <= termInMonths
      invariant 1 <= month <= termInMonths + 1
      invariant |schedule| == month - 1
      invariant forall i :: 0 <= i < |schedule| ==> schedule[i] == whole[i]
      invariant remainingBalance
        == if month == 1 then principal else whole[month - 2].remainingBalance
    {
      ChainedAt(whole, principal, monthlyInterestRate, monthlyPayment, month - 1);
      var interestPayment := remainingBalance * monthlyInterestRate;
      var principalPayment := monthlyPayment - interestPayment;
      remainingBalance := remainingBalance - principalPayment;
      schedule := schedule + [Payment(month, principalPayment, interestPayment, monthlyPayment, remainingBalance)];
      month := month + 1;
    }
  }

}
