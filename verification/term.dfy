/**
 The program asks for the loan term in whole years and pays monthly; the
 schedule it prints is the amortization schedule over that many months.
 */
module Term {
  import opened Annuity
  import opened Amortization

  /** A term of whole years as a number of monthly payments. */
  function TermInMonths(termInYears: nat): (months: nat)
    ensures months % 12 == 0
    ensures months / 12 == termInYears
  {
    termInYears * 12
  }

  /**
   The schedule for a term given in years: twelve records per year, and
   nothing owing after the last.
   */
  function ScheduleForYears(principal: real, interestRate: real, termInYears: nat): (s: seq<Payment>)
    requires ScheduleDefined(interestRate, TermInMonths(termInYears))
    ensures |s| == 12 * termInYears
    ensures forall i :: 0 <= i < |s| ==> s[i].paymentNumber == i + 1
    ensures 0 < termInYears ==> s[|s| - 1].remainingBalance == 0.0
  {
    AmortizationSchedule(principal, interestRate, TermInMonths(termInYears))
  }

  /** Any positive rate gives a defined schedule for every whole-year term. */
  lemma PositiveRateYearsDefined(interestRate: real, termInYears: nat)
    requires interestRate > 0.0
    ensures ScheduleDefined(interestRate, TermInMonths(termInYears))
  {
    if termInYears > 0 {
      PositiveRateDefined(MonthlyRate(interestRate), TermInMonths(termInYears));
    }
  }
}
