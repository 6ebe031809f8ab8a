/**
 The loan and its period-by-period amortisation schedule. Money is held in
 whole cents and the annual rate, once quantised, in whole millionths; the
 periodic payment is an input in cents.
 */
module Loans {
  import opened Money

  /** Millionths per unit: the rate is quantised to six places. */
  const RateScale: pos := 1_000_000

  /** A loan as constructed: the annual rate as a fraction (0.06 for 6%), the
      term in years, the payments per year, and the principal in cents,
      rounded up to a whole cent at construction. */
  datatype Loan = Loan(interest: Fraction, years: Fraction, paymentsPerYear: pos, amount: int)

  /** What the schedule needs of a loan besides its balance: the periodic
      payment in cents, the annual rate in millionths and the payments per
      year. */
  datatype Terms = Terms(payment: int, rateMillionths: int, paymentsPerYear: pos)

  /** One record of the schedule, in cents: the principal retired by this
      period's payment, the interest charged, and the balance before payment. */
  datatype Payment = Payment(principal: int, interest: int, balance: int)

  /** The outcome of asking for a schedule: the records, or the report that
      the payment does not amortise the loan (the loop would never end). */
  datatype ScheduleResult = Schedule(records: seq<Payment>) | NonAmortizing

  /** Constructs a loan; the principal is rounded up to a whole cent. */
  function NewLoan(interest: Fraction, years: Fraction, paymentsPerYear: pos, amount: Fraction): (loan: Loan)
    ensures loan.interest == interest && loan.years == years
    ensures loan.paymentsPerYear == paymentsPerYear
    ensures amount.num * 100 <= loan.amount * amount.den < amount.num * 100 + amount.den
  {
    Loan(interest, years, paymentsPerYear, Dollar(amount))
  }

  /** The annual rate quantised to six places under the decimal context's
      default rounding: the nearest millionth, an exact half going to the
      even millionth. */
  function RateMillionths(loan: Loan): (rate6: int)
    ensures 2 * loan.interest.num * RateScale - loan.interest.den
              <= 2 * (rate6 * loan.interest.den)
              <= 2 * loan.interest.num * RateScale + loan.interest.den
    ensures RoundsTo(loan.interest, RateScale, HalfEven, rate6)
  {
    Quantize(loan.interest, RateScale, HalfEven)
  }

  /** The schedule terms of a loan paid off by `payment` cents a period. */
  function LoanTerms(loan: Loan, payment: int): Terms {
    Terms(payment, RateMillionths(loan), loan.paymentsPerYear)
  }

  /** One period's interest on `balance` cents: balance times rate over
      payments per year, rounded half-up to a whole cent. */
  function Interest(t: Terms, balance: int): (interest: int)
    ensures RoundsTo(Fraction(balance * t.rateMillionths, 100 * RateScale * t.paymentsPerYear),
                     CentsPerDollar, HalfUp, interest)
  {
    Dollar(Fraction(balance * t.rateMillionths, 100 * RateScale * t.paymentsPerYear), HalfUp)
  }

  /** The exact interest in cents is n/d with n = balance * rateMillionths
      and d = 1_000_000 * paymentsPerYear. Interest lies within half a cent of
      it, an exact half-cent going away from zero, and is not negative when
      n is not. */
  lemma InterestIsHalfUp(t: Terms, balance: int)
    ensures var n := balance * t.rateMillionths;
            var d := RateScale * t.paymentsPerYear;
            var interest := Interest(t, balance);
            && -d <= 2 * (interest * d - n) <= d
            && (2 * (interest * d - n) == d ==> n >= 0)
            && (2 * (interest * d - n) == -d ==> n < 0)
            && (n >= 0 ==> interest >= 0)
  {
    var x := Fraction(balance * t.rateMillionths, 100 * RateScale * t.paymentsPerYear);
    var interest := Interest(t, balance);
    var d := RateScale * t.paymentsPerYear;
    assert x.den == 100 * d;
    assert interest * x.den == 100 * (interest * d);
  }

  /** No negative interest on a non-negative balance at a non-negative rate. */
  lemma InterestNotNegative(t: Terms, balance: int)
    requires t.rateMillionths >= 0 && balance >= 0
    ensures Interest(t, balance) >= 0
  {
    assert balance * t.rateMillionths >= 0;
    InterestIsHalfUp(t, balance);
  }

  /** The last period: the payment covers the balance and its interest, which
      is the case exactly when a regular period would leave nothing owing. */
  predicate IsFinal(t: Terms, balance: int)
    ensures IsFinal(t, balance) <==> NextBalance(t, balance) <= 0
  {
    t.payment >= balance + Interest(t, balance)
  }

  /** The schedule from `balance` terminates: either this period is the last,
      or the balance is not negative and the (positive) payment exceeds the
      interest, so each period retires a positive amount of principal. */
  predicate Amortizes(t: Terms, balance: int) {
    || IsFinal(t, balance)
    || (balance >= 0 && t.payment > 0 && t.payment > Interest(t, balance))
  }

  /** The balance after a non-final period. It falls exactly when the payment
      exceeds the period's interest and stays put exactly when it equals it. */
  function NextBalance(t: Terms, balance: int): (next: int)
    ensures next < balance <==> t.payment > Interest(t, balance)
    ensures next == balance <==> t.payment == Interest(t, balance)
  {
    balance - (t.payment - Interest(t, balance))
  }

  /** Interest grows with the balance when the rate is not negative. */
  lemma InterestMonotone(t: Terms, b1: int, b2: int)
    requires t.rateMillionths >= 0 && b1 <= b2
    ensures Interest(t, b1) <= Interest(t, b2)
  {
    var d: pos := 100 * RateScale * t.paymentsPerYear;
    assert b1 * t.rateMillionths <= b2 * t.rateMillionths by {
      assert b2 * t.rateMillionths - b1 * t.rateMillionths == (b2 - b1) * t.rateMillionths;
    }
    ScaleMonotone(b1 * t.rateMillionths, b2 * t.rateMillionths, d);
    QuantizeMonotone(Fraction(b1 * t.rateMillionths, d), Fraction(b2 * t.rateMillionths, d), CentsPerDollar, HalfUp);
  }

  /** On a smaller non-negative balance the interest is no more than on the
      larger one, or no more than zero when the rate is negative. */
  lemma InterestOnSmallerBalance(t: Terms, b1: int, b2: int)
    requires 0 <= b1 <= b2
    ensures Interest(t, b1) <= Interest(t, b2) || Interest(t, b1) <= 0
  {
    if t.rateMillionths >= 0 {
      InterestMonotone(t, b1, b2);
    } else {
      var d: pos := 100 * RateScale * t.paymentsPerYear;
      assert b1 * t.rateMillionths <= 0;
      ScaleMonotone(b1 * t.rateMillionths, 0, d);
      QuantizeMonotone(Fraction(b1 * t.rateMillionths, d), Fraction(0, d), CentsPerDollar, HalfUp);
      QuantizeExact(Fraction(0, d), CentsPerDollar, HalfUp);
    }
  }

  /** A non-final period of an amortising schedule leaves a positive balance,
      smaller than before, from which the schedule still amortises. */
  lemma AmortizesAfterPayment(t: Terms, balance: int)
    requires Amortizes(t, balance) && !IsFinal(t, balance)
    ensures 0 < NextBalance(t, balance) < balance
    ensures Amortizes(t, NextBalance(t, balance))
  {
    InterestOnSmallerBalance(t, NextBalance(t, balance), balance);
  }

  /** The records the generator yields from `balance` onwards. */
  function ScheduleFrom(t: Terms, balance: int): (s: seq<Payment>)
    requires Amortizes(t, balance)
    ensures |s| >= 1 && s[0].balance == balance
    decreases if balance < 0 then 0 else balance
  {
    var interest := Interest(t, balance);
    if IsFinal(t, balance) then
      [Payment(balance, interest, balance)]
    else
      AmortizesAfterPayment(t, balance);
      [Payment(t.payment - interest, interest, balance)] + ScheduleFrom(t, NextBalance(t, balance))
  }

  /** `s` is a schedule for `principal` under `t`: the first record starts at
      the principal; every record charges the half-up interest on its
      balance; every record but the last is non-final, retires the payment
      less the interest, and leaves the next record's balance; the last is
      final and retires exactly its balance. */
  ghost predicate IsScheduleOf(s: seq<Payment>, t: Terms, principal: int) {
    && |s| >= 1
    && s[0].balance == principal
    && (forall i :: 0 <= i < |s| ==> s[i].interest == Interest(t, s[i].balance))
    && (forall i :: 0 <= i < |s| - 1 ==>
          && !IsFinal(t, s[i].balance)
          && s[i].principal == t.payment - s[i].interest
          && s[i + 1].balance == s[i].balance - s[i].principal)
    && IsFinal(t, s[|s| - 1].balance)
    && s[|s| - 1].principal == s[|s| - 1].balance
  }

  /** The generated records form a schedule for the starting balance. */
  lemma {:induction false} ScheduleIsValid(t: Terms, balance: int)
    requires Amortizes(t, balance)
    ensures IsScheduleOf(ScheduleFrom(t, balance), t, balance)
    decreases if balance < 0 then 0 else balance
  {
    var s := ScheduleFrom(t, balance);
    if !IsFinal(t, balance) {
      AmortizesAfterPayment(t, balance);
      var rest := ScheduleFrom(t, NextBalance(t, balance));
      ScheduleIsValid(t, NextBalance(t, balance));
      assert s == [s[0]] + rest;
      assert forall i :: 1 <= i < |s| ==> s[i] == rest[i - 1];
    }
  }

  /** `period_payment_schedule`: the schedule of a loan paid `payment` cents
      a period, or NonAmortizing when the payment can never retire it. */
  function PeriodPaymentSchedule(loan: Loan, payment: int): (r: ScheduleResult)
    ensures r.Schedule? <==> Amortizes(LoanTerms(loan, payment), loan.amount)
    ensures r.Schedule? ==> IsScheduleOf(r.records, LoanTerms(loan, payment), loan.amount)
  {
    var t := LoanTerms(loan, payment);
    var balance := Dollar(Cents(loan.amount));
    DollarIdempotent(loan.amount, Ceiling);
    if Amortizes(t, balance) then
      ScheduleIsValid(t, balance);
      Schedule(ScheduleFrom(t, balance))
    else
      NonAmortizing
  }

  /** The generator's loop: one record per iteration, stopping after the
      final one. Yields the same records as PeriodPaymentSchedule. */
  method GenerateSchedule(loan: Loan, payment: int) returns (r: ScheduleResult)
    ensures r == PeriodPaymentSchedule(loan, payment)
  {
    var t := LoanTerms(loan, payment);
    var balance := Dollar(Cents(loan.amount));
    DollarIdempotent(loan.amount, Ceiling);
    if !Amortizes(t, balance) {
      return NonAmortizing;
    }
    ghost var whole := ScheduleFrom(t, balance);
    var records: seq<Payment> := [];
    while true
      invariant Amortizes(t, balance)
      invariant records + ScheduleFrom(t, balance) == whole
      decreases if balance < 0 then 0 else balance
    {
      var interest := Interest(t, balance);
      if payment >= balance + interest {
        records := records + [Payment(balance, interest, balance)];
        break;
      }
      var principal := payment - interest;
      records := records + [Payment(principal, interest, balance)];
      AmortizesAfterPayment(t, balance);
      balance := balance - principal;
    }
    return Schedule(records);
  }
}
