/**
 Properties of the amortisation schedule: it is the only schedule for its
 principal, it retires exactly the principal, its balances fall to zero, and
 a payment that does not amortise the loan leaves the generator looping
 forever.
 */
module LoanProperties {
  import opened Money
  import opened Loans

  /** The sum of the principal portions of some records. */
  function SumPrincipal(s: seq<Payment>): int {
    if |s| == 0 then 0 else s[0].principal + SumPrincipal(s[1..])
  }

  /** The balance a record leaves once its payment is made. */
  function BalanceAfter(p: Payment): int {
    p.balance - p.principal
  }

  /** The balance after `k` runs of the loop body that does not stop. */
  function LoopBalance(t: Terms, balance: int, k: nat): int
    decreases k
  {
    if k == 0 then balance else LoopBalance(t, NextBalance(t, balance), k - 1)
  }

  /** Any schedule for an amortising balance is the generated one. */
  lemma {:induction false} ScheduleUnique(s: seq<Payment>, t: Terms, balance: int)
    requires Amortizes(t, balance) && IsScheduleOf(s, t, balance)
    ensures s == ScheduleFrom(t, balance)
    decreases |s|
  {
    if |s| == 1 {
      assert IsFinal(t, balance);
    } else {
      assert !IsFinal(t, s[0].balance);
      AmortizesAfterPayment(t, balance);
      var rest := s[1..];
      assert forall i :: 0 <= i < |rest| ==> rest[i] == s[i + 1];
      assert IsScheduleOf(rest, t, NextBalance(t, balance));
      ScheduleUnique(rest, t, NextBalance(t, balance));
      assert s == [s[0]] + rest;
    }
  }

  /** The principal portions of the schedule add up to the starting balance:
      the final record pays off exactly what the earlier ones left. */
  lemma {:induction false} PrincipalConserved(t: Terms, balance: int)
    requires Amortizes(t, balance)
    ensures SumPrincipal(ScheduleFrom(t, balance)) == balance
    decreases if balance < 0 then 0 else balance
  {
    var s := ScheduleFrom(t, balance);
    if !IsFinal(t, balance) {
      AmortizesAfterPayment(t, balance);
      PrincipalConserved(t, NextBalance(t, balance));
      assert s[1..] == ScheduleFrom(t, NextBalance(t, balance));
    }
  }

  /** The principal retired by two runs of records is the sum of each. */
  lemma {:induction false} SumPrincipalAppend(a: seq<Payment>, b: seq<Payment>)
    ensures SumPrincipal(a + b) == SumPrincipal(a) + SumPrincipal(b)
    decreases |a|
  {
    if |a| == 0 {
      assert a + b == b;
    } else {
      assert (a + b)[1..] == a[1..] + b;
      SumPrincipalAppend(a[1..], b);
    }
  }

  /** The generator's state is its balance alone: from any record on, the
      rest of the schedule is the schedule from that record's balance. */
  lemma {:induction false} ScheduleSuffix(t: Terms, balance: int, k: nat)
    requires Amortizes(t, balance) && k < |ScheduleFrom(t, balance)|
    ensures Amortizes(t, ScheduleFrom(t, balance)[k].balance)
    ensures ScheduleFrom(t, balance)[k..] == ScheduleFrom(t, ScheduleFrom(t, balance)[k].balance)
    decreases k
  {
    if k > 0 {
      var s := ScheduleFrom(t, balance);
      assert !IsFinal(t, balance);
      AmortizesAfterPayment(t, balance);
      var rest := ScheduleFrom(t, NextBalance(t, balance));
      assert s[k..] == rest[k - 1..];
      ScheduleSuffix(t, NextBalance(t, balance), k - 1);
    }
  }

  /** Before record k is paid, the principal retired so far plus the balance
      then owed is the starting balance. */
  lemma RetiredSoFar(t: Terms, balance: int, k: nat)
    requires Amortizes(t, balance) && k < |ScheduleFrom(t, balance)|
    ensures var s := ScheduleFrom(t, balance);
            SumPrincipal(s[..k]) + s[k].balance == balance
  {
    var s := ScheduleFrom(t, balance);
    ScheduleSuffix(t, balance, k);
    assert s == s[..k] + s[k..];
    SumPrincipalAppend(s[..k], s[k..]);
    PrincipalConserved(t, balance);
    PrincipalConserved(t, s[k].balance);
  }

  /** A loan's schedule retires exactly its (rounded) principal, every record
      leaves the next record's balance, and the last leaves a zero balance. */
  lemma LoanPaidOff(loan: Loan, payment: int)
    requires PeriodPaymentSchedule(loan, payment).Schedule?
    ensures var s := PeriodPaymentSchedule(loan, payment).records;
            && SumPrincipal(s) == loan.amount
            && (forall i :: 0 <= i < |s| - 1 ==> BalanceAfter(s[i]) == s[i + 1].balance)
            && BalanceAfter(s[|s| - 1]) == 0
  {
    var t := LoanTerms(loan, payment);
    ScheduleUnique(PeriodPaymentSchedule(loan, payment).records, t, loan.amount);
    PrincipalConserved(t, loan.amount);
  }

  /** Record i of the schedule from `balance`, when it is not the last, is
      paid in full by the level payment and retires a positive part of its
      balance, less than the whole. */
  lemma {:induction false} NonFinalRecord(t: Terms, balance: int, i: nat)
    requires Amortizes(t, balance)
    requires i < |ScheduleFrom(t, balance)| - 1
    ensures ScheduleFrom(t, balance)[i].principal + ScheduleFrom(t, balance)[i].interest == t.payment
    ensures 0 < ScheduleFrom(t, balance)[i].principal < ScheduleFrom(t, balance)[i].balance
    decreases i
  {
    assert !IsFinal(t, balance);
    AmortizesAfterPayment(t, balance);
    if i > 0 {
      NonFinalRecord(t, NextBalance(t, balance), i - 1);
      assert ScheduleFrom(t, balance)[i] == ScheduleFrom(t, NextBalance(t, balance))[i - 1];
    }
  }

  /** Every record but the last is paid in full by the level payment and
      retires a positive part of its balance, less than the whole. */
  lemma NonFinalRecords(t: Terms, balance: int)
    requires Amortizes(t, balance)
    ensures var s := ScheduleFrom(t, balance);
            forall i :: 0 <= i < |s| - 1 ==>
              && s[i].principal + s[i].interest == t.payment
              && 0 < s[i].principal < s[i].balance
  {
    var s := ScheduleFrom(t, balance);
    forall i | 0 <= i < |s| - 1
      ensures s[i].principal + s[i].interest == t.payment
      ensures 0 < s[i].principal < s[i].balance
    {
      NonFinalRecord(t, balance, i);
    }
  }

  /** Balances strictly decrease from record to record and stay positive
      after the first, so a schedule from a non-negative balance has at most
      balance + 1 records. */
  lemma {:induction false} BalancesDecrease(t: Terms, balance: int)
    requires Amortizes(t, balance)
    ensures var s := ScheduleFrom(t, balance);
            && (forall i, j :: 0 <= i < j < |s| ==> s[j].balance < s[i].balance)
            && (forall i :: 1 <= i < |s| ==> s[i].balance > 0)
            && (balance >= 0 ==> |s| <= balance + 1)
    decreases if balance < 0 then 0 else balance
  {
    var s := ScheduleFrom(t, balance);
    if !IsFinal(t, balance) {
      AmortizesAfterPayment(t, balance);
      var rest := ScheduleFrom(t, NextBalance(t, balance));
      BalancesDecrease(t, NextBalance(t, balance));
      assert forall i :: 1 <= i < |s| ==> s[i] == rest[i - 1];
      assert forall j :: 1 <= j < |s| ==> s[j].balance <= rest[0].balance;
    }
  }

  /** With a non-negative rate and balance, no record charges negative
      interest. */
  lemma InterestNonNegative(t: Terms, balance: int)
    requires Amortizes(t, balance)
    requires t.rateMillionths >= 0 && balance >= 0
    ensures var s := ScheduleFrom(t, balance);
            forall i :: 0 <= i < |s| ==> s[i].interest >= 0
  {
    var s := ScheduleFrom(t, balance);
    ScheduleIsValid(t, balance);
    BalancesDecrease(t, balance);
    forall i | 0 <= i < |s|
      ensures s[i].interest >= 0
    {
      assert s[i].balance >= 0;
      assert s[i].interest == Interest(t, s[i].balance);
      InterestNotNegative(t, s[i].balance);
    }
  }

  /** The records follow the loop: record k holds the balance after k
      iterations, and the loop stops at the last record and no earlier. */
  lemma {:induction false} ScheduleFollowsLoop(t: Terms, balance: int, k: nat)
    requires Amortizes(t, balance)
    requires k < |ScheduleFrom(t, balance)|
    ensures ScheduleFrom(t, balance)[k].balance == LoopBalance(t, balance, k)
    ensures IsFinal(t, LoopBalance(t, balance, k)) <==> k == |ScheduleFrom(t, balance)| - 1
    decreases k
  {
    var s := ScheduleFrom(t, balance);
    if k > 0 {
      AmortizesAfterPayment(t, balance);
      var rest := ScheduleFrom(t, NextBalance(t, balance));
      assert s[k] == rest[k - 1];
      ScheduleFollowsLoop(t, NextBalance(t, balance), k - 1);
    } else if |s| > 1 {
      assert !IsFinal(t, balance);
    }
  }

  /** With a non-negative rate and balance, a balance from which the schedule
      does not amortise is followed by a balance at least as large from which
      it does not amortise either. */
  lemma StuckStep(t: Terms, balance: int)
    requires t.rateMillionths >= 0 && balance >= 0 && !Amortizes(t, balance)
    ensures NextBalance(t, balance) >= balance
    ensures !Amortizes(t, NextBalance(t, balance))
  {
    assert balance * t.rateMillionths >= 0;
    InterestIsHalfUp(t, balance);
    var next := NextBalance(t, balance);
    assert t.payment <= Interest(t, balance);
    InterestMonotone(t, balance, next);
  }

  /** Without amortisation (payment at most the interest and short of the
      payoff), the loop never reaches its final record: the balance never
      falls below where it started. */
  lemma {:induction false} NeverPaysOff(t: Terms, balance: int, k: nat)
    requires t.rateMillionths >= 0 && balance >= 0 && !Amortizes(t, balance)
    ensures LoopBalance(t, balance, k) >= balance
    ensures !IsFinal(t, LoopBalance(t, balance, k))
    decreases k
  {
    if k > 0 {
      StuckStep(t, balance);
      NeverPaysOff(t, NextBalance(t, balance), k - 1);
    }
  }

  /** With a non-negative rate and principal, PeriodPaymentSchedule reports
      NonAmortizing exactly when the generator's `while True` loop would run
      forever without reaching its final record. */
  lemma NonAmortizingIffEndless(loan: Loan, payment: int)
    requires RateMillionths(loan) >= 0 && loan.amount >= 0
    ensures var t := LoanTerms(loan, payment);
            (PeriodPaymentSchedule(loan, payment).NonAmortizing? <==>
             forall k: nat :: !IsFinal(t, LoopBalance(t, loan.amount, k)))
  {
    var t := LoanTerms(loan, payment);
    if PeriodPaymentSchedule(loan, payment).NonAmortizing? {
      forall k: nat
        ensures !IsFinal(t, LoopBalance(t, loan.amount, k))
      {
        NeverPaysOff(t, loan.amount, k);
      }
    } else {
      var last := |ScheduleFrom(t, loan.amount)| - 1;
      ScheduleFollowsLoop(t, loan.amount, last);
    }
  }

  /** A worked schedule: $100.00 at 12% a year, paid monthly at $50.00. */
  lemma ThreeMonthSchedule()
    ensures PeriodPaymentSchedule(NewLoan(Fraction(12, 100), Fraction(1, 4), 12, Fraction(100, 1)), 5000)
            == Schedule([Payment(4900, 100, 10000), Payment(4949, 51, 5100), Payment(151, 2, 151)])
  {
    var loan := NewLoan(Fraction(12, 100), Fraction(1, 4), 12, Fraction(100, 1));
    assert loan.amount == 10000;
    assert RateMillionths(loan) == 120000;
    var t := LoanTerms(loan, 5000);
    assert Interest(t, 10000) == 100;
    assert Interest(t, 5100) == 51;
    assert Interest(t, 151) == 2;
    assert ScheduleFrom(t, 151) == [Payment(151, 2, 151)];
    assert ScheduleFrom(t, 5100) == [Payment(4949, 51, 5100), Payment(151, 2, 151)];
  }

  /** Rounding at the edges: ceiling moves up to the next cent on both sides
      of zero, half-up sends an exact half-cent away from zero, and the rate
      quantisation sends an exact half-millionth to the even millionth. */
  lemma RoundingEdges()
    ensures Dollar(Fraction(1, 1000)) == 1
    ensures Dollar(Fraction(-19, 1000)) == -1
    ensures Dollar(Fraction(5, 1000), HalfUp) == 1
    ensures Dollar(Fraction(-5, 1000), HalfUp) == -1
    ensures Dollar(Fraction(4, 1000), HalfUp) == 0
    ensures Quantize(Fraction(25, 10_000_000), 1_000_000, HalfEven) == 2
    ensures Quantize(Fraction(35, 10_000_000), 1_000_000, HalfEven) == 4
  {
  }
}
