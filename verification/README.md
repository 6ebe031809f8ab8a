# Fixed-point loan amortisation schedule

A Dafny model of the amortisation core of a small loan calculator (`loan.py`):
the `dollar` rounding helper, the principal rounding done when a `Loan` is
constructed, and the `period_payment_schedule` generator, which yields one
record `(principal portion, interest, balance before payment)` per period
until the loan is paid off.

Money is whole cents (`int`), the annual rate is quantised to whole
millionths, and every unrounded quantity is an exact fraction
(`Money.Fraction`). The periodic payment is an input in cents.

- `money.dfy`, module `Money`: `Quantize` rounds a fraction to whole units of
  1/scale under ceiling, half-up or half-even rounding, characterised by the
  predicate `RoundsTo`; `Dollar` is the two-place case (`dollar`).
- `loan.dfy`, module `Loans`: the `Loan` record and its constructor, the
  rate quantisation, the per-period `Interest`, the recursive `ScheduleFrom`
  (the generator's records, with the balance as termination measure), the
  declarative `IsScheduleOf`, `PeriodPaymentSchedule` (records or
  `NonAmortizing`) and `GenerateSchedule`, the generator's loop as a method.
- `loan_properties.dfy`, module `LoanProperties`: uniqueness of the schedule,
  conservation of principal, exact payoff, strictly decreasing balances,
  the correspondence with the loop, and the endless loop when the payment
  does not amortise the loan.

How the model reads `loan.py`, and where it departs from it:
- The rate is quantised at loan.py:58 without a rounding argument, so the
  decimal context's default rounding, round-half-even, applies; the model
  quantises it with `HalfEven`.
- The constructor (loan.py:19-23) validates nothing, and neither does
  `Loans.NewLoan`: every input gives a loan.
- Departure: the loop at loan.py:59-67 has no exit when the payment does not amortise
  the loan; `Loans.PeriodPaymentSchedule` returns `NonAmortizing` instead of
  looping, and `LoanProperties.NonAmortizingIffEndless` proves that, for a
  non-negative rate and principal, it does so exactly when the loop never
  ends.

## Model

| member | source | states |
|---|---|---|
| Money.Quantize | loan.py:10-16 | The result is the rounding of the fraction to whole units of 1/scale: for ceiling the least whole unit not below it; for half-up the nearest, an exact half going away from zero; for half-even the nearest, an exact half going to the even unit. |
| Money.QuantizeCharacterised | loan.py:16 | A whole unit count meets the rounding specification if and only if it is the one Quantize returns, so the specification fixes the result. |
| Money.QuantizeExact | loan.py:16 | A value already on a unit boundary is returned unchanged in every rounding mode. |
| Money.QuantizeMonotone | loan.py:16 | A larger quantity never rounds to fewer units, in every mode, whatever the denominators of the two fractions. |
| Money.Dollar | loan.py:10-16 | Ceiling gives a whole number of cents at or above the value and less than a cent above it; half-up gives cents within half a cent of the value, an exact half-cent going away from zero, never negative for a non-negative value. |
| Money.DollarIdempotent | loan.py:57 | Re-rounding a whole number of cents returns it unchanged in every mode, so rounding the already rounded principal again changes nothing. |
| Loans.NewLoan | loan.py:19-23 | The loan keeps rate, term and payments per year, and its principal is the least whole number of cents at or above the given amount. |
| Loans.RateMillionths | loan.py:58 | The rate in millionths is within half a millionth of the annual rate, an exact half going to the even millionth. |
| Loans.Interest | loan.py:60-61 | A period's interest is balance times rate over payments per year, taken in dollars and rounded half-up to whole cents. |
| Loans.IsFinal | loan.py:62 | The loop's stopping test holds exactly when a regular period would leave no balance owing. |
| Loans.NextBalance | loan.py:65-67 | The balance after a period falls exactly when the payment exceeds the interest and stays the same exactly when the two are equal. |
| Loans.InterestIsHalfUp | loan.py:60-61 | A period's interest is within half a cent of balance times rate over payments per year, an exact half-cent going away from zero, and not negative when that product is not. |
| Loans.InterestMonotone | loan.py:60-61 | At a non-negative rate the interest never decreases as the balance grows. |
| Loans.InterestNotNegative | loan.py:60-61 | A non-negative balance at a non-negative rate accrues no negative interest. |
| Loans.AmortizesAfterPayment | loan.py:62-67 | After a non-final period of an amortising schedule the balance is positive and strictly smaller, and the schedule from it still amortises. |
| Loans.ScheduleFrom | loan.py:59-67 | The generator yields at least one record and the first starts at the given balance; it terminates with the balance as measure. |
| Loans.ScheduleIsValid | loan.py:59-67 | The generated records form a schedule: half-up interest on each balance, payment less interest retired by each non-final record, each balance the previous less its principal, and a final record that retires exactly its balance. |
| Loans.PeriodPaymentSchedule | loan.py:55-67 | A schedule is produced exactly when the payment amortises the rounded principal, and then it is a schedule for that principal. |
| Loans.GenerateSchedule | loan.py:55-67 | The loop that appends one record per iteration and stops after the final one yields the same result as PeriodPaymentSchedule. |
| LoanProperties.ScheduleUnique | loan.py:59-67 | Any sequence of records that is a schedule for an amortising balance equals the generated one. |
| LoanProperties.PrincipalConserved | loan.py:62-67 | The principal portions of the schedule sum to the starting balance. |
| LoanProperties.ScheduleSuffix | loan.py:59-67 | From any record on, the remaining records are exactly those the generator yields from that record's balance: the loop carries no state but the balance. |
| LoanProperties.RetiredSoFar | loan.py:65-67 | Before each record is paid, the principal retired by the earlier records plus the balance then owed equals the starting balance. |
| LoanProperties.LoanPaidOff | loan.py:55-67 | A loan's principal portions sum to its rounded principal, each record leaves the next record's balance, and the final record leaves a balance of exactly zero. |
| LoanProperties.NonFinalRecord | loan.py:65-67 | A non-final record's principal and interest add up to the payment, and its principal is positive and less than its balance. |
| LoanProperties.NonFinalRecords | loan.py:62-67 | Every record but the last has principal plus interest equal to the payment and a principal strictly between zero and its balance. |
| LoanProperties.BalancesDecrease | loan.py:59-67 | Balances strictly decrease from record to record, stay positive after the first, and a schedule from a non-negative balance has at most balance + 1 records. |
| LoanProperties.InterestNonNegative | loan.py:58-61 | At a non-negative rate and balance, no record of the schedule charges negative interest. |
| LoanProperties.ScheduleFollowsLoop | loan.py:59-64 | Record k carries the balance after k iterations of the loop, and the loop's stopping test holds at the last record and at no earlier one. |
| LoanProperties.StuckStep | loan.py:59-67 | At a non-negative rate and balance, when the payment does not amortise the loan, one iteration leaves a balance no smaller, from which it still does not amortise. |
| LoanProperties.NeverPaysOff | loan.py:59-67 | At a non-negative rate and balance, a payment that does not amortise the loan never reaches the final record, however many iterations run. |
| LoanProperties.NonAmortizingIffEndless | loan.py:55-67 | At a non-negative rate and principal, NonAmortizing is reported if and only if the loop never reaches its final record. |
| LoanProperties.ThreeMonthSchedule | loan.py:55-67 | $100.00 at 12% paid monthly at $50.00 gives the records (49.00, 1.00, 100.00), (49.49, 0.51, 51.00), (1.51, 0.02, 1.51). |
| LoanProperties.RoundingEdges | loan.py:10-16 | Ceiling rounds 0.001 to 0.01 and -0.019 to -0.01; half-up rounds 0.005 to 0.01, -0.005 to -0.01 and 0.004 to 0.00; six-place half-even rounds 0.0000025 to 0.000002 and 0.0000035 to 0.000004. |

## Left out

- `period_growth`, `apy`, `loan_periods`, `period_payment`, `total_value`, `annual_payment` and `total_payout` (loan.py:28-53): binary floating point and real exponentiation; the periodic payment is an input of the schedule instead.
- `rate`, `loan_years` and `amount` (loan.py:25-40) are the fields of `Loans.Loan`.
- The float and string coercions in `dollar`, the constructor and the rate quantisation (loan.py:14-15, 20-22, and `Decimal(str(self.rate()))` at loan.py:58): inputs are exact fractions and an integer count of payments per year, so the rate stored as a float and printed back to a decimal string is taken to be the decimal it was given as.
- The 28-digit precision of the decimal context at loan.py:60: the model divides exactly. The quotient has denominator 10^8 times the payments per year, so for realistic amounts it cannot fall within 28 digits of a half-cent boundary. Quantising a value whose digits exceed the context precision (an error in the code) is not modelled either.
- Payments per year of zero or less: the type is positive. The code would divide by zero at loan.py:29 and loan.py:60, or flip the sign of the interest.
- The laziness of the generator: the schedule is the complete sequence. Each call recomputes it from the loan, as the code does.
- `print_summary` and `main` (loan.py:69-96): report formatting and argument parsing.
- The zero rate: the generator first computes its payment (loan.py:56), and at rate 0 that formula (loan.py:43) divides zero by zero and raises `ZeroDivisionError` before any record is yielded. The model takes the payment as an input, so at rate 0 every period charges no interest and a positive payment gives a complete schedule.
- Loans.PeriodPaymentSchedule: reports `NonAmortizing` for some negative principals, or negative rates with a payment of zero or less, where the code's loop might still end; for a non-negative rate and principal it reports it exactly when the loop never ends.
