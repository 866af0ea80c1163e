/**
 * Due dates, overdue days and fine amounts. Instants are integer milliseconds
 * and a day is a fixed 86,400,000 ms; amounts are integer cents. The clock
 * reading `new Date()` is the parameter `now`.
 */
module DateUtil {
  import opened Numbers

  const MsPerDay: nat := 86400000
  const DefaultLoanPeriodDays: nat := 14
  const DefaultFinePerDayCents: nat := 50

  /** `borrowedDate` plus `loanPeriodDays` days. */
  function CalculateDueDate(borrowedDate: int, loanPeriodDays: int): (due: int)
    ensures (due - borrowedDate) % MsPerDay == 0
    ensures (due - borrowedDate) / MsPerDay == loanPeriodDays
  {
    DayMultiple(loanPeriodDays);
    borrowedDate + loanPeriodDays * MsPerDay
  }

  lemma DayMultiple(p: int)
    ensures (p * MsPerDay) % MsPerDay == 0 && (p * MsPerDay) / MsPerDay == p
  {
  }

  /** `now > dueDate`. */
  predicate IsOverdue(dueDate: int, now: int) {
    now > dueDate
  }

  /** 0 up to the due instant, then the number of started days past it. */
  function CalculateOverdueDays(dueDate: int, now: int): (days: nat)
    ensures days == 0 <==> now <= dueDate
    ensures now > dueDate ==> (days - 1) * MsPerDay < now - dueDate <= days * MsPerDay
  {
    if now <= dueDate then 0 else CeilDiv(now - dueDate, MsPerDay)
  }

  /** The overdue days times the daily rate. */
  function CalculateFineAmount(dueDate: int, finePerDay: nat, now: int): (amount: nat)
    ensures finePerDay > 0 ==> (amount > 0 <==> IsOverdue(dueDate, now))
    ensures IsOverdue(dueDate, now) ==> amount >= finePerDay
  {
    var days := CalculateOverdueDays(dueDate, now);
    assert days >= 1 ==> days * finePerDay == (days - 1) * finePerDay + finePerDay;
    days * finePerDay
  }

  /** `isOverdue` and a positive day count are the same condition. */
  lemma OverdueIffPositiveDays(dueDate: int, now: int)
    ensures IsOverdue(dueDate, now) <==> CalculateOverdueDays(dueDate, now) > 0
  {
  }

  /** A later clock reading never gives fewer overdue days. */
  lemma OverdueDaysMonotone(dueDate: int, now1: int, now2: int)
    requires now1 <= now2
    ensures CalculateOverdueDays(dueDate, now1) <= CalculateOverdueDays(dueDate, now2)
  {
    var d1 := CalculateOverdueDays(dueDate, now1);
    var d2 := CalculateOverdueDays(dueDate, now2);
    if now1 > dueDate {
      LessFromProducts(d1 - 1, d2, MsPerDay);
    }
  }

  /** A later clock reading never gives a smaller fine. */
  lemma FineAmountMonotone(dueDate: int, finePerDay: nat, now1: int, now2: int)
    requires now1 <= now2
    ensures CalculateFineAmount(dueDate, finePerDay, now1) <= CalculateFineAmount(dueDate, finePerDay, now2)
  {
    OverdueDaysMonotone(dueDate, now1, now2);
    var d1 := CalculateOverdueDays(dueDate, now1);
    var d2 := CalculateOverdueDays(dueDate, now2);
    assert (d2 - d1) * finePerDay >= 0;
  }

  /** The loan period used by the tests: the due date is 14 days after borrowing. */
  lemma DefaultLoanPeriod(borrowedAt: int)
    ensures CalculateDueDate(borrowedAt, DefaultLoanPeriodDays) - borrowedAt == 14 * MsPerDay
  {
  }

  /** Borrowed on day 0 with a 14-day period and returned on day 20: 6 days, 300 cents. */
  lemma FineScenario()
    ensures CalculateOverdueDays(CalculateDueDate(0, DefaultLoanPeriodDays), 20 * MsPerDay) == 6
    ensures CalculateFineAmount(CalculateDueDate(0, DefaultLoanPeriodDays), DefaultFinePerDayCents, 20 * MsPerDay) == 300
  {
  }

  /** One millisecond past the due instant already counts as a whole day. */
  lemma PartialDayCounts(dueDate: int)
    ensures CalculateOverdueDays(dueDate, dueDate + 1) == 1
    ensures CalculateOverdueDays(dueDate, dueDate + MsPerDay) == 1
    ensures CalculateOverdueDays(dueDate, dueDate + MsPerDay + 1) == 2
  {
  }
}
