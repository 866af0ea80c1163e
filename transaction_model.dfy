/**
 * The Transaction (loan) record: status enum and default, the open
 * `returned_at`, and the `beforeValidate` hook that fills in the due date.
 */
module TransactionModel {
  import opened Wrappers
  import opened ErrorUtil
  import opened Tables
  import opened DateUtil

  datatype LoanStatus = Active | Returned | Overdue

  const DefaultStatus := LoanStatus.Active

  /** `book_id` and `member_id` are nullable foreign keys. */
  datatype Loan = Loan(
    id: Id,
    bookId: Ref,
    memberId: Ref,
    borrowedAt: int,
    dueDate: int,
    returnedAt: Option<int>,
    status: LoanStatus)

  function LoanKey(l: Loan): Id { l.id }

  /** An instance between `build` and validation: `borrowed_at` and `due_date` may still be absent. */
  datatype LoanDraft = LoanDraft(
    id: Id,
    bookId: Ref,
    memberId: Ref,
    borrowedAt: Option<int>,
    dueDate: Option<int>)

  /** The hook: with no due date but a borrow time, the due date is the borrow time plus the loan period. */
  function BeforeValidate(d: LoanDraft, loanPeriodDays: nat): (r: LoanDraft)
    ensures d.dueDate.Some? ==> r == d
    ensures d.borrowedAt.None? ==> r == d
    ensures d.dueDate.None? && d.borrowedAt.Some? ==>
      r == d.(dueDate := Some(CalculateDueDate(d.borrowedAt.value, loanPeriodDays)))
  {
    if d.dueDate.None? && d.borrowedAt.Some? then
      d.(dueDate := Some(CalculateDueDate(d.borrowedAt.value, loanPeriodDays)))
    else d
  }

  /**
   * `Transaction.create(data)` before the INSERT: `borrowed_at` defaults to
   * now, status to active, `returned_at` to null; then the hook and the
   * not-null check on `due_date`.
   */
  function Create(d: LoanDraft, loanPeriodDays: nat, now: int): (r: Result<Loan>)
    ensures r.Ok?
    ensures r.value.id == d.id && r.value.bookId == d.bookId && r.value.memberId == d.memberId
    ensures r.value.status == Active && r.value.returnedAt.None?
    ensures r.value.borrowedAt == d.borrowedAt.GetOr(now)
    ensures r.value.dueDate == if d.dueDate.Some? then d.dueDate.value
                               else r.value.borrowedAt + loanPeriodDays * MsPerDay
  {
    var hooked := BeforeValidate(d.(borrowedAt := Some(d.borrowedAt.GetOr(now))), loanPeriodDays);
    match hooked.dueDate
    case None => Err(ValidationError([NotNullViolation("Transaction", "due_date")]))
    case Some(due) => Ok(Loan(d.id, d.bookId, d.memberId, hooked.borrowedAt.value, due, None, DefaultStatus))
  }

  /** A loan is closed exactly when it carries a return time. */
  predicate Consistent(l: Loan) {
    l.status == Returned <==> l.returnedAt.Some?
  }
}
