/**
 * The lending state machine: borrow eligibility and execution, return
 * execution with the late fine, the suspension rule, and the overdue sweep,
 * each as a function from the store before the call to the store after it
 * and the call's result.
 */
module StateMachine {
  import opened Wrappers
  import opened ErrorUtil
  import opened Tables
  import opened Numbers
  import opened DateUtil
  import opened BookModel
  import opened MemberModel
  import opened TransactionModel
  import opened FineModel
  import opened Store

  const BookNotFoundMessage := "Book not found"
  const MemberNotFoundMessage := "Member not found"
  const NoCopiesMessage := "No copies available for borrowing"
  const MemberSuspendedMessage := "Member is suspended and cannot borrow books"
  const UnpaidFinesMessage := "Member has unpaid fines and cannot borrow books"
  const TransactionNotFoundMessage := "Transaction not found"
  const AlreadyReturnedMessage := "Book has already been returned"

  function BookUnavailableMessage(s: BookStatus): string { "Book is currently " + StatusName(s) }

  function LoanLimitMessage(max: nat): string { "Member cannot borrow more than " + NatToString(max) + " books" }

  /** The reactivation bound written as a literal in the suspension check, whatever the configured threshold. */
  const ReactivationThreshold: nat := 3

  /** `Fine.findOne({ where: { member_id, paid_at: null } })` finds a row. */
  predicate HasUnpaidFine(st: Store, memberId: Id) {
    SelectFines(st.fines, UnpaidOfMember(Some(memberId))) != []
  }

  // ---------------------------------------------------------------- borrowing

  /** Everything a borrow needs, as one condition. */
  predicate Eligible(st: Store, cfg: Config, bookId: Id, memberId: Id) {
    && FindBook(st, bookId).Some?
    && FindMember(st, memberId).Some?
    && st.books[FindBook(st, bookId).value].status == Available
    && st.books[FindBook(st, bookId).value].availableCopies > 0
    && st.members[FindMember(st, memberId).value].status != Suspended
    && CountLoans(st.loans, ActiveOfMember(memberId)) < cfg.maxBooksPerMember
    && !HasUnpaidFine(st, memberId)
  }

  /** `canBorrowBook`: seven checks in a fixed order; the first that fails decides the error. */
  function CanBorrowBook(st: Store, cfg: Config, bookId: Id, memberId: Id): (r: Outcome)
    ensures r.Pass? <==> Eligible(st, cfg, bookId, memberId)
    ensures r.Fail? ==> r.error.isOperational && r.error.statusCode in {Some(400), Some(404)}
    ensures r.Fail? && r.error.statusCode == Some(404) <==> FindBook(st, bookId).None? || FindMember(st, memberId).None?
  {
    match FindBook(st, bookId)
    case None => Fail(AppError(BookNotFoundMessage, 404))
    case Some(i) =>
      match FindMember(st, memberId)
      case None => Fail(AppError(MemberNotFoundMessage, 404))
      case Some(j) =>
        var book, member := st.books[i], st.members[j];
        if book.status != Available then Fail(AppError(BookUnavailableMessage(book.status), 400))
        else if book.availableCopies <= 0 then Fail(AppError(NoCopiesMessage, 400))
        else if member.status == Suspended then Fail(AppError(MemberSuspendedMessage, 400))
        else if CountLoans(st.loans, ActiveOfMember(memberId)) >= cfg.maxBooksPerMember then
          Fail(AppError(LoanLimitMessage(cfg.maxBooksPerMember), 400))
        else if HasUnpaidFine(st, memberId) then Fail(AppError(UnpaidFinesMessage, 400))
        else Pass
  }

  /** The copy count a borrow leaves and the status derived from it. */
  function TakeCopy(b: Book): (r: Book)
    ensures r.availableCopies == b.availableCopies - 1
    ensures r.status == Borrowed <==> r.availableCopies == 0
    ensures r.status != Borrowed ==> r.status == Available
    ensures r == b.(availableCopies := r.availableCopies, status := r.status)
  {
    var next := b.availableCopies - 1;
    b.(availableCopies := next, status := if next == 0 then Borrowed else Available)
  }

  /** The transaction row `borrowBook` creates: borrowed now, due by the hook, active, not returned. */
  function NewLoan(cfg: Config, loanId: Id, bookId: Id, memberId: Id, now: int): (l: Loan)
    ensures l == Loan(loanId, Some(bookId), Some(memberId), now, now + cfg.loanPeriodDays * MsPerDay, None, LoanStatus.Active)
  {
    TransactionModel.Create(LoanDraft(loanId, Some(bookId), Some(memberId), Some(now), None), cfg.loanPeriodDays, now).value
  }

  /**
   * `borrowBook`: the eligibility check, then in one unit the new transaction
   * and the book update. `loanId` is the generated primary key. Any failure
   * rolls the unit back.
   */
  function Borrow(st: Store, cfg: Config, bookId: Id, memberId: Id, loanId: Id, now: int): (res: (Store, Result<Loan>))
    ensures res.1.Err? ==> res.0 == st
    ensures CanBorrowBook(st, cfg, bookId, memberId).Fail? ==> res.1 == Err(CanBorrowBook(st, cfg, bookId, memberId).error)
    ensures res.1.Ok? ==> Eligible(st, cfg, bookId, memberId) && FindLoan(st, loanId).None?
    ensures res.1.Ok? ==>
      && res.1.value == NewLoan(cfg, loanId, bookId, memberId, now)
      && res.0 == st.(loans := st.loans + [res.1.value],
                      books := st.books[FindBook(st, bookId).value := BookModel.BeforeValidate(TakeCopy(st.books[FindBook(st, bookId).value]))])
  {
    match CanBorrowBook(st, cfg, bookId, memberId)
    case Fail(e) => (st, Err(e))
    case Pass =>
      if FindLoan(st, loanId).Some? then (st, Err(UniqueConstraintError("id")))
      else
        var loan := NewLoan(cfg, loanId, bookId, memberId, now);
        var i := FindBook(st, bookId).value;
        match BookModel.Save(TakeCopy(st.books[i]))
        case Err(e) => (st, Err(e))
        case Ok(b) => (st.(loans := st.loans + [loan], books := st.books[i := b]), Ok(loan))
  }

  // ---------------------------------------------------------------- returning

  /** `canReturnBook`: the position of the loan, unless it is missing (404) or already returned (400). */
  function CanReturnBook(st: Store, loanId: Id): (r: Result<nat>)
    ensures r.Ok? <==> FindLoan(st, loanId).Some? && st.loans[FindLoan(st, loanId).value].status != Returned
    ensures r.Ok? ==> r.value == FindLoan(st, loanId).value
    ensures FindLoan(st, loanId).None? ==> r == Err(AppError(TransactionNotFoundMessage, 404))
    ensures FindLoan(st, loanId).Some? && st.loans[FindLoan(st, loanId).value].status == Returned ==>
      r == Err(AppError(AlreadyReturnedMessage, 400))
  {
    match FindLoan(st, loanId)
    case None => Err(AppError(TransactionNotFoundMessage, 404))
    case Some(k) =>
      if st.loans[k].status == Returned then Err(AppError(AlreadyReturnedMessage, 400)) else Ok(k)
  }

  /** The loan as `returnBook` saves it. */
  function Close(l: Loan, now: int): (r: Loan)
    ensures r.status == Returned && r.returnedAt == Some(now)
    ensures r.id == l.id && r.bookId == l.bookId && r.memberId == l.memberId
    ensures r.borrowedAt == l.borrowedAt && r.dueDate == l.dueDate
  {
    l.(returnedAt := Some(now), status := Returned)
  }

  /** The book as `returnBook` asks to save it, before the clamp: one more copy, status available, nothing else touched. */
  function PutBack(b: Book): (r: Book)
    ensures r.availableCopies == b.availableCopies + 1 && r.status == Available
    ensures r == b.(availableCopies := r.availableCopies, status := r.status)
  {
    b.(availableCopies := b.availableCopies + 1, status := Available)
  }

  /**
   * The book update of a return: a missing book, or a `book_id` cleared by
   * the book's deletion, is read through `null`.
   */
  function RestoreCopy(st: Store, bookId: Ref): (r: Result<Store>)
    ensures FindBookRef(st, bookId).None? ==> r == Err(NullDereference("available_copies"))
    ensures r.Ok? ==> FindBookRef(st, bookId).Some?
    ensures r.Ok? ==>
      r.value == st.(books := st.books[FindBookRef(st, bookId).value := BookModel.BeforeValidate(PutBack(st.books[FindBookRef(st, bookId).value]))])
  {
    match FindBookRef(st, bookId)
    case None => Err(NullDereference("available_copies"))
    case Some(i) =>
      match BookModel.Save(PutBack(st.books[i]))
      case Err(e) => Err(e)
      case Ok(b) => Ok(st.(books := st.books[i := b]))
  }

  /** The fine a late return writes: one unpaid row for the loan's member, priced by the overdue days. */
  function LateFine(cfg: Config, l: Loan, fineId: Id, now: int): (f: Fine)
    ensures f == Fine(fineId, l.id, l.memberId, CalculateFineAmount(l.dueDate, cfg.finePerDayCents, now), None)
  {
    FineModel.Create(fineId, l.id, l.memberId, Some(CalculateFineAmount(l.dueDate, cfg.finePerDayCents, now))).value
  }

  /** The fine step of a return: nothing when on time, one new row when late. */
  function AddLateFine(st: Store, cfg: Config, l: Loan, fineId: Id, now: int): (r: Result<Store>)
    ensures !IsOverdue(l.dueDate, now) ==> r == Ok(st)
    ensures IsOverdue(l.dueDate, now) && FindFine(st, fineId).Some? ==> r == Err(UniqueConstraintError("id"))
    ensures IsOverdue(l.dueDate, now) && FindFine(st, fineId).None? ==>
      r == Ok(st.(fines := st.fines + [LateFine(cfg, l, fineId, now)]))
  {
    if !IsOverdue(l.dueDate, now) then Ok(st)
    else if FindFine(st, fineId).Some? then Err(UniqueConstraintError("id"))
    else Ok(st.(fines := st.fines + [LateFine(cfg, l, fineId, now)]))
  }

  // ---------------------------------------------------------------- suspension

  /**
   * The status `checkMemberSuspension` leaves: suspended at or above the
   * threshold; reactivated when suspended and below the literal 3; otherwise
   * unchanged.
   */
  function SuspensionRule(status: MemberStatus, overdue: nat, threshold: nat): (r: MemberStatus)
    ensures overdue >= threshold ==> r == Suspended
    ensures overdue < threshold && overdue < ReactivationThreshold ==> r == MemberStatus.Active
    ensures r == Suspended ==> overdue >= threshold || status == Suspended
    ensures threshold <= overdue || overdue < ReactivationThreshold || r == status
  {
    if overdue >= threshold then Suspended
    else if status.Suspended? && overdue < ReactivationThreshold then MemberStatus.Active
    else status
  }

  /**
   * `checkMemberSuspension`: count the member's overdue loans, then apply the
   * rule. A missing member, or a `member_id` cleared by the member's
   * deletion (then the loans counted are those whose `member_id` is null), is
   * read through `null`: `update` at or above the threshold, `status` below it.
   */
  function EvaluateSuspension(st: Store, cfg: Config, memberId: Ref): (r: Result<Store>)
    ensures r.Ok? <==> FindMemberRef(st, memberId).Some?
    ensures r.Ok? ==> var j := FindMemberRef(st, memberId).value;
      r.value == st.(members := st.members[j := st.members[j].(status :=
        SuspensionRule(st.members[j].status, CountLoans(st.loans, OverdueOfMember(memberId)), cfg.maxOverdueForSuspension))])
  {
    var overdue := CountLoans(st.loans, OverdueOfMember(memberId));
    match FindMemberRef(st, memberId)
    case None => Err(NullDereference(if overdue >= cfg.maxOverdueForSuspension then "update" else "status"))
    case Some(j) =>
      var m := st.members[j];
      Ok(st.(members := st.members[j := m.(status := SuspensionRule(m.status, overdue, cfg.maxOverdueForSuspension))]))
  }

  /**
   * `returnBook`: after `canReturnBook`, one unit closes the loan, restores a
   * copy, writes the late fine and re-evaluates the member's suspension; any
   * failure rolls it back. `fineId` is the generated key of the fine.
   */
  function Return(st: Store, cfg: Config, loanId: Id, fineId: Id, now: int): (res: (Store, Result<Loan>))
    ensures res.1.Err? ==> res.0 == st
    ensures CanReturnBook(st, loanId).Err? ==> res.1 == Err(CanReturnBook(st, loanId).error)
    ensures res.1.Ok? ==> CanReturnBook(st, loanId).Ok?
    ensures res.1.Ok? ==> res.1.value == Close(st.loans[FindLoan(st, loanId).value], now)
  {
    match CanReturnBook(st, loanId)
    case Err(e) => (st, Err(e))
    case Ok(k) =>
      var closed := Close(st.loans[k], now);
      var s1 := st.(loans := st.loans[k := closed]);
      match RestoreCopy(s1, closed.bookId)
      case Err(e) => (st, Err(e))
      case Ok(s2) =>
        match AddLateFine(s2, cfg, closed, fineId, now)
        case Err(e) => (st, Err(e))
        case Ok(s3) =>
          match EvaluateSuspension(s3, cfg, closed.memberId)
          case Err(e) => (st, Err(e))
          case Ok(s4) => (s4, Ok(closed))
  }

  // ---------------------------------------------------------------- overdue sweep

  /** `transaction.update({ status: 'overdue' })` on the row with the snapshot's key (no row, no change). */
  function MarkOverdue(loans: seq<Loan>, id: Id): (r: seq<Loan>)
    ensures |r| == |loans|
    ensures IndexOf(loans, LoanKey, id).None? ==> r == loans
    ensures IndexOf(loans, LoanKey, id).Some? ==>
      r == loans[IndexOf(loans, LoanKey, id).value := loans[IndexOf(loans, LoanKey, id).value].(status := Overdue)]
  {
    match IndexOf(loans, LoanKey, id)
    case None => loans
    case Some(k) => loans[k := loans[k].(status := Overdue)]
  }

  /**
   * The loop of `updateOverdueStatus` over the snapshot `pending`: each late
   * loan is marked overdue (committed at once) and its member re-evaluated;
   * an error stops the loop, keeping what was already written.
   */
  function SweepLoop(st: Store, cfg: Config, now: int, pending: seq<Loan>): (res: (Store, Option<Error>))
    ensures res.0.books == st.books && res.0.fines == st.fines
    ensures |res.0.loans| == |st.loans| && |res.0.members| == |st.members|
    ensures forall i :: 0 <= i < |st.loans| ==>
      res.0.loans[i] == st.loans[i].(status := res.0.loans[i].status) &&
      (res.0.loans[i].status == st.loans[i].status || res.0.loans[i].status == Overdue)
    ensures forall i :: 0 <= i < |st.members| ==> res.0.members[i] == st.members[i].(status := res.0.members[i].status)
    decreases |pending|
  {
    if pending == [] then (st, None)
    else
      var l := pending[0];
      if l.dueDate < now then
        var s1 := st.(loans := MarkOverdue(st.loans, l.id));
        match EvaluateSuspension(s1, cfg, l.memberId)
        case Err(e) => (s1, Some(e))
        case Ok(s2) => SweepLoop(s2, cfg, now, pending[1..])
      else SweepLoop(st, cfg, now, pending[1..])
  }

  /**
   * `updateOverdueStatus`: the loop over a snapshot of the active loans. It
   * touches only statuses: of loans, only to overdue, and of members.
   */
  function Sweep(st: Store, cfg: Config, now: int): (res: (Store, Option<Error>))
    ensures res.0.books == st.books && res.0.fines == st.fines
    ensures |res.0.loans| == |st.loans| && |res.0.members| == |st.members|
    ensures forall i :: 0 <= i < |st.loans| ==>
      res.0.loans[i] == st.loans[i].(status := res.0.loans[i].status) &&
      (res.0.loans[i].status == st.loans[i].status || res.0.loans[i].status == Overdue)
    ensures forall i :: 0 <= i < |st.members| ==> res.0.members[i] == st.members[i].(status := res.0.members[i].status)
  {
    SweepLoop(st, cfg, now, SelectLoans(st.loans, AllActive))
  }
}
