/**
 * The services as they run against the database: one object holding the
 * four tables, whose methods read and write them step by step in the order
 * the services issue their queries. A database transaction is a snapshot
 * taken before the first write and put back on failure. Each method is
 * proved to leave exactly the state and result of the corresponding
 * function on stores, so every lemma about those functions holds of it.
 */
module Library {
  import opened Wrappers
  import opened ErrorUtil
  import opened Tables
  import opened DateUtil
  import opened BookModel
  import opened MemberModel
  import opened TransactionModel
  import opened FineModel
  import opened Store
  import opened StateMachine
  import BorrowReturn
  import OverdueSweep
  import FineService
  import BookService
  import MemberService

  class Database {
    var books: seq<Book>
    var members: seq<Member>
    var loans: seq<Loan>
    var fines: seq<Fine>
    const cfg: Config

    /** The four tables as one value. */
    function State(): Store
      reads this
    {
      Store(books, members, loans, fines)
    }

    /** An empty database with the given settings. */
    constructor (cfg: Config)
      ensures State() == Store([], [], [], []) && this.cfg == cfg
      ensures ValidStore(State())
    {
      books, members, loans, fines := [], [], [], [];
      this.cfg := cfg;
    }

    /** Rollback: the tables as they were when the transaction began. */
    method Restore(st: Store)
      modifies this
      ensures State() == st
    {
      books, members, loans, fines := st.books, st.members, st.loans, st.fines;
    }

    /**
     * `borrowBook`: the checks, then one transaction that inserts the loan
     * and takes a copy of the book.
     */
    method BorrowBook(bookId: Id, memberId: Id, loanId: Id, now: int) returns (r: Result<Loan>)
      modifies this
      ensures (State(), r) == Borrow(old(State()), cfg, bookId, memberId, loanId, now)
      ensures ValidStore(old(State())) ==> ValidStore(State())
      ensures WithinLoanCap(old(State()), cfg) ==> WithinLoanCap(State(), cfg)
    {
      if ValidStore(State()) { BorrowReturn.BorrowPreservesValid(State(), cfg, bookId, memberId, loanId, now); }
      if WithinLoanCap(State(), cfg) { BorrowReturn.BorrowKeepsLoanCap(State(), cfg, bookId, memberId, loanId, now); }
      var check := CanBorrowBook(State(), cfg, bookId, memberId);
      if check.Fail? {
        return Err(check.error);
      }
      var snapshot := State();
      if FindLoan(State(), loanId).Some? {
        return Err(UniqueConstraintError("id"));
      }
      var loan := NewLoan(cfg, loanId, bookId, memberId, now);
      loans := loans + [loan];
      var i := FindBook(State(), bookId).value;
      var saved := BookModel.Save(TakeCopy(books[i]));
      if saved.Err? {
        Restore(snapshot);
        return Err(saved.error);
      }
      books := books[i := saved.value];
      return Ok(loan);
    }

    /**
     * `checkMemberSuspension`: count the member's overdue loans, then
     * suspend or reactivate. A missing member, or a cleared `member_id`, is
     * the null dereference the service raises, and nothing is written.
     */
    method CheckMemberSuspension(memberId: Ref) returns (e: Option<Error>)
      modifies this
      ensures var r := EvaluateSuspension(old(State()), cfg, memberId);
        && (r.Ok? ==> State() == r.value && e.None?)
        && (r.Err? ==> State() == old(State()) && e == Some(r.error))
    {
      var overdue := CountLoans(loans, OverdueOfMember(memberId));
      var j := FindMemberRef(State(), memberId);
      if j.None? {
        return Some(NullDereference(if overdue >= cfg.maxOverdueForSuspension then "update" else "status"));
      }
      var m := members[j.value];
      if overdue >= cfg.maxOverdueForSuspension {
        members := members[j.value := m.(status := Suspended)];
      } else if m.status == Suspended && overdue < ReactivationThreshold {
        members := members[j.value := m.(status := MemberStatus.Active)];
      }
      return None;
    }

    /**
     * `returnBook`: after `canReturnBook`, one transaction closes the loan,
     * gives the copy back, writes the late fine and re-evaluates the member.
     */
    method ReturnBook(loanId: Id, fineId: Id, now: int) returns (r: Result<Loan>)
      modifies this
      ensures (State(), r) == Return(old(State()), cfg, loanId, fineId, now)
      ensures ValidStore(old(State())) ==> ValidStore(State())
    {
      if ValidStore(State()) { BorrowReturn.ReturnPreservesValid(State(), cfg, loanId, fineId, now); }
      var can := CanReturnBook(State(), loanId);
      if can.Err? {
        return Err(can.error);
      }
      var snapshot := State();
      var k := can.value;
      var closed := Close(loans[k], now);
      loans := loans[k := closed];
      var i := FindBookRef(State(), closed.bookId);
      if i.None? {
        Restore(snapshot);
        return Err(NullDereference("available_copies"));
      }
      var saved := BookModel.Save(PutBack(books[i.value]));
      if saved.Err? {
        Restore(snapshot);
        return Err(saved.error);
      }
      books := books[i.value := saved.value];
      if IsOverdue(closed.dueDate, now) {
        if FindFine(State(), fineId).Some? {
          Restore(snapshot);
          return Err(UniqueConstraintError("id"));
        }
        fines := fines + [LateFine(cfg, closed, fineId, now)];
      }
      var e := CheckMemberSuspension(closed.memberId);
      if e.Some? {
        Restore(snapshot);
        return Err(e.value);
      }
      return Ok(closed);
    }

    /**
     * `updateOverdueStatus`: over a snapshot of the active loans, mark each
     * late one overdue and re-evaluate its member, each write committed on
     * its own; the first error ends the loop and what was written stays. On
     * a consistent database no error can arise.
     */
    method UpdateOverdueStatus(now: int) returns (e: Option<Error>)
      modifies this
      ensures (State(), e) == Sweep(old(State()), cfg, now)
      ensures ValidStore(old(State())) ==> ValidStore(State()) && e.None?
    {
      if ValidStore(State()) {
        OverdueSweep.SweepPreservesValid(State(), cfg, now);
        OverdueSweep.SweepSucceeds(State(), cfg, now);
      }
      var pending := SelectLoans(loans, AllActive);
      var k := 0;
      while k < |pending|
        invariant 0 <= k <= |pending|
        invariant SweepLoop(State(), cfg, now, pending[k..]) == Sweep(old(State()), cfg, now)
      {
        var l := pending[k];
        assert pending[k..][0] == l && pending[k..][1..] == pending[k + 1..];
        var err := SweepStep(l, now);
        if err.Some? {
          return err;
        }
        k := k + 1;
      }
      return None;
    }

    /** One pass of the sweep's loop body: a late loan is marked overdue, then its member re-evaluated. */
    method SweepStep(l: Loan, now: int) returns (err: Option<Error>)
      modifies this
      ensures l.dueDate >= now ==> State() == old(State()) && err.None?
      ensures l.dueDate < now ==>
        var s1 := old(State()).(loans := MarkOverdue(old(loans), l.id));
        var r := EvaluateSuspension(s1, cfg, l.memberId);
        && (r.Ok? ==> State() == r.value && err.None?)
        && (r.Err? ==> State() == s1 && err == Some(r.error))
    {
      if l.dueDate >= now {
        return None;
      }
      var i := IndexOf(loans, LoanKey, l.id);
      if i.Some? {
        loans := loans[i.value := loans[i.value].(status := Overdue)];
      }
      err := CheckMemberSuspension(l.memberId);
    }

    /**
     * `payFine`: the payment is saved on its own before the member is
     * looked at; a suspended member left with no unpaid fine is reactivated.
     */
    method PayFine(fineId: Id, now: int) returns (r: Result<Fine>)
      modifies this
      ensures (State(), r) == FineService.PayFine(old(State()), fineId, now)
      ensures ValidStore(old(State())) ==> ValidStore(State())
    {
      if ValidStore(State()) { FineService.PayFinePreservesValid(State(), fineId, now); }
      var i := FindFine(State(), fineId);
      if i.None? {
        return Err(AppError(FineService.FineNotFoundMessage, 404));
      }
      var fine := fines[i.value];
      if IsPaid(fine) {
        return Err(AppError(FineService.AlreadyPaidMessage, 400));
      }
      var j := FindMemberRef(State(), fine.memberId);
      var paid := fine.(paidAt := Some(now));
      fines := fines[i.value := paid];
      if j.None? {
        return Err(NullDereference("status"));
      }
      if members[j.value].status == Suspended {
        var unpaid := |SelectFines(fines, UnpaidOfMember(fine.memberId))|;
        if unpaid == 0 {
          members := members[j.value := members[j.value].(status := MemberStatus.Active)];
        }
      }
      return Ok(paid);
    }

    /** `createBook`. */
    method CreateBook(bookId: Id, input: BookInput) returns (r: Result<Book>)
      modifies this
      ensures (State(), r) == BookService.CreateBook(old(State()), bookId, input)
      ensures ValidStore(old(State())) ==> ValidStore(State())
    {
      if ValidStore(State()) { BookService.CreateBookPreservesValid(State(), bookId, input); }
      if input.availableCopies.Some? && input.totalCopies.Some? && input.availableCopies.value > input.totalCopies.value {
        return Err(AppError(BookService.CopiesExceedTotalMessage, 400));
      }
      var created := BookModel.Create(bookId, input);
      if created.Err? {
        return created;
      }
      if FindBook(State(), bookId).Some? {
        return Err(UniqueConstraintError("id"));
      }
      if BookService.IsbnTakenByOther(books, -1, created.value.isbn) {
        return Err(UniqueConstraintError("isbn"));
      }
      books := books + [created.value];
      return created;
    }

    /** `updateBook`. */
    method UpdateBook(bookId: Id, data: BookInput) returns (r: Result<Book>)
      modifies this
      ensures (State(), r) == BookService.UpdateBook(old(State()), bookId, data)
      ensures ValidStore(old(State())) ==> ValidStore(State())
    {
      if ValidStore(State()) { BookService.UpdateBookPreservesValid(State(), bookId, data); }
      var i := FindBook(State(), bookId);
      if i.None? {
        return Err(AppError(BookNotFoundMessage, 404));
      }
      if data.availableCopies.Some? {
        return Err(AppError(BookService.CopiesManagedMessage, 400));
      }
      var saved := BookModel.Save(BookModel.Assign(books[i.value], data));
      if saved.Err? {
        return saved;
      }
      if BookService.IsbnTakenByOther(books, i.value, saved.value.isbn) {
        return Err(UniqueConstraintError("isbn"));
      }
      books := books[i.value := saved.value];
      return saved;
    }

    /** `deleteBook`: the row goes, and the database clears `book_id` where it pointed at it. */
    method DeleteBook(bookId: Id) returns (r: Result<string>)
      modifies this
      ensures (State(), r) == BookService.DeleteBook(old(State()), bookId)
      ensures ValidStore(old(State())) ==> ValidStore(State())
    {
      var i := FindBook(State(), bookId);
      if i.None? {
        return Err(AppError(BookNotFoundMessage, 404));
      }
      if CountLoans(loans, ActiveOfBook(bookId)) > 0 {
        return Err(AppError(BookService.ActiveBorrowingsMessage, 400));
      }
      if ValidStore(State()) { BookService.DeleteBookEffect(State(), bookId); }
      books := RemoveAt(books, i.value);
      loans := UnlinkBookLoans(loans, bookId);
      return Ok(BookService.BookDeletedMessage);
    }

    /** `updateBookStatus`. */
    method UpdateBookStatus(bookId: Id, status: string) returns (r: Result<Book>)
      modifies this
      ensures (State(), r) == BookService.UpdateBookStatus(old(State()), bookId, status)
      ensures ValidStore(old(State())) ==> ValidStore(State())
    {
      var s := BookModel.ParseStatus(status);
      if s.None? {
        return Err(AppError(BookService.InvalidStatusMessage, 400));
      }
      var i := FindBook(State(), bookId);
      if i.None? {
        return Err(AppError(BookNotFoundMessage, 404));
      }
      if s.value == Available && books[i.value].availableCopies <= 0 {
        return Err(AppError(BookService.NoCopiesForAvailableMessage, 400));
      }
      var saved := BookModel.Save(books[i.value].(status := s.value));
      if saved.Err? {
        return saved;
      }
      if ValidStore(State()) {
        BookService.UpdateBookStatusOnlyStatus(State(), bookId, status);
      }
      books := books[i.value := saved.value];
      return saved;
    }

    /** `createMember`. */
    method CreateMember(memberId: Id, input: MemberInput, now: int) returns (r: Result<Member>)
      modifies this
      ensures (State(), r) == MemberService.CreateMember(old(State()), memberId, input, now)
      ensures ValidStore(old(State())) ==> ValidStore(State())
    {
      if ValidStore(State()) { MemberService.CreateMemberPreservesValid(State(), memberId, input, now); }
      var data := input;
      if !MemberService.Truthy(data.membershipNumber) {
        data := data.(membershipNumber := Some(MemberService.GeneratedNumber(now)));
      }
      var created := MemberModel.Create(memberId, data);
      if created.Err? {
        return created;
      }
      var m := created.value;
      if FindMember(State(), memberId).Some? {
        return Err(UniqueConstraintError("id"));
      }
      if MemberService.TakenByOther(members, -1, MemberEmail, m.email) {
        return Err(UniqueConstraintError("email"));
      }
      if MemberService.TakenByOther(members, -1, MemberNumber, m.membershipNumber) {
        return Err(UniqueConstraintError("membership_number"));
      }
      members := members + [m];
      return created;
    }

    /** `updateMember`. */
    method UpdateMember(memberId: Id, data: MemberInput) returns (r: Result<Member>)
      modifies this
      ensures (State(), r) == MemberService.UpdateMember(old(State()), memberId, data)
      ensures ValidStore(old(State())) ==> ValidStore(State())
    {
      if ValidStore(State()) { MemberService.UpdateMemberPreservesValid(State(), memberId, data); }
      var j := FindMember(State(), memberId);
      if j.None? {
        return Err(AppError(MemberNotFoundMessage, 404));
      }
      var m := members[j.value];
      if MemberService.Truthy(data.membershipNumber) && data.membershipNumber.value != m.membershipNumber {
        return Err(AppError(MemberService.NumberUnchangeableMessage, 400));
      }
      var saved := MemberModel.Save(MemberModel.Assign(m, data));
      if saved.Err? {
        return saved;
      }
      if MemberService.TakenByOther(members, j.value, MemberEmail, saved.value.email) {
        return Err(UniqueConstraintError("email"));
      }
      if MemberService.TakenByOther(members, j.value, MemberNumber, saved.value.membershipNumber) {
        return Err(UniqueConstraintError("membership_number"));
      }
      members := members[j.value := saved.value];
      return saved;
    }

    /** `deleteMember`: the row goes, and the database clears `member_id` on the member's transactions and fines. */
    method DeleteMember(memberId: Id) returns (r: Result<string>)
      modifies this
      ensures (State(), r) == MemberService.DeleteMember(old(State()), memberId)
      ensures ValidStore(old(State())) ==> ValidStore(State())
    {
      var j := FindMember(State(), memberId);
      if j.None? {
        return Err(AppError(MemberNotFoundMessage, 404));
      }
      if CountLoans(loans, ActiveOfMember(memberId)) > 0 {
        return Err(AppError(MemberService.ActiveBorrowingsMessage, 400));
      }
      if ValidStore(State()) { MemberService.DeleteMemberEffect(State(), memberId); }
      members := RemoveAt(members, j.value);
      loans := UnlinkMemberLoans(loans, memberId);
      fines := UnlinkMemberFines(fines, memberId);
      return Ok(MemberService.MemberDeletedMessage);
    }
  }
}
