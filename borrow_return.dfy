/**
 * What borrowing and returning do to the store: the first failing check
 * decides a refused borrow, a refused call changes nothing, the copy count
 * moves by one within its bounds, the loan cap holds, a loan is returned at
 * most once, and a late return writes exactly one fine.
 */
module BorrowReturn {
  import opened Wrappers
  import opened ErrorUtil
  import opened Tables
  import opened DateUtil
  import opened BookModel
  import opened MemberModel
  import opened TransactionModel
  import opened FineModel
  import opened Store
  import opened StateMachine

  // ---------------------------------------------------------------- borrow

  /** The checks of `canBorrowBook` in order: each error is reported only when every earlier check passed. */
  lemma CanBorrowBookFirstFailure(st: Store, cfg: Config, bookId: Id, memberId: Id)
    ensures FindBook(st, bookId).None? ==> CanBorrowBook(st, cfg, bookId, memberId) == Fail(AppError("Book not found", 404))
    ensures FindBook(st, bookId).Some? && FindMember(st, memberId).None? ==>
      CanBorrowBook(st, cfg, bookId, memberId) == Fail(AppError("Member not found", 404))
    ensures FindBook(st, bookId).Some? && FindMember(st, memberId).Some? ==>
      var b, m := st.books[FindBook(st, bookId).value], st.members[FindMember(st, memberId).value];
      var active := CountLoans(st.loans, ActiveOfMember(memberId));
      CanBorrowBook(st, cfg, bookId, memberId) ==
        if b.status != Available then Fail(AppError(BookUnavailableMessage(b.status), 400))
        else if b.availableCopies <= 0 then Fail(AppError("No copies available for borrowing", 400))
        else if m.status == Suspended then Fail(AppError("Member is suspended and cannot borrow books", 400))
        else if active >= cfg.maxBooksPerMember then Fail(AppError(LoanLimitMessage(cfg.maxBooksPerMember), 400))
        else if HasUnpaidFine(st, memberId) then Fail(AppError("Member has unpaid fines and cannot borrow books", 400))
        else Pass
  {
  }

  /** On a consistent store a borrow succeeds exactly when the member is eligible and the new key is free. */
  lemma BorrowSucceedsIff(st: Store, cfg: Config, bookId: Id, memberId: Id, loanId: Id, now: int)
    requires ValidStore(st)
    ensures Borrow(st, cfg, bookId, memberId, loanId, now).1.Ok? <==>
      Eligible(st, cfg, bookId, memberId) && FindLoan(st, loanId).None?
  {
    if Eligible(st, cfg, bookId, memberId) && FindLoan(st, loanId).None? {
      var i := FindBook(st, bookId).value;
      assert st.books[i] in st.books;
    }
  }

  /**
   * A successful borrow writes one new active loan, borrowed now and due
   * after the loan period; members and fines are untouched.
   */
  lemma BorrowEffect(st: Store, cfg: Config, bookId: Id, memberId: Id, loanId: Id, now: int)
    requires Borrow(st, cfg, bookId, memberId, loanId, now).1.Ok?
    ensures var (st', r) := Borrow(st, cfg, bookId, memberId, loanId, now);
      && st'.loans == st.loans + [r.value]
      && r.value.id == loanId && r.value.bookId == Some(bookId) && r.value.memberId == Some(memberId)
      && r.value.status == LoanStatus.Active && r.value.borrowedAt == now && r.value.returnedAt.None?
      && r.value.dueDate == CalculateDueDate(now, cfg.loanPeriodDays)
      && st'.members == st.members && st'.fines == st.fines
  {
  }

  /**
   * On a consistent store a borrow takes exactly one copy of the book, which
   * becomes `borrowed` exactly when none is left, and changes no other book.
   */
  lemma BorrowTakesOneCopy(st: Store, cfg: Config, bookId: Id, memberId: Id, loanId: Id, now: int)
    requires ValidStore(st)
    requires Borrow(st, cfg, bookId, memberId, loanId, now).1.Ok?
    ensures var st' := Borrow(st, cfg, bookId, memberId, loanId, now).0;
      var i := FindBook(st, bookId).value;
      && |st'.books| == |st.books|
      && (forall j :: 0 <= j < |st.books| && j != i ==> st'.books[j] == st.books[j])
      && st'.books[i].availableCopies == st.books[i].availableCopies - 1
      && (st'.books[i].status == Borrowed <==> st'.books[i].availableCopies == 0)
      && (st'.books[i].status == Borrowed || st'.books[i].status == Available)
      && st'.books[i] == st.books[i].(availableCopies := st'.books[i].availableCopies, status := st'.books[i].status)
  {
    var st' := Borrow(st, cfg, bookId, memberId, loanId, now).0;
    var i := FindBook(st, bookId).value;
    var b := st.books[i];
    assert b in st.books;
    assert BookModel.BeforeValidate(TakeCopy(b)) == TakeCopy(b);
    assert st'.books == st.books[i := TakeCopy(b)];
  }

  /** The loan cap: after a successful borrow the member holds at most the configured number of active loans. */
  lemma BorrowRespectsLoanCap(st: Store, cfg: Config, bookId: Id, memberId: Id, loanId: Id, now: int)
    requires Borrow(st, cfg, bookId, memberId, loanId, now).1.Ok?
    ensures CountLoans(Borrow(st, cfg, bookId, memberId, loanId, now).0.loans, ActiveOfMember(memberId)) <= cfg.maxBooksPerMember
  {
    var (st', r) := Borrow(st, cfg, bookId, memberId, loanId, now);
    CountLoansAppend(st.loans, r.value, ActiveOfMember(memberId));
  }

  /** A store within the loan cap stays within it across any borrow. */
  lemma BorrowKeepsLoanCap(st: Store, cfg: Config, bookId: Id, memberId: Id, loanId: Id, now: int)
    requires WithinLoanCap(st, cfg)
    ensures WithinLoanCap(Borrow(st, cfg, bookId, memberId, loanId, now).0, cfg)
  {
    var (st', r) := Borrow(st, cfg, bookId, memberId, loanId, now);
    if r.Ok? {
      forall m
        ensures CountLoans(st'.loans, ActiveOfMember(m)) <= cfg.maxBooksPerMember
      {
        CountLoansAppend(st.loans, r.value, ActiveOfMember(m));
      }
    }
  }

  /**
   * A member already holding the maximum of active loans is refused with the
   * limit message (when the earlier checks pass), and nothing is written.
   */
  lemma BorrowBeyondLimitRefused(st: Store, cfg: Config, bookId: Id, memberId: Id, loanId: Id, now: int)
    requires FindBook(st, bookId).Some? && FindMember(st, memberId).Some?
    requires st.books[FindBook(st, bookId).value].status == Available
    requires st.books[FindBook(st, bookId).value].availableCopies > 0
    requires st.members[FindMember(st, memberId).value].status == MemberStatus.Active
    requires CountLoans(st.loans, ActiveOfMember(memberId)) >= cfg.maxBooksPerMember
    ensures Borrow(st, cfg, bookId, memberId, loanId, now) == (st, Err(AppError(LoanLimitMessage(cfg.maxBooksPerMember), 400)))
  {
  }

  /**
   * Only `active` loans count towards the limit: marking one of the member's
   * active loans overdue frees a place.
   */
  lemma OverdueLoansLeaveTheCount(loans: seq<Loan>, k: nat, memberId: Id)
    requires k < |loans| && loans[k].status == LoanStatus.Active && loans[k].memberId == Some(memberId)
    ensures CountLoans(loans[k := loans[k].(status := Overdue)], ActiveOfMember(memberId)) ==
      CountLoans(loans, ActiveOfMember(memberId)) - 1
  {
    CountLoansUpdate(loans, k, loans[k].(status := Overdue), ActiveOfMember(memberId));
  }

  /**
   * A borrow keeps every record valid, the copy counters within bounds, every
   * key unique and every active loan linked: the new one names the book and
   * the member the eligibility check found.
   */
  lemma BorrowPreservesValid(st: Store, cfg: Config, bookId: Id, memberId: Id, loanId: Id, now: int)
    requires ValidStore(st)
    ensures ValidStore(Borrow(st, cfg, bookId, memberId, loanId, now).0)
  {
    var (st', r) := Borrow(st, cfg, bookId, memberId, loanId, now);
    if r.Ok? {
      var i := FindBook(st, bookId).value;
      SaveEstablishesBounds(TakeCopy(st.books[i]));
      BooksValidAfterUpdate(st.books, i, BookModel.BeforeValidate(TakeCopy(st.books[i])));
      LoansValidAfterAppend(st.loans, r.value);
      BorrowKeepsLinked(st, cfg, bookId, memberId, loanId, now);
    }
  }

  /** The loan a borrow adds names a book and a member that are stored, and no key changes. */
  lemma BorrowKeepsLinked(st: Store, cfg: Config, bookId: Id, memberId: Id, loanId: Id, now: int)
    requires ActiveLoansLinked(st)
    ensures ActiveLoansLinked(Borrow(st, cfg, bookId, memberId, loanId, now).0)
  {
    var (st', r) := Borrow(st, cfg, bookId, memberId, loanId, now);
    if r.Ok? {
      forall id
        ensures FindBook(st', id) == FindBook(st, id)
      {
        IndexOfSameKeys(st.books, st'.books, BookKey, id);
      }
      LinkedAfter(st, st', None, None);
    }
  }

  // ---------------------------------------------------------------- return

  /** A return of an unknown loan is a 404 and of a returned loan a 400; neither changes the store. */
  lemma ReturnRefusals(st: Store, cfg: Config, loanId: Id, fineId: Id, now: int)
    ensures FindLoan(st, loanId).None? ==>
      Return(st, cfg, loanId, fineId, now) == (st, Err(AppError("Transaction not found", 404)))
    ensures FindLoan(st, loanId).Some? && st.loans[FindLoan(st, loanId).value].status == Returned ==>
      Return(st, cfg, loanId, fineId, now) == (st, Err(AppError("Book has already been returned", 400)))
  {
  }

  /**
   * A successful return, step by step: the loan closed in place, the book's
   * copy restored through the clamp with status `available`, the fine row
   * appended exactly when the return is late, and the member's status put
   * through the suspension rule with the overdue count after the close.
   */
  lemma ReturnEffect(st: Store, cfg: Config, loanId: Id, fineId: Id, now: int)
    requires Return(st, cfg, loanId, fineId, now).1.Ok?
    ensures var st' := Return(st, cfg, loanId, fineId, now).0;
      var k := FindLoan(st, loanId).value;
      var l := st.loans[k];
      && FindBookRef(st, l.bookId).Some? && FindMemberRef(st, l.memberId).Some?
      && l.status != Returned
      && st'.loans == st.loans[k := Close(l, now)]
      && st'.books == st.books[FindBookRef(st, l.bookId).value :=
           BookModel.BeforeValidate(PutBack(st.books[FindBookRef(st, l.bookId).value]))]
      && st'.fines == st.fines + (if IsOverdue(l.dueDate, now) then [LateFine(cfg, l, fineId, now)] else [])
      && var j := FindMemberRef(st, l.memberId).value;
         st'.members == st.members[j := st.members[j].(status := SuspensionRule(st.members[j].status,
           CountLoans(st.loans[k := Close(l, now)], OverdueOfMember(l.memberId)), cfg.maxOverdueForSuspension))]
  {
    var k := FindLoan(st, loanId).value;
    var l := st.loans[k];
    var closed := Close(l, now);
    assert LateFine(cfg, closed, fineId, now) == LateFine(cfg, l, fineId, now);
  }

  /**
   * The copy a return gives back: one more, cut down to the total by the
   * clamp, and the status `available` whatever it was before (reserved and
   * maintenance included).
   */
  lemma ReturnRestoresCopy(st: Store, cfg: Config, loanId: Id, fineId: Id, now: int)
    requires ValidStore(st)
    requires Return(st, cfg, loanId, fineId, now).1.Ok?
    ensures var st' := Return(st, cfg, loanId, fineId, now).0;
      var l := st.loans[FindLoan(st, loanId).value];
      var i := FindBookRef(st, l.bookId).value;
      var b := st.books[i];
      && st'.books[i].availableCopies == (if b.availableCopies + 1 > b.totalCopies then b.totalCopies else b.availableCopies + 1)
      && st'.books[i].availableCopies <= st'.books[i].totalCopies == b.totalCopies
      && st'.books[i].status == Available
      && st'.books[i] == b.(availableCopies := st'.books[i].availableCopies, status := Available)
  {
    ReturnEffect(st, cfg, loanId, fineId, now);
  }

  /**
   * A return writes a fine exactly when it is late (`now > due_date`); the
   * fine is unpaid, belongs to the loan and its member, and costs the overdue
   * days times the daily rate.
   */
  lemma ReturnFineIffLate(st: Store, cfg: Config, loanId: Id, fineId: Id, now: int)
    requires Return(st, cfg, loanId, fineId, now).1.Ok?
    ensures var st' := Return(st, cfg, loanId, fineId, now).0;
      var l := st.loans[FindLoan(st, loanId).value];
      && (|st'.fines| == |st.fines| + 1 <==> now > l.dueDate)
      && (now <= l.dueDate ==> st'.fines == st.fines)
      && (now > l.dueDate ==>
            && st'.fines[..|st.fines|] == st.fines
            && var f := st'.fines[|st.fines|];
               && f.id == fineId && f.transactionId == loanId && f.memberId == l.memberId && !IsPaid(f)
               && f.amount == CalculateOverdueDays(l.dueDate, now) * cfg.finePerDayCents
               && f.amount >= cfg.finePerDayCents)
  {
    ReturnEffect(st, cfg, loanId, fineId, now);
    var st' := Return(st, cfg, loanId, fineId, now).0;
    var l := st.loans[FindLoan(st, loanId).value];
    if now > l.dueDate {
      assert st'.fines[..|st.fines|] == st.fines;
    }
  }

  /** Once returned, a second return is refused with 400 and changes nothing: no copy is counted twice. */
  lemma SecondReturnRefused(st: Store, cfg: Config, loanId: Id, fineId: Id, fineId2: Id, now: int, now2: int)
    requires Return(st, cfg, loanId, fineId, now).1.Ok?
    ensures var st' := Return(st, cfg, loanId, fineId, now).0;
      Return(st', cfg, loanId, fineId2, now2) == (st', Err(AppError("Book has already been returned", 400)))
  {
    ReturnEffect(st, cfg, loanId, fineId, now);
    var k := FindLoan(st, loanId).value;
    IndexOfAfterUpdate(st.loans, LoanKey, k, Close(st.loans[k], now), loanId);
  }

  /**
   * A return keeps every record valid, every key unique and every active
   * loan linked: the closed loan is no longer active and no key changes.
   */
  lemma ReturnPreservesValid(st: Store, cfg: Config, loanId: Id, fineId: Id, now: int)
    requires ValidStore(st)
    ensures ValidStore(Return(st, cfg, loanId, fineId, now).0)
  {
    var (st', r) := Return(st, cfg, loanId, fineId, now);
    if r.Ok? {
      ReturnEffect(st, cfg, loanId, fineId, now);
      var k := FindLoan(st, loanId).value;
      var l := st.loans[k];
      var i := FindBookRef(st, l.bookId).value;
      assert st.books[i] in st.books;
      BooksValidAfterUpdate(st.books, i, BookModel.BeforeValidate(PutBack(st.books[i])));
      LoansValidAfterUpdate(st.loans, k, Close(l, now));
      var j := FindMemberRef(st, l.memberId).value;
      MembersValidAfterStatus(st.members, j, st'.members[j].status);
      forall a | a in st'.loans && a.status == LoanStatus.Active
        ensures a in st.loans
      {
        var x :| 0 <= x < |st'.loans| && st'.loans[x] == a;
        assert st.loans[x] in st.loans;
      }
      LinkedAfterSameKeys(st, st');
      if IsOverdue(l.dueDate, now) {
        var s2 := st.(loans := st.loans[k := Close(l, now)], books := st'.books);
        assert AddLateFine(s2, cfg, Close(l, now), fineId, now).Ok?;
        FinesValidAfterAppend(st.fines, LateFine(cfg, l, fineId, now));
      }
    }
  }

  /** Fines are written only for returned loans, one per loan, and a return keeps it so. */
  lemma ReturnKeepsOneFinePerLoan(st: Store, cfg: Config, loanId: Id, fineId: Id, now: int)
    requires OneFinePerReturnedLoan(st)
    ensures OneFinePerReturnedLoan(Return(st, cfg, loanId, fineId, now).0)
  {
    var (st', r) := Return(st, cfg, loanId, fineId, now);
    if r.Ok? {
      ReturnEffect(st, cfg, loanId, fineId, now);
      var k := FindLoan(st, loanId).value;
      var l := st.loans[k];
      var closed := Close(l, now);
      forall f | f in st.fines
        ensures f.transactionId != loanId && LoanReturned(st'.loans, f.transactionId)
      {
        IndexOfAfterUpdate(st.loans, LoanKey, k, closed, f.transactionId);
      }
      IndexOfAfterUpdate(st.loans, LoanKey, k, closed, loanId);
      if IsOverdue(l.dueDate, now) {
        var nf := LateFine(cfg, l, fineId, now);
        assert st'.fines == st.fines + [nf];
        forall i | 0 <= i < |st.fines|
          ensures st'.fines[i].transactionId != nf.transactionId
        {
          assert st.fines[i] in st.fines;
        }
      }
    }
  }

  /** A borrow adds a loan that is not returned, and so keeps the fines attached to returned loans. */
  lemma BorrowKeepsOneFinePerLoan(st: Store, cfg: Config, bookId: Id, memberId: Id, loanId: Id, now: int)
    requires OneFinePerReturnedLoan(st)
    ensures OneFinePerReturnedLoan(Borrow(st, cfg, bookId, memberId, loanId, now).0)
  {
    var (st', r) := Borrow(st, cfg, bookId, memberId, loanId, now);
    if r.Ok? {
      forall f | f in st.fines
        ensures LoanReturned(st'.loans, f.transactionId)
      {
        IndexOfAfterAppend(st.loans, LoanKey, r.value, f.transactionId);
      }
    }
  }

  /**
   * Borrowing a copy and returning it by the due date gives the book back
   * exactly as it was and writes no fine.
   */
  lemma BorrowThenReturnOnTime(st: Store, cfg: Config, bookId: Id, memberId: Id, loanId: Id, fineId: Id, now: int, later: int)
    requires ValidStore(st)
    requires Borrow(st, cfg, bookId, memberId, loanId, now).1.Ok?
    requires later <= now + cfg.loanPeriodDays * MsPerDay
    ensures var st1 := Borrow(st, cfg, bookId, memberId, loanId, now).0;
      var (st2, r) := Return(st1, cfg, loanId, fineId, later);
      r.Ok? && st2.books == st.books && st2.fines == st.fines
  {
    var (st1, r1) := Borrow(st, cfg, bookId, memberId, loanId, now);
    BorrowEffect(st, cfg, bookId, memberId, loanId, now);
    var i := FindBook(st, bookId).value;
    var b := st.books[i];
    assert b in st.books;
    assert BookModel.BeforeValidate(TakeCopy(b)) == TakeCopy(b);
    assert st1.books == st.books[i := TakeCopy(b)];
    IndexOfAppendNew(st.loans, LoanKey, r1.value);
    var k := |st.loans|;
    assert FindLoan(st1, loanId) == Some(k) && st1.loans[k] == r1.value;
    assert CanReturnBook(st1, loanId) == Ok(k);
    var closed := Close(r1.value, later);
    var s1 := st1.(loans := st1.loans[k := closed]);
    IndexOfAfterUpdate(st.books, BookKey, i, TakeCopy(b), bookId);
    assert FindBook(s1, bookId) == Some(i);
    assert PutBack(TakeCopy(b)) == b;
    assert BookModel.Save(b) == Ok(b);
    assert st1.books[i := b] == st.books;
    var s2 := s1.(books := st.books);
    assert RestoreCopy(s1, Some(bookId)) == Ok(s2);
    assert !IsOverdue(closed.dueDate, later);
    assert AddLateFine(s2, cfg, closed, fineId, later) == Ok(s2);
    assert FindMember(s2, memberId).Some?;
    var s3 := EvaluateSuspension(s2, cfg, Some(memberId));
    assert s3.Ok? && s3.value.books == st.books && s3.value.fines == st.fines;
    assert Return(st1, cfg, loanId, fineId, later) == (s3.value, Ok(closed));
  }
}
