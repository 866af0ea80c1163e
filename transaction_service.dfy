/**
 * The transaction service's queries: one loan by id, the filtered listing
 * newest borrow first, the overdue listing that first runs the sweep, and a
 * member's history. Borrowing and returning are the state machine's own
 * `Borrow` and `Return`, passed through unchanged.
 */
module TransactionService {
  import opened Wrappers
  import opened ErrorUtil
  import opened Tables
  import opened Listing
  import opened TransactionModel
  import opened Store
  import opened StateMachine
  import opened OverdueSweep
  import opened FineService
  import BorrowReturn

  /** The query-string filters, as received. */
  datatype Filters = Filters(status: Option<string>, memberId: Option<string>, bookId: Option<string>)

  const NoFilters := Filters(None, None, None)

  /** The enum labels the `status` column stores. */
  function StatusName(s: LoanStatus): string {
    match s
    case Active => "active"
    case Returned => "returned"
    case Overdue => "overdue"
  }

  /** The enum value with this label, if any. */
  function ParseStatus(s: string): (r: Option<LoanStatus>)
    ensures r.Some? ==> StatusName(r.value) == s
    ensures r.None? ==> forall t: LoanStatus :: StatusName(t) != s
  {
    if s == "active" then Some(LoanStatus.Active)
    else if s == "returned" then Some(Returned)
    else if s == "overdue" then Some(Overdue)
    else None
  }

  /**
   * The `whereClause`: each filter that is present and non-empty constrains
   * its column. A status that is not one of the enum's labels is refused by
   * the database when the query runs.
   */
  function WhereClause(f: Filters): (r: Result<LoanQuery>)
    ensures r.Err? <==> IdFilter(f.status).Some? && ParseStatus(f.status.value).None?
    ensures r.Err? ==> r.error.name == "SequelizeDatabaseError"
    ensures r.Ok? ==> (r.value.status.Some? <==> IdFilter(f.status).Some?)
    ensures r.Ok? && r.value.status.Some? ==> StatusName(r.value.status.value) == f.status.value
    ensures r.Ok? ==> r.value.memberId == IdFilter(f.memberId) && r.value.bookId == IdFilter(f.bookId)
  {
    var memberId := IdFilter(f.memberId);
    var bookId := IdFilter(f.bookId);
    match IdFilter(f.status)
    case None => Ok(LoanQuery(None, memberId, bookId))
    case Some(_) =>
      var s := f.status.value;
      match ParseStatus(s)
      case None => Err(DatabaseError("invalid input value for enum enum_transactions_status: \"" + s + "\""))
      case Some(t) => Ok(LoanQuery(Some(t), memberId, bookId))
  }

  /** `ORDER BY borrowed_at DESC`. */
  predicate BorrowedLater(a: Loan, b: Loan) {
    a.borrowedAt >= b.borrowedAt
  }

  datatype LoanPage = LoanPage(transactions: seq<Loan>, total: nat, page: int, pages: nat)

  /** One page of the rows matching `q` in the order `le`, with the count of all of them. */
  function PageOf(loans: seq<Loan>, q: LoanQuery, le: (Loan, Loan) -> bool, page: int, limit: int): (r: LoanPage)
    requires page >= 1 && limit >= 1
    requires Total(le)
    ensures r.total == CountLoans(loans, q) && r.page == page && r.pages == Pages(r.total, limit)
    ensures |r.transactions| <= limit && SortedBy(r.transactions, le)
    ensures forall l | l in r.transactions :: l in loans && LoanMatches(l, q)
    ensures r.transactions == Paginate(Sort(SelectLoans(loans, q), le), page, limit)
  {
    var matching := SelectLoans(loans, q);
    var sorted := Sort(matching, le);
    PageOfSorted(sorted, page, limit, le);
    assert forall l | l in sorted :: l in matching by {
      forall l | l in sorted ensures l in matching {
        assert l in multiset(sorted);
      }
    }
    LoanPage(Paginate(sorted, page, limit), |matching|, page, Pages(|matching|, limit))
  }

  /** `getAllTransactions`. */
  function GetAllTransactions(st: Store, page: int, limit: int, filters: Filters): (r: Result<LoanPage>)
    requires page >= 1 && limit >= 1
    ensures r.Err? <==> WhereClause(filters).Err?
    ensures r.Err? ==> r.error == WhereClause(filters).error
    ensures r.Ok? ==> r.value.total == CountLoans(st.loans, WhereClause(filters).value)
    ensures r.Ok? ==> r.value.page == page && r.value.pages == Pages(r.value.total, limit)
    ensures r.Ok? ==> |r.value.transactions| <= limit && SortedBy(r.value.transactions, BorrowedLater)
    ensures r.Ok? ==> forall l | l in r.value.transactions :: l in st.loans && LoanMatches(l, WhereClause(filters).value)
    ensures r.Ok? ==> r.value.transactions == Paginate(Sort(SelectLoans(st.loans, WhereClause(filters).value), BorrowedLater), page, limit)
  {
    match WhereClause(filters)
    case Err(e) => Err(e)
    case Ok(q) => Ok(PageOf(st.loans, q, BorrowedLater, page, limit))
  }

  /**
   * `getOverdueTransactions`: the sweep runs first and its writes stay; an
   * error it raises is the request's error. Then one page of the overdue
   * loans, soonest due first.
   */
  function GetOverdueTransactions(st: Store, cfg: Config, now: int, page: int, limit: int): (res: (Store, Result<LoanPage>))
    requires page >= 1 && limit >= 1
    ensures Sweep(st, cfg, now).1.Some? ==> res == (Sweep(st, cfg, now).0, Err(Sweep(st, cfg, now).1.value))
    ensures res.1.Ok? ==> Sweep(st, cfg, now).1.None? && res.0 == Sweep(st, cfg, now).0
    ensures res.1.Ok? ==> res.1.value.total == CountLoans(res.0.loans, AllOverdue)
    ensures res.1.Ok? ==> |res.1.value.transactions| <= limit && SortedBy(res.1.value.transactions, DueLe)
    ensures res.1.Ok? ==> forall l | l in res.1.value.transactions :: l in res.0.loans && l.status == Overdue
    ensures res.1.Ok? ==> res.1.value.transactions == Paginate(Sort(SelectLoans(res.0.loans, AllOverdue), DueLe), page, limit)
  {
    var (st', e) := Sweep(st, cfg, now);
    match e
    case Some(err) => (st', Err(err))
    case None => (st', Ok(PageOf(st'.loans, AllOverdue, DueLe, page, limit)))
  }

  /** `getTransactionById`. */
  function GetTransactionById(st: Store, id: Id): (r: Result<Loan>)
    ensures r.Ok? <==> FindLoan(st, id).Some?
    ensures r.Ok? ==> r.value in st.loans && r.value.id == id
    ensures r.Err? ==> r.error == AppError(TransactionNotFoundMessage, 404)
  {
    match FindLoan(st, id)
    case None => Err(AppError(TransactionNotFoundMessage, 404))
    case Some(i) => Ok(st.loans[i])
  }

  /** `getMemberTransactions`: every loan of the member, whatever its status, newest borrow first. */
  function GetMemberTransactions(st: Store, memberId: Id): (r: seq<Loan>)
    ensures SortedBy(r, BorrowedLater)
    ensures forall l :: l in r <==> l in st.loans && l.memberId == Some(memberId)
    ensures |r| == CountLoans(st.loans, LoanQuery(None, Some(Some(memberId)), None))
  {
    var rows := SelectLoans(st.loans, LoanQuery(None, Some(Some(memberId)), None));
    var r := Sort(rows, BorrowedLater);
    assert forall l :: l in r <==> l in multiset(r);
    assert forall l :: l in rows <==> l in multiset(rows);
    r
  }

  // ---------------------------------------------------------------- properties

  /** A loan is counted by the listing exactly when it agrees with every filter that was supplied. */
  lemma FiltersConstrainOnlySupplied(st: Store, filters: Filters, l: Loan)
    requires WhereClause(filters).Ok?
    ensures l in SelectLoans(st.loans, WhereClause(filters).value) <==>
      && l in st.loans
      && (IdFilter(filters.status).Some? ==> StatusName(l.status) == filters.status.value)
      && (IdFilter(filters.memberId).Some? ==> l.memberId == filters.memberId)
      && (IdFilter(filters.bookId).Some? ==> l.bookId == filters.bookId)
  {
    var q := WhereClause(filters).value;
    if q.status.Some? {
      var t :| t == q.status.value;
      assert StatusName(l.status) == StatusName(t) ==> l.status == t;
    }
  }

  /** Every loan matching the filters is listed on some page within the page count. */
  lemma EveryMatchingLoanListed(st: Store, limit: int, filters: Filters, l: Loan)
    requires limit >= 1 && WhereClause(filters).Ok?
    requires l in st.loans && LoanMatches(l, WhereClause(filters).value)
    ensures exists page :: 1 <= page <= GetAllTransactions(st, 1, limit, filters).value.pages && l in GetAllTransactions(st, page, limit, filters).value.transactions
  {
    var sorted := Sort(SelectLoans(st.loans, WhereClause(filters).value), BorrowedLater);
    assert l in multiset(sorted) by {
      assert l in SelectLoans(st.loans, WhereClause(filters).value);
    }
    ListedOnSomePage(sorted, limit, l);
    var page :| 1 <= page <= Pages(|sorted|, limit) && l in Paginate(sorted, page, limit);
    assert GetAllTransactions(st, page, limit, filters).value.transactions == Paginate(sorted, page, limit);
  }

  /** On a consistent store the overdue listing succeeds: the sweep it runs first cannot fail. */
  lemma OverdueListingSucceeds(st: Store, cfg: Config, now: int, page: int, limit: int)
    requires ValidStore(st) && page >= 1 && limit >= 1
    ensures GetOverdueTransactions(st, cfg, now, page, limit).1.Ok?
  {
    SweepSucceeds(st, cfg, now);
  }

  /** After the sweep, every overdue loan is listed on some page within the page count. */
  lemma EveryOverdueLoanListed(st: Store, cfg: Config, now: int, limit: int, l: Loan)
    requires ValidStore(st) && limit >= 1
    requires l in Sweep(st, cfg, now).0.loans && l.status == Overdue
    ensures GetOverdueTransactions(st, cfg, now, 1, limit).1.Ok?
    ensures exists page ::
      && 1 <= page <= GetOverdueTransactions(st, cfg, now, 1, limit).1.value.pages
      && GetOverdueTransactions(st, cfg, now, page, limit).1.Ok?
      && l in GetOverdueTransactions(st, cfg, now, page, limit).1.value.transactions
  {
    SweepSucceeds(st, cfg, now);
    var st' := Sweep(st, cfg, now).0;
    var sorted := Sort(SelectLoans(st'.loans, AllOverdue), DueLe);
    assert l in multiset(sorted) by {
      assert l in SelectLoans(st'.loans, AllOverdue);
    }
    ListedOnSomePage(sorted, limit, l);
    var page :| 1 <= page <= Pages(|sorted|, limit) && l in Paginate(sorted, page, limit);
    assert GetOverdueTransactions(st, cfg, now, page, limit).1.value.transactions == Paginate(sorted, page, limit);
  }

  /** With no filter and a page large enough, the listing is every loan, newest borrow first. */
  lemma EmptyFilterListsAll(st: Store, limit: int)
    requires limit >= 1 && limit >= |st.loans|
    ensures GetAllTransactions(st, 1, limit, NoFilters).Ok?
    ensures var p := GetAllTransactions(st, 1, limit, NoFilters).value;
      p.total == |st.loans| && multiset(p.transactions) == multiset(st.loans)
  {
    var q := LoanQuery(None, None, None);
    SelectAllLoans(st.loans, q);
    var sorted := Sort(st.loans, BorrowedLater);
    assert Paginate(sorted, 1, limit) == sorted;
  }

  /** A query constraining nothing selects the whole table. */
  lemma {:induction false} SelectAllLoans(loans: seq<Loan>, q: LoanQuery)
    requires q == LoanQuery(None, None, None)
    ensures SelectLoans(loans, q) == loans
  {
    if loans != [] {
      SelectAllLoans(loans[1..], q);
      assert loans == [loans[0]] + loans[1..];
    }
  }

  /**
   * Once the sweep has run, a loan is on the overdue listing (when one page
   * holds them all) exactly when it was already overdue or was active and
   * past its due date.
   */
  lemma OverdueListingAfterSweep(st: Store, cfg: Config, now: int, limit: int)
    requires ValidStore(st)
    requires limit >= 1 && limit >= |st.loans|
    ensures var (st', r) := GetOverdueTransactions(st, cfg, now, 1, limit);
      && r.Ok?
      && |st'.loans| == |st.loans|
      && forall i | 0 <= i < |st.loans| ::
           st'.loans[i] in r.value.transactions <==>
           (st.loans[i].status == Overdue || (st.loans[i].status == LoanStatus.Active && st.loans[i].dueDate < now))
  {
    var (st', r) := GetOverdueTransactions(st, cfg, now, 1, limit);
    SweepSucceeds(st, cfg, now);
    SweepEffect(st, cfg, now);
    var matching := SelectLoans(st'.loans, AllOverdue);
    var sorted := Sort(matching, DueLe);
    assert |matching| <= |st'.loans|;
    assert Paginate(sorted, 1, limit) == sorted;
    assert r.value.transactions == sorted;
    forall i | 0 <= i < |st.loans|
      ensures st'.loans[i] in r.value.transactions <==> st'.loans[i].status == Overdue
    {
      assert st'.loans[i] in st'.loans;
      assert st'.loans[i] in sorted <==> st'.loans[i] in multiset(sorted);
      assert st'.loans[i] in matching <==> st'.loans[i] in multiset(matching);
    }
  }

  /** The loan a borrow creates is the one `getTransactionById` then finds. */
  lemma BorrowedLoanFound(st: Store, cfg: Config, bookId: Id, memberId: Id, loanId: Id, now: int)
    requires Borrow(st, cfg, bookId, memberId, loanId, now).1.Ok?
    ensures var (st', r) := Borrow(st, cfg, bookId, memberId, loanId, now);
      GetTransactionById(st', loanId) == Ok(r.value)
  {
    var (st', r) := Borrow(st, cfg, bookId, memberId, loanId, now);
    IndexOfAppendNew(st.loans, LoanKey, r.value);
  }

  /** A loan can be looked up before and after its return, and the return is what is then found. */
  lemma ReturnedLoanFound(st: Store, cfg: Config, loanId: Id, fineId: Id, now: int)
    requires Return(st, cfg, loanId, fineId, now).1.Ok?
    ensures GetTransactionById(st, loanId).Ok?
    ensures GetTransactionById(Return(st, cfg, loanId, fineId, now).0, loanId) == Return(st, cfg, loanId, fineId, now).1
  {
    BorrowReturn.ReturnEffect(st, cfg, loanId, fineId, now);
    var k := FindLoan(st, loanId).value;
    IndexOfAfterUpdate(st.loans, LoanKey, k, Close(st.loans[k], now), loanId);
  }
}
