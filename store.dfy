/**
 * The library database as a value: the books, members, transactions (loans)
 * and fines tables, the configuration that replaces the environment
 * variables, the `where` filters the services count and list with, and the
 * consistency the schema and the services keep.
 */
module Store {
  import opened Wrappers
  import opened Tables
  import opened DateUtil
  import opened BookModel
  import opened MemberModel
  import opened TransactionModel
  import opened FineModel

  /**
   * LOAN_PERIOD_DAYS, MAX_BOOKS_PER_MEMBER, MAX_OVERDUE_FOR_SUSPENSION and
   * FINE_PER_DAY (in cents).
   */
  datatype Config = Config(
    loanPeriodDays: nat,
    maxBooksPerMember: nat,
    maxOverdueForSuspension: nat,
    finePerDayCents: nat)

  /** The values used when the variables are unset. */
  const DefaultConfig := Config(DefaultLoanPeriodDays, 3, 3, DefaultFinePerDayCents)

  datatype Store = Store(
    books: seq<Book>,
    members: seq<Member>,
    loans: seq<Loan>,
    fines: seq<Fine>)

  /** `findByPk` on each table: the position of the row with that key, none when no row has it. */
  function FindBook(st: Store, id: Id): (r: Option<nat>)
    ensures r.Some? ==> r.value < |st.books| && st.books[r.value].id == id
    ensures r.None? <==> forall j :: 0 <= j < |st.books| ==> st.books[j].id != id
  {
    IndexOf(st.books, BookKey, id)
  }

  function FindMember(st: Store, id: Id): (r: Option<nat>)
    ensures r.Some? ==> r.value < |st.members| && st.members[r.value].id == id
    ensures r.None? <==> forall j :: 0 <= j < |st.members| ==> st.members[j].id != id
  {
    IndexOf(st.members, MemberKey, id)
  }

  function FindLoan(st: Store, id: Id): (r: Option<nat>)
    ensures r.Some? ==> r.value < |st.loans| && st.loans[r.value].id == id
    ensures r.None? <==> forall j :: 0 <= j < |st.loans| ==> st.loans[j].id != id
  {
    IndexOf(st.loans, LoanKey, id)
  }

  function FindFine(st: Store, id: Id): (r: Option<nat>)
    ensures r.Some? ==> r.value < |st.fines| && st.fines[r.value].id == id
    ensures r.None? <==> forall j :: 0 <= j < |st.fines| ==> st.fines[j].id != id
  {
    IndexOf(st.fines, FineKey, id)
  }

  /** `findByPk` with a foreign key read from a row: a null key finds nothing. */
  function FindBookRef(st: Store, ref: Ref): (r: Option<nat>)
    ensures r.Some? <==> ref.Some? && FindBook(st, ref.value).Some?
    ensures r.Some? ==> r == FindBook(st, ref.value)
  {
    match ref
    case None => None
    case Some(id) => FindBook(st, id)
  }

  function FindMemberRef(st: Store, ref: Ref): (r: Option<nat>)
    ensures r.Some? <==> ref.Some? && FindMember(st, ref.value).Some?
    ensures r.Some? ==> r == FindMember(st, ref.value)
  {
    match ref
    case None => None
    case Some(id) => FindMember(st, id)
  }

  // ---------------------------------------------------------------- loans

  /**
   * A `where` clause over transactions: only the supplied columns are
   * constrained, a foreign key to a key or, when null, to `IS NULL`.
   */
  datatype LoanQuery = LoanQuery(status: Option<LoanStatus>, memberId: Option<Ref>, bookId: Option<Ref>)

  predicate LoanMatches(l: Loan, q: LoanQuery) {
    && (q.status.None? || l.status == q.status.value)
    && (q.memberId.None? || l.memberId == q.memberId.value)
    && (q.bookId.None? || l.bookId == q.bookId.value)
  }

  /** The rows matching `q`, in table order. */
  function SelectLoans(loans: seq<Loan>, q: LoanQuery): (r: seq<Loan>)
    ensures forall l :: l in r <==> l in loans && LoanMatches(l, q)
    ensures |r| <= |loans|
  {
    if loans == [] then []
    else (if LoanMatches(loans[0], q) then [loans[0]] else []) + SelectLoans(loans[1..], q)
  }

  /** `Transaction.count({ where })`. */
  function CountLoans(loans: seq<Loan>, q: LoanQuery): (n: nat)
    ensures n <= |loans|
  {
    |SelectLoans(loans, q)|
  }

  /** The count is zero exactly when no row matches. */
  lemma CountLoansZero(loans: seq<Loan>, q: LoanQuery)
    ensures CountLoans(loans, q) == 0 <==> forall l | l in loans :: !LoanMatches(l, q)
  {
    var r := SelectLoans(loans, q);
    assert r != [] ==> r[0] in r;
  }

  function ActiveOfMember(memberId: Id): LoanQuery { LoanQuery(Some(LoanStatus.Active), Some(Some(memberId)), None) }
  function OverdueOfMember(memberId: Ref): LoanQuery { LoanQuery(Some(Overdue), Some(memberId), None) }
  function ActiveOfBook(bookId: Id): LoanQuery { LoanQuery(Some(LoanStatus.Active), None, Some(Some(bookId))) }
  const AllActive := LoanQuery(Some(LoanStatus.Active), None, None)
  const AllOverdue := LoanQuery(Some(Overdue), None, None)

  /** `ORDER BY due_date ASC`. */
  predicate DueLe(a: Loan, b: Loan) {
    a.dueDate <= b.dueDate
  }

  function Count(b: bool): nat { if b then 1 else 0 }

  lemma {:induction false} CountLoansAppend(loans: seq<Loan>, x: Loan, q: LoanQuery)
    ensures CountLoans(loans + [x], q) == CountLoans(loans, q) + Count(LoanMatches(x, q))
  {
    if loans != [] {
      assert (loans + [x])[1..] == loans[1..] + [x];
      CountLoansAppend(loans[1..], x, q);
    }
  }

  lemma {:induction false} CountLoansUpdate(loans: seq<Loan>, i: nat, x: Loan, q: LoanQuery)
    requires i < |loans|
    ensures CountLoans(loans[i := x], q) + Count(LoanMatches(loans[i], q)) == CountLoans(loans, q) + Count(LoanMatches(x, q))
  {
    if i > 0 {
      assert loans[i := x][1..] == loans[1..][i - 1 := x];
      CountLoansUpdate(loans[1..], i - 1, x, q);
    }
  }

  // ---------------------------------------------------------------- fines

  /** A `where` clause over fines: `paid` selects on `paid_at` being set or null. */
  datatype FineQuery = FineQuery(paid: Option<bool>, memberId: Option<Ref>)

  predicate FineMatches(f: Fine, q: FineQuery) {
    && (q.paid.None? || IsPaid(f) == q.paid.value)
    && (q.memberId.None? || f.memberId == q.memberId.value)
  }

  function SelectFines(fines: seq<Fine>, q: FineQuery): (r: seq<Fine>)
    ensures forall f :: f in r <==> f in fines && FineMatches(f, q)
    ensures |r| <= |fines|
  {
    if fines == [] then []
    else (if FineMatches(fines[0], q) then [fines[0]] else []) + SelectFines(fines[1..], q)
  }

  /** `reduce((sum, fine) => sum + fine.amount, 0)`: never negative when no amount is. */
  function SumAmounts(fines: seq<Fine>): (s: int)
    ensures (forall i :: 0 <= i < |fines| ==> fines[i].amount >= 0) ==> s >= 0
  {
    if fines == [] then 0 else fines[0].amount + SumAmounts(fines[1..])
  }

  function UnpaidOfMember(memberId: Ref): FineQuery { FineQuery(Some(false), Some(memberId)) }
  const AllUnpaid := FineQuery(Some(false), None)

  /** The number and the total of the fines matching `q` after one fine row changes. */
  lemma {:induction false} SelectFinesUpdate(fines: seq<Fine>, i: nat, x: Fine, q: FineQuery)
    requires i < |fines|
    ensures |SelectFines(fines[i := x], q)| + Count(FineMatches(fines[i], q)) == |SelectFines(fines, q)| + Count(FineMatches(x, q))
    ensures SumAmounts(SelectFines(fines[i := x], q)) + (if FineMatches(fines[i], q) then fines[i].amount else 0)
         == SumAmounts(SelectFines(fines, q)) + (if FineMatches(x, q) then x.amount else 0)
  {
    var rest := SelectFines(fines[1..], q);
    if i == 0 {
      assert fines[i := x][1..] == fines[1..];
      SumSelectCons(x, rest, q);
      SumSelectCons(fines[0], rest, q);
    } else {
      assert fines[i := x][1..] == fines[1..][i - 1 := x];
      assert fines[i := x][0] == fines[0];
      SelectFinesUpdate(fines[1..], i - 1, x, q);
      SumSelectCons(fines[0], SelectFines(fines[i := x][1..], q), q);
      SumSelectCons(fines[0], rest, q);
    }
  }

  lemma SumSelectCons(x: Fine, rest: seq<Fine>, q: FineQuery)
    ensures SumAmounts((if FineMatches(x, q) then [x] else []) + rest)
         == (if FineMatches(x, q) then x.amount else 0) + SumAmounts(rest)
  {
    if FineMatches(x, q) {
      assert ([x] + rest)[1..] == rest;
    } else {
      assert [] + rest == rest;
    }
  }

  lemma {:induction false} SelectFinesAppend(fines: seq<Fine>, x: Fine, q: FineQuery)
    ensures SelectFines(fines + [x], q) == SelectFines(fines, q) + (if FineMatches(x, q) then [x] else [])
  {
    if fines != [] {
      assert (fines + [x])[1..] == fines[1..] + [x];
      SelectFinesAppend(fines[1..], x, q);
    }
  }

  /** Amounts that are never negative add up to a non-negative total, zero only when each is zero. */
  lemma {:induction false} SumAmountsNonNegative(fines: seq<Fine>)
    requires forall f | f in fines :: FineModel.Valid(f)
    ensures SumAmounts(fines) >= 0
  {
    if fines != [] {
      assert fines[0] in fines;
      assert forall f | f in fines[1..] :: f in fines;
      SumAmountsNonNegative(fines[1..]);
    }
  }

  // ---------------------------------------------------------------- deleting a referenced row

  /** ON DELETE SET NULL on `transactions.member_id`: the deleted member's loans lose the reference, and nothing else changes. */
  function UnlinkMemberLoans(loans: seq<Loan>, id: Id): (r: seq<Loan>)
    ensures |r| == |loans|
    ensures forall i :: 0 <= i < |loans| ==> r[i] == loans[i].(memberId := r[i].memberId)
    ensures forall i :: 0 <= i < |loans| ==> r[i].memberId == if loans[i].memberId == Some(id) then None else loans[i].memberId
  {
    seq(|loans|, i requires 0 <= i < |loans| => if loans[i].memberId == Some(id) then loans[i].(memberId := None) else loans[i])
  }

  /** ON DELETE SET NULL on `transactions.book_id`. */
  function UnlinkBookLoans(loans: seq<Loan>, id: Id): (r: seq<Loan>)
    ensures |r| == |loans|
    ensures forall i :: 0 <= i < |loans| ==> r[i] == loans[i].(bookId := r[i].bookId)
    ensures forall i :: 0 <= i < |loans| ==> r[i].bookId == if loans[i].bookId == Some(id) then None else loans[i].bookId
  {
    seq(|loans|, i requires 0 <= i < |loans| => if loans[i].bookId == Some(id) then loans[i].(bookId := None) else loans[i])
  }

  /** ON DELETE SET NULL on `fines.member_id`. */
  function UnlinkMemberFines(fines: seq<Fine>, id: Id): (r: seq<Fine>)
    ensures |r| == |fines|
    ensures forall i :: 0 <= i < |fines| ==> r[i] == fines[i].(memberId := r[i].memberId)
    ensures forall i :: 0 <= i < |fines| ==> r[i].memberId == if fines[i].memberId == Some(id) then None else fines[i].memberId
  {
    seq(|fines|, i requires 0 <= i < |fines| => if fines[i].memberId == Some(id) then fines[i].(memberId := None) else fines[i])
  }

  /** Clearing foreign keys keeps every loan consistent and every key unique. */
  lemma LoansValidAfterUnlink(loans: seq<Loan>, loans': seq<Loan>)
    requires LoansValid(loans) && |loans'| == |loans|
    requires forall i :: 0 <= i < |loans| ==> loans'[i] == loans[i].(bookId := loans'[i].bookId, memberId := loans'[i].memberId)
    ensures LoansValid(loans')
  {
    forall l | l in loans'
      ensures Consistent(l)
    {
      var i :| 0 <= i < |loans'| && loans'[i] == l;
      assert loans[i] in loans;
    }
  }

  /** Clearing `member_id` keeps every amount valid and every key unique. */
  lemma FinesValidAfterUnlink(fines: seq<Fine>, fines': seq<Fine>)
    requires FinesValid(fines) && |fines'| == |fines|
    requires forall i :: 0 <= i < |fines| ==> fines'[i] == fines[i].(memberId := fines'[i].memberId)
    ensures FinesValid(fines')
  {
    forall f | f in fines'
      ensures FineModel.Valid(f)
    {
      var i :| 0 <= i < |fines'| && fines'[i] == f;
      assert fines[i] in fines;
    }
  }

  // ---------------------------------------------------------------- consistency

  /** Every stored book passed the validators and the clamp; isbns and ids are unique. */
  predicate BooksValid(books: seq<Book>) {
    && (forall b | b in books :: BookModel.Valid(b) && WithinBounds(b))
    && UniqueKeys(books, BookKey)
    && UniqueKeys(books, BookIsbn)
  }

  /** Every stored member has a non-blank name; ids, emails and membership numbers are unique. */
  predicate MembersValid(members: seq<Member>) {
    && (forall m | m in members :: MemberModel.Valid(m))
    && UniqueKeys(members, MemberKey)
    && UniqueKeys(members, MemberEmail)
    && UniqueKeys(members, MemberNumber)
  }

  /** A loan carries a return time exactly when it is returned; ids are unique. */
  predicate LoansValid(loans: seq<Loan>) {
    && (forall l | l in loans :: Consistent(l))
    && UniqueKeys(loans, LoanKey)
  }

  /** Amounts are non-negative; ids are unique. */
  predicate FinesValid(fines: seq<Fine>) {
    && (forall f | f in fines :: FineModel.Valid(f))
    && UniqueKeys(fines, FineKey)
  }

  /**
   * An active loan names a stored book and a stored member: a borrow checks
   * both, and deleting either is refused while the loan is active, so its
   * references are never cleared.
   */
  predicate ActiveLoansLinked(st: Store) {
    forall l | l in st.loans && l.status == LoanStatus.Active ::
      FindBookRef(st, l.bookId).Some? && FindMemberRef(st, l.memberId).Some?
  }

  predicate ValidStore(st: Store) {
    && BooksValid(st.books) && MembersValid(st.members) && LoansValid(st.loans) && FinesValid(st.fines)
    && ActiveLoansLinked(st)
  }

  /**
   * The active loans stay linked when every book and member found before is
   * still found (but the one deleted, if any), and every active loan
   * afterwards either was one before, naming neither deleted row, or is
   * linked itself.
   */
  lemma LinkedAfter(st: Store, st': Store, lostBook: Ref, lostMember: Ref)
    requires ActiveLoansLinked(st)
    requires forall id :: FindBook(st, id).Some? && Some(id) != lostBook ==> FindBook(st', id).Some?
    requires forall id :: FindMember(st, id).Some? && Some(id) != lostMember ==> FindMember(st', id).Some?
    requires forall l | l in st'.loans && l.status == LoanStatus.Active ::
      || (l in st.loans && l.bookId != lostBook && l.memberId != lostMember)
      || (FindBookRef(st', l.bookId).Some? && FindMemberRef(st', l.memberId).Some?)
    ensures ActiveLoansLinked(st')
  {
  }

  /** Adding a member keeps every active loan linked. */
  lemma LinkedAfterAddMember(st: Store, m: Member)
    requires ActiveLoansLinked(st)
    ensures ActiveLoansLinked(st.(members := st.members + [m]))
  {
    var st' := st.(members := st.members + [m]);
    forall id | FindMember(st, id).Some?
      ensures FindMember(st', id).Some?
    {
      IndexOfAfterAppend(st.members, MemberKey, m, id);
    }
    LinkedAfter(st, st', None, None);
  }

  /** Adding a book keeps every active loan linked. */
  lemma LinkedAfterAddBook(st: Store, b: Book)
    requires ActiveLoansLinked(st)
    ensures ActiveLoansLinked(st.(books := st.books + [b]))
  {
    var st' := st.(books := st.books + [b]);
    forall id | FindBook(st, id).Some?
      ensures FindBook(st', id).Some?
    {
      IndexOfAfterAppend(st.books, BookKey, b, id);
    }
    LinkedAfter(st, st', None, None);
  }

  /** Replacing rows without changing their keys keeps every lookup, so the active loans stay linked when they are old ones. */
  lemma LinkedAfterSameKeys(st: Store, st': Store)
    requires ActiveLoansLinked(st)
    requires |st'.books| == |st.books| && forall i :: 0 <= i < |st.books| ==> st'.books[i].id == st.books[i].id
    requires |st'.members| == |st.members| && forall i :: 0 <= i < |st.members| ==> st'.members[i].id == st.members[i].id
    requires forall l | l in st'.loans && l.status == LoanStatus.Active :: l in st.loans
    ensures ActiveLoansLinked(st')
  {
    forall id
      ensures FindBook(st', id) == FindBook(st, id) && FindMember(st', id) == FindMember(st, id)
    {
      IndexOfSameKeys(st.books, st'.books, BookKey, id);
      IndexOfSameKeys(st.members, st'.members, MemberKey, id);
    }
    LinkedAfter(st, st', None, None);
  }

  /** Replacing a book by a valid one with the same id and isbn keeps the books table consistent. */
  lemma BooksValidAfterUpdate(books: seq<Book>, i: nat, b: Book)
    requires BooksValid(books) && i < |books|
    requires b.id == books[i].id && b.isbn == books[i].isbn && BookModel.Valid(b) && WithinBounds(b)
    ensures BooksValid(books[i := b])
  {
    UniqueAfterUpdate(books, BookKey, i, b);
    UniqueAfterUpdate(books, BookIsbn, i, b);
    assert forall x | x in books[i := b] :: x in books || x == b;
  }

  /** Changing one member's status keeps the members table consistent. */
  lemma MembersValidAfterStatus(members: seq<Member>, j: nat, s: MemberStatus)
    requires MembersValid(members) && j < |members|
    ensures MembersValid(members[j := members[j].(status := s)])
  {
    var m := members[j].(status := s);
    assert members[j] in members;
    UniqueAfterUpdate(members, MemberKey, j, m);
    UniqueAfterUpdate(members, MemberEmail, j, m);
    UniqueAfterUpdate(members, MemberNumber, j, m);
    assert forall x | x in members[j := m] :: x in members || x == m;
  }

  /** Appending a consistent loan under a free key keeps the loans table consistent. */
  lemma LoansValidAfterAppend(loans: seq<Loan>, l: Loan)
    requires LoansValid(loans) && Consistent(l) && IndexOf(loans, LoanKey, l.id).None?
    ensures LoansValid(loans + [l])
  {
    UniqueAfterAppend(loans, LoanKey, l);
    assert forall x | x in loans + [l] :: x in loans || x == l;
  }

  /** Replacing a loan by a consistent one with the same key keeps the loans table consistent. */
  lemma LoansValidAfterUpdate(loans: seq<Loan>, k: nat, l: Loan)
    requires LoansValid(loans) && k < |loans| && Consistent(l) && l.id == loans[k].id
    ensures LoansValid(loans[k := l])
  {
    UniqueAfterUpdate(loans, LoanKey, k, l);
    assert forall x | x in loans[k := l] :: x in loans || x == l;
  }

  /** Appending a valid fine under a free key keeps the fines table consistent. */
  lemma FinesValidAfterAppend(fines: seq<Fine>, f: Fine)
    requires FinesValid(fines) && FineModel.Valid(f) && IndexOf(fines, FineKey, f.id).None?
    ensures FinesValid(fines + [f])
  {
    UniqueAfterAppend(fines, FineKey, f);
    assert forall x | x in fines + [f] :: x in fines || x == f;
  }

  /** Replacing a fine by a valid one with the same key keeps the fines table consistent. */
  lemma FinesValidAfterUpdate(fines: seq<Fine>, i: nat, f: Fine)
    requires FinesValid(fines) && i < |fines| && FineModel.Valid(f) && f.id == fines[i].id
    ensures FinesValid(fines[i := f])
  {
    UniqueAfterUpdate(fines, FineKey, i, f);
    assert forall x | x in fines[i := f] :: x in fines || x == f;
  }

  /** No member holds more than the configured number of `active` loans. */
  ghost predicate WithinLoanCap(st: Store, cfg: Config) {
    forall m :: CountLoans(st.loans, ActiveOfMember(m)) <= cfg.maxBooksPerMember
  }

  /** The loan with this id exists and is returned. */
  predicate LoanReturned(loans: seq<Loan>, id: Id) {
    match IndexOf(loans, LoanKey, id)
    case Some(k) => loans[k].status == Returned
    case None => false
  }

  /** Fines are only written for returned loans, and at most one per loan. */
  ghost predicate OneFinePerReturnedLoan(st: Store) {
    && (forall f | f in st.fines :: LoanReturned(st.loans, f.transactionId))
    && (forall i, j :: 0 <= i < j < |st.fines| ==> st.fines[i].transactionId != st.fines[j].transactionId)
  }

  /**
   * How the loan and fine tables may evolve: rows are never deleted or
   * reordered, a returned loan never changes again, and a fine keeps its
   * loan, member and amount and, once paid, its payment time.
   */
  ghost predicate History(st: Store, st': Store) {
    && |st.loans| <= |st'.loans|
    && (forall i :: 0 <= i < |st.loans| ==> st'.loans[i].id == st.loans[i].id)
    && (forall i :: 0 <= i < |st.loans| && st.loans[i].status == Returned ==> st'.loans[i] == st.loans[i])
    && |st.fines| <= |st'.fines|
    && (forall i :: 0 <= i < |st.fines| ==>
          && st'.fines[i].id == st.fines[i].id
          && st'.fines[i].transactionId == st.fines[i].transactionId
          && st'.fines[i].memberId == st.fines[i].memberId
          && st'.fines[i].amount == st.fines[i].amount
          && (IsPaid(st.fines[i]) ==> st'.fines[i] == st.fines[i]))
  }

  lemma HistoryTransitive(s1: Store, s2: Store, s3: Store)
    requires History(s1, s2) && History(s2, s3)
    ensures History(s1, s3)
  {
  }
}
