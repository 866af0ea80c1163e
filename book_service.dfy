/**
 * The book service: creation with the copy check, updates that may not
 * touch `available_copies`, deletion guarded by active loans, the status
 * endpoint, and the listing of books that can be borrowed.
 */
module BookService {
  import opened Wrappers
  import opened ErrorUtil
  import opened Tables
  import opened Listing
  import opened BookModel
  import opened TransactionModel
  import opened Store
  import opened StateMachine

  const CopiesExceedTotalMessage := "Available copies cannot exceed total copies"
  const CopiesManagedMessage := "Available copies are managed by the system"
  const ActiveBorrowingsMessage := "Cannot delete book with active borrowings"
  const BookDeletedMessage := "Book deleted successfully"
  const InvalidStatusMessage := "Invalid status"
  const NoCopiesForAvailableMessage := "Cannot set status to available when no copies are available"

  /** Some row other than position `i` already holds `isbn`. */
  predicate IsbnTakenByOther(books: seq<Book>, i: int, isbn: string) {
    exists j :: 0 <= j < |books| && j != i && books[j].isbn == isbn
  }

  /**
   * `createBook`: more available than total copies, when both are given, is
   * a 400; then `Book.create` with its defaults, hook and validators; then
   * the primary key and the unique isbn index.
   */
  function CreateBook(st: Store, bookId: Id, input: BookInput): (res: (Store, Result<Book>))
    ensures res.1.Err? ==> res.0 == st
    ensures input.availableCopies.Some? && input.totalCopies.Some? && input.availableCopies.value > input.totalCopies.value ==>
      res.1 == Err(AppError(CopiesExceedTotalMessage, 400))
    ensures res.1.Ok? ==> res.1 == BookModel.Create(bookId, input) && res.0 == st.(books := st.books + [res.1.value])
    ensures res.1.Ok? ==> FindBook(st, bookId).None? && !IsbnTakenByOther(st.books, -1, res.1.value.isbn)
  {
    if input.availableCopies.Some? && input.totalCopies.Some? && input.availableCopies.value > input.totalCopies.value then
      (st, Err(AppError(CopiesExceedTotalMessage, 400)))
    else
      match BookModel.Create(bookId, input)
      case Err(e) => (st, Err(e))
      case Ok(b) =>
        if FindBook(st, bookId).Some? then (st, Err(UniqueConstraintError("id")))
        else if IsbnTakenByOther(st.books, -1, b.isbn) then (st, Err(UniqueConstraintError("isbn")))
        else (st.(books := st.books + [b]), Ok(b))
  }

  /**
   * `updateBook`: 404 for an unknown book, 400 for a payload naming
   * `available_copies`; otherwise the supplied attributes are set and the
   * record saved, through the clamp and the validators and the unique isbn.
   */
  function UpdateBook(st: Store, bookId: Id, data: BookInput): (res: (Store, Result<Book>))
    ensures res.1.Err? ==> res.0 == st
    ensures FindBook(st, bookId).None? ==> res.1 == Err(AppError(BookNotFoundMessage, 404))
    ensures FindBook(st, bookId).Some? && data.availableCopies.Some? ==> res.1 == Err(AppError(CopiesManagedMessage, 400))
    ensures res.1.Ok? ==> FindBook(st, bookId).Some? && data.availableCopies.None?
    ensures res.1.Ok? ==>
      var i := FindBook(st, bookId).value;
      && res.1.value == BookModel.BeforeValidate(Assign(st.books[i], data))
      && res.0 == st.(books := st.books[i := res.1.value])
  {
    match FindBook(st, bookId)
    case None => (st, Err(AppError(BookNotFoundMessage, 404)))
    case Some(i) =>
      if data.availableCopies.Some? then (st, Err(AppError(CopiesManagedMessage, 400)))
      else
        match BookModel.Save(Assign(st.books[i], data))
        case Err(e) => (st, Err(e))
        case Ok(b) =>
          if IsbnTakenByOther(st.books, i, b.isbn) then (st, Err(UniqueConstraintError("isbn")))
          else (st.(books := st.books[i := b]), Ok(b))
  }

  /**
   * `deleteBook`: 404 for an unknown book, 400 while it has an `active` loan;
   * otherwise the row is destroyed, and the database clears `book_id` on its
   * transactions (ON DELETE SET NULL).
   */
  function DeleteBook(st: Store, bookId: Id): (res: (Store, Result<string>))
    ensures res.1.Err? ==> res.0 == st
    ensures FindBook(st, bookId).None? ==> res.1 == Err(AppError(BookNotFoundMessage, 404))
    ensures FindBook(st, bookId).Some? ==>
      (res.1.Err? <==> CountLoans(st.loans, ActiveOfBook(bookId)) > 0)
    ensures res.1.Err? && FindBook(st, bookId).Some? ==> res.1 == Err(AppError(ActiveBorrowingsMessage, 400))
    ensures res.1.Ok? ==> res.1.value == BookDeletedMessage && FindBook(st, bookId).Some?
    ensures res.1.Ok? ==> res.0 == st.(books := RemoveAt(st.books, FindBook(st, bookId).value), loans := UnlinkBookLoans(st.loans, bookId))
  {
    match FindBook(st, bookId)
    case None => (st, Err(AppError(BookNotFoundMessage, 404)))
    case Some(i) =>
      if CountLoans(st.loans, ActiveOfBook(bookId)) > 0 then (st, Err(AppError(ActiveBorrowingsMessage, 400)))
      else (st.(books := RemoveAt(st.books, i), loans := UnlinkBookLoans(st.loans, bookId)), Ok(BookDeletedMessage))
  }

  /**
   * `updateBookStatus`: the value is checked against the four labels before
   * the book is looked up; `available` needs a copy; then only the status is
   * changed (through the hook and the validators).
   */
  function UpdateBookStatus(st: Store, bookId: Id, status: string): (res: (Store, Result<Book>))
    ensures res.1.Err? ==> res.0 == st
    ensures ParseStatus(status).None? ==> res.1 == Err(AppError(InvalidStatusMessage, 400))
    ensures ParseStatus(status).Some? && FindBook(st, bookId).None? ==> res.1 == Err(AppError(BookNotFoundMessage, 404))
    ensures ParseStatus(status).Some? && FindBook(st, bookId).Some? && status == "available" ==>
      (st.books[FindBook(st, bookId).value].availableCopies <= 0 ==> res.1 == Err(AppError(NoCopiesForAvailableMessage, 400)))
    ensures res.1.Ok? ==> ParseStatus(status).Some? && FindBook(st, bookId).Some?
    ensures res.1.Ok? ==>
      var i := FindBook(st, bookId).value;
      && res.1.value == BookModel.BeforeValidate(st.books[i].(status := ParseStatus(status).value))
      && res.0 == st.(books := st.books[i := res.1.value])
  {
    match ParseStatus(status)
    case None => (st, Err(AppError(InvalidStatusMessage, 400)))
    case Some(s) =>
      match FindBook(st, bookId)
      case None => (st, Err(AppError(BookNotFoundMessage, 404)))
      case Some(i) =>
        if s == Available && st.books[i].availableCopies <= 0 then
          (st, Err(AppError(NoCopiesForAvailableMessage, 400)))
        else
          match BookModel.Save(st.books[i].(status := s))
          case Err(e) => (st, Err(e))
          case Ok(b) => (st.(books := st.books[i := b]), Ok(b))
  }

  // ---------------------------------------------------------------- listing

  /** A book the listing offers: status `available` and at least one copy. */
  predicate Borrowable(b: Book) {
    b.status == Available && b.availableCopies > 0
  }

  function SelectBorrowable(books: seq<Book>): (r: seq<Book>)
    ensures forall b :: b in r <==> b in books && Borrowable(b)
    ensures |r| <= |books|
  {
    if books == [] then []
    else (if Borrowable(books[0]) then [books[0]] else []) + SelectBorrowable(books[1..])
  }

  /** `ORDER BY title ASC`. */
  predicate TitleLe(a: Book, b: Book) {
    StringLe(a.title, b.title)
  }

  lemma TitleOrderTotal()
    ensures Total(TitleLe)
  {
    forall a: Book, b: Book
      ensures TitleLe(a, b) || TitleLe(b, a)
    {
      StringLeTotal(a.title, b.title);
    }
  }

  function ByTitle(books: seq<Book>): (r: seq<Book>)
    ensures SortedBy(r, TitleLe) && multiset(r) == multiset(books) && |r| == |books|
  {
    TitleOrderTotal();
    Sort(books, TitleLe)
  }

  datatype BookPage = BookPage(books: seq<Book>, total: nat, page: int, pages: nat)

  /** `getAvailableBooks`: the borrowable books by title, one page of them, their number and the page count. */
  function GetAvailableBooks(st: Store, page: int, limit: int): (r: BookPage)
    requires page >= 1 && limit >= 1
    ensures r.total == |SelectBorrowable(st.books)| && r.page == page && r.pages == Pages(r.total, limit)
    ensures |r.books| <= limit
    ensures forall b | b in r.books :: b in st.books && Borrowable(b)
    ensures SortedBy(r.books, TitleLe)
  {
    var sorted := ByTitle(SelectBorrowable(st.books));
    var rows := Paginate(sorted, page, limit);
    forall b | b in rows
      ensures b in st.books && Borrowable(b)
    {
      var k :| 0 <= k < |rows| && rows[k] == b;
      assert b in multiset(sorted);
    }
    assert SortedBy(rows, TitleLe) by {
      forall k | 0 < k < |rows|
        ensures TitleLe(rows[k - 1], rows[k])
      {
        assert rows[k - 1] == sorted[Offset(page, limit) + k - 1];
      }
    }
    BookPage(rows, |sorted|, page, Pages(|sorted|, limit))
  }

  // ---------------------------------------------------------------- properties

  /** A created book keeps the copy counts it was given when both are given. */
  lemma CreateBookKeepsGivenCopies(st: Store, bookId: Id, input: BookInput)
    requires input.availableCopies.Some? && input.totalCopies.Some?
    requires CreateBook(st, bookId, input).1.Ok?
    ensures var b := CreateBook(st, bookId, input).1.value;
      b.availableCopies == input.availableCopies.value && b.totalCopies == input.totalCopies.value && WithinBounds(b)
  {
  }

  /** Given only `available_copies`, the total defaults to 1 and the hook cuts the available count down to it. */
  lemma CreateBookClampsToDefaultTotal(st: Store, bookId: Id, input: BookInput)
    requires input.availableCopies.Some? && input.availableCopies.value >= 1 && input.totalCopies.None?
    requires CreateBook(st, bookId, input).1.Ok?
    ensures CreateBook(st, bookId, input).1.value.totalCopies == 1
    ensures CreateBook(st, bookId, input).1.value.availableCopies == 1
  {
  }

  /**
   * Nothing ties the status to the copy count at creation: a book can be
   * stored `available` with no copy to lend.
   */
  lemma AvailableWithoutCopies()
    ensures var input := BookInput(Some("9780000000002"), Some("T"), Some("A"), Some("C"), None, Some(1), Some(0));
      var (st', r) := CreateBook(Store([], [], [], []), "b", input);
      r.Ok? && r.value.status == Available && r.value.availableCopies == 0 && st'.books == [r.value]
  {
    var input := BookInput(Some("9780000000002"), Some("T"), Some("A"), Some("C"), None, Some(1), Some(0));
    assert BookModel.Create("b", input).Ok?;
  }

  /** A book that is valid and whose isbn no other row holds may replace row `i`. */
  lemma BooksValidAfterReplace(books: seq<Book>, i: nat, b: Book)
    requires BooksValid(books) && i < |books|
    requires b.id == books[i].id && BookModel.Valid(b) && WithinBounds(b) && !IsbnTakenByOther(books, i, b.isbn)
    ensures BooksValid(books[i := b])
  {
    UniqueAfterUpdate(books, BookKey, i, b);
    assert forall x | x in books[i := b] :: x in books || x == b;
  }

  lemma CreateBookPreservesValid(st: Store, bookId: Id, input: BookInput)
    requires ValidStore(st)
    ensures ValidStore(CreateBook(st, bookId, input).0)
  {
    var (st', r) := CreateBook(st, bookId, input);
    if r.Ok? {
      var b := r.value;
      assert IndexOf(st.books, BookIsbn, b.isbn).None?;
      UniqueAfterAppend(st.books, BookKey, b);
      UniqueAfterAppend(st.books, BookIsbn, b);
      assert forall x | x in st'.books :: x in st.books || x == b;
      LinkedAfterAddBook(st, b);
    }
  }

  /**
   * An update never sets the available count directly: it stays as it was
   * unless the new total is lower, in which case the hook cuts it to the total.
   */
  lemma UpdateBookCopies(st: Store, bookId: Id, data: BookInput)
    requires UpdateBook(st, bookId, data).1.Ok?
    ensures var i := FindBook(st, bookId).value;
      var old_b := st.books[i];
      var b := UpdateBook(st, bookId, data).1.value;
      && b.totalCopies == data.totalCopies.GetOr(old_b.totalCopies)
      && b.availableCopies == (if old_b.availableCopies > b.totalCopies then b.totalCopies else old_b.availableCopies)
  {
  }

  lemma UpdateBookPreservesValid(st: Store, bookId: Id, data: BookInput)
    requires ValidStore(st)
    ensures ValidStore(UpdateBook(st, bookId, data).0)
  {
    var (st', r) := UpdateBook(st, bookId, data);
    if r.Ok? {
      var i := FindBook(st, bookId).value;
      BooksValidAfterReplace(st.books, i, r.value);
      LinkedAfterSameKeys(st, st');
    }
  }

  /**
   * After a delete the book can no longer be found, every other book is
   * kept, no transaction names it any more while every transaction is kept,
   * and the store stays consistent.
   */
  lemma DeleteBookEffect(st: Store, bookId: Id)
    requires ValidStore(st)
    requires DeleteBook(st, bookId).1.Ok?
    ensures var st' := DeleteBook(st, bookId).0;
      && FindBook(st', bookId).None?
      && (forall b | b in st.books && b.id != bookId :: b in st'.books)
      && |st'.loans| == |st.loans| && (forall l | l in st'.loans :: l.bookId != Some(bookId))
      && st'.members == st.members && st'.fines == st.fines
      && ValidStore(st')
  {
    var st' := DeleteBook(st, bookId).0;
    var i := FindBook(st, bookId).value;
    UniqueAfterRemove(st.books, BookKey, i);
    UniqueAfterRemove(st.books, BookIsbn, i);
    forall b | b in st.books && b.id != bookId
      ensures b in st'.books
    {
      var j :| 0 <= j < |st.books| && st.books[j] == b;
      if j < i { assert st'.books[j] == b; } else { assert j != i; assert st'.books[j - 1] == b; }
    }
    forall j | 0 <= j < |st'.books|
      ensures st'.books[j].id != bookId
    {
      if j >= i { assert st'.books[j] == st.books[j + 1]; }
    }
    assert forall x | x in st'.books :: x in st.books;
    LoansValidAfterUnlink(st.loans, st'.loans);
    DeleteBookKeepsLinked(st, bookId);
  }

  /** The book deleted has no active loan, so every active loan keeps its references. */
  lemma DeleteBookKeepsLinked(st: Store, bookId: Id)
    requires ActiveLoansLinked(st)
    requires DeleteBook(st, bookId).1.Ok?
    ensures ActiveLoansLinked(DeleteBook(st, bookId).0)
  {
    var st' := DeleteBook(st, bookId).0;
    var i := FindBook(st, bookId).value;
    CountLoansZero(st.loans, ActiveOfBook(bookId));
    forall id | FindBook(st, id).Some? && Some(id) != Some(bookId)
      ensures FindBook(st', id).Some?
    {
      IndexOfAfterRemove(st.books, BookKey, i, id);
    }
    forall l | l in st'.loans && l.status == LoanStatus.Active
      ensures l in st.loans && l.bookId != Some(bookId)
    {
      var j :| 0 <= j < |st'.loans| && st'.loans[j] == l;
      assert st.loans[j] in st.loans;
    }
    LinkedAfter(st, st', Some(bookId), None);
  }

  /**
   * Only `active` loans block a delete: a book whose loan is overdue can be
   * deleted, the loan's `book_id` is cleared, and returning that loan then
   * fails reading the book through `null`, which the handler reports as a 500.
   */
  lemma DeleteWithOverdueLoanBreaksReturn(st: Store, cfg: Config, bookId: Id, k: nat, fineId: Id, now: int)
    requires ValidStore(st)
    requires FindBook(st, bookId).Some? && CountLoans(st.loans, ActiveOfBook(bookId)) == 0
    requires k < |st.loans| && st.loans[k].bookId == Some(bookId) && st.loans[k].status == Overdue
    ensures DeleteBook(st, bookId).1.Ok?
    ensures var st' := DeleteBook(st, bookId).0;
      var r := Return(st', cfg, st.loans[k].id, fineId, now).1;
      r == Err(NullDereference("available_copies")) && ErrorHandler(r.error).status == 500
  {
    var st' := DeleteBook(st, bookId).0;
    IndexOfUnique(st.loans, LoanKey, k);
    IndexOfSameKeys(st.loans, st'.loans, LoanKey, st.loans[k].id);
    assert st'.loans[k].bookId.None?;
  }

  /** On a consistent store a status change changes the status and nothing else. */
  lemma UpdateBookStatusOnlyStatus(st: Store, bookId: Id, status: string)
    requires ValidStore(st)
    requires UpdateBookStatus(st, bookId, status).1.Ok?
    ensures var i := FindBook(st, bookId).value;
      var st' := UpdateBookStatus(st, bookId, status).0;
      && StatusName(st'.books[i].status) == status
      && st'.books == st.books[i := st.books[i].(status := st'.books[i].status)]
      && ValidStore(st')
  {
    var i := FindBook(st, bookId).value;
    assert st.books[i] in st.books;
    var b := st.books[i].(status := ParseStatus(status).value);
    assert BookModel.BeforeValidate(b) == b;
    BooksValidAfterUpdate(st.books, i, b);
    LinkedAfterSameKeys(st, UpdateBookStatus(st, bookId, status).0);
  }

  /** Every borrowable book is listed on some page within the page count. */
  lemma EveryBorrowableBookListed(st: Store, limit: int, b: Book)
    requires limit >= 1
    requires b in st.books && Borrowable(b)
    ensures exists page :: 1 <= page <= GetAvailableBooks(st, 1, limit).pages && b in GetAvailableBooks(st, page, limit).books
  {
    var sorted := ByTitle(SelectBorrowable(st.books));
    assert b in multiset(sorted) by {
      assert b in SelectBorrowable(st.books);
    }
    ListedOnSomePage(sorted, limit, b);
    var page :| 1 <= page <= Pages(|sorted|, limit) && b in Paginate(sorted, page, limit);
    assert GetAvailableBooks(st, page, limit).books == Paginate(sorted, page, limit);
  }
}
