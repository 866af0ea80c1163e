# Library lending model

The model covers the core of a library lending service: books with copy counters, members who can be suspended, transactions (loans), and fines for late returns. It includes:

- borrowing, with seven eligibility checks;
- returning, with the copy restored, the late fine and the member's suspension re-evaluated;
- the overdue sweep;
- fine payment and member reactivation;
- the book, member, fine and transaction services around them;
- the record models with their validators and hooks;
- the error handler.

Each database table is a `seq` of records in insertion order, and the four tables together form a `Store.Store` value. Every service operation is a function from a store to a new store and a `Result`: an `Ok` value or an `Err` carrying the error the service throws.

`Library.Database` is a class holding the four tables as fields. Its methods run the same operations step by step, in the order the services issue their queries. A database transaction is a snapshot taken before the first write and put back on failure. Each method's `ensures` states that the method leaves exactly the state and result of the function on stores. So every lemma about those functions also holds of the methods.

Times are integer milliseconds and a day is a fixed 86,400,000 ms. The clock reading is the parameter `now`. Amounts are integer cents. The environment settings are `Store.Config`, whose defaults are a 14-day loan period, 3 books per member, 3 overdue loans for suspension and 50 cents a day.

Modules, in dependency order:

| module | models |
|---|---|
| `Wrappers`, `Numbers`, `Tables`, `Listing` | options, ceiling division and decimal digits, keyed tables, ORDER BY and LIMIT/OFFSET |
| `ErrorUtil` | `src/utils/error.util.js` |
| `DateUtil` | `src/utils/date.util.js` |
| `BookModel`, `MemberModel`, `TransactionModel`, `FineModel` | `src/models/*.js` |
| `Store` | the four tables, `findByPk`, `count` and `findAll` with a `where` clause, consistency predicates |
| `StateMachine` | `src/services/stateMachine.service.js` |
| `BorrowReturn`, `OverdueSweep` | properties of borrow, return, the suspension rule and the sweep |
| `FineService`, `BookService`, `MemberService`, `TransactionService` | the corresponding `src/services/*.js` |
| `Library` | the `Database` class |

## Model

| member | source | states |
|---|---|---|
| ErrorUtil.NormalizedStatus | src/utils/error.util.js:11 | a missing or zero status code becomes 500; otherwise the error's own code is kept |
| ErrorUtil.NormalizedMessage | src/utils/error.util.js:12 | an empty message becomes "Internal Server Error"; otherwise the message is kept |
| ErrorUtil.ItemMessages | src/utils/error.util.js:16 | one message per inner error, in order |
| ErrorUtil.UniqueMessages | src/utils/error.util.js:25 | one "<path> must be unique" per inner error, in order |
| ErrorUtil.ErrorHandler | src/utils/error.util.js:10-46 | the response is never a success. A list of messages is returned exactly for the two Sequelize error kinds, which are then 400s with one message per inner error. Any status other than 400 or 500 is the error's own. A message other than the generic one comes only from an operational error |
| ErrorUtil.AppErrorResponse | src/utils/error.util.js:1-8 | an AppError is operational and is answered with its own status code and message |
| ErrorUtil.AppErrorDefaults | src/utils/error.util.js:11-12 | an AppError without status or message is answered 500 "Internal Server Error" |
| ErrorUtil.ValidationErrorResponse | src/utils/error.util.js:15-21 | a validation error is a 400 listing each validator message in order |
| ErrorUtil.UniqueConstraintResponse | src/utils/error.util.js:24-30 | a unique-constraint error is a 400 naming the column that must be unique |
| ErrorUtil.InternalErrorsHideDetails | src/utils/error.util.js:40-45 | any two non-operational, non-Sequelize errors get the same bare 500 answer, whatever their message |
| DateUtil.CalculateDueDate | src/utils/date.util.js:1-5 | the due date lies exactly `loanPeriodDays` whole days after the borrow time |
| DateUtil.CalculateOverdueDays | src/utils/date.util.js:7-16 | 0 exactly when `now <= due`; otherwise the least number of whole days covering `now - due` |
| DateUtil.CalculateFineAmount | src/utils/date.util.js:18-21 | with a positive rate the amount is positive exactly when the loan is overdue, and then it is at least one day's rate |
| DateUtil.IsOverdue | src/utils/date.util.js:23-25 | the due date lies strictly before the clock reading |
| DateUtil.OverdueIffPositiveDays | src/utils/date.util.js:23-25 | `isOverdue` holds exactly when the overdue day count is positive |
| DateUtil.OverdueDaysMonotone | src/utils/date.util.js:7-16 | a later clock reading never gives fewer overdue days |
| DateUtil.FineAmountMonotone | src/utils/date.util.js:18-21 | a later clock reading never gives a smaller fine |
| DateUtil.DefaultLoanPeriod | src/utils/date.util.js:1 | with the default period the due date is 14 days after borrowing |
| DateUtil.FineScenario | src/utils/date.util.js:18-21 | due on day 14 and returned on day 20 gives 6 days and 300 cents |
| DateUtil.PartialDayCounts | src/utils/date.util.js:13-14 | one millisecond late already counts as a whole day; one day and one millisecond counts as two |
| BookModel.ParseStatus | src/models/Book.js:30-34 | the recognised labels are exactly the four enum labels |
| BookModel.BeforeValidate | src/models/Book.js:55-59 | only `available_copies` can change, and afterwards it is at most `total_copies`. It is cut down to the total when it exceeded it; otherwise the record is unchanged |
| BookModel.BeforeValidateIdempotent | src/models/Book.js:55-59 | running the clamp twice is running it once |
| BookModel.Violations | src/models/Book.js:10-50 | there are no violations exactly when isbn is 10 to 13 characters, `total_copies >= 1` and `available_copies >= 0` |
| BookModel.Save | src/models/Book.js:54-60 | a save succeeds exactly when the clamped record passes the validators, and it stores the clamped record; otherwise it fails with a validation error |
| BookModel.SaveEstablishesBounds | src/models/Book.js:35-58 | every stored book has `0 <= available_copies <= total_copies` |
| BookModel.Create | src/models/Book.js:4-61 | a create succeeds exactly when every required attribute is given and the clamped record with defaults passes the validators |
| BookModel.CreateDefaults | src/models/Book.js:30-50 | status defaults to available and both counters default to 1; supplied attributes are kept |
| BookModel.Assign | src/services/book.service.js:62 | the supplied attributes replace the stored ones; the key is kept, and an empty payload changes nothing |
| MemberModel.Violations | src/models/Member.js:10-16 | there are no violations exactly when the name has a non-white-space character |
| MemberModel.NotEmpty | src/models/Member.js:13-15 | the name has a character outside JavaScript's white space |
| MemberModel.Create | src/models/Member.js:4-38 | a create succeeds exactly when name, email and number are given and the name is not blank; the status defaults to active |
| MemberModel.BlankNameRejected | src/models/Member.js:13-15 | an empty or all-space name is refused |
| MemberModel.Save | src/models/Member.js:10-16 | a save succeeds exactly when the member passes the validators, and stores the member unchanged |
| MemberModel.Assign | src/services/member.service.js:68 | the supplied attributes replace the stored ones; the key is kept, and an empty payload changes nothing |
| TransactionModel.BeforeValidate | src/models/Transaction.js:32-39 | a missing due date is set to the borrow time plus the loan period; a given due date is never overwritten |
| TransactionModel.Create | src/models/Transaction.js:10-27 | `borrowed_at` defaults to now, status to active and `returned_at` to null, and the due date comes from the hook |
| FineModel.Create | src/models/Fine.js:10-21 | a create succeeds exactly when the amount (default 0) is non-negative; the fine starts unpaid |
| Numbers.CeilDiv | src/services/book.service.js:107 | the least `q` with `q * b >= a`; it is 0 exactly when `a` is 0 |
| Listing.Pages | src/services/book.service.js:107 | `Math.ceil(total / limit)`: the fewest pages of `limit` rows that hold `total` rows |
| Listing.Paginate | src/services/book.service.js:90-98 | at most `limit` rows, which are the ordered rows from offset `(page - 1) * limit` on |
| Listing.ListedOnSomePage | src/services/book.service.js:89-109 | every row of a listing appears on some page numbered from 1 to `pages` |
| Listing.Sort | src/services/book.service.js:99 | `ORDER BY`: the same rows, as a multiset, in the column's order |
| Listing.PageOfSorted | src/services/book.service.js:92-99 | a page holds only rows of the listing, still in the listing's order |
| Listing.RowOnItsPage | src/services/book.service.js:90 | row `k` is on page `k / limit + 1`, within the page count, at position `k - offset` |
| Listing.NewestFirst | src/services/fine.service.js:25 | the rows in reverse insertion order, the same multiset |
| Store.FindBook | src/services/stateMachine.service.js:8 | `findByPk`: a position whose row has the key, or none exactly when no row has it |
| Store.FindMember | src/services/stateMachine.service.js:9 | `findByPk` on members, with the same statement |
| Store.FindLoan | src/services/stateMachine.service.js:90-92 | `findByPk` on transactions, with the same statement |
| Store.FindFine | src/services/fine.service.js:56-58 | `findByPk` on fines, with the same statement |
| Store.FindBookRef | src/services/stateMachine.service.js:116 | `findByPk` of a nullable `book_id`: a row is found exactly when the key is set and stored, and it is that key's row |
| Store.FindMemberRef | src/services/stateMachine.service.js:157 | `findByPk` of a nullable `member_id`, with the same statement |
| Store.SelectLoans | src/services/stateMachine.service.js:168-171 | `findAll` with a `where` clause: exactly the matching loans, in table order |
| Store.CountLoans | src/services/stateMachine.service.js:34-39 | `count`: the number of matching loans, at most the table size |
| Store.CountLoansZero | src/services/member.service.js:80-89 | the count is 0 exactly when no loan matches |
| Store.SelectFines | src/services/fine.service.js:89-94 | `findAll` on fines: exactly the matching fines, in table order |
| Store.SumAmounts | src/services/fine.service.js:96 | the `reduce` sum of the amounts, never negative when no amount is |
| Store.UnlinkMemberLoans | src/models/index.js:24-27 | ON DELETE SET NULL: the loans of the deleted member lose `member_id`; every other column and row is kept |
| Store.UnlinkBookLoans | src/models/index.js:14-17 | the same for `book_id` when a book is deleted |
| Store.UnlinkMemberFines | src/models/index.js:34-37 | the same for the fines' `member_id` when a member is deleted |
| Store.ValidStore | src/models/index.js:14-37 | the store invariant: every record passes its validators, counters are within bounds, every unique column is unique, and active loans are linked. Each operation preserves it (the `PreservesValid` lemmas) |
| Store.ActiveLoansLinked | src/services/member.service.js:80-89 | every active loan names a stored book and a stored member, which the delete guards keep so |
| Store.LinkedAfter | src/services/book.service.js:73-85 | active loans stay linked when every stored key other than a deleted one stays stored and no active loan names the deleted one |
| Store.WithinLoanCap | src/services/stateMachine.service.js:34-43 | no member holds more than the maximum of active loans |
| StateMachine.HasUnpaidFine | src/services/stateMachine.service.js:46-55 | an unpaid fine of the member exists |
| StateMachine.Eligible | src/services/stateMachine.service.js:7-58 | the conjunction of the seven checks: book and member found, book available with a copy, member active, under the loan limit, owing nothing |
| StateMachine.CanBorrowBook | src/services/stateMachine.service.js:7-58 | passes exactly when the member is eligible. A failure is an operational 400 or 404, and it is a 404 exactly when the book or the member is missing |
| StateMachine.TakeCopy | src/services/stateMachine.service.js:74-78 | one copy fewer; the status is borrowed exactly when none is left, and available otherwise |
| StateMachine.NewLoan | src/services/stateMachine.service.js:67-71 | the inserted row is active, borrowed now, not returned, and due after the loan period |
| StateMachine.Borrow | src/services/stateMachine.service.js:60-87 | an error changes nothing, and the first failing check is the error. A success means the member was eligible; it appends the new loan and stores the book with one copy taken, through the clamp |
| StateMachine.CanReturnBook | src/services/stateMachine.service.js:89-103 | an unknown loan is a 404 and a returned one a 400; otherwise the loan's position is returned |
| StateMachine.Close | src/services/stateMachine.service.js:110-113 | the loan is returned at `now`; its keys and dates are kept |
| StateMachine.RestoreCopy | src/services/stateMachine.service.js:115-120 | a cleared or missing book is the null dereference on `available_copies`; otherwise the book is saved with one more copy and status available |
| StateMachine.PutBack | src/services/stateMachine.service.js:118-119 | one copy more and status available; nothing else of the book changes |
| StateMachine.LateFine | src/services/stateMachine.service.js:123-133 | the fine row for the loan's member: unpaid, priced at the overdue days times the rate |
| StateMachine.AddLateFine | src/services/stateMachine.service.js:122-134 | an on-time return adds nothing; a late one appends exactly the late fine, unless the fine key is taken |
| StateMachine.SuspensionRule | src/services/stateMachine.service.js:158-164 | suspended at or above the threshold; active below both the threshold and the literal 3; otherwise unchanged |
| StateMachine.EvaluateSuspension | src/services/stateMachine.service.js:148-164 | fails exactly when the member key is cleared or missing; otherwise only that member's status changes, by the suspension rule applied to their overdue count |
| StateMachine.Return | src/services/stateMachine.service.js:105-146 | an error changes nothing, and a `canReturnBook` error is passed through. A success returns the closed loan |
| StateMachine.MarkOverdue | src/services/stateMachine.service.js:177 | only the row with that key is set overdue; an unknown key changes nothing |
| StateMachine.SweepLoop | src/services/stateMachine.service.js:175-182 | books and fines are untouched; each loan keeps its row and changes at most its status, to overdue; each member changes at most its status |
| StateMachine.Sweep | src/services/stateMachine.service.js:167-183 | the loop over the active loans read first, with the same statement |
| BorrowReturn.CanBorrowBookFirstFailure | src/services/stateMachine.service.js:8-57 | the seven checks in order; each error is reported only when every earlier check passed |
| BorrowReturn.BorrowSucceedsIff | src/services/stateMachine.service.js:60-87 | on a consistent store a borrow succeeds exactly when the member is eligible and the loan key is free |
| BorrowReturn.BorrowEffect | src/services/stateMachine.service.js:66-71 | a success appends one active loan, borrowed now and due after the loan period; members and fines are untouched |
| BorrowReturn.BorrowTakesOneCopy | src/services/stateMachine.service.js:74-78 | a success takes exactly one copy of the book, which is borrowed exactly when none is left; no other book changes |
| BorrowReturn.BorrowRespectsLoanCap | src/services/stateMachine.service.js:34-43 | after a success the member holds at most the maximum of active loans |
| BorrowReturn.BorrowKeepsLoanCap | src/services/stateMachine.service.js:34-43 | a store within the loan cap stays within it after any borrow |
| BorrowReturn.BorrowBeyondLimitRefused | src/services/stateMachine.service.js:41-43 | a member at the limit is refused with the limit message and nothing is written |
| BorrowReturn.OverdueLoansLeaveTheCount | src/services/stateMachine.service.js:34-39 | only active loans count: marking one overdue frees a place |
| BorrowReturn.BorrowPreservesValid | src/services/stateMachine.service.js:60-87 | a borrow keeps every record valid, the counters within bounds, every key unique and every active loan linked |
| BorrowReturn.BorrowKeepsLinked | src/services/stateMachine.service.js:7-87 | after any borrow every active loan still names a stored book and member |
| BorrowReturn.ReturnRefusals | src/services/stateMachine.service.js:94-100 | an unknown loan is a 404 and a returned one a 400; neither changes the store |
| BorrowReturn.ReturnEffect | src/services/stateMachine.service.js:105-146 | a success closes the loan in place and restores the book's copy through the clamp. It appends the fine exactly when the return is late, and applies the suspension rule to the member's overdue count after the close |
| BorrowReturn.ReturnRestoresCopy | src/services/stateMachine.service.js:116-120 | one copy more, capped at the total, and status available whatever it was |
| BorrowReturn.ReturnFineIffLate | src/services/stateMachine.service.js:123-134 | a fine is written exactly when `now > due_date`; it is unpaid, belongs to the loan's member and costs the overdue days times the rate |
| BorrowReturn.SecondReturnRefused | src/services/stateMachine.service.js:98-100 | a second return of the same loan is refused and changes nothing |
| BorrowReturn.ReturnPreservesValid | src/services/stateMachine.service.js:105-146 | a return keeps every record valid, every key unique and every active loan linked |
| BorrowReturn.ReturnKeepsOneFinePerLoan | src/services/stateMachine.service.js:129-133 | fines belong only to returned loans, each with at most one fine, and a return keeps it so |
| BorrowReturn.BorrowKeepsOneFinePerLoan | src/services/stateMachine.service.js:67-71 | a borrow keeps every fine attached to a returned loan |
| BorrowReturn.BorrowThenReturnOnTime | src/services/stateMachine.service.js:60-146 | borrowing and returning by the due date restores the books table exactly and writes no fine |
| OverdueSweep.SuspensionByCount | src/services/stateMachine.service.js:159-163 | with a threshold of at most 3, the member is suspended exactly at or above the threshold |
| OverdueSweep.SuspensionRuleIdempotent | src/services/stateMachine.service.js:159-163 | applying the rule twice with the same count is applying it once |
| OverdueSweep.LiteralReactivationBound | src/services/stateMachine.service.js:161 | with a threshold of 5, four overdue loans leave either status unchanged |
| OverdueSweep.EvaluateSuspensionIdempotent | src/services/stateMachine.service.js:148-164 | re-evaluating a member right after an evaluation changes nothing |
| OverdueSweep.SweepLoopNothingLate | src/services/stateMachine.service.js:175-182 | when nothing in the snapshot is late, the loop writes nothing |
| OverdueSweep.SweepLoopSucceeds | src/services/stateMachine.service.js:157-161 | the loop ends without error when every late loan in the snapshot names a stored member |
| OverdueSweep.SweepSucceeds | src/services/stateMachine.service.js:167-183 | on a consistent store the sweep ends without error |
| OverdueSweep.SweepClears | src/services/stateMachine.service.js:167-183 | on a consistent store, after the sweep no active loan is past its due date |
| OverdueSweep.SweepIdempotent | src/services/stateMachine.service.js:167-183 | on a consistent store, a second sweep with the same clock changes nothing |
| OverdueSweep.SweepMarksOnlyLateActive | src/services/stateMachine.service.js:175-177 | with or without error, the sweep only turns late active loans overdue |
| OverdueSweep.SweepEffect | src/services/stateMachine.service.js:167-183 | on a consistent store, exactly the late active loans become overdue and every other row is kept |
| OverdueSweep.SweepPreservesValid | src/services/stateMachine.service.js:167-183 | the sweep keeps the store consistent, also when it stops on an error |
| OverdueSweep.SweepHistory | src/services/stateMachine.service.js:167-183 | no row disappears, returned loans and fines are untouched, and fines stay attached to returned loans |
| OverdueSweep.SweepSettlesMembers | src/services/stateMachine.service.js:175-182 | with a threshold of at most 3, on a consistent store, every member who had a late loan is suspended exactly when their overdue count reaches the threshold |
| FineService.PaidFilter | src/services/fine.service.js:10-14 | only the strings "true" and "false" filter, on paid and unpaid |
| FineService.IdFilter | src/services/fine.service.js:16-18 | an id filters only when it is a non-empty string |
| FineService.GetAllFines | src/services/fine.service.js:6-41 | the page is exactly the slice, at offset `(page - 1) * limit`, of the matching fines newest first; the count and page count are of the matching fines. The unpaid total runs over all fines |
| FineService.PaidFilterSelects | src/services/fine.service.js:10-14 | "true" lists only paid fines and "false" only unpaid ones; any other value filters nothing |
| FineService.EveryMatchingFineListed | src/services/fine.service.js:20-26 | every fine matching the filters is on some page within the page count |
| FineService.TotalUnpaidIgnoresFilters | src/services/fine.service.js:28-30 | the unpaid total is the same whatever the page and filters |
| FineService.TotalUnpaidBounds | src/services/fine.service.js:28-34 | the unpaid total is never negative, and it is 0 when nothing is owed |
| FineService.CalculateMemberFines | src/services/fine.service.js:88-103 | exactly the member's unpaid fines, their number and the sum of their amounts |
| FineService.MemberFinesBlockBorrowing | src/services/stateMachine.service.js:46-55 | a member owes a fine exactly when the eligibility check finds an unpaid one |
| FineService.GetFineById | src/services/fine.service.js:43-53 | an unknown fine is a 404; otherwise the stored fine with that key |
| FineService.PayFine | src/services/fine.service.js:55-86 | an unknown fine is a 404 and a paid one a 400, neither changing anything |
| FineService.PayFineRecordsPayment | src/services/fine.service.js:67-68 | paying an unpaid fine always stores `paid_at = now` and nothing else of it, even when the call then fails on a missing member |
| FineService.NeverPaidTwice | src/services/fine.service.js:63-65 | paying again is refused with 400 and changes nothing |
| FineService.PayFineReactivation | src/services/fine.service.js:71-82 | a suspended member left without unpaid fines becomes active; one still owing stays suspended; an active member is untouched |
| FineService.ReactivationIgnoresOverdueLoans | src/services/fine.service.js:71-82 | reactivation on payment happens however many overdue loans the member holds |
| FineService.PaymentSettlesAmount | src/services/fine.service.js:67-68 | the unpaid count under the fine's `member_id` drops by one, and both the unpaid total under it and the overall one drop by the fine's amount; with the key set, the same holds of `calculateMemberFines` |
| FineService.PayFinePreservesValid | src/services/fine.service.js:55-86 | a payment keeps the store consistent |
| FineService.PayFineHistory | src/services/fine.service.js:55-86 | a payment changes no loan and removes no fine, and fines stay attached to returned loans |
| BookService.CreateBook | src/services/book.service.js:6-13 | more available than total copies, both given, is a 400. A success is `Book.create`'s record under a free key and isbn, appended to the table, and an error changes nothing |
| BookService.UpdateBook | src/services/book.service.js:50-64 | an unknown book is a 404, and any `available_copies` in the payload a 400. A success stores the assigned attributes through the clamp |
| BookService.DeleteBook | src/services/book.service.js:66-87 | an unknown book is a 404. The delete is refused with 400 exactly while the book has an active loan; otherwise the row is removed and its loans lose their `book_id` |
| BookService.UpdateBookStatus | src/services/book.service.js:112-132 | the status label is checked before the lookup: an invalid one is a 400 and an unknown book a 404. Setting available with no copies is a 400; a success changes only the status |
| BookService.SelectBorrowable | src/services/book.service.js:93-96 | exactly the books that are available with at least one copy |
| BookService.ByTitle | src/services/book.service.js:99 | the same books, sorted by title |
| BookService.GetAvailableBooks | src/services/book.service.js:89-110 | lists only borrowable books, in title order, at most `limit` of them, with their count and the page count |
| BookService.CreateBookKeepsGivenCopies | src/services/book.service.js:7-11 | a created book keeps the two copy counts it was given |
| BookService.CreateBookClampsToDefaultTotal | src/models/Book.js:38-58 | given only `available_copies`, the total defaults to 1 and the available count is cut to 1 |
| BookService.AvailableWithoutCopies | src/services/book.service.js:6-13 | a book can be created available with no copy to lend |
| BookService.CreateBookPreservesValid | src/services/book.service.js:6-13 | a create keeps the store consistent |
| BookService.UpdateBookCopies | src/services/book.service.js:57-62 | an update leaves the available count as it was, unless a lower total cuts it to the total |
| BookService.UpdateBookPreservesValid | src/services/book.service.js:50-64 | an update keeps the store consistent |
| BookService.DeleteBookEffect | src/services/book.service.js:85 | after a delete the book is not found, every other book is kept, no loan names it, members and fines are untouched, and the store stays consistent |
| BookService.DeleteBookKeepsLinked | src/services/book.service.js:73-85 | a delete keeps every active loan linked |
| BookService.DeleteWithOverdueLoanBreaksReturn | src/services/book.service.js:73-83 | a book whose only loan is overdue can be deleted, and returning that loan then fails with a 500 |
| BookService.UpdateBookStatusOnlyStatus | src/services/book.service.js:126-131 | on a consistent store a status change stores the requested status and nothing else |
| BookService.EveryBorrowableBookListed | src/services/book.service.js:89-109 | every borrowable book is listed on some page within the page count |
| MemberService.CreateMember | src/services/member.service.js:5-13 | a given non-empty number is kept; a missing or empty one becomes "M" and the timestamp. A success has the given name, email and status (default active) and a key, email and number no other member holds |
| MemberService.UpdateMember | src/services/member.service.js:56-70 | an unknown member is a 404; a non-empty number other than the stored one is a 400. A success stores the assigned attributes, valid and unique |
| MemberService.DeleteMember | src/services/member.service.js:72-93 | an unknown member is a 404. The delete is refused with 400 exactly while the member has an active loan; otherwise the row is removed and its loans and fines lose their `member_id` |
| MemberService.GetBorrowedBooks | src/services/member.service.js:95-112 | an unknown member is a 404; otherwise the member's active loans sorted by due date |
| MemberService.GetMemberFines | src/services/member.service.js:114-129 | exactly the member's unpaid fines and the sum of their amounts |
| MemberService.CreateMemberPreservesValid | src/services/member.service.js:5-13 | a create keeps the store consistent |
| MemberService.UpdateMemberNumber | src/services/member.service.js:63-68 | resending the stored number is not refused; after an update the number is the stored one, or empty when an empty number was sent |
| MemberService.UpdateMemberPreservesValid | src/services/member.service.js:56-70 | an update keeps the store consistent |
| MemberService.DeleteMemberEffect | src/services/member.service.js:91 | after a delete the member is not found, the books are untouched, no loan or fine names the member, no row disappears, and the store stays consistent |
| MemberService.DeleteMemberKeepsLinked | src/services/member.service.js:80-91 | a delete keeps every active loan linked |
| MemberService.BorrowedBooksAreActiveLoans | src/services/member.service.js:102-109 | the list holds exactly the member's active loans |
| TransactionService.ParseStatus | src/models/Transaction.js:23-27 | the recognised labels are exactly the three enum labels |
| TransactionService.WhereClause | src/services/transaction.service.js:40-50 | each filter constrains its column only when it is a non-empty string. A status outside the enum is a database error |
| TransactionService.PageOf | src/services/transaction.service.js:52-66 | the page is exactly the slice at offset `(page - 1) * limit` of the matching rows in the given order, with the count of all matching rows |
| TransactionService.GetAllTransactions | src/services/transaction.service.js:38-68 | exactly the page at offset `(page - 1) * limit` of the loans matching the filters, newest borrow first, with their count and the page count |
| TransactionService.GetOverdueTransactions | src/services/transaction.service.js:70-92 | the sweep runs first and its writes stay, and its error is the call's error. Then the page is exactly the slice of the overdue loans, soonest due first |
| TransactionService.GetTransactionById | src/services/transaction.service.js:26-36 | an unknown loan is a 404; otherwise the stored loan with that key |
| TransactionService.GetMemberTransactions | src/services/transaction.service.js:94-102 | exactly the member's loans, whatever their status, newest borrow first |
| TransactionService.FiltersConstrainOnlySupplied | src/services/transaction.service.js:42-50 | a loan is counted exactly when it agrees with every supplied filter |
| TransactionService.EmptyFilterListsAll | src/services/transaction.service.js:38-58 | with no filter and a large enough page, every loan is listed |
| TransactionService.EveryMatchingLoanListed | src/services/transaction.service.js:38-58 | every loan matching the filters is on some page within the page count |
| TransactionService.OverdueListingSucceeds | src/services/transaction.service.js:70-92 | on a consistent store the overdue listing succeeds |
| TransactionService.OverdueListingAfterSweep | src/services/transaction.service.js:73-82 | a loan is listed exactly when it was overdue or was active and past due |
| TransactionService.EveryOverdueLoanListed | src/services/transaction.service.js:70-92 | on a consistent store every loan overdue after the sweep is on some page within the page count |
| TransactionService.BorrowedLoanFound | src/services/transaction.service.js:6-15 | the loan a borrow creates is the one then found by its key |
| TransactionService.ReturnedLoanFound | src/services/transaction.service.js:17-24 | the loan a return closes is the one then found by its key |
| Library.Database.constructor | src/models/index.js:1-5 | an empty, consistent database |
| Library.Database.Restore | src/services/stateMachine.service.js:83-85 | the rollback: the tables are exactly the snapshot |
| Library.Database.BorrowBook | src/services/stateMachine.service.js:60-87 | leaves exactly the state and result of `StateMachine.Borrow`, and keeps the store consistent and within the loan cap |
| Library.Database.CheckMemberSuspension | src/services/stateMachine.service.js:148-164 | leaves the state of `StateMachine.EvaluateSuspension`, or reports its error and writes nothing |
| Library.Database.ReturnBook | src/services/stateMachine.service.js:105-146 | leaves exactly the state and result of `StateMachine.Return` and keeps the store consistent |
| Library.Database.UpdateOverdueStatus | src/services/stateMachine.service.js:167-183 | the loop leaves exactly the state and error of `StateMachine.Sweep`; on a consistent database it ends without error and keeps it consistent |
| Library.Database.SweepStep | src/services/stateMachine.service.js:176-181 | a loan not yet due changes nothing; a late one is marked overdue, then its member is re-evaluated |
| Library.Database.PayFine | src/services/fine.service.js:55-86 | leaves exactly the state and result of `FineService.PayFine` and keeps the store consistent |
| Library.Database.CreateBook | src/services/book.service.js:6-13 | leaves exactly the state and result of `BookService.CreateBook` and keeps the store consistent |
| Library.Database.UpdateBook | src/services/book.service.js:50-64 | leaves exactly the state and result of `BookService.UpdateBook` and keeps the store consistent |
| Library.Database.DeleteBook | src/services/book.service.js:66-87 | leaves exactly the state and result of `BookService.DeleteBook` and keeps the store consistent |
| Library.Database.UpdateBookStatus | src/services/book.service.js:112-132 | leaves exactly the state and result of `BookService.UpdateBookStatus` and keeps the store consistent |
| Library.Database.CreateMember | src/services/member.service.js:5-13 | leaves exactly the state and result of `MemberService.CreateMember` and keeps the store consistent |
| Library.Database.UpdateMember | src/services/member.service.js:56-70 | leaves exactly the state and result of `MemberService.UpdateMember` and keeps the store consistent |
| Library.Database.DeleteMember | src/services/member.service.js:72-93 | leaves exactly the state and result of `MemberService.DeleteMember` and keeps the store consistent |

### What the code does that a reader might not expect

The model follows the code in each of these cases:

- **Loan limit.** Only `active` loans count towards it. An overdue loan does not count, so a member holding overdue loans can borrow up to the limit again. See `BorrowReturn.OverdueLoansLeaveTheCount`.
- **Status names.** A book with no copy left is `borrowed`. A return always sets `available`, even over `reserved` or `maintenance`. See `BorrowReturn.ReturnRestoresCopy`.
- **Reactivation.** `checkMemberSuspension` reactivates a member below the literal 3, not below the configured threshold. See `OverdueSweep.LiteralReactivationBound`.
- **Payment.** `payFine` has no database transaction, and it reactivates a member whatever their overdue loans. A fine whose member is gone stays paid while the call fails. See `FineService.PayFineRecordsPayment` and `FineService.ReactivationIgnoresOverdueLoans`.
- **Sweep.** Each loan update commits on its own, and the first error stops the loop with the earlier writes kept. See `OverdueSweep.SweepPreservesValid`. The only error is a late loan whose member is not stored, which the delete guards rule out on a consistent store (`OverdueSweep.SweepSucceeds`).
- **Status and copies.**
  - A book can be created `available` with no copies (`BookService.AvailableWithoutCopies`).
  - Lowering `total_copies` below the available count cuts the count to the total (`BookService.UpdateBookCopies`).
- **Deleting a book.** A book whose loans are all overdue can be deleted. The database then clears those loans' `book_id`, and returning them fails with a 500 on the null book. See `BookService.DeleteWithOverdueLoanBreaksReturn`.
- **Membership number.** An empty `membership_number` is not truthy, so it passes the "cannot be changed" check and is then written. See `MemberService.UpdateMemberNumber`.
- **Deleted rows.** The keys `transactions.book_id`, `transactions.member_id` and `fines.member_id` are added by `belongsTo` as nullable columns, so a delete sets them to NULL (`Store.UnlinkBookLoans`, `Store.UnlinkMemberLoans`, `Store.UnlinkMemberFines`). Queries by the deleted id then find none of those rows.
- **Missing rows.** A row missing behind a foreign key is read through `null`. The resulting TypeError is modelled as `ErrorUtil.NullDereference`, which the handler answers with a 500.

## Left out

- **Concurrency.** `borrowBook` runs its eligibility check before it opens the database transaction, so two parallel borrows could both pass it. The model is sequential and does not capture that race.
- **Floating point.** `parseFloat` and `DECIMAL(10, 2)` amounts are integer cents.
- **Time.** There is no local-time or `Date.setDate` daylight-saving behaviour: a day is always 86,400,000 ms.
- **Clock readings.** Each operation takes one clock reading `now`. The code reads the clock separately at `returned_at`, in `isOverdue` and in `calculateOverdueDays`, and those readings could differ by milliseconds.
- **Configuration.** `process.env` is replaced by `Store.Config` with the defaults.
- **Generated keys.** UUIDs are parameters, and a key that is already taken gives the primary-key unique-constraint error. The `"M" + Date.now()` number is not assumed unique: a collision is the unique-index error.
- **Unique indexes.** When several unique indexes are violated at once, the model reports the first in the order primary key, email or isbn, membership number.
- **Validator scope.** Sequelize validates only the changed fields on `update` and `save`, but the model validates every field. The two agree on any store satisfying `Store.ValidStore`.
- **Email validation.** The email validator (`isEmail`) belongs to a library whose code is not part of this model, so any email string is accepted.
- **Payload values.** Enum labels in create and update payloads are typed values. An explicit `null` in a payload is treated as an absent key. Invalid labels are modelled only where the service checks them (`updateBookStatus`, the transaction status filter).
- **Associations.** `include` eager loading adds related rows to the responses; the model returns the rows alone. `src/models/index.js` declares the associations; of their effect on the tables the model keeps the nullable keys and ON DELETE SET NULL, and leaves out ON UPDATE CASCADE, since no key is ever updated.
- **Listing order.**
  - A `createdAt DESC` order is the table read backwards.
  - Title order compares code points, not the database collation.
  - Rows with equal sort keys keep table order, where the database leaves their order unspecified.
- **Page arguments.** `Listing.Paginate` requires `page >= 1` and `limit >= 1`. The controllers parse these values; other page and limit values are not modelled.
- **Key format.** Every primary key is a PostgreSQL UUID column. The model takes ids to be well-formed UUIDs: a string that is not one, given to `findByPk` or used as a `member_id` or `book_id` filter, is a database error answered with a 500 in the code, where the model answers 404 or lists nothing.
- BookService.UpdateBook: assumes the clamp the `beforeValidate` hook applies to `available_copies` when `total_copies` is lowered is written to the row. `book.update(data)` may write only the payload's fields, which never include `available_copies`; if so, the stored row keeps the old count and only the returned instance is clamped. `BookService.UpdateBookCopies` and `BookService.UpdateBookPreservesValid` rest on the same assumption.
- **Plain lookups and listings.** `getAllBooks`, `getBookById`, `getAllMembers` and `getMemberById` are not modelled: they are lookups and listings outside the lending core.
- **HTTP layer.** Controllers, routes, the Express app and the server are not modelled. This includes the required-field check in the book controller.
- **Scripts.** The seeding, setup and debug scripts and the API test scripts are not modelled.
- **Route pass-throughs.** The transaction routes' `borrowBook` and `returnBook` pass straight through to `StateMachine.Borrow` and `StateMachine.Return`, so they have no members of their own.
