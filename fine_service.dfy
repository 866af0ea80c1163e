/**
 * The fine service: listing fines with the paid filter and the unpaid
 * total, a member's unpaid fines, and paying a fine, which may reactivate a
 * suspended member whose fines are then all paid.
 */
module FineService {
  import opened Wrappers
  import opened ErrorUtil
  import opened Tables
  import opened Listing
  import opened MemberModel
  import opened TransactionModel
  import opened FineModel
  import opened Store
  import opened StateMachine

  const FineNotFoundMessage := "Fine not found"
  const AlreadyPaidMessage := "Fine has already been paid"

  // ---------------------------------------------------------------- listing

  /** The `paid` query parameter: the strings "true" and "false" filter, anything else does not. */
  function PaidFilter(paid: Option<string>): (r: Option<bool>)
    ensures r == Some(true) <==> paid == Some("true")
    ensures r == Some(false) <==> paid == Some("false")
  {
    if paid == Some("true") then Some(true)
    else if paid == Some("false") then Some(false)
    else None
  }

  /** A `member_id` parameter filters only when it is a non-empty string (JavaScript truthiness), and then on that key. */
  function IdFilter(id: Option<string>): (r: Option<Ref>)
    ensures r.Some? <==> id.Some? && id.value != ""
    ensures r.Some? ==> r.value == id
  {
    if id.Some? && id.value != "" then Some(id) else None
  }

  datatype FinePage = FinePage(fines: seq<Fine>, totalUnpaid: int, total: nat, page: int, pages: nat)

  /**
   * `getAllFines`: the matching fines, newest first, one page of them; the
   * number of matches and of pages; and the unpaid total over all fines.
   */
  function GetAllFines(st: Store, page: int, limit: int, paid: Option<string>, memberId: Option<string>): (r: FinePage)
    requires page >= 1 && limit >= 1
    ensures var q := FineQuery(PaidFilter(paid), IdFilter(memberId));
      && r.fines == Paginate(NewestFirst(SelectFines(st.fines, q)), page, limit)
      && r.total == |SelectFines(st.fines, q)|
      && r.page == page
      && r.pages == Pages(r.total, limit)
      && |r.fines| <= limit
      && (forall f | f in r.fines :: f in st.fines && FineMatches(f, q))
      && r.totalUnpaid == SumAmounts(SelectFines(st.fines, AllUnpaid))
  {
    var q := FineQuery(PaidFilter(paid), IdFilter(memberId));
    var matching := SelectFines(st.fines, q);
    var rows := Paginate(NewestFirst(matching), page, limit);
    assert forall f | f in rows :: f in matching by {
      forall f | f in rows ensures f in matching {
        var k :| 0 <= k < |rows| && rows[k] == f;
        assert f in multiset(NewestFirst(matching));
      }
    }
    FinePage(rows, SumAmounts(SelectFines(st.fines, AllUnpaid)), |matching|, page, Pages(|matching|, limit))
  }

  /** Every fine matching the filters is listed on some page within the page count. */
  lemma EveryMatchingFineListed(st: Store, limit: int, paid: Option<string>, memberId: Option<string>, f: Fine)
    requires limit >= 1
    requires f in st.fines && FineMatches(f, FineQuery(PaidFilter(paid), IdFilter(memberId)))
    ensures exists page :: 1 <= page <= GetAllFines(st, 1, limit, paid, memberId).pages && f in GetAllFines(st, page, limit, paid, memberId).fines
  {
    var matching := SelectFines(st.fines, FineQuery(PaidFilter(paid), IdFilter(memberId)));
    var newest := NewestFirst(matching);
    assert f in multiset(newest) by {
      assert f in matching;
    }
    ListedOnSomePage(newest, limit, f);
    var page :| 1 <= page <= Pages(|newest|, limit) && f in Paginate(newest, page, limit);
    assert GetAllFines(st, page, limit, paid, memberId).fines == Paginate(newest, page, limit);
  }

  /** `paid=true` lists only paid fines, `paid=false` only unpaid ones; other values and no value list both. */
  lemma PaidFilterSelects(st: Store, page: int, limit: int, paid: Option<string>, memberId: Option<string>)
    requires page >= 1 && limit >= 1
    ensures paid == Some("true") ==> forall f | f in GetAllFines(st, page, limit, paid, memberId).fines :: IsPaid(f)
    ensures paid == Some("false") ==> forall f | f in GetAllFines(st, page, limit, paid, memberId).fines :: !IsPaid(f)
    ensures paid != Some("true") && paid != Some("false") ==>
      GetAllFines(st, page, limit, paid, memberId).total == GetAllFines(st, page, limit, None, memberId).total
  {
  }

  /** The unpaid total ignores the page and every filter. */
  lemma TotalUnpaidIgnoresFilters(st: Store, page: int, limit: int, paid: Option<string>, memberId: Option<string>,
                                  page2: int, limit2: int, paid2: Option<string>, memberId2: Option<string>)
    requires page >= 1 && limit >= 1 && page2 >= 1 && limit2 >= 1
    ensures GetAllFines(st, page, limit, paid, memberId).totalUnpaid == GetAllFines(st, page2, limit2, paid2, memberId2).totalUnpaid
  {
  }

  /** With valid amounts the unpaid total is never negative, and it is 0 when nothing is owed. */
  lemma TotalUnpaidBounds(st: Store, page: int, limit: int)
    requires page >= 1 && limit >= 1
    requires FinesValid(st.fines)
    ensures GetAllFines(st, page, limit, None, None).totalUnpaid >= 0
    ensures SelectFines(st.fines, AllUnpaid) == [] ==> GetAllFines(st, page, limit, None, None).totalUnpaid == 0
  {
    assert forall f | f in SelectFines(st.fines, AllUnpaid) :: f in st.fines;
    SumAmountsNonNegative(SelectFines(st.fines, AllUnpaid));
  }

  // ---------------------------------------------------------------- a member's fines

  datatype MemberFines = MemberFines(count: nat, totalAmount: int, details: seq<Fine>)

  /** `calculateMemberFines`: the member's unpaid fines, how many, and their total. */
  function CalculateMemberFines(st: Store, memberId: Id): (r: MemberFines)
    ensures forall f :: f in r.details <==> f in st.fines && f.memberId == Some(memberId) && !IsPaid(f)
    ensures r.count == |r.details| && r.totalAmount == SumAmounts(r.details)
  {
    var unpaid := SelectFines(st.fines, UnpaidOfMember(Some(memberId)));
    MemberFines(|unpaid|, SumAmounts(unpaid), unpaid)
  }

  /** The member owes something exactly when the eligibility check finds an unpaid fine. */
  lemma MemberFinesBlockBorrowing(st: Store, memberId: Id)
    ensures CalculateMemberFines(st, memberId).count > 0 <==> HasUnpaidFine(st, memberId)
  {
  }

  // ---------------------------------------------------------------- payment

  /** `getFineById`. */
  function GetFineById(st: Store, fineId: Id): (r: Result<Fine>)
    ensures r.Ok? <==> exists f :: f in st.fines && f.id == fineId
    ensures r.Ok? ==> r.value in st.fines && r.value.id == fineId
    ensures r.Err? ==> r.error == AppError(FineNotFoundMessage, 404)
  {
    match FindFine(st, fineId)
    case None =>
      assert forall f | f in st.fines :: f.id != fineId by {
        forall f | f in st.fines ensures f.id != fineId {
          var k :| 0 <= k < |st.fines| && st.fines[k] == f;
        }
      }
      Err(AppError(FineNotFoundMessage, 404))
    case Some(i) => Ok(st.fines[i])
  }

  /**
   * `payFine`. There is no database transaction: the payment is saved
   * before the member is read, so a fine whose member is gone (its
   * `member_id` cleared by the deletion) stays paid while the call fails
   * reading `status` of `null`. A suspended member is
   * reactivated when no unpaid fine of theirs is left; the overdue loans
   * play no part here.
   */
  function PayFine(st: Store, fineId: Id, now: int): (res: (Store, Result<Fine>))
    ensures FindFine(st, fineId).None? ==> res == (st, Err(AppError(FineNotFoundMessage, 404)))
    ensures FindFine(st, fineId).Some? && IsPaid(st.fines[FindFine(st, fineId).value]) ==>
      res == (st, Err(AppError(AlreadyPaidMessage, 400)))
  {
    match FindFine(st, fineId)
    case None => (st, Err(AppError(FineNotFoundMessage, 404)))
    case Some(i) =>
      var fine := st.fines[i];
      if IsPaid(fine) then (st, Err(AppError(AlreadyPaidMessage, 400)))
      else
        var paid := fine.(paidAt := Some(now));
        var s1 := st.(fines := st.fines[i := paid]);
        match FindMemberRef(st, fine.memberId)
        case None => (s1, Err(NullDereference("status")))
        case Some(j) =>
          if st.members[j].status == Suspended && |SelectFines(s1.fines, UnpaidOfMember(fine.memberId))| == 0 then
            (s1.(members := st.members[j := st.members[j].(status := MemberStatus.Active)]), Ok(paid))
          else (s1, Ok(paid))
  }

  /**
   * Paying an unpaid fine always records the payment, even when the call
   * then fails: `paid_at` becomes `now` and nothing else of the fine
   * changes; loans and books are untouched. The only failure left is the
   * missing member.
   */
  lemma PayFineRecordsPayment(st: Store, fineId: Id, now: int)
    requires FindFine(st, fineId).Some? && !IsPaid(st.fines[FindFine(st, fineId).value])
    ensures var (st', r) := PayFine(st, fineId, now);
      var i := FindFine(st, fineId).value;
      var f := st.fines[i];
      && st'.fines == st.fines[i := f.(paidAt := Some(now))]
      && st'.loans == st.loans && st'.books == st.books
      && (r.Ok? ==> r.value == f.(paidAt := Some(now)))
      && (r.Err? <==> FindMemberRef(st, f.memberId).None?)
      && (r.Err? ==> r.error == NullDereference("status") && st'.members == st.members)
  {
  }

  /** A fine is never paid twice: paying it again is refused with 400 and changes nothing. */
  lemma NeverPaidTwice(st: Store, fineId: Id, now: int, later: int)
    requires FindFine(st, fineId).Some?
    ensures var st' := PayFine(st, fineId, now).0;
      PayFine(st', fineId, later) == (st', Err(AppError(AlreadyPaidMessage, 400)))
  {
    var i := FindFine(st, fineId).value;
    if !IsPaid(st.fines[i]) {
      IndexOfAfterUpdate(st.fines, FineKey, i, st.fines[i].(paidAt := Some(now)), fineId);
    }
  }

  /**
   * Reactivation on payment: a suspended member with no unpaid fine left
   * becomes active; a suspended member still owing stays suspended; an
   * active member is not touched.
   */
  lemma PayFineReactivation(st: Store, fineId: Id, now: int)
    requires FindFine(st, fineId).Some? && !IsPaid(st.fines[FindFine(st, fineId).value])
    requires FindMemberRef(st, st.fines[FindFine(st, fineId).value].memberId).Some?
    ensures var (st', r) := PayFine(st, fineId, now);
      var memberId := st.fines[FindFine(st, fineId).value].memberId.value;
      var j := FindMember(st, memberId).value;
      var owing := CalculateMemberFines(st', memberId).count;
      && r.Ok?
      && |st'.members| == |st.members|
      && (forall k :: 0 <= k < |st.members| && k != j ==> st'.members[k] == st.members[k])
      && st'.members[j] == st.members[j].(status := st'.members[j].status)
      && (st.members[j].status == Suspended && owing == 0 ==> st'.members[j].status == MemberStatus.Active)
      && (st.members[j].status == Suspended && owing > 0 ==> st'.members[j].status == Suspended)
      && (st.members[j].status == MemberStatus.Active ==> st'.members == st.members)
  {
  }

  /**
   * The payment path looks at fines only: a suspended member whose last
   * fine is paid is reactivated however many overdue loans they hold.
   */
  lemma ReactivationIgnoresOverdueLoans(st: Store, cfg: Config, fineId: Id, now: int)
    requires FindFine(st, fineId).Some? && !IsPaid(st.fines[FindFine(st, fineId).value])
    requires var memberId := st.fines[FindFine(st, fineId).value].memberId;
      && FindMemberRef(st, memberId).Some?
      && st.members[FindMemberRef(st, memberId).value].status == Suspended
      && CountLoans(st.loans, OverdueOfMember(memberId)) >= cfg.maxOverdueForSuspension
      && CalculateMemberFines(st, memberId.value).count == 1
    ensures var st' := PayFine(st, fineId, now).0;
      var memberId := st.fines[FindFine(st, fineId).value].memberId;
      && st'.members[FindMemberRef(st, memberId).value].status == MemberStatus.Active
      && CountLoans(st'.loans, OverdueOfMember(memberId)) >= cfg.maxOverdueForSuspension
  {
    var i := FindFine(st, fineId).value;
    var f := st.fines[i];
    var q := UnpaidOfMember(f.memberId);
    SelectFinesUpdate(st.fines, i, f.(paidAt := Some(now)), q);
  }

  /**
   * A payment lowers the member's unpaid count by one and their unpaid
   * total, like the overall unpaid total, by exactly the fine's amount.
   */
  lemma PaymentSettlesAmount(st: Store, fineId: Id, now: int)
    requires FindFine(st, fineId).Some? && !IsPaid(st.fines[FindFine(st, fineId).value])
    ensures var st' := PayFine(st, fineId, now).0;
      var f := st.fines[FindFine(st, fineId).value];
      && |SelectFines(st'.fines, UnpaidOfMember(f.memberId))| == |SelectFines(st.fines, UnpaidOfMember(f.memberId))| - 1
      && SumAmounts(SelectFines(st'.fines, UnpaidOfMember(f.memberId))) == SumAmounts(SelectFines(st.fines, UnpaidOfMember(f.memberId))) - f.amount
      && (f.memberId.Some? ==>
            && CalculateMemberFines(st', f.memberId.value).count == CalculateMemberFines(st, f.memberId.value).count - 1
            && CalculateMemberFines(st', f.memberId.value).totalAmount == CalculateMemberFines(st, f.memberId.value).totalAmount - f.amount)
      && SumAmounts(SelectFines(st'.fines, AllUnpaid)) == SumAmounts(SelectFines(st.fines, AllUnpaid)) - f.amount
  {
    var i := FindFine(st, fineId).value;
    var f := st.fines[i];
    PayFineRecordsPayment(st, fineId, now);
    var fines' := PayFine(st, fineId, now).0.fines;
    assert fines' == st.fines[i := f.(paidAt := Some(now))];
    SelectFinesUpdate(st.fines, i, f.(paidAt := Some(now)), UnpaidOfMember(f.memberId));
    SelectFinesUpdate(st.fines, i, f.(paidAt := Some(now)), AllUnpaid);
  }

  /** A payment keeps the store consistent: it writes no loan and no key. */
  lemma PayFinePreservesValid(st: Store, fineId: Id, now: int)
    requires ValidStore(st)
    ensures ValidStore(PayFine(st, fineId, now).0)
  {
    var st' := PayFine(st, fineId, now).0;
    match FindFine(st, fineId)
    case None =>
    case Some(i) =>
      var f := st.fines[i];
      if !IsPaid(f) {
        PayFineRecordsPayment(st, fineId, now);
        assert f in st.fines;
        FinesValidAfterUpdate(st.fines, i, f.(paidAt := Some(now)));
        match FindMemberRef(st, f.memberId)
        case None =>
          LinkedAfterSameKeys(st, st');
        case Some(j) =>
          MembersValidAfterStatus(st.members, j, MemberStatus.Active);
          assert st'.members == st.members || st'.members == st.members[j := st.members[j].(status := MemberStatus.Active)];
          LinkedAfterSameKeys(st, st');
      }
  }

  /** A payment respects how fines may evolve and keeps fines attached to returned loans. */
  lemma PayFineHistory(st: Store, fineId: Id, now: int)
    ensures History(st, PayFine(st, fineId, now).0)
    ensures OneFinePerReturnedLoan(st) ==> OneFinePerReturnedLoan(PayFine(st, fineId, now).0)
  {
    var st' := PayFine(st, fineId, now).0;
    match FindFine(st, fineId)
    case None =>
    case Some(i) =>
      var f := st.fines[i];
      if !IsPaid(f) {
        PayFineRecordsPayment(st, fineId, now);
        assert forall x | x in st'.fines :: x in st.fines || x == f.(paidAt := Some(now));
      }
  }
}
