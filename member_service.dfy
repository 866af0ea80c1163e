/**
 * The member service: creation with a generated membership number, updates
 * that may not change it, deletion guarded by active loans, and a member's
 * current loans and unpaid fines.
 */
module MemberService {
  import opened Wrappers
  import opened ErrorUtil
  import opened Tables
  import opened Numbers
  import opened Listing
  import opened MemberModel
  import opened TransactionModel
  import opened FineModel
  import opened Store
  import opened StateMachine

  const NumberUnchangeableMessage := "Membership number cannot be changed"
  const ActiveBorrowingsMessage := "Cannot delete member with active borrowings"
  const MemberDeletedMessage := "Member deleted successfully"

  /** A string JavaScript treats as true: present and non-empty. */
  predicate Truthy(s: Option<string>) {
    s.Some? && s.value != ""
  }

  /** The number `createMember` generates from the clock: "M" followed by the milliseconds. */
  function GeneratedNumber(now: int): (n: string)
    ensures |n| >= 2 && n[0] == 'M'
  {
    "M" + IntToString(now)
  }

  /** Some row other than position `i` already holds `key` under `field`. */
  predicate TakenByOther(members: seq<Member>, i: int, field: Member -> string, key: string) {
    exists j :: 0 <= j < |members| && j != i && field(members[j]) == key
  }

  /**
   * `createMember`: a missing or empty membership number is replaced by the
   * generated one; then `Member.create` with its validators, and the primary
   * key and the unique email and membership-number indexes.
   */
  function CreateMember(st: Store, memberId: Id, input: MemberInput, now: int): (res: (Store, Result<Member>))
    ensures res.1.Err? ==> res.0 == st
    ensures res.1.Ok? ==> res.0 == st.(members := st.members + [res.1.value])
    ensures res.1.Ok? ==> res.1.value.membershipNumber == if Truthy(input.membershipNumber) then input.membershipNumber.value else GeneratedNumber(now)
    ensures res.1.Ok? ==> res.1.value.id == memberId && input.name == Some(res.1.value.name) && input.email == Some(res.1.value.email)
    ensures res.1.Ok? ==> res.1.value.status == input.status.GetOr(MemberStatus.Active) && MemberModel.Valid(res.1.value)
    ensures res.1.Ok? ==> FindMember(st, memberId).None?
    ensures res.1.Ok? ==> !TakenByOther(st.members, -1, MemberEmail, res.1.value.email)
    ensures res.1.Ok? ==> !TakenByOther(st.members, -1, MemberNumber, res.1.value.membershipNumber)
  {
    var data := if Truthy(input.membershipNumber) then input else input.(membershipNumber := Some(GeneratedNumber(now)));
    match MemberModel.Create(memberId, data)
    case Err(e) => (st, Err(e))
    case Ok(m) =>
      if FindMember(st, memberId).Some? then (st, Err(UniqueConstraintError("id")))
      else if TakenByOther(st.members, -1, MemberEmail, m.email) then (st, Err(UniqueConstraintError("email")))
      else if TakenByOther(st.members, -1, MemberNumber, m.membershipNumber) then (st, Err(UniqueConstraintError("membership_number")))
      else (st.(members := st.members + [m]), Ok(m))
  }

  /**
   * `updateMember`: 404 for an unknown member; a non-empty membership number
   * other than the stored one is a 400; otherwise the attributes are set and
   * saved through the validators and the unique indexes.
   */
  function UpdateMember(st: Store, memberId: Id, data: MemberInput): (res: (Store, Result<Member>))
    ensures res.1.Err? ==> res.0 == st
    ensures FindMember(st, memberId).None? ==> res.1 == Err(AppError(MemberNotFoundMessage, 404))
    ensures (FindMember(st, memberId).Some? && Truthy(data.membershipNumber) &&
      data.membershipNumber.value != st.members[FindMember(st, memberId).value].membershipNumber) ==>
      res.1 == Err(AppError(NumberUnchangeableMessage, 400))
    ensures res.1.Ok? ==> FindMember(st, memberId).Some?
    ensures res.1.Ok? ==>
      var j := FindMember(st, memberId).value;
      && res.1.value == Assign(st.members[j], data)
      && MemberModel.Valid(res.1.value)
      && !TakenByOther(st.members, j, MemberEmail, res.1.value.email)
      && !TakenByOther(st.members, j, MemberNumber, res.1.value.membershipNumber)
      && res.0 == st.(members := st.members[j := res.1.value])
  {
    match FindMember(st, memberId)
    case None => (st, Err(AppError(MemberNotFoundMessage, 404)))
    case Some(j) =>
      var m := st.members[j];
      if Truthy(data.membershipNumber) && data.membershipNumber.value != m.membershipNumber then
        (st, Err(AppError(NumberUnchangeableMessage, 400)))
      else
        match MemberModel.Save(Assign(m, data))
        case Err(e) => (st, Err(e))
        case Ok(m') =>
          if TakenByOther(st.members, j, MemberEmail, m'.email) then (st, Err(UniqueConstraintError("email")))
          else if TakenByOther(st.members, j, MemberNumber, m'.membershipNumber) then (st, Err(UniqueConstraintError("membership_number")))
          else (st.(members := st.members[j := m']), Ok(m'))
  }

  /**
   * `deleteMember`: 404 for an unknown member, 400 while they hold an
   * `active` loan; otherwise the row is destroyed, and the database clears
   * `member_id` on their transactions and fines (ON DELETE SET NULL).
   */
  function DeleteMember(st: Store, memberId: Id): (res: (Store, Result<string>))
    ensures res.1.Err? ==> res.0 == st
    ensures FindMember(st, memberId).None? ==> res.1 == Err(AppError(MemberNotFoundMessage, 404))
    ensures FindMember(st, memberId).Some? ==> (res.1.Err? <==> CountLoans(st.loans, ActiveOfMember(memberId)) > 0)
    ensures res.1.Err? && FindMember(st, memberId).Some? ==> res.1 == Err(AppError(ActiveBorrowingsMessage, 400))
    ensures res.1.Ok? ==> res.1.value == MemberDeletedMessage && FindMember(st, memberId).Some?
    ensures res.1.Ok? ==> res.0 == st.(members := RemoveAt(st.members, FindMember(st, memberId).value),
                                       loans := UnlinkMemberLoans(st.loans, memberId),
                                       fines := UnlinkMemberFines(st.fines, memberId))
  {
    match FindMember(st, memberId)
    case None => (st, Err(AppError(MemberNotFoundMessage, 404)))
    case Some(j) =>
      if CountLoans(st.loans, ActiveOfMember(memberId)) > 0 then (st, Err(AppError(ActiveBorrowingsMessage, 400)))
      else
        var st' := st.(members := RemoveAt(st.members, j), loans := UnlinkMemberLoans(st.loans, memberId),
                       fines := UnlinkMemberFines(st.fines, memberId));
        (st', Ok(MemberDeletedMessage))
  }

  /** `getBorrowedBooks`: 404 for an unknown member; otherwise their active loans, soonest due first. */
  function GetBorrowedBooks(st: Store, memberId: Id): (r: Result<seq<Loan>>)
    ensures r.Err? <==> FindMember(st, memberId).None?
    ensures r.Err? ==> r.error == AppError(MemberNotFoundMessage, 404)
    ensures r.Ok? ==> SortedBy(r.value, DueLe)
    ensures r.Ok? ==> multiset(r.value) == multiset(SelectLoans(st.loans, ActiveOfMember(memberId)))
  {
    match FindMember(st, memberId)
    case None => Err(AppError(MemberNotFoundMessage, 404))
    case Some(_) => Ok(Sort(SelectLoans(st.loans, ActiveOfMember(memberId)), DueLe))
  }

  datatype FineSummary = FineSummary(fines: seq<Fine>, total: int)

  /** `getMemberFines`: the member's unpaid fines and their total; an unknown member simply has none. */
  function GetMemberFines(st: Store, memberId: Id): (r: FineSummary)
    ensures forall f :: f in r.fines <==> f in st.fines && f.memberId == Some(memberId) && !IsPaid(f)
    ensures r.total == SumAmounts(r.fines)
  {
    var fines := SelectFines(st.fines, UnpaidOfMember(Some(memberId)));
    FineSummary(fines, SumAmounts(fines))
  }

  // ---------------------------------------------------------------- properties

  lemma CreateMemberPreservesValid(st: Store, memberId: Id, input: MemberInput, now: int)
    requires ValidStore(st)
    ensures ValidStore(CreateMember(st, memberId, input, now).0)
  {
    var (st', r) := CreateMember(st, memberId, input, now);
    if r.Ok? {
      var m := r.value;
      assert IndexOf(st.members, MemberEmail, m.email).None?;
      assert IndexOf(st.members, MemberNumber, m.membershipNumber).None?;
      UniqueAfterAppend(st.members, MemberKey, m);
      UniqueAfterAppend(st.members, MemberEmail, m);
      UniqueAfterAppend(st.members, MemberNumber, m);
      assert forall x | x in st'.members :: x in st.members || x == m;
      LinkedAfterAddMember(st, m);
    }
  }

  /**
   * Resending the stored membership number is not a change. The number an
   * update leaves is the stored one, except that the empty string passes
   * the check (it is not truthy) and is then written.
   */
  lemma UpdateMemberNumber(st: Store, memberId: Id, data: MemberInput)
    requires FindMember(st, memberId).Some?
    ensures data.membershipNumber == Some(st.members[FindMember(st, memberId).value].membershipNumber) ==>
      UpdateMember(st, memberId, data).1 != Err(AppError(NumberUnchangeableMessage, 400))
    ensures UpdateMember(st, memberId, data).1.Ok? ==>
      var old_n := st.members[FindMember(st, memberId).value].membershipNumber;
      var n := UpdateMember(st, memberId, data).1.value.membershipNumber;
      n == old_n || (data.membershipNumber == Some("") && n == "")
  {
  }

  lemma UpdateMemberPreservesValid(st: Store, memberId: Id, data: MemberInput)
    requires ValidStore(st)
    ensures ValidStore(UpdateMember(st, memberId, data).0)
  {
    var (st', r) := UpdateMember(st, memberId, data);
    if r.Ok? {
      var j := FindMember(st, memberId).value;
      var m := r.value;
      UniqueAfterUpdate(st.members, MemberKey, j, m);
      UniqueAfterReplace(st.members, MemberEmail, j, m);
      UniqueAfterReplace(st.members, MemberNumber, j, m);
      assert forall x | x in st'.members :: x in st.members || x == m;
      LinkedAfterSameKeys(st, st');
    }
  }

  /**
   * After a delete the member can no longer be found, no transaction and no
   * fine names them any more while every row is kept, and the store stays
   * consistent; overdue loans do not block it.
   */
  lemma DeleteMemberEffect(st: Store, memberId: Id)
    requires ValidStore(st)
    requires DeleteMember(st, memberId).1.Ok?
    ensures var st' := DeleteMember(st, memberId).0;
      && FindMember(st', memberId).None? && ValidStore(st') && st'.books == st.books
      && |st'.loans| == |st.loans| && |st'.fines| == |st.fines|
      && (forall l | l in st'.loans :: l.memberId != Some(memberId))
      && (forall f | f in st'.fines :: f.memberId != Some(memberId))
  {
    var st' := DeleteMember(st, memberId).0;
    var j := FindMember(st, memberId).value;
    UniqueAfterRemove(st.members, MemberKey, j);
    UniqueAfterRemove(st.members, MemberEmail, j);
    UniqueAfterRemove(st.members, MemberNumber, j);
    forall k | 0 <= k < |st'.members|
      ensures st'.members[k].id != memberId
    {
      if k >= j { assert st'.members[k] == st.members[k + 1]; }
    }
    assert forall x | x in st'.members :: x in st.members;
    LoansValidAfterUnlink(st.loans, st'.loans);
    FinesValidAfterUnlink(st.fines, st'.fines);
    DeleteMemberKeepsLinked(st, memberId);
  }

  /** The member deleted holds no active loan, so every active loan keeps its references. */
  lemma DeleteMemberKeepsLinked(st: Store, memberId: Id)
    requires ActiveLoansLinked(st)
    requires DeleteMember(st, memberId).1.Ok?
    ensures ActiveLoansLinked(DeleteMember(st, memberId).0)
  {
    var st' := DeleteMember(st, memberId).0;
    var j := FindMember(st, memberId).value;
    CountLoansZero(st.loans, ActiveOfMember(memberId));
    forall id | FindMember(st, id).Some? && Some(id) != Some(memberId)
      ensures FindMember(st', id).Some?
    {
      IndexOfAfterRemove(st.members, MemberKey, j, id);
    }
    forall l | l in st'.loans && l.status == LoanStatus.Active
      ensures l in st.loans && l.memberId != Some(memberId)
    {
      var i :| 0 <= i < |st'.loans| && st'.loans[i] == l;
      assert st.loans[i] in st.loans;
    }
    LinkedAfter(st, st', None, Some(memberId));
  }

  /** The borrowed-books list holds exactly the member's active loans. */
  lemma BorrowedBooksAreActiveLoans(st: Store, memberId: Id)
    requires FindMember(st, memberId).Some?
    ensures forall l :: l in GetBorrowedBooks(st, memberId).value <==>
      l in st.loans && l.memberId == Some(memberId) && l.status == LoanStatus.Active
  {
    var r := GetBorrowedBooks(st, memberId).value;
    forall l
      ensures l in r <==> l in SelectLoans(st.loans, ActiveOfMember(memberId))
    {
      assert l in r <==> l in multiset(r);
    }
  }
}
