/**
 * The suspension rule and the overdue sweep: the rule's cases and the
 * effect of the literal reactivation bound, and the sweep's idempotence for
 * a fixed `now`, the rows it may touch, and the invariants it keeps.
 */
module OverdueSweep {
  import opened Wrappers
  import opened ErrorUtil
  import opened Tables
  import opened DateUtil
  import opened BookModel
  import opened MemberModel
  import opened TransactionModel
  import opened FineModel
  import opened Store
  import opened StateMachine

  // ---------------------------------------------------------------- suspension rule

  /**
   * With a threshold of at most 3 the status the rule leaves depends on the
   * overdue count alone: suspended exactly at or above the threshold.
   */
  lemma SuspensionByCount(status: MemberStatus, overdue: nat, threshold: nat)
    requires threshold <= ReactivationThreshold
    ensures SuspensionRule(status, overdue, threshold) == (if overdue >= threshold then Suspended else MemberStatus.Active)
  {
  }

  /** Applying the rule twice with the same count is applying it once. */
  lemma SuspensionRuleIdempotent(status: MemberStatus, overdue: nat, threshold: nat)
    ensures SuspensionRule(SuspensionRule(status, overdue, threshold), overdue, threshold) == SuspensionRule(status, overdue, threshold)
  {
  }

  /**
   * Because the reactivation bound is the literal 3, with a threshold of 5 a
   * member with 4 overdue loans keeps whatever status they had: a suspended
   * member stays suspended and an active one stays active.
   */
  lemma LiteralReactivationBound()
    ensures SuspensionRule(Suspended, 4, 5) == Suspended
    ensures SuspensionRule(MemberStatus.Active, 4, 5) == MemberStatus.Active
    ensures SuspensionRule(Suspended, 2, 5) == MemberStatus.Active
  {
  }

  /** Re-evaluating a member right after an evaluation changes nothing. */
  lemma EvaluateSuspensionIdempotent(st: Store, cfg: Config, memberId: Ref)
    requires EvaluateSuspension(st, cfg, memberId).Ok?
    ensures EvaluateSuspension(EvaluateSuspension(st, cfg, memberId).value, cfg, memberId) == EvaluateSuspension(st, cfg, memberId)
  {
    var st' := EvaluateSuspension(st, cfg, memberId).value;
    var j := FindMemberRef(st, memberId).value;
    IndexOfAfterUpdate(st.members, MemberKey, j, st'.members[j], memberId.value);
    SuspensionRuleIdempotent(st.members[j].status, CountLoans(st.loans, OverdueOfMember(memberId)), cfg.maxOverdueForSuspension);
    assert st'.members[j := st'.members[j]] == st'.members;
  }

  // ---------------------------------------------------------------- sweep

  /** A snapshot in which no loan is late leaves the loop nothing to do. */
  lemma {:induction false} SweepLoopNothingLate(st: Store, cfg: Config, now: int, pending: seq<Loan>)
    requires forall p | p in pending :: p.dueDate >= now
    ensures SweepLoop(st, cfg, now, pending) == (st, None)
    decreases |pending|
  {
    if pending != [] {
      assert forall p | p in pending[1..] :: p in pending;
      SweepLoopNothingLate(st, cfg, now, pending[1..]);
    }
  }

  /** Every active late row has an entry with its key and due date in the snapshot still to process. */
  ghost predicate Covered(loans: seq<Loan>, pending: seq<Loan>, now: int) {
    forall l | l in loans && l.status == LoanStatus.Active && l.dueDate < now ::
      exists p :: p in pending && p.id == l.id && p.dueDate == l.dueDate
  }

  /** Re-evaluating a member changes no loan. */
  lemma EvaluateSuspensionKeepsLoans(st: Store, cfg: Config, memberId: Ref)
    requires EvaluateSuspension(st, cfg, memberId).Ok?
    ensures EvaluateSuspension(st, cfg, memberId).value.loans == st.loans
    ensures EvaluateSuspension(st, cfg, memberId).value.books == st.books
    ensures EvaluateSuspension(st, cfg, memberId).value.fines == st.fines
  {
  }

  /** A loop that ends without error leaves no active loan past its due date among the rows it covered. */
  lemma {:induction false} SweepLoopClears(st: Store, cfg: Config, now: int, pending: seq<Loan>)
    requires UniqueKeys(st.loans, LoanKey)
    requires Covered(st.loans, pending, now)
    requires SweepLoop(st, cfg, now, pending).1.None?
    ensures forall l | l in SweepLoop(st, cfg, now, pending).0.loans :: l.status == LoanStatus.Active ==> l.dueDate >= now
    decreases |pending|
  {
    if pending == [] {
      forall l | l in st.loans && l.status == LoanStatus.Active
        ensures l.dueDate >= now
      {
      }
    } else {
      var p := pending[0];
      if p.dueDate < now {
        var s1 := st.(loans := MarkOverdue(st.loans, p.id));
        var s2 := EvaluateSuspension(s1, cfg, p.memberId).value;
        EvaluateSuspensionKeepsLoans(s1, cfg, p.memberId);
        match IndexOf(st.loans, LoanKey, p.id)
        case Some(k) =>
          UniqueAfterUpdate(st.loans, LoanKey, k, st.loans[k].(status := Overdue));
          forall l | l in s2.loans && l.status == LoanStatus.Active && l.dueDate < now
            ensures exists q :: q in pending[1..] && q.id == l.id && q.dueDate == l.dueDate
          {
            var j :| 0 <= j < |s2.loans| && s2.loans[j] == l;
            assert j != k;
            assert st.loans[j] == l;
            var q :| q in pending && q.id == l.id && q.dueDate == l.dueDate;
            assert q != p;
            assert q in pending[1..];
          }
          SweepLoopClears(s2, cfg, now, pending[1..]);
        case None =>
          forall l | l in s2.loans && l.status == LoanStatus.Active && l.dueDate < now
            ensures exists q :: q in pending[1..] && q.id == l.id && q.dueDate == l.dueDate
          {
            var q :| q in pending && q.id == l.id && q.dueDate == l.dueDate;
            assert q != p;
            assert q in pending[1..];
          }
          SweepLoopClears(s2, cfg, now, pending[1..]);
      } else {
        forall l | l in st.loans && l.status == LoanStatus.Active && l.dueDate < now
          ensures exists q :: q in pending[1..] && q.id == l.id && q.dueDate == l.dueDate
        {
          var q :| q in pending && q.id == l.id && q.dueDate == l.dueDate;
          assert q != p;
          assert q in pending[1..];
        }
        SweepLoopClears(st, cfg, now, pending[1..]);
      }
    }
  }

  /**
   * The loop ends without error when every late row of the snapshot names a
   * stored member: that is the only lookup in it that can fail.
   */
  lemma {:induction false} SweepLoopSucceeds(st: Store, cfg: Config, now: int, pending: seq<Loan>)
    requires forall p | p in pending && p.dueDate < now :: FindMemberRef(st, p.memberId).Some?
    ensures SweepLoop(st, cfg, now, pending).1.None?
    decreases |pending|
  {
    if pending != [] {
      var p := pending[0];
      assert forall q | q in pending[1..] :: q in pending;
      if p.dueDate < now {
        var s1 := st.(loans := MarkOverdue(st.loans, p.id));
        var s2 := EvaluateSuspension(s1, cfg, p.memberId).value;
        forall id
          ensures FindMember(s2, id) == FindMember(st, id)
        {
          IndexOfSameKeys(st.members, s2.members, MemberKey, id);
        }
        SweepLoopSucceeds(s2, cfg, now, pending[1..]);
      } else {
        SweepLoopSucceeds(st, cfg, now, pending[1..]);
      }
    }
  }

  /** On a consistent store the sweep ends without error: every active loan names a stored member. */
  lemma SweepSucceeds(st: Store, cfg: Config, now: int)
    requires ValidStore(st)
    ensures Sweep(st, cfg, now).1.None?
  {
    SweepLoopSucceeds(st, cfg, now, SelectLoans(st.loans, AllActive));
  }

  /** After a sweep of a consistent store no active loan is past its due date. */
  lemma SweepClears(st: Store, cfg: Config, now: int)
    requires ValidStore(st)
    ensures forall l | l in Sweep(st, cfg, now).0.loans :: l.status == LoanStatus.Active ==> l.dueDate >= now
  {
    SweepSucceeds(st, cfg, now);
    var pending := SelectLoans(st.loans, AllActive);
    forall l | l in st.loans && l.status == LoanStatus.Active && l.dueDate < now
      ensures exists p :: p in pending && p.id == l.id && p.dueDate == l.dueDate
    {
      assert l in pending;
    }
    SweepLoopClears(st, cfg, now, pending);
  }

  /** On a consistent store, running the sweep twice with the same `now` is running it once. */
  lemma SweepIdempotent(st: Store, cfg: Config, now: int)
    requires ValidStore(st)
    ensures Sweep(Sweep(st, cfg, now).0, cfg, now) == Sweep(st, cfg, now)
  {
    var st' := Sweep(st, cfg, now).0;
    SweepSucceeds(st, cfg, now);
    SweepClears(st, cfg, now);
    SweepLoopNothingLate(st', cfg, now, SelectLoans(st'.loans, AllActive));
  }

  /**
   * How the sweep may have changed a loans table: same length, and every row
   * either as it was or, when it was active and late, the same row marked
   * overdue.
   */
  ghost predicate MarkedFrom(orig: seq<Loan>, loans: seq<Loan>, now: int) {
    && |loans| == |orig|
    && forall i :: 0 <= i < |orig| ==>
         || loans[i] == orig[i]
         || (orig[i].status == LoanStatus.Active && orig[i].dueDate < now && loans[i] == orig[i].(status := Overdue))
  }

  /** Marking one late active row of the original table keeps the relation. */
  lemma MarkOverdueMarks(orig: seq<Loan>, loans: seq<Loan>, p: Loan, now: int)
    requires UniqueKeys(orig, LoanKey) && MarkedFrom(orig, loans, now)
    requires p in orig && p.status == LoanStatus.Active && p.dueDate < now
    ensures MarkedFrom(orig, MarkOverdue(loans, p.id), now)
  {
    match IndexOf(loans, LoanKey, p.id)
    case Some(k) =>
      var j :| 0 <= j < |orig| && orig[j] == p;
      assert orig[k].id == p.id;
      assert j == k;
    case None =>
  }

  /** The loop only ever turns late active rows of the original table overdue. */
  lemma {:induction false} SweepLoopMarks(orig: seq<Loan>, st: Store, cfg: Config, now: int, pending: seq<Loan>)
    requires UniqueKeys(orig, LoanKey)
    requires MarkedFrom(orig, st.loans, now)
    requires forall p | p in pending :: p in orig && p.status == LoanStatus.Active
    ensures MarkedFrom(orig, SweepLoop(st, cfg, now, pending).0.loans, now)
    decreases |pending|
  {
    if pending != [] {
      var p := pending[0];
      assert forall q | q in pending[1..] :: q in pending;
      if p.dueDate < now {
        var s1 := st.(loans := MarkOverdue(st.loans, p.id));
        MarkOverdueMarks(orig, st.loans, p, now);
        if EvaluateSuspension(s1, cfg, p.memberId).Ok? {
          EvaluateSuspensionKeepsLoans(s1, cfg, p.memberId);
          SweepLoopMarks(orig, EvaluateSuspension(s1, cfg, p.memberId).value, cfg, now, pending[1..]);
        }
      } else {
        SweepLoopMarks(orig, st, cfg, now, pending[1..]);
      }
    }
  }

  /** The loop writes no book and no fine, and keeps the members table consistent. */
  lemma {:induction false} SweepLoopFrame(st: Store, cfg: Config, now: int, pending: seq<Loan>)
    ensures var st' := SweepLoop(st, cfg, now, pending).0;
      st'.books == st.books && st'.fines == st.fines && (MembersValid(st.members) ==> MembersValid(st'.members))
    decreases |pending|
  {
    if pending != [] {
      var p := pending[0];
      if p.dueDate < now {
        var s1 := st.(loans := MarkOverdue(st.loans, p.id));
        match FindMemberRef(s1, p.memberId)
        case Some(j) =>
          if MembersValid(st.members) {
            MembersValidAfterStatus(st.members, j, SuspensionRule(st.members[j].status,
              CountLoans(s1.loans, OverdueOfMember(p.memberId)), cfg.maxOverdueForSuspension));
          }
          SweepLoopFrame(EvaluateSuspension(s1, cfg, p.memberId).value, cfg, now, pending[1..]);
        case None =>
      } else {
        SweepLoopFrame(st, cfg, now, pending[1..]);
      }
    }
  }

  /** Whether or not it ends in an error, the sweep only turns late active loans overdue. */
  lemma SweepMarksOnlyLateActive(st: Store, cfg: Config, now: int)
    requires UniqueKeys(st.loans, LoanKey)
    ensures MarkedFrom(st.loans, Sweep(st, cfg, now).0.loans, now)
  {
    SweepLoopMarks(st.loans, st, cfg, now, SelectLoans(st.loans, AllActive));
  }

  /**
   * A sweep of a consistent store turns exactly the active loans whose due
   * date is before `now` overdue and leaves every other row as it was.
   */
  lemma SweepEffect(st: Store, cfg: Config, now: int)
    requires ValidStore(st)
    ensures var st' := Sweep(st, cfg, now).0;
      && |st'.loans| == |st.loans|
      && forall i :: 0 <= i < |st.loans| ==>
           st'.loans[i] == if st.loans[i].status == LoanStatus.Active && st.loans[i].dueDate < now
                           then st.loans[i].(status := Overdue) else st.loans[i]
  {
    var st' := Sweep(st, cfg, now).0;
    SweepMarksOnlyLateActive(st, cfg, now);
    SweepClears(st, cfg, now);
    forall i | 0 <= i < |st.loans| && st.loans[i].status == LoanStatus.Active && st.loans[i].dueDate < now
      ensures st'.loans[i] == st.loans[i].(status := Overdue)
    {
      assert st'.loans[i] in st'.loans;
    }
  }

  /** The relation keeps every loan consistent and every key unique. */
  lemma MarkedKeepsLoansValid(orig: seq<Loan>, loans: seq<Loan>, now: int)
    requires LoansValid(orig) && MarkedFrom(orig, loans, now)
    ensures LoansValid(loans)
  {
    forall l | l in loans
      ensures Consistent(l)
    {
      var i :| 0 <= i < |loans| && loans[i] == l;
      assert orig[i] in orig;
    }
  }

  /** The sweep keeps the store consistent, also when it stops on an error. */
  lemma SweepPreservesValid(st: Store, cfg: Config, now: int)
    requires ValidStore(st)
    ensures ValidStore(Sweep(st, cfg, now).0)
  {
    var st' := Sweep(st, cfg, now).0;
    SweepMarksOnlyLateActive(st, cfg, now);
    MarkedKeepsLoansValid(st.loans, st'.loans, now);
    SweepLoopFrame(st, cfg, now, SelectLoans(st.loans, AllActive));
    forall l | l in st'.loans && l.status == LoanStatus.Active
      ensures l in st.loans
    {
      var i :| 0 <= i < |st'.loans| && st'.loans[i] == l;
      assert st.loans[i] in st.loans;
    }
    LinkedAfterSameKeys(st, st');
  }

  /**
   * The sweep respects how loans and fines may evolve: no row disappears, a
   * returned loan is untouched, fines are untouched; and fines stay attached
   * to returned loans.
   */
  lemma SweepHistory(st: Store, cfg: Config, now: int)
    requires UniqueKeys(st.loans, LoanKey)
    ensures History(st, Sweep(st, cfg, now).0)
    ensures OneFinePerReturnedLoan(st) ==> OneFinePerReturnedLoan(Sweep(st, cfg, now).0)
  {
    var st' := Sweep(st, cfg, now).0;
    SweepMarksOnlyLateActive(st, cfg, now);
    SweepLoopFrame(st, cfg, now, SelectLoans(st.loans, AllActive));
    if OneFinePerReturnedLoan(st) {
      forall f | f in st'.fines
        ensures LoanReturned(st'.loans, f.transactionId)
      {
        IndexOfSameKeys(st.loans, st'.loans, LoanKey, f.transactionId);
      }
    }
  }

  /** The member exists and their status is the one their overdue count calls for. */
  ghost predicate Settled(st: Store, cfg: Config, memberId: Id) {
    && FindMember(st, memberId).Some?
    && st.members[FindMember(st, memberId).value].status ==
         if CountLoans(st.loans, OverdueOfMember(Some(memberId))) >= cfg.maxOverdueForSuspension then Suspended else MemberStatus.Active
  }

  /** Marking another member's loan does not change this member's overdue count. */
  lemma MarkOverdueOtherMember(orig: seq<Loan>, loans: seq<Loan>, p: Loan, now: int, memberId: Id)
    requires UniqueKeys(orig, LoanKey) && MarkedFrom(orig, loans, now)
    requires p in orig && p.memberId != Some(memberId)
    ensures CountLoans(MarkOverdue(loans, p.id), OverdueOfMember(Some(memberId))) == CountLoans(loans, OverdueOfMember(Some(memberId)))
  {
    match IndexOf(loans, LoanKey, p.id)
    case Some(k) =>
      var j :| 0 <= j < |orig| && orig[j] == p;
      assert orig[k].id == p.id;
      assert j == k;
      CountLoansUpdate(loans, k, loans[k].(status := Overdue), OverdueOfMember(Some(memberId)));
    case None =>
  }

  /** Re-evaluating another member leaves this member settled. */
  lemma EvaluateOtherKeepsSettled(st: Store, cfg: Config, other: Ref, memberId: Id)
    requires Settled(st, cfg, memberId) && other != Some(memberId)
    requires EvaluateSuspension(st, cfg, other).Ok?
    ensures Settled(EvaluateSuspension(st, cfg, other).value, cfg, memberId)
  {
    var j := FindMemberRef(st, other).value;
    var st' := EvaluateSuspension(st, cfg, other).value;
    IndexOfAfterUpdate(st.members, MemberKey, j, st'.members[j], memberId);
  }

  /** Evaluating the member settles them when the threshold is at most the literal bound. */
  lemma EvaluateSettles(st: Store, cfg: Config, memberId: Id)
    requires cfg.maxOverdueForSuspension <= ReactivationThreshold
    requires EvaluateSuspension(st, cfg, Some(memberId)).Ok?
    ensures Settled(EvaluateSuspension(st, cfg, Some(memberId)).value, cfg, memberId)
  {
    var j := FindMember(st, memberId).value;
    var st' := EvaluateSuspension(st, cfg, Some(memberId)).value;
    IndexOfAfterUpdate(st.members, MemberKey, j, st'.members[j], memberId);
    SuspensionByCount(st.members[j].status, CountLoans(st.loans, OverdueOfMember(Some(memberId))), cfg.maxOverdueForSuspension);
  }

  lemma {:induction false} SweepLoopSettles(orig: seq<Loan>, st: Store, cfg: Config, now: int, pending: seq<Loan>, memberId: Id)
    requires cfg.maxOverdueForSuspension <= ReactivationThreshold
    requires UniqueKeys(orig, LoanKey) && MarkedFrom(orig, st.loans, now)
    requires forall p | p in pending :: p in orig && p.status == LoanStatus.Active
    requires Settled(st, cfg, memberId) || exists p :: p in pending && p.memberId == Some(memberId) && p.dueDate < now
    requires SweepLoop(st, cfg, now, pending).1.None?
    ensures Settled(SweepLoop(st, cfg, now, pending).0, cfg, memberId)
    decreases |pending|
  {
    if pending == [] {
    } else {
      var p := pending[0];
      assert forall q | q in pending[1..] :: q in pending;
      assert forall q | q in pending && q != p :: q in pending[1..];
      if p.dueDate < now {
        var s1 := st.(loans := MarkOverdue(st.loans, p.id));
        var s2 := EvaluateSuspension(s1, cfg, p.memberId).value;
        MarkOverdueMarks(orig, st.loans, p, now);
        EvaluateSuspensionKeepsLoans(s1, cfg, p.memberId);
        if p.memberId == Some(memberId) {
          EvaluateSettles(s1, cfg, memberId);
        } else if Settled(st, cfg, memberId) {
          MarkOverdueOtherMember(orig, st.loans, p, now, memberId);
          assert Settled(s1, cfg, memberId);
          EvaluateOtherKeepsSettled(s1, cfg, p.memberId, memberId);
        }
        SweepLoopSettles(orig, s2, cfg, now, pending[1..], memberId);
      } else {
        SweepLoopSettles(orig, st, cfg, now, pending[1..], memberId);
      }
    }
  }

  /**
   * With a threshold of at most 3, after a sweep of a consistent store every
   * member who had an active loan past its due date is suspended exactly
   * when their overdue count reaches the threshold.
   */
  lemma SweepSettlesMembers(st: Store, cfg: Config, now: int, memberId: Id)
    requires cfg.maxOverdueForSuspension <= ReactivationThreshold
    requires ValidStore(st)
    requires exists l :: l in st.loans && l.status == LoanStatus.Active && l.memberId == Some(memberId) && l.dueDate < now
    ensures Settled(Sweep(st, cfg, now).0, cfg, memberId)
  {
    SweepSucceeds(st, cfg, now);
    var pending := SelectLoans(st.loans, AllActive);
    var l :| l in st.loans && l.status == LoanStatus.Active && l.memberId == Some(memberId) && l.dueDate < now;
    assert l in pending;
    SweepLoopSettles(st.loans, st, cfg, now, pending, memberId);
  }
}
