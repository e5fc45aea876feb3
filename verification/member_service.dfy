/**
 * MemberService: saving members, the per-member loan counts, and the
 * deletion guard that keeps every member with loan history.
 */
module MemberService {
  import opened Wrappers
  import opened Entities
  import opened Keys
  import opened LoanQueries
  import LoanService

  /** getTotalLoansForMember: countByMemberId. */
  function TotalLoansForMember(lib: Library, memberId: Id): (n: nat)
    ensures n <= |lib.loans|
    ensures n == 0 <==> forall id :: id in lib.loans ==> lib.loans[id].memberId != memberId
  {
    var mine := OfMember(lib.loans, memberId);
    SubsetCard(mine, lib.loans.Keys);
    NonEmptyIffMember(mine);
    assert forall id :: id in lib.loans && lib.loans[id].memberId == memberId ==> id in mine;
    |mine|
  }

  /** getActiveLoansForMember: countByMemberIdAndReturnDateIsNull. */
  function ActiveLoansForMember(lib: Library, memberId: Id): (n: nat)
    ensures n <= TotalLoansForMember(lib, memberId)
    ensures n > 0 <==> LoanService.HasActiveLoansForMember(lib, memberId)
  {
    var mine := OfMember(lib.loans, memberId);
    SubsetCard(mine * Active(lib.loans), mine);
    LoanService.ActiveLoansOfMemberNonEmpty(lib, memberId);
    |mine * Active(lib.loans)|
  }

  /** getReturnedLoansForMember: countByMemberIdAndReturnDateIsNotNull. */
  function ReturnedLoansForMember(lib: Library, memberId: Id): (n: nat)
    ensures n <= TotalLoansForMember(lib, memberId)
    ensures n == 0 <==>
              forall id :: id in lib.loans && lib.loans[id].memberId == memberId ==> lib.loans[id].returnDate.None?
  {
    var mine := OfMember(lib.loans, memberId);
    var returned := mine * Returned(lib.loans);
    SubsetCard(returned, mine);
    NonEmptyIffMember(returned);
    assert forall id :: id in lib.loans && lib.loans[id].memberId == memberId && lib.loans[id].returnDate.Some? ==>
                          id in returned;
    |returned|
  }

  /** A member's loans are the active ones plus the returned ones. */
  lemma MemberLoanCountsAddUp(lib: Library, memberId: Id)
    ensures TotalLoansForMember(lib, memberId)
            == ActiveLoansForMember(lib, memberId) + ReturnedLoansForMember(lib, memberId)
  {
    ActiveReturnedSplit(lib.loans, OfMember(lib.loans, memberId));
  }

  /**
   * saveMember: an upsert with no validation. A member without an id is
   * stored under the fresh id the database generates.
   */
  function SaveMember(lib: Library, id: Option<Id>, member: Member, freshId: Id): (r: (Library, Id))
    requires id.None? ==> freshId !in lib.members
    ensures id.Some? ==> r.1 == id.value
    ensures id.None? ==> r.1 == freshId && r.1 !in lib.members
    ensures r.0.members.Keys == lib.members.Keys + {r.1}
    ensures r.0.members[r.1] == member
    ensures forall k :: k in lib.members && k != r.1 ==> r.0.members[k] == lib.members[k]
    ensures r.0.books == lib.books && r.0.loans == lib.loans && r.0.categories == lib.categories
  {
    var key := id.GetOr(freshId);
    (lib.(members := lib.members[key := member]), key)
  }

  /**
   * A new member no loan refers to can be deleted again, and deleting
   * them gives back the library as it was before the save.
   */
  lemma SaveNewThenDeleteRestores(lib: Library, member: Member, freshId: Id)
    requires freshId !in lib.members
    requires forall l :: l in lib.loans ==> lib.loans[l].memberId != freshId
    ensures var (saved, id) := SaveMember(lib, None, member, freshId);
            DeleteMember(saved, id) == Success(lib)
  {
    var (saved, id) := SaveMember(lib, None, member, freshId);
    assert saved.loans == lib.loans && id == freshId;
    assert forall l :: l !in OfMember(saved.loans, id);
    assert OfMember(saved.loans, id) == {};
    assert saved.members - {id} == lib.members;
  }

  /**
   * deleteMember. Unknown members are refused; a member with any loan is
   * kept, with the error telling apart outstanding loans (reported with
   * their count) from history only (reported with the returned count).
   */
  function DeleteMember(lib: Library, id: Id): (r: Result<Library, Err>)
    ensures id !in lib.members ==> r == Failure(MemberNotFound)
    ensures id in lib.members && ActiveLoansForMember(lib, id) > 0 ==>
              r == Failure(MemberHasActiveLoans(lib.members[id].name, ActiveLoansForMember(lib, id)))
    ensures id in lib.members && TotalLoansForMember(lib, id) > 0 && ActiveLoansForMember(lib, id) == 0 ==>
              && r == Failure(MemberHasLoanHistory(lib.members[id].name, ReturnedLoansForMember(lib, id)))
              && ReturnedLoansForMember(lib, id) == TotalLoansForMember(lib, id)
    ensures r.Success? <==> id in lib.members && TotalLoansForMember(lib, id) == 0
    ensures r.Success? ==>
              && r.value.members.Keys == lib.members.Keys - {id}
              && (forall k :: k in r.value.members ==> r.value.members[k] == lib.members[k])
              && r.value.books == lib.books
              && r.value.loans == lib.loans
              && r.value.categories == lib.categories
  {
    MemberLoanCountsAddUp(lib, id);
    if id !in lib.members then Failure(MemberNotFound)
    else
      var member := lib.members[id];
      if TotalLoansForMember(lib, id) > 0 then
        var active := ActiveLoansForMember(lib, id);
        if active > 0 then Failure(MemberHasActiveLoans(member.name, active))
        else Failure(MemberHasLoanHistory(member.name, ReturnedLoansForMember(lib, id)))
      else
        assert ActiveLoansForMember(lib, id) == 0;
        Success(lib.(members := lib.members - {id}))
  }

  /** A return moves one of the member's loans from active to returned. */
  lemma ReturnShiftsMemberCounts(lib: Library, loanId: Id, today: Day, memberId: Id)
    requires LoanService.ReturnLoan(lib, loanId, today).Success?
    requires lib.loans[loanId].memberId == memberId
    ensures var after := LoanService.ReturnLoan(lib, loanId, today).value;
            && TotalLoansForMember(after, memberId) == TotalLoansForMember(lib, memberId)
            && ActiveLoansForMember(after, memberId) == ActiveLoansForMember(lib, memberId) - 1
            && ReturnedLoansForMember(after, memberId) == ReturnedLoansForMember(lib, memberId) + 1
  {
    var after := LoanService.ReturnLoan(lib, loanId, today).value;
    var loans' := lib.loans[loanId := lib.loans[loanId].(returnDate := Some(today))];
    assert after.loans == loans';
    var mine := OfMember(lib.loans, memberId);
    assert OfMember(loans', memberId) == mine;
    assert mine * Active(loans') == mine * Active(lib.loans) - {loanId};
    assert mine * Returned(loans') == mine * Returned(lib.loans) + {loanId};
    assert loanId in mine * Active(lib.loans);
    assert loanId !in mine * Returned(lib.loans);
  }

  /**
   * Loan history is permanent: returning a member's only outstanding loan
   * turns the active-loan refusal into the history refusal, never into a
   * deletion.
   */
  lemma ReturningLastLoanKeepsMemberUndeletable(lib: Library, memberId: Id, loanId: Id, today: Day)
    requires memberId in lib.members
    requires ActiveLoansForMember(lib, memberId) == 1
    requires LoanService.ReturnLoan(lib, loanId, today).Success?
    requires lib.loans[loanId].memberId == memberId
    ensures DeleteMember(lib, memberId) == Failure(MemberHasActiveLoans(lib.members[memberId].name, 1))
    ensures var after := LoanService.ReturnLoan(lib, loanId, today).value;
            DeleteMember(after, memberId)
            == Failure(MemberHasLoanHistory(lib.members[memberId].name, TotalLoansForMember(lib, memberId)))
  {
    var after := LoanService.ReturnLoan(lib, loanId, today).value;
    ReturnShiftsMemberCounts(lib, loanId, today, memberId);
    MemberLoanCountsAddUp(lib, memberId);
    MemberLoanCountsAddUp(after, memberId);
  }
}
