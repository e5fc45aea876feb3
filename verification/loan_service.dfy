/**
 * LoanService: issuing and returning loans, which move copies of a book
 * out of and back into its availableCopies, plus the loan listings and
 * counts the dashboard reads.
 */
module LoanService {
  import opened Wrappers
  import opened Entities
  import opened Keys
  import opened LoanQueries

  /**
   * saveLoan. The loan's book must have a copy on the shelf; one copy is
   * taken and the loan is written under loanId (a fresh id for a new loan,
   * the loan's own id for an update). The member is not looked at.
   */
  function SaveLoan(lib: Library, loanId: Id, loan: Loan): (r: Result<Library, Err>)
    ensures loan.bookId !in lib.books ==> r == Failure(BookNotFound)
    ensures loan.bookId in lib.books && lib.books[loan.bookId].availableCopies <= 0 ==>
              r == Failure(NoAvailableCopies)
    ensures r.Success? <==> loan.bookId in lib.books && lib.books[loan.bookId].availableCopies > 0
    ensures r.Success? ==>
              var before := lib.books[loan.bookId];
              var after := r.value.books;
              && after.Keys == lib.books.Keys
              && after[loan.bookId] == before.(availableCopies := before.availableCopies - 1)
              && after[loan.bookId].availableCopies >= 0
              && (forall id :: id in lib.books && id != loan.bookId ==> after[id] == lib.books[id])
    ensures r.Success? ==>
              && r.value.loans.Keys == lib.loans.Keys + {loanId}
              && r.value.loans[loanId] == loan
              && (forall id :: id in lib.loans && id != loanId ==> r.value.loans[id] == lib.loans[id])
              && r.value.members == lib.members
              && r.value.categories == lib.categories
  {
    if loan.bookId !in lib.books then Failure(BookNotFound)
    else
      var book := lib.books[loan.bookId];
      if book.availableCopies <= 0 then Failure(NoAvailableCopies)
      else
        var taken := book.(availableCopies := book.availableCopies - 1);
        Success(lib.(books := lib.books[loan.bookId := taken], loans := lib.loans[loanId := loan]))
  }

  /**
   * returnLoan. An outstanding loan gets returnDate = today and gives its
   * copy back to the book; an unknown or already returned loan is refused.
   * A loan whose book row is gone (which the database's foreign key rules
   * out) is reported as BookNotFound.
   */
  function ReturnLoan(lib: Library, loanId: Id, today: Day): (r: Result<Library, Err>)
    ensures loanId !in lib.loans ==> r == Failure(LoanNotFound)
    ensures loanId in lib.loans && lib.loans[loanId].returnDate.Some? ==> r == Failure(LoanAlreadyReturned)
    ensures r.Success? <==>
              && loanId in lib.loans
              && lib.loans[loanId].returnDate.None?
              && lib.loans[loanId].bookId in lib.books
    ensures r.Success? ==>
              var loan := lib.loans[loanId];
              && r.value.loans.Keys == lib.loans.Keys
              && r.value.loans[loanId] == loan.(returnDate := Some(today))
              && (forall id :: id in lib.loans && id != loanId ==> r.value.loans[id] == lib.loans[id])
    ensures r.Success? ==>
              var bookId := lib.loans[loanId].bookId;
              var before := lib.books[bookId];
              && r.value.books.Keys == lib.books.Keys
              && r.value.books[bookId] == before.(availableCopies := before.availableCopies + 1)
              && (forall id :: id in lib.books && id != bookId ==> r.value.books[id] == lib.books[id])
              && r.value.members == lib.members
              && r.value.categories == lib.categories
  {
    if loanId !in lib.loans then Failure(LoanNotFound)
    else
      var loan := lib.loans[loanId];
      if loan.returnDate.Some? then Failure(LoanAlreadyReturned)
      else if loan.bookId !in lib.books then Failure(BookNotFound)
      else
        var book := lib.books[loan.bookId];
        var back := book.(availableCopies := book.availableCopies + 1);
        Success(lib.(books := lib.books[loan.bookId := back],
                     loans := lib.loans[loanId := loan.(returnDate := Some(today))]))
  }

  /** A second return of the same loan is refused, so its copy comes back once. */
  lemma ReturnTwiceFails(lib: Library, loanId: Id, first: Day, second: Day)
    requires ReturnLoan(lib, loanId, first).Success?
    ensures ReturnLoan(ReturnLoan(lib, loanId, first).value, loanId, second) == Failure(LoanAlreadyReturned)
    ensures var l1 := ReturnLoan(lib, loanId, first).value;
            var bookId := lib.loans[loanId].bookId;
            l1.books[bookId].availableCopies == lib.books[bookId].availableCopies + 1
  {
  }

  /** Issuing a loan and then returning it puts the book store back as it was. */
  lemma SaveThenReturnRestoresBooks(lib: Library, loanId: Id, loan: Loan, today: Day)
    requires SaveLoan(lib, loanId, loan).Success?
    requires loan.returnDate.None?
    ensures ReturnLoan(SaveLoan(lib, loanId, loan).value, loanId, today).Success?
    ensures ReturnLoan(SaveLoan(lib, loanId, loan).value, loanId, today).value.books == lib.books
  {
    var after := ReturnLoan(SaveLoan(lib, loanId, loan).value, loanId, today).value;
    assert after.books.Keys == lib.books.Keys;
  }

  /**
   * Copies of a book that are either on the shelf or out on an active
   * loan. Issuing a new loan and returning one both keep this fixed.
   */
  function Outstanding(lib: Library, bookId: Id): int
    requires bookId in lib.books
  {
    lib.books[bookId].availableCopies + |OfBook(lib.loans, bookId) * Active(lib.loans)|
  }

  /** A new outstanding loan moves one copy from the shelf to the loan. */
  lemma SaveNewLoanKeepsOutstanding(lib: Library, loanId: Id, loan: Loan, bookId: Id)
    requires loanId !in lib.loans
    requires loan.returnDate.None?
    requires SaveLoan(lib, loanId, loan).Success?
    requires bookId in lib.books
    ensures Outstanding(SaveLoan(lib, loanId, loan).value, bookId) == Outstanding(lib, bookId)
  {
    AddActiveLoan(lib.loans, loanId, loan, bookId);
  }

  /** A return moves one copy from the loan back to the shelf. */
  lemma ReturnKeepsOutstanding(lib: Library, loanId: Id, today: Day, bookId: Id)
    requires ReturnLoan(lib, loanId, today).Success?
    requires bookId in lib.books
    ensures Outstanding(ReturnLoan(lib, loanId, today).value, bookId) == Outstanding(lib, bookId)
  {
    CloseActiveLoan(lib.loans, loanId, today, bookId);
  }

  /**
   * Every copy of every book is accounted for: on the shelf or out on an
   * active loan. The services do not keep this everywhere (see Gaps), but
   * issuing new loans and returning them do.
   */
  predicate CopiesAccounted(lib: Library) {
    forall b :: b in lib.books ==> Outstanding(lib, b) == lib.books[b].totalCopies
  }

  /** Issuing a new outstanding loan keeps every copy accounted for. */
  lemma SaveNewLoanKeepsCopiesAccounted(lib: Library, loanId: Id, loan: Loan)
    requires CopiesAccounted(lib)
    requires loanId !in lib.loans
    requires loan.returnDate.None?
    requires SaveLoan(lib, loanId, loan).Success?
    ensures CopiesAccounted(SaveLoan(lib, loanId, loan).value)
  {
    var after := SaveLoan(lib, loanId, loan).value;
    forall b | b in after.books ensures Outstanding(after, b) == after.books[b].totalCopies {
      SaveNewLoanKeepsOutstanding(lib, loanId, loan, b);
    }
  }

  /** Returning a loan keeps every copy accounted for. */
  lemma ReturnKeepsCopiesAccounted(lib: Library, loanId: Id, today: Day)
    requires CopiesAccounted(lib)
    requires ReturnLoan(lib, loanId, today).Success?
    ensures CopiesAccounted(ReturnLoan(lib, loanId, today).value)
  {
    var after := ReturnLoan(lib, loanId, today).value;
    forall b | b in after.books ensures Outstanding(after, b) == after.books[b].totalCopies {
      ReturnKeepsOutstanding(lib, loanId, today, b);
    }
  }

  /**
   * While every copy is accounted for, a return never pushes a book's
   * shelf count above its total: the returned copy was one of the total.
   */
  lemma ReturnStaysWithinTotal(lib: Library, loanId: Id, today: Day)
    requires CopiesAccounted(lib)
    requires ReturnLoan(lib, loanId, today).Success?
    ensures var bookId := lib.loans[loanId].bookId;
            ReturnLoan(lib, loanId, today).value.books[bookId].availableCopies <= lib.books[bookId].totalCopies
  {
    var bookId := lib.loans[loanId].bookId;
    assert loanId in OfBook(lib.loans, bookId) * Active(lib.loans);
  }

  /** deleteLoan: removes the row, whatever state the loan is in; an unknown id is ignored. */
  function DeleteLoan(lib: Library, loanId: Id): (r: Library)
    ensures loanId !in r.loans
    ensures r.loans.Keys == lib.loans.Keys - {loanId}
    ensures forall id :: id in r.loans ==> r.loans[id] == lib.loans[id]
    ensures r.books == lib.books && r.members == lib.members && r.categories == lib.categories
  {
    lib.(loans := lib.loans - {loanId})
  }

  /**
   * deleteReturnedLoansByBookId: purges the returned loans of one book.
   * Active loans and loans of other books stay, and no book changes.
   */
  function DeleteReturnedLoansByBookId(lib: Library, bookId: Id): (r: Library)
    ensures forall id :: id in r.loans <==>
              id in lib.loans && !(lib.loans[id].bookId == bookId && lib.loans[id].returnDate.Some?)
    ensures forall id :: id in r.loans ==> r.loans[id] == lib.loans[id]
    ensures Active(r.loans) == Active(lib.loans)
    ensures OfBook(r.loans, bookId) * Returned(r.loans) == {}
    ensures r.books == lib.books && r.members == lib.members && r.categories == lib.categories
  {
    lib.(loans := lib.loans - OfBook(lib.loans, bookId) * Returned(lib.loans))
  }

  /** deleteReturnedLoansByMemberId: the same purge for one member's returned loans. */
  function DeleteReturnedLoansByMemberId(lib: Library, memberId: Id): (r: Library)
    ensures forall id :: id in r.loans <==>
              id in lib.loans && !(lib.loans[id].memberId == memberId && lib.loans[id].returnDate.Some?)
    ensures forall id :: id in r.loans ==> r.loans[id] == lib.loans[id]
    ensures Active(r.loans) == Active(lib.loans)
    ensures OfMember(r.loans, memberId) * Returned(r.loans) == {}
    ensures r.books == lib.books && r.members == lib.members && r.categories == lib.categories
  {
    lib.(loans := lib.loans - OfMember(lib.loans, memberId) * Returned(lib.loans))
  }

  /** getActiveLoansCount: countByReturnDateIsNull. */
  function ActiveLoansCount(lib: Library): (n: nat)
    ensures n <= |lib.loans|
    ensures n == 0 <==> forall id :: id in lib.loans ==> lib.loans[id].returnDate.Some?
  {
    var active := Active(lib.loans);
    ActiveReturnedPartition(lib.loans);
    NonEmptyIffMember(active);
    assert forall id :: id in lib.loans && lib.loans[id].returnDate.None? ==> id in active;
    |active|
  }

  /** getDoneActiveLoansCount: countByReturnDateIsNotNull. */
  function DoneLoansCount(lib: Library): (n: nat)
    ensures n <= |lib.loans|
    ensures n == 0 <==> forall id :: id in lib.loans ==> lib.loans[id].returnDate.None?
  {
    var returned := Returned(lib.loans);
    ActiveReturnedPartition(lib.loans);
    NonEmptyIffMember(returned);
    assert forall id :: id in lib.loans && lib.loans[id].returnDate.Some? ==> id in returned;
    |returned|
  }

  /** The two dashboard counts split the loan store between them. */
  lemma ActiveAndDoneCountsCoverAllLoans(lib: Library)
    ensures ActiveLoansCount(lib) + DoneLoansCount(lib) == |lib.loans|
  {
    ActiveReturnedPartition(lib.loans);
  }

  /** A book has an active loan exactly when its set of active loans is non-empty. */
  lemma ActiveLoansOfBookNonEmpty(lib: Library, bookId: Id)
    ensures |OfBook(lib.loans, bookId) * Active(lib.loans)| > 0 <==>
              exists id :: id in lib.loans && lib.loans[id].bookId == bookId && lib.loans[id].returnDate.None?
  {
    var active := OfBook(lib.loans, bookId) * Active(lib.loans);
    NonEmptyIffMember(active);
    if exists id :: id in lib.loans && lib.loans[id].bookId == bookId && lib.loans[id].returnDate.None? {
      var id :| id in lib.loans && lib.loans[id].bookId == bookId && lib.loans[id].returnDate.None?;
      assert id in active;
    }
  }

  /** hasActiveLoansForBook. */
  predicate HasActiveLoansForBook(lib: Library, bookId: Id)
    ensures HasActiveLoansForBook(lib, bookId) <==>
              exists id :: id in lib.loans && lib.loans[id].bookId == bookId && lib.loans[id].returnDate.None?
  {
    ActiveLoansOfBookNonEmpty(lib, bookId);
    |OfBook(lib.loans, bookId) * Active(lib.loans)| > 0
  }

  /** A member has an active loan exactly when their set of active loans is non-empty. */
  lemma ActiveLoansOfMemberNonEmpty(lib: Library, memberId: Id)
    ensures |OfMember(lib.loans, memberId) * Active(lib.loans)| > 0 <==>
              exists id :: id in lib.loans && lib.loans[id].memberId == memberId && lib.loans[id].returnDate.None?
  {
    var active := OfMember(lib.loans, memberId) * Active(lib.loans);
    NonEmptyIffMember(active);
    if exists id :: id in lib.loans && lib.loans[id].memberId == memberId && lib.loans[id].returnDate.None? {
      var id :| id in lib.loans && lib.loans[id].memberId == memberId && lib.loans[id].returnDate.None?;
      assert id in active;
    }
  }

  /** hasActiveLoansForMember. */
  predicate HasActiveLoansForMember(lib: Library, memberId: Id)
    ensures HasActiveLoansForMember(lib, memberId) <==>
              exists id :: id in lib.loans && lib.loans[id].memberId == memberId && lib.loans[id].returnDate.None?
  {
    ActiveLoansOfMemberNonEmpty(lib, memberId);
    |OfMember(lib.loans, memberId) * Active(lib.loans)| > 0
  }

  /** getActiveLoans: findByReturnDateIsNull, in id order. */
  function ActiveLoans(lib: Library): (r: seq<Id>)
    ensures Increasing(r)
    ensures forall id :: id in r <==> id in lib.loans && lib.loans[id].returnDate.None?
    ensures |r| == ActiveLoansCount(lib)
  {
    var r := Filter(SortedKeys(lib.loans.Keys), id => id in lib.loans && lib.loans[id].returnDate.None?);
    ListingCard(r, Active(lib.loans));
    r
  }

  /** A loan is overdue while it is out and its due date is strictly before today. */
  predicate IsOverdue(loan: Loan, today: Day) {
    loan.returnDate.None? && loan.dueDate.Some? && loan.dueDate.value < today
  }

  /** getOverdueLoans: the overdue loans in findAll order. */
  function OverdueLoans(lib: Library, today: Day): (r: seq<Id>)
    ensures Increasing(r)
    ensures forall id :: id in r <==> id in lib.loans && IsOverdue(lib.loans[id], today)
    ensures forall id :: id in r ==> id in Active(lib.loans)
  {
    Filter(SortedKeys(lib.loans.Keys), id => id in lib.loans && IsOverdue(lib.loans[id], today))
  }

  /** getOverdueLoansCount: counts the same filter; it agrees with the list's length. */
  function OverdueLoansCount(lib: Library, today: Day): (n: nat)
    ensures n == |OverdueLoans(lib, today)|
    ensures n <= ActiveLoansCount(lib)
  {
    var overdue := set id | id in lib.loans && IsOverdue(lib.loans[id], today);
    var listed := OverdueLoans(lib, today);
    ListingCard(listed, overdue);
    SubsetCard(overdue, Active(lib.loans));
    |overdue|
  }
}
