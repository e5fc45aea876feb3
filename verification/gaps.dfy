/**
 * Where the services do not keep the library consistent. Each lemma
 * starts from a state the services accept and shows the step that
 * breaks an invariant: that every copy is accounted for (on the shelf
 * or out on an active loan), or that library codes are unique.
 */
module Gaps {
  import opened Wrappers
  import opened Entities
  import opened Text
  import opened LoanQueries
  import opened LoanService
  import opened BookRepository
  import opened CategoryRepository
  import opened BookService

  /**
   * deleteLoan does not look at the loan: deleting an outstanding one
   * drops it from its book's active loans without putting the copy back
   * on the shelf, so that copy is lost.
   */
  lemma DeleteActiveLoanLosesCopy(lib: Library, loanId: Id)
    requires loanId in lib.loans && lib.loans[loanId].returnDate.None?
    requires lib.loans[loanId].bookId in lib.books
    ensures var bookId := lib.loans[loanId].bookId;
            Outstanding(DeleteLoan(lib, loanId), bookId) == Outstanding(lib, bookId) - 1
    ensures CopiesAccounted(lib) ==> !CopiesAccounted(DeleteLoan(lib, loanId))
  {
    var bookId := lib.loans[loanId].bookId;
    var after := DeleteLoan(lib, loanId);
    var before := OfBook(lib.loans, bookId) * Active(lib.loans);
    assert OfBook(after.loans, bookId) * Active(after.loans) == before - {loanId};
    assert loanId in before;
  }

  /**
   * saveLoan on a loan that is already stored (the update path) takes
   * another copy off the shelf although no loan was added.
   */
  lemma SaveLoanUpdateTakesAnotherCopy(lib: Library, loanId: Id)
    requires loanId in lib.loans
    requires SaveLoan(lib, loanId, lib.loans[loanId]).Success?
    ensures var after := SaveLoan(lib, loanId, lib.loans[loanId]).value;
            var bookId := lib.loans[loanId].bookId;
            && after.loans == lib.loans
            && after.books[bookId].availableCopies == lib.books[bookId].availableCopies - 1
            && Outstanding(after, bookId) == Outstanding(lib, bookId) - 1
    ensures CopiesAccounted(lib) ==> !CopiesAccounted(SaveLoan(lib, loanId, lib.loans[loanId]).value)
  {
    var after := SaveLoan(lib, loanId, lib.loans[loanId]).value;
    assert after.loans == lib.loans;
  }

  /**
   * saveLoan does not look at the loan's return date: a new loan that is
   * already marked returned still takes a copy off the shelf, and
   * returnLoan refuses it, so that copy never comes back.
   */
  lemma SaveReturnedLoanLosesCopy(lib: Library, loanId: Id, loan: Loan, today: Day)
    requires loanId !in lib.loans
    requires loan.returnDate.Some?
    requires loan.bookId in lib.books && lib.books[loan.bookId].availableCopies > 0
    ensures SaveLoan(lib, loanId, loan).Success?
    ensures var after := SaveLoan(lib, loanId, loan).value;
            && Outstanding(after, loan.bookId) == Outstanding(lib, loan.bookId) - 1
            && ReturnLoan(after, loanId, today) == Failure(LoanAlreadyReturned)
    ensures CopiesAccounted(lib) ==> !CopiesAccounted(SaveLoan(lib, loanId, loan).value)
  {
    var after := SaveLoan(lib, loanId, loan).value;
    var bookId := loan.bookId;
    assert OfBook(after.loans, bookId) * Active(after.loans) == OfBook(lib.loans, bookId) * Active(lib.loans);
  }

  /** saveLoan issues a loan to a member the library does not have. */
  lemma SaveLoanIgnoresMember(lib: Library, loanId: Id, loan: Loan)
    requires loan.bookId in lib.books && lib.books[loan.bookId].availableCopies > 0
    requires loan.memberId !in lib.members
    ensures SaveLoan(lib, loanId, loan).Success?
    ensures var after := SaveLoan(lib, loanId, loan).value;
            loanId in after.loans && after.loans[loanId].memberId !in after.members
  {
  }

  /**
   * saveBook takes the copy counts from the form: re-saving a book that is
   * out on loan with every copy marked available counts the lent copies
   * twice.
   */
  lemma SaveBookResetsShelf(lib: Library, form: BookForm, freshBookId: Id, freshCategoryId: Id)
    requires freshCategoryId !in lib.categories
    requires form.id.Some? && form.id.value in lib.books
    requires |OfBook(lib.loans, form.id.value) * Active(lib.loans)| > 0
    requires form.availableCopies == form.totalCopies
    requires SaveBook(lib, form, freshBookId, freshCategoryId).Success?
    ensures var after := SaveBook(lib, form, freshBookId, freshCategoryId).value.0;
            Outstanding(after, form.id.value) > after.books[form.id.value].totalCopies
    ensures !CopiesAccounted(SaveBook(lib, form, freshBookId, freshCategoryId).value.0)
  {
    var after := SaveBook(lib, form, freshBookId, freshCategoryId).value.0;
    assert after.loans == lib.loans;
    assert after.books[form.id.value].availableCopies == form.totalCopies;
  }

  /**
   * ... and a return after such a save puts one more copy on the shelf
   * than the book has: returnLoan never compares with totalCopies.
   */
  lemma ReturnAfterResetExceedsTotal(lib: Library, form: BookForm, freshBookId: Id, freshCategoryId: Id,
                                     loanId: Id, today: Day)
    requires freshCategoryId !in lib.categories
    requires loanId in lib.loans && lib.loans[loanId].returnDate.None?
    requires form.id == Some(lib.loans[loanId].bookId) && form.id.value in lib.books
    requires form.availableCopies == form.totalCopies
    requires SaveBook(lib, form, freshBookId, freshCategoryId).Success?
    ensures var saved := SaveBook(lib, form, freshBookId, freshCategoryId).value.0;
            && ReturnLoan(saved, loanId, today).Success?
            && ReturnLoan(saved, loanId, today).value.books[form.id.value].availableCopies == form.totalCopies + 1
  {
    var saved := SaveBook(lib, form, freshBookId, freshCategoryId).value.0;
    assert saved.loans == lib.loans;
    assert form.id.value in saved.books;
  }

  /**
   * saveBook checks the duplicate-code rule only for an id it finds: a
   * form carrying an id no book has skips the service's own check even
   * when its code is taken, so in the model two books then share the
   * code. Only the database's unique constraint on library_code, which
   * is not modelled, stands in the way.
   */
  lemma UnknownIdSkipsDuplicateCheck(lib: Library, form: BookForm, freshBookId: Id, freshCategoryId: Id)
    requires freshCategoryId !in lib.categories
    requires form.id.Some? && form.id.value !in lib.books
    requires FieldsPresent(form)
    requires ExistsByLibraryCode(lib.books, form.libraryCode.value)
    requires !FindsInactive(lib.categories, Trim(form.bookCategory.value))
    ensures SaveBook(lib, form, freshBookId, freshCategoryId).Success?
    ensures !UniqueCodes(SaveBook(lib, form, freshBookId, freshCategoryId).value.0.books)
  {
    var k := form.id.value;
    var code := form.libraryCode.value;
    var name := Trim(form.bookCategory.value);
    TrimIdempotent(form.bookCategory.value);
    assert !CodeTaken(lib.books, form.id, code);
    var filed := FileBook(lib, form, k, code, name, freshCategoryId);
    assert SaveBook(lib, form, freshBookId, freshCategoryId) == filed;
    var after := filed.value.0;
    var j :| j in lib.books && lib.books[j].libraryCode == code;
    assert after.books[j] == lib.books[j];
    assert after.books[k].libraryCode == code;
  }
}
