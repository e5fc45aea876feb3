/**
 * The four stores of the library and the failures its services raise.
 * Every store maps database ids to records; a day is a day number
 * standing in for java.time.LocalDate.
 */
module Entities {
  import opened Wrappers

  type Id = int
  type Day = int

  /** A catalogue entry; `bookCategory` names a Category by its name, not its id. */
  datatype Book = Book(
    title: string,
    author: string,
    isbn: string,
    publicationYear: int,
    totalCopies: int,
    availableCopies: int,
    libraryCode: string,
    bookCategory: string,
    createdDate: Day)

  datatype Member = Member(name: string, email: string, phone: string, registeredDate: Day)

  datatype Category = Category(name: string, active: bool)

  /** A loan is outstanding while its returnDate is None. */
  datatype Loan = Loan(bookId: Id, memberId: Id, dueDate: Option<Day>, returnDate: Option<Day>)

  datatype Library = Library(
    books: map<Id, Book>,
    members: map<Id, Member>,
    categories: map<Id, Category>,
    loans: map<Id, Loan>)

  /** One constructor per exception the services throw, carrying what its message reports. */
  datatype Err =
    | NoAvailableCopies
    | LoanNotFound
    | LoanAlreadyReturned
    | BookNotFound
    | BookHasLoanHistory(title: string)
    | MemberNotFound
    | MemberHasActiveLoans(memberName: string, active: nat)
    | MemberHasLoanHistory(memberName: string, returned: nat)
    | CopiesExceedTotal
    | NegativeCopies
    | LibraryCodeRequired
    | CategoryRequired
    | DuplicateLibraryCode(code: string)
    | InactiveCategory(categoryName: string)
    | CategoryNotFound
    | EmptyCategoryName
    | DuplicateCategoryName(name: string)
    | CategoryInUse(categoryName: string, books: nat)
}
