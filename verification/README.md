# Library consistency layer, modelled in Dafny

This project models the consistency layer of a Spring library-management
application. That layer is the set of service classes that guard:
- book copy counts;
- the issue and return of loans;
- category find-or-create, soft deletion and the rename cascade;
- the deletion guards on books and members;
- the top-five category ranking.

It also models the derived repository queries these services rely on.

The four database tables become finite maps from ids to immutable
records: books, members, categories and loans (`Entities.Library`). Every
service method becomes a pure function from a `Library` to a
`Result<…, Err>`. Each thrown exception is an `Err` constructor carrying
what its message reports. A failing call returns only the error, which
stands for the transactional rollback: the input library is unchanged.
Every query without an `ORDER BY` returns ids in ascending id order, in
place of `findAll` order; the `OrderByNameAsc` queries list by name with
ties broken by id, and the top-five ranking lists by activity.

Modules:

- `Text`: `String.trim` (it strips every character at or below U+0020),
  ASCII case folding for the `IgnoreCase` queries, substring search, and
  the lexicographic order used by `ORDER BY name`.
- `Keys`: listing a map's ids in order, filtering, and counting.
- `LoanQueries`: the derived loan queries, such as
  `countByBookIdAndReturnDateIsNull`, written as sets of loan ids.
- `BookRepository`, `CategoryRepository`: the book and category queries.
- `LoanService`, `MemberService`, `CategoryService`,
  `CategoryStatsService`, `BookService`: the services.
- `Gaps`: lemmas that show where the services do not keep the library
  consistent.

The clock (`today`) and database-generated ids (`freshId`, `loanId`, …)
are parameters.

The model follows the code as written; in particular:

- `saveLoan` does not check that the member exists.
- `saveLoan` sets no issue date, so a loan has no issue date in the model.
- `returnLoan` never compares a book's shelf count with its total.
- `saveBook` skips the duplicate-code rule for an id that names no
  stored book.
- The `deleteBook` error reports the book's title, not a loan count.
- The rename cascade matches the old name ignoring case.
- A rename to a blank name fails through `saveCategory`'s empty-name check.

The invariant `0 <= availableCopies <= totalCopies` is therefore not
claimed. Instead:
- `LoanService.CopiesAccounted` says that each book's shelf copies plus
  its active loans equal its total;
- issuing and returning keep it;
- the `Gaps` lemmas show which steps break it.

## Model

| member | source | states |
|---|---|---|
| LoanService.SaveLoan | src/main/java/com/example/librarymanagementsystem/service/LoanService.java:31-44 | a book with no copy on the shelf is refused (NoAvailableCopies), as is a book that is not stored; on success that book has exactly one copy fewer on the shelf, never below zero, the loan is stored, and no other book, member or category changes |
| LoanService.ReturnLoan | src/main/java/com/example/librarymanagementsystem/service/LoanService.java:46-67 | an unknown loan fails with LoanNotFound and a returned one with LoanAlreadyReturned; success exactly for an outstanding loan, which gets returnDate = today while its book gets one copy back; nothing else changes |
| LoanService.ReturnTwiceFails | src/main/java/com/example/librarymanagementsystem/service/LoanService.java:50-63 | a second return of the same loan fails with LoanAlreadyReturned, so its copy comes back exactly once |
| LoanService.SaveThenReturnRestoresBooks | src/main/java/com/example/librarymanagementsystem/service/LoanService.java:39-57 | issuing a loan and then returning it leaves the book store as it was |
| LoanService.SaveNewLoanKeepsOutstanding | src/main/java/com/example/librarymanagementsystem/service/LoanService.java:38-43 | a new outstanding loan moves one copy from the shelf onto the loan: shelf plus active loans is unchanged for every book |
| LoanService.ReturnKeepsOutstanding | src/main/java/com/example/librarymanagementsystem/service/LoanService.java:52-60 | a return moves the copy back: shelf plus active loans is unchanged for every book |
| LoanService.SaveNewLoanKeepsCopiesAccounted | src/main/java/com/example/librarymanagementsystem/service/LoanService.java:31-44 | if every copy of every book was on the shelf or on an active loan, it still is after a new loan |
| LoanService.ReturnKeepsCopiesAccounted | src/main/java/com/example/librarymanagementsystem/service/LoanService.java:46-67 | the same accounting survives a return |
| LoanService.ReturnStaysWithinTotal | src/main/java/com/example/librarymanagementsystem/service/LoanService.java:54-57 | while every copy is accounted for, a return never lifts the shelf count above totalCopies |
| LoanService.DeleteLoan | src/main/java/com/example/librarymanagementsystem/service/LoanService.java:69-71 | removes that loan alone, ignores an unknown id, and touches no book |
| LoanService.DeleteReturnedLoansByBookId | src/main/java/com/example/librarymanagementsystem/service/LoanService.java:82-86 | removes exactly the returned loans of that book; the active loans stay the same set, and books, members and categories are untouched |
| LoanService.DeleteReturnedLoansByMemberId | src/main/java/com/example/librarymanagementsystem/service/LoanService.java:89-93 | removes exactly the returned loans of that member; everything else stays |
| LoanService.ActiveLoansCount | src/main/java/com/example/librarymanagementsystem/service/LoanService.java:73-75 | counts the loans without a return date: never more than all loans, and zero exactly when every loan is returned |
| LoanService.DoneLoansCount | src/main/java/com/example/librarymanagementsystem/service/LoanService.java:77-79 | counts the returned loans: never more than all loans, and zero exactly when no loan is returned |
| LoanService.ActiveAndDoneCountsCoverAllLoans | src/main/java/com/example/librarymanagementsystem/service/LoanService.java:73-79 | the active count plus the done count is the number of loans |
| LoanService.HasActiveLoansForBook | src/main/java/com/example/librarymanagementsystem/service/LoanService.java:96-98 | holds exactly when some loan of the book has no return date |
| LoanService.HasActiveLoansForMember | src/main/java/com/example/librarymanagementsystem/service/LoanService.java:100-102 | holds exactly when some loan of the member has no return date |
| LoanService.ActiveLoans | src/main/java/com/example/librarymanagementsystem/service/LoanService.java:148-150 | lists exactly the loans without a return date, each once, and agrees with the active count |
| LoanService.OverdueLoans | src/main/java/com/example/librarymanagementsystem/service/LoanService.java:137-146 | lists exactly the loans that are unreturned, have a due date, and are due strictly before today; all of them are active |
| LoanService.OverdueLoansCount | src/main/java/com/example/librarymanagementsystem/service/LoanService.java:123-132 | equals the length of the overdue list and never exceeds the active count |
| MemberService.TotalLoansForMember | src/main/java/com/example/librarymanagementsystem/service/MemberService.java:62-64 | counts the member's loans: never more than all loans, and zero exactly when no loan refers to the member |
| MemberService.ActiveLoansForMember | src/main/java/com/example/librarymanagementsystem/service/MemberService.java:66-68 | counts the member's unreturned loans: no more than their total, and positive exactly when hasActiveLoansForMember holds |
| MemberService.ReturnedLoansForMember | src/main/java/com/example/librarymanagementsystem/service/MemberService.java:70-72 | counts the member's returned loans: no more than their total, and zero exactly when every loan of theirs is still out |
| MemberService.MemberLoanCountsAddUp | src/main/java/com/example/librarymanagementsystem/service/MemberService.java:62-72 | a member's total loans are the active ones plus the returned ones |
| MemberService.SaveMember | src/main/java/com/example/librarymanagementsystem/service/MemberService.java:30-32 | upsert: the member is stored under its id or under a fresh one, other members and all other stores are untouched |
| MemberService.SaveNewThenDeleteRestores | src/main/java/com/example/librarymanagementsystem/service/MemberService.java:30-60 | a member saved without an id, to whom no loan refers, passes every guard of deleteMember, and deleting them gives back the library as it was |
| MemberService.DeleteMember | src/main/java/com/example/librarymanagementsystem/service/MemberService.java:34-60 | unknown member: MemberNotFound; any active loan: MemberHasActiveLoans with the active count; loans but none active: MemberHasLoanHistory with the returned count (then all of them); success exactly when no loan refers to the member, removing only that member |
| MemberService.ReturnShiftsMemberCounts | src/main/java/com/example/librarymanagementsystem/service/MemberService.java:62-72 | a return leaves the member's total unchanged, lowers the active count by one and raises the returned count by one |
| MemberService.ReturningLastLoanKeepsMemberUndeletable | src/main/java/com/example/librarymanagementsystem/service/MemberService.java:44-54 | returning a member's only active loan turns the active-loan refusal into the history refusal, never into a deletion |
| BookRepository.FindByBookCategoryIgnoreCase | src/main/java/com/example/librarymanagementsystem/repository/BookRepository.java:13 | lists exactly the books whose category equals the argument ignoring case |
| BookRepository.CategoryBookCount | src/main/java/com/example/librarymanagementsystem/repository/BookRepository.java:13 | the listing is as long as the set of books in the category, each book listed once |
| BookRepository.FindByTitleContainingIgnoreCase | src/main/java/com/example/librarymanagementsystem/repository/BookRepository.java:16 | exactly the books whose title contains the text ignoring case |
| BookRepository.FindByAuthorContainingIgnoreCase | src/main/java/com/example/librarymanagementsystem/repository/BookRepository.java:19 | exactly the books whose author contains the text ignoring case |
| BookRepository.FindByLibraryCodeContainingIgnoreCase | src/main/java/com/example/librarymanagementsystem/repository/BookRepository.java:22 | exactly the books whose library code contains the text ignoring case |
| BookRepository.FindBooksWithFilters | src/main/java/com/example/librarymanagementsystem/repository/BookRepository.java:25-35 | exactly the books meeting every given filter: substring tests ignoring case for title, author, code and ISBN, equality ignoring case for the category, with a null or empty parameter imposing nothing |
| BookRepository.NoFilterReturnsEveryBook | src/main/java/com/example/librarymanagementsystem/repository/BookRepository.java:25-30 | with every parameter null or empty, every book is returned |
| BookRepository.EmptyTitleIsNoTitle | src/main/java/com/example/librarymanagementsystem/repository/BookRepository.java:26 | an empty title filter selects the same books as no title filter |
| BookRepository.FiltersMeetSingleQueries | src/main/java/com/example/librarymanagementsystem/repository/BookRepository.java:25-30 | every book the combined search returns is returned by each single-field search it used |
| BookRepository.MoreFiltersFewerBooks | src/main/java/com/example/librarymanagementsystem/repository/BookRepository.java:25-30 | adding or keeping filters never enlarges the result: it is a subset of, and no longer than, the looser search |
| BookRepository.ExistsByLibraryCode | src/main/java/com/example/librarymanagementsystem/repository/BookRepository.java:42 | holds exactly when some book's library code equals the argument exactly |
| BookRepository.FindAllDistinctCategories | src/main/java/com/example/librarymanagementsystem/repository/BookRepository.java:37-39 | the categories books carry, each once, strictly sorted |
| CategoryRepository.FindByName | src/main/java/com/example/librarymanagementsystem/repository/CategoryRepository.java:14 | absent exactly when no category has the name; otherwise a category with exactly that name (the smallest id, should there be several) |
| CategoryRepository.FindByNameUnique | src/main/java/com/example/librarymanagementsystem/repository/CategoryRepository.java:14 | under unique names, looking a category's name up finds that category |
| CategoryRepository.FindByNameAfterAdd | src/main/java/com/example/librarymanagementsystem/repository/CategoryRepository.java:14 | a name nobody had is found, after it is stored, at the id it was stored under |
| CategoryRepository.FindByNameIgnoresActive | src/main/java/com/example/librarymanagementsystem/repository/CategoryRepository.java:14 | changing a category's active flag changes no lookup by name |
| CategoryRepository.ExistsByName | src/main/java/com/example/librarymanagementsystem/repository/CategoryRepository.java:14-17 | holds exactly when findByName finds something, and exactly when some category has that exact name |
| CategoryRepository.ByNameUnique | src/main/java/com/example/librarymanagementsystem/repository/CategoryRepository.java:20 | two name-ordered listings of the same categories are the same list |
| CategoryRepository.FindAllByOrderByNameAsc | src/main/java/com/example/librarymanagementsystem/repository/CategoryRepository.java:20 | every category exactly once, in name order (ties by id) |
| CategoryRepository.FindAllByActiveTrueOrderByNameAsc | src/main/java/com/example/librarymanagementsystem/repository/CategoryRepository.java:26 | exactly the active categories, in name order |
| CategoryRepository.FindByNameContainingIgnoreCase | src/main/java/com/example/librarymanagementsystem/repository/CategoryRepository.java:23 | exactly the categories whose name contains the text ignoring case |
| CategoryRepository.EmptySearchFindsAll | src/main/java/com/example/librarymanagementsystem/repository/CategoryRepository.java:23 | searching for the empty text lists every category |
| CategoryService.SaveNewCategory | src/main/java/com/example/librarymanagementsystem/service/CategoryService.java:48-63 | a null or blank name fails with EmptyCategoryName; an existing trimmed name returns that category and stores nothing; otherwise one new active category with the trimmed name is stored and nothing else changes |
| CategoryService.FindOrCreateCategory | src/main/java/com/example/librarymanagementsystem/service/CategoryService.java:66-74 | a category with the trimmed name is returned unchanged; otherwise a blank name fails and any other name is created trimmed; the store grows by at most one and existing categories are kept |
| CategoryService.FindOrCreateNewIsActive | src/main/java/com/example/librarymanagementsystem/service/CategoryService.java:61-62 | a category that had to be created is new, under the fresh id, and active |
| CategoryService.FindOrCreateThenFind | src/main/java/com/example/librarymanagementsystem/service/CategoryService.java:66-74 | what findOrCreateCategory returns is what a lookup of the trimmed name then finds |
| CategoryService.FindOrCreateIdempotent | src/main/java/com/example/librarymanagementsystem/service/CategoryService.java:66-74 | a second call with the same name returns the same category and stores nothing |
| CategoryService.FindOrCreateReturnsInactive | src/main/java/com/example/librarymanagementsystem/service/CategoryService.java:69-72 | an inactive category with the name is returned as it is, not duplicated |
| CategoryService.FindOrCreateKeepsUniqueNames | src/main/java/com/example/librarymanagementsystem/service/CategoryService.java:56-62 | creating a category by name never makes two categories share a name |
| CategoryService.SaveCategory | src/main/java/com/example/librarymanagementsystem/service/CategoryService.java:87-102 | a null or blank name fails; a trimmed name owned by a category of another id fails with DuplicateCategoryName; otherwise the category is written trimmed under its id and nothing else changes |
| CategoryService.SaveUnderOwnNameAccepted | src/main/java/com/example/librarymanagementsystem/service/CategoryService.java:94-98 | re-saving a category under its own name is not a duplicate |
| CategoryService.SaveCategoryKeepsUniqueNames | src/main/java/com/example/librarymanagementsystem/service/CategoryService.java:94-101 | a successful save keeps category names unique |
| CategoryService.DeleteCategory | src/main/java/com/example/librarymanagementsystem/service/CategoryService.java:105-123 | unknown id: CategoryNotFound; books filed under the name ignoring case: CategoryInUse with their number; otherwise only the active flag is cleared |
| CategoryService.SoftDeleteHidesCategory | src/main/java/com/example/librarymanagementsystem/service/CategoryService.java:120-122 | a deleted category leaves the active listing but stays in the full listing |
| CategoryService.SoftDeleteKeepsName | src/main/java/com/example/librarymanagementsystem/service/CategoryService.java:120-122 | a deleted category still owns its name: lookups by name and unique names are unaffected |
| CategoryService.DeleteCategoryTwice | src/main/java/com/example/librarymanagementsystem/service/CategoryService.java:105-123 | deleting a category again succeeds and changes nothing |
| CategoryService.SearchCategories | src/main/java/com/example/librarymanagementsystem/service/CategoryService.java:82-84 | exactly the categories whose name contains the trimmed search text ignoring case |
| CategoryService.BlankSearchListsAll | src/main/java/com/example/librarymanagementsystem/service/CategoryService.java:82-84 | a blank search lists every category, and surrounding spaces never change a search |
| CategoryService.TopCategoriesWithStats | src/main/java/com/example/librarymanagementsystem/service/CategoryService.java:130-169 | at most five entries, each the statistics of an active category, most active first with ties in name order; an active category left out is no more active than any entry kept |
| CategoryStatsService.CreateCategoryStats | src/main/java/com/example/librarymanagementsystem/service/CategoryStatsService.java:51-70 | the statistics carry the category's name and never count more returns than loans |
| CategoryStatsService.CategoryStatsCounts | src/main/java/com/example/librarymanagementsystem/service/CategoryStatsService.java:54-67 | booksCount is the number of books in the category ignoring case, loansCount the number of loans of those books, returnsCount the returned ones among them |
| CategoryStatsService.SumsCountLoans | src/main/java/com/example/librarymanagementsystem/service/CategoryStatsService.java:57-67 | summing per-book loan counts over a repeat-free book list counts each loan of those books once |
| CategoryStatsService.ReturnsWithinLoans | src/main/java/com/example/librarymanagementsystem/service/CategoryStatsService.java:63-67 | the summed returns never exceed the summed loans |
| CategoryStatsService.Rank | src/main/java/com/example/librarymanagementsystem/service/CategoryStatsService.java:38-43 | the sort returns a permutation of its input ordered by descending activity |
| CategoryStatsService.RankStable | src/main/java/com/example/librarymanagementsystem/service/CategoryStatsService.java:39-43 | the sort is stable: entries of equal activity keep their input order |
| CategoryStatsService.RankTiesByName | src/main/java/com/example/librarymanagementsystem/service/CategoryStatsService.java:31-43 | from name-ordered input, entries of equal activity come out in name order |
| CategoryStatsService.TopFive | src/main/java/com/example/librarymanagementsystem/service/CategoryStatsService.java:38-48 | keeps min(5, n) entries, most active first, all from the input, and every entry left out is no more active than any entry kept |
| CategoryStatsService.TopFiveTiesByName | src/main/java/com/example/librarymanagementsystem/service/CategoryStatsService.java:31-48 | the five kept entries list ties in name order |
| CategoryStatsService.TopCategories | src/main/java/com/example/librarymanagementsystem/service/CategoryStatsService.java:29-49 | min(5, number of active categories) entries of active categories only, most active first with ties by name, and any active category left out is no more active than every entry kept |
| BookService.SaveBook | src/main/java/com/example/librarymanagementsystem/service/BookService.java:85-129 | the checks apply in source order: CopiesExceedTotal first, then NegativeCopies, LibraryCodeRequired, CategoryRequired and DuplicateLibraryCode (new book with a taken code, or an edit switching to a taken code); a save that passes them files the book under its category |
| BookService.FileBook | src/main/java/com/example/librarymanagementsystem/service/BookService.java:121-128 | fails with InactiveCategory exactly when the trimmed name finds an inactive category; on success the book is stored under its id with the category's name, the category exists and is active, no existing category changes and at most one is added |
| BookService.KeepingOwnCodeIsNoDuplicate | src/main/java/com/example/librarymanagementsystem/service/BookService.java:111-119 | re-saving a stored book under its own code never hits the duplicate rule; it fails only for an inactive category |
| BookService.SaveBookRespectsCodes | src/main/java/com/example/librarymanagementsystem/service/BookService.java:105-119 | a saved new book, or an edit that changed its code, carries a code no stored book had |
| BookService.SaveBookKeepsUniqueCodes | src/main/java/com/example/librarymanagementsystem/service/BookService.java:105-119 | for a new book or a stored one, a successful save keeps library codes unique |
| BookService.SavedBookListedUnderCategory | src/main/java/com/example/librarymanagementsystem/service/BookService.java:121-128 | the saved book is found by a category search for the trimmed category name |
| BookService.DeleteBook | src/main/java/com/example/librarymanagementsystem/service/BookService.java:37-56 | unknown book: BookNotFound; any loan, active or returned: BookHasLoanHistory with the title; success exactly when no loan refers to it, removing that book alone |
| BookService.DeleteBookKeepsLoanReferences | src/main/java/com/example/librarymanagementsystem/service/BookService.java:47-55 | if every loan referred to a stored book before a deletion, it still does after |
| BookService.Relabel | src/main/java/com/example/librarymanagementsystem/service/BookService.java:156-159 | each listed book is filed under the new name with its other fields kept, and unlisted books are untouched |
| BookService.MoveBooks | src/main/java/com/example/librarymanagementsystem/service/BookService.java:154-159 | books filed under the old name ignoring case move to the new name; all others keep their row |
| BookService.UpdateCategoryName | src/main/java/com/example/librarymanagementsystem/service/BookService.java:139-160 | unknown id: CategoryNotFound; blank new name: EmptyCategoryName; success exactly when the trimmed name is free or already this category's |
| BookService.RenameEffect | src/main/java/com/example/librarymanagementsystem/service/BookService.java:147-159 | after a rename the category has the trimmed name and its old active flag, its books are moved, and nothing else changes |
| BookService.RenameMovesEveryBook | src/main/java/com/example/librarymanagementsystem/service/BookService.java:154-159 | every book of the old category is in the new one, and none is left under the old name unless it equals the new one ignoring case |
| BookService.RenameKeepsUniqueNames | src/main/java/com/example/librarymanagementsystem/service/BookService.java:150-152 | a rename keeps category names unique |
| Gaps.DeleteActiveLoanLosesCopy | src/main/java/com/example/librarymanagementsystem/service/LoanService.java:69-71 | deleting an outstanding loan loses a copy: shelf plus active loans drops by one, so copy accounting breaks |
| Gaps.SaveLoanUpdateTakesAnotherCopy | src/main/java/com/example/librarymanagementsystem/service/LoanService.java:38-43 | re-saving a stored loan takes another copy off the shelf with no new loan, so copy accounting breaks |
| Gaps.SaveReturnedLoanLosesCopy | src/main/java/com/example/librarymanagementsystem/service/LoanService.java:31-44 | a new loan already carrying a return date still takes a copy off the shelf, returnLoan refuses it with LoanAlreadyReturned, and copy accounting breaks |
| Gaps.SaveLoanIgnoresMember | src/main/java/com/example/librarymanagementsystem/service/LoanService.java:31-44 | a loan to a member the library does not have is accepted |
| Gaps.SaveBookResetsShelf | src/main/java/com/example/librarymanagementsystem/service/BookService.java:85-128 | re-saving a lent book with every copy marked available counts the lent copies twice |
| Gaps.ReturnAfterResetExceedsTotal | src/main/java/com/example/librarymanagementsystem/service/LoanService.java:54-57 | a return after such a save puts one more copy on the shelf than the book owns |
| Gaps.UnknownIdSkipsDuplicateCheck | src/main/java/com/example/librarymanagementsystem/service/BookService.java:111-119 | a form carrying an id no book has skips the service's own duplicate-code check, and the model then holds two books with one code; in the running system only the database's unique constraint on `library_code`, which is not modelled, stands in the way |
| Text.TrimIsCoreInfix | src/main/java/com/example/librarymanagementsystem/service/CategoryService.java:54 | String.trim returns the part of the string between its first and last character above U+0020: when everything before a and from b on is at or below U+0020 and s[a], s[b-1] are not, the trimmed string is exactly s[a..b] |
| Text.Trim | src/main/java/com/example/librarymanagementsystem/service/CategoryService.java:54 | String.trim: no leading or trailing character at or below U+0020 remains, and the result is empty exactly when every character was one |
| Text.TrimIdempotent | src/main/java/com/example/librarymanagementsystem/service/CategoryService.java:68 | trimming an already trimmed name (as findOrCreateCategory does with saveBook's trimmed category) changes nothing |

## Left out

- Transactions and concurrency: the model is sequential. `@Transactional` rollback appears only as "a failing call returns no new state". The lost-update race between concurrent `saveLoan` calls is not modelled.
- The clock and id generation: `LocalDate.now()` becomes the `today` parameter, and database-generated ids become `freshId` parameters that must not be in use.
- String semantics: case folding is ASCII-only, and `ORDER BY name` is the lexicographic order of characters, with ties broken by id. Database collation and Unicode case rules are not modelled.
- `LIKE` patterns in `findBooksWithFilters` are plain substring tests. A `%` or `_` inside a user's search text is not a wildcard here.
- Java `int`/`long` overflow: integers are unbounded. Overflow of `availableCopies ± 1`, and of the summed counts in the statistics, is not modelled.
- Null fields: a book's title, author, isbn, stored library code and stored category are strings, never null. A null isbn, which never matches a set isbn filter, and a null stored category, which `findAllDistinctCategories` skips, are not modelled. A null `newName` in `updateCategoryName` and a null category form in `saveCategory` are not modelled. Null library code and null category on the book form are modelled as `None`.
- Database constraints: the unique constraint on `library_code`, and the foreign keys, are not modelled. A loan whose book row is missing makes `returnLoan` fail with `BookNotFound`.
- Saving under an id no row has: `saveBook`, `saveMember` and `saveCategory` write the record under the given id. JPA's `merge` does not store a new row under that id, and for a book the database's unique constraint refuses a taken code.
- CategoryRepository.FindByName: JPA throws when several rows share a name. The model returns the smallest such id instead. Under `UniqueNames`, which every save in the model keeps, there is never more than one such row.
- BookService.UpdateCategoryName: Hibernate's flush order is not modelled. The books are selected by the old name from the book store, which the category save does not touch. When the trimmed new name belongs to another category, the model fails with `DuplicateCategoryName`, which `saveCategory` reports. The running code instead renames the managed entity before `saveCategory`, so the query inside `saveCategory` flushes that rename first. The collision therefore surfaces as a persistence error, not as "already exists". Success, failure and the rollback agree either way.
- LoanService.SaveLoan: the loan's book is looked up by `bookId` in the book store, not through an attached `Book` object.
- `getLoanCountByMember` and `getBorrowCountByBook` (dashboard counts with an `int` cast) are the sizes of `LoanQueries.OfMember` and `LoanQueries.OfBook` and have no member of their own.
- Controllers, views, the browser script, the controller-side duplicate-check endpoints, and `BookController`'s placeholder ranking are presentation code.
- `LoanRepository.java`, `Loan.java` and `Category.java` are not part of this model. The semantics of the loan queries follow from their derived names. A new `Category` is assumed to start active (`CategoryService.NewCategoryActive`).
