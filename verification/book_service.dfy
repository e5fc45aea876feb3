/**
 * BookService: saving a book through its validation chain, deleting a
 * book that was never lent, and renaming a category together with the
 * books filed under it. The plain lookups and searches of the service
 * are the repository queries themselves.
 */
module BookService {
  import opened Wrappers
  import opened Entities
  import opened Text
  import opened Keys
  import opened LoanQueries
  import opened BookRepository
  import opened CategoryRepository
  import opened CategoryService

  /**
   * A book as the edit form submits it. The id is absent for a new book;
   * libraryCode and bookCategory may be null.
   */
  datatype BookForm = BookForm(
    id: Option<Id>,
    title: string,
    author: string,
    isbn: string,
    publicationYear: int,
    totalCopies: int,
    availableCopies: int,
    libraryCode: Option<string>,
    bookCategory: Option<string>,
    createdDate: Day)

  /** The copy counts are in range: none negative, no more on the shelf than owned. */
  predicate CopiesInRange(form: BookForm) {
    0 <= form.availableCopies <= form.totalCopies
  }

  /**
   * The duplicate-code rule of saveBook: a new book may not take a code
   * any book has; an edited book may not switch to a code that is taken.
   * An id that names no stored book is not checked at all.
   */
  predicate CodeTaken(books: Books, id: Option<Id>, code: string) {
    match id
    case None => ExistsByLibraryCode(books, code)
    case Some(k) => k in books && books[k].libraryCode != code && ExistsByLibraryCode(books, code)
  }

  /** The row saveBook writes: the form's fields, filed under the category's stored name. */
  function StoredBook(form: BookForm, code: string, categoryName: string): Book {
    Book(form.title, form.author, form.isbn, form.publicationYear, form.totalCopies,
         form.availableCopies, code, categoryName, form.createdDate)
  }

  /** The lookup by name finds a category, and it is inactive. */
  predicate FindsInactive(cats: Categories, name: string) {
    FindByName(cats, name).Some? && !cats[FindByName(cats, name).value].active
  }

  /**
   * The second half of saveBook: find or create the category named by
   * the trimmed name, refuse an inactive one, and write the book under
   * key with that category's name.
   */
  function FileBook(lib: Library, form: BookForm, key: Id, code: string, name: string, freshCategoryId: Id)
    : (r: Result<(Library, Id), Err>)
    requires freshCategoryId !in lib.categories
    requires !IsBlank(name) && Trim(name) == name
    ensures FindsInactive(lib.categories, name) ==> r == Failure(InactiveCategory(name))
    ensures r.Success? <==> !FindsInactive(lib.categories, name)
    ensures r.Success? ==>
              var (after, k) := r.value;
              && k == key
              && after.books == lib.books[key := StoredBook(form, code, name)]
              && ExistsByName(after.categories, name)
              && after.categories[FindByName(after.categories, name).value].active
              && after.members == lib.members && after.loans == lib.loans
              && (forall c :: c in lib.categories ==> c in after.categories && after.categories[c] == lib.categories[c])
              && after.categories.Keys <= lib.categories.Keys + {freshCategoryId}
  {
    match FindOrCreateCategory(lib, name, freshCategoryId)
    case Failure(e) => Failure(e)
    case Success((lib1, cid)) =>
      FindOrCreateThenFind(lib, name, freshCategoryId);
      FindOrCreateNewIsActive(lib, name, freshCategoryId);
      var category := lib1.categories[cid];
      if !category.active then Failure(InactiveCategory(category.name))
      else Success((lib1.(books := lib1.books[key := StoredBook(form, code, category.name)]), key))
  }

  /**
   * saveBook. The checks run in this order: available above total,
   * negative copies, missing library code, missing category, duplicate
   * code. Then the trimmed category is found or created; an inactive one
   * is refused. The book is written under its own id, or under
   * freshBookId when new, with the category's name.
   */
  function SaveBook(lib: Library, form: BookForm, freshBookId: Id, freshCategoryId: Id): (r: Result<(Library, Id), Err>)
    requires form.id.None? ==> freshBookId !in lib.books
    requires freshCategoryId !in lib.categories
    ensures form.availableCopies > form.totalCopies ==> r == Failure(CopiesExceedTotal)
    ensures form.availableCopies <= form.totalCopies && !CopiesInRange(form) ==> r == Failure(NegativeCopies)
    ensures CopiesInRange(form) && (form.libraryCode.None? || IsBlank(form.libraryCode.value)) ==>
              r == Failure(LibraryCodeRequired)
    ensures CopiesInRange(form) && form.libraryCode.Some? && !IsBlank(form.libraryCode.value)
            && (form.bookCategory.None? || IsBlank(form.bookCategory.value)) ==>
              r == Failure(CategoryRequired)
    ensures FieldsPresent(form) && CodeTaken(lib.books, form.id, form.libraryCode.value) ==>
              r == Failure(DuplicateLibraryCode(form.libraryCode.value))
    ensures FieldsPresent(form) && !CodeTaken(lib.books, form.id, form.libraryCode.value) ==>
              r == FileBook(lib, form, form.id.GetOr(freshBookId), form.libraryCode.value,
                            Trim(form.bookCategory.value), freshCategoryId)
    ensures r.Success? ==> FieldsPresent(form) && !CodeTaken(lib.books, form.id, form.libraryCode.value)
  {
    if form.availableCopies > form.totalCopies then Failure(CopiesExceedTotal)
    else if form.totalCopies < 0 || form.availableCopies < 0 then Failure(NegativeCopies)
    else if form.libraryCode.None? || IsBlank(form.libraryCode.value) then Failure(LibraryCodeRequired)
    else if form.bookCategory.None? || IsBlank(form.bookCategory.value) then Failure(CategoryRequired)
    else if CodeTaken(lib.books, form.id, form.libraryCode.value) then
      Failure(DuplicateLibraryCode(form.libraryCode.value))
    else
      TrimIdempotent(form.bookCategory.value);
      FileBook(lib, form, form.id.GetOr(freshBookId), form.libraryCode.value,
               Trim(form.bookCategory.value), freshCategoryId)
  }

  /** Well-formed fields: the checks that come before the duplicate-code rule all pass. */
  predicate FieldsPresent(form: BookForm) {
    && CopiesInRange(form)
    && form.libraryCode.Some? && !IsBlank(form.libraryCode.value)
    && form.bookCategory.Some? && !IsBlank(form.bookCategory.value)
  }

  /**
   * Re-saving a stored book under the code it already has is never a
   * duplicate; it fails only when its category is inactive.
   */
  lemma KeepingOwnCodeIsNoDuplicate(lib: Library, form: BookForm, freshBookId: Id, freshCategoryId: Id)
    requires freshCategoryId !in lib.categories
    requires form.id.Some? && form.id.value in lib.books
    requires form.libraryCode == Some(lib.books[form.id.value].libraryCode)
    requires FieldsPresent(form)
    ensures var r := SaveBook(lib, form, freshBookId, freshCategoryId);
            && (r.Success? <==> !FindsInactive(lib.categories, Trim(form.bookCategory.value)))
            && (r.Failure? ==> r.error == InactiveCategory(Trim(form.bookCategory.value)))
  {
    TrimIdempotent(form.bookCategory.value);
  }

  /** A new book takes a code no book has; an edit changes to a code no other book has. */
  lemma SaveBookRespectsCodes(lib: Library, form: BookForm, freshBookId: Id, freshCategoryId: Id)
    requires form.id.None? ==> freshBookId !in lib.books
    requires freshCategoryId !in lib.categories
    requires SaveBook(lib, form, freshBookId, freshCategoryId).Success?
    ensures form.id.None? ==> forall k :: k in lib.books ==> lib.books[k].libraryCode != form.libraryCode.value
    ensures form.id.Some? && form.id.value in lib.books && lib.books[form.id.value].libraryCode != form.libraryCode.value ==>
              forall k :: k in lib.books ==> lib.books[k].libraryCode != form.libraryCode.value
  {
  }

  /** No two books share a library code. */
  predicate UniqueCodes(books: Books) {
    forall i, j :: i in books && j in books && books[i].libraryCode == books[j].libraryCode ==> i == j
  }

  /** Writing a book whose code no other book has keeps library codes unique. */
  lemma PutKeepsUniqueCodes(books: Books, key: Id, b: Book)
    requires UniqueCodes(books)
    requires forall k :: k in books && k != key ==> books[k].libraryCode != b.libraryCode
    ensures UniqueCodes(books[key := b])
  {
    var after := books[key := b];
    forall i, j | i in after && j in after && after[i].libraryCode == after[j].libraryCode ensures i == j {
      if i != key && j != key {
        assert after[i] == books[i] && after[j] == books[j];
      }
    }
  }

  /** A save that goes through the duplicate-code rule keeps library codes unique. */
  lemma SaveBookKeepsUniqueCodes(lib: Library, form: BookForm, freshBookId: Id, freshCategoryId: Id)
    requires form.id.None? ==> freshBookId !in lib.books
    requires form.id.Some? ==> form.id.value in lib.books
    requires freshCategoryId !in lib.categories
    requires UniqueCodes(lib.books)
    requires SaveBook(lib, form, freshBookId, freshCategoryId).Success?
    ensures UniqueCodes(SaveBook(lib, form, freshBookId, freshCategoryId).value.0.books)
  {
    var key := form.id.GetOr(freshBookId);
    var code := form.libraryCode.value;
    var name := Trim(form.bookCategory.value);
    assert !CodeTaken(lib.books, form.id, code);
    forall k | k in lib.books && k != key ensures lib.books[k].libraryCode != code {
    }
    PutKeepsUniqueCodes(lib.books, key, StoredBook(form, code, name));
  }

  /** A saved book is found by a category search on the name it was filed under. */
  lemma SavedBookListedUnderCategory(lib: Library, form: BookForm, freshBookId: Id, freshCategoryId: Id)
    requires form.id.None? ==> freshBookId !in lib.books
    requires freshCategoryId !in lib.categories
    requires SaveBook(lib, form, freshBookId, freshCategoryId).Success?
    ensures var (after, key) := SaveBook(lib, form, freshBookId, freshCategoryId).value;
            key in FindByBookCategoryIgnoreCase(after.books, Trim(form.bookCategory.value))
  {
  }

  /**
   * deleteBook: an unknown id is refused, and so is a book any loan,
   * active or returned, refers to. Otherwise the book row alone goes.
   */
  function DeleteBook(lib: Library, id: Id): (r: Result<Library, Err>)
    ensures id !in lib.books ==> r == Failure(BookNotFound)
    ensures id in lib.books && |OfBook(lib.loans, id)| > 0 ==> r == Failure(BookHasLoanHistory(lib.books[id].title))
    ensures r.Success? <==> id in lib.books && forall l :: l in lib.loans ==> lib.loans[l].bookId != id
    ensures r.Success? ==>
              && r.value.books.Keys == lib.books.Keys - {id}
              && (forall k :: k in r.value.books ==> r.value.books[k] == lib.books[k])
              && r.value.members == lib.members && r.value.categories == lib.categories
              && r.value.loans == lib.loans
  {
    if id !in lib.books then Failure(BookNotFound)
    else
      var loansOfBook := OfBook(lib.loans, id);
      if |loansOfBook| > 0 then
        NonEmptyIffMember(loansOfBook);
        Failure(BookHasLoanHistory(lib.books[id].title))
      else
        assert forall l :: l in lib.loans ==> lib.loans[l].bookId != id by {
          assert loansOfBook == {};
          forall l | l in lib.loans ensures lib.loans[l].bookId != id {
            assert l !in loansOfBook;
          }
        }
        Success(lib.(books := lib.books - {id}))
  }

  /** Every loan refers to a stored book. */
  predicate LoansReferToBooks(lib: Library) {
    forall l :: l in lib.loans ==> lib.loans[l].bookId in lib.books
  }

  /** The deletion guard keeps every loan pointing at a stored book. */
  lemma DeleteBookKeepsLoanReferences(lib: Library, id: Id)
    requires LoansReferToBooks(lib)
    requires DeleteBook(lib, id).Success?
    ensures LoansReferToBooks(DeleteBook(lib, id).value)
  {
  }

  /**
   * The loop of updateCategoryName: each listed book, in turn, is filed
   * under the new name; every other book is left alone.
   */
  function Relabel(books: Books, ids: seq<Id>, name: string): (r: Books)
    requires forall i :: 0 <= i < |ids| ==> ids[i] in books
    ensures r.Keys == books.Keys
    ensures forall k :: k in books && k in ids ==> r[k] == books[k].(bookCategory := name)
    ensures forall k :: k in books && k !in ids ==> r[k] == books[k]
  {
    if ids == [] then books
    else
      var k := ids[0];
      var rest := Relabel(books[k := books[k].(bookCategory := name)], ids[1..], name);
      assert forall j :: j in ids <==> j == k || j in ids[1..];
      rest
  }

  /**
   * The cascade of updateCategoryName: the books filed under oldName,
   * ignoring case, are moved to newName; the others keep their row.
   */
  function MoveBooks(books: Books, oldName: string, newName: string): (r: Books)
    ensures r.Keys == books.Keys
    ensures forall k :: k in books && EqualsIgnoreCase(books[k].bookCategory, oldName) ==>
              r[k] == books[k].(bookCategory := newName)
    ensures forall k :: k in books && !EqualsIgnoreCase(books[k].bookCategory, oldName) ==> r[k] == books[k]
  {
    var ids := FindByBookCategoryIgnoreCase(books, oldName);
    assert forall i :: 0 <= i < |ids| ==> ids[i] in books by {
      forall i | 0 <= i < |ids| ensures ids[i] in books {
        assert ids[i] in ids;
      }
    }
    Relabel(books, ids, newName)
  }

  /**
   * updateCategoryName. An unknown category is refused. The category is
   * saved under the trimmed new name (so a blank name or one another
   * category owns is refused by saveCategory), then every book filed
   * under the old name, ignoring case, is moved to the trimmed new name.
   * A name another category owns is reported here as DuplicateCategoryName;
   * the running code's flush turns that collision into a persistence error.
   */
  function UpdateCategoryName(lib: Library, categoryId: Id, newName: string): (r: Result<Library, Err>)
    ensures categoryId !in lib.categories ==> r == Failure(CategoryNotFound)
    ensures categoryId in lib.categories && IsBlank(newName) ==> r == Failure(EmptyCategoryName)
    ensures r.Success? <==>
              && categoryId in lib.categories
              && !IsBlank(newName)
              && (FindByName(lib.categories, Trim(newName)).None? ||
                  FindByName(lib.categories, Trim(newName)) == Some(categoryId))
  {
    if categoryId !in lib.categories then Failure(CategoryNotFound)
    else
      var category := lib.categories[categoryId];
      var newTrimmed := Trim(newName);
      TrimIdempotent(newName);
      var saved := SaveCategory(lib, CategoryForm(Some(categoryId), Some(newTrimmed), category.active), categoryId);
      if saved.Failure? then Failure(saved.error)
      else
        var lib1 := saved.value.0;
        Success(lib1.(books := MoveBooks(lib.books, category.name, newTrimmed)))
  }

  /**
   * A successful rename writes the trimmed name into the category, keeps
   * its active flag, moves the books filed under the old name, and
   * changes nothing else.
   */
  lemma RenameEffect(lib: Library, categoryId: Id, newName: string)
    requires UpdateCategoryName(lib, categoryId, newName).Success?
    ensures var after := UpdateCategoryName(lib, categoryId, newName).value;
            && after.categories.Keys == lib.categories.Keys
            && after.categories[categoryId] == Category(Trim(newName), lib.categories[categoryId].active)
            && (forall k :: k in lib.categories && k != categoryId ==> after.categories[k] == lib.categories[k])
            && after.books == MoveBooks(lib.books, lib.categories[categoryId].name, Trim(newName))
            && after.members == lib.members && after.loans == lib.loans
  {
    TrimIdempotent(newName);
  }

  /**
   * After a rename no book is left under the old name (ignoring case),
   * unless the new name equals it ignoring case; the books that were
   * under the old name are all under the new one.
   */
  lemma RenameMovesEveryBook(lib: Library, categoryId: Id, newName: string)
    requires UpdateCategoryName(lib, categoryId, newName).Success?
    ensures var after := UpdateCategoryName(lib, categoryId, newName).value;
            var oldName := lib.categories[categoryId].name;
            && InCategory(lib.books, oldName) <= InCategory(after.books, Trim(newName))
            && (!EqualsIgnoreCase(Trim(newName), oldName) ==> InCategory(after.books, oldName) == {})
  {
    RenameEffect(lib, categoryId, newName);
    var after := UpdateCategoryName(lib, categoryId, newName).value;
    var oldName := lib.categories[categoryId].name;
    var n := Trim(newName);
    forall k | k in InCategory(lib.books, oldName) ensures k in InCategory(after.books, n) {
      assert after.books[k].bookCategory == n;
    }
    if !EqualsIgnoreCase(n, oldName) {
      forall k | k in after.books ensures !EqualsIgnoreCase(after.books[k].bookCategory, oldName) {
        if EqualsIgnoreCase(lib.books[k].bookCategory, oldName) {
          assert after.books[k].bookCategory == n;
        } else {
          assert after.books[k] == lib.books[k];
        }
      }
    }
  }

  /** A rename keeps category names unique. */
  lemma RenameKeepsUniqueNames(lib: Library, categoryId: Id, newName: string)
    requires UniqueNames(lib.categories)
    requires UpdateCategoryName(lib, categoryId, newName).Success?
    ensures UniqueNames(UpdateCategoryName(lib, categoryId, newName).value.categories)
  {
    RenameEffect(lib, categoryId, newName);
    var cats := UpdateCategoryName(lib, categoryId, newName).value.categories;
    forall i, j | i in cats && j in cats && cats[i].name == cats[j].name ensures i == j {
      if i != categoryId && j != categoryId {
        assert cats[i] == lib.categories[i] && cats[j] == lib.categories[j];
      }
    }
  }
}
