/**
 * BookRepository: the derived queries and the JPQL search over the book
 * store. Lists come back in id order.
 */
module BookRepository {
  import opened Wrappers
  import opened Entities
  import opened Text
  import opened Keys

  type Books = map<Id, Book>

  /** findByBookCategoryIgnoreCase: category equal to c up to case, not a substring. */
  function FindByBookCategoryIgnoreCase(books: Books, c: string): (r: seq<Id>)
    ensures Increasing(r)
    ensures forall id :: id in r <==> id in books && EqualsIgnoreCase(books[id].bookCategory, c)
  {
    Filter(SortedKeys(books.Keys), id => id in books && EqualsIgnoreCase(books[id].bookCategory, c))
  }

  /** The books filed under a category name, up to case. */
  function InCategory(books: Books, c: string): set<Id> {
    set id | id in books && EqualsIgnoreCase(books[id].bookCategory, c)
  }

  /** The number of books of a category, as deleteCategory and the statistics count them. */
  lemma CategoryBookCount(books: Books, c: string)
    ensures |FindByBookCategoryIgnoreCase(books, c)| == |InCategory(books, c)|
  {
    ListingCard(FindByBookCategoryIgnoreCase(books, c), InCategory(books, c));
  }

  /** findByTitleContainingIgnoreCase. */
  function FindByTitleContainingIgnoreCase(books: Books, t: string): (r: seq<Id>)
    ensures Increasing(r)
    ensures forall id :: id in r <==> id in books && ContainsIgnoreCase(books[id].title, t)
  {
    Filter(SortedKeys(books.Keys), id => id in books && ContainsIgnoreCase(books[id].title, t))
  }

  /** findByAuthorContainingIgnoreCase. */
  function FindByAuthorContainingIgnoreCase(books: Books, a: string): (r: seq<Id>)
    ensures Increasing(r)
    ensures forall id :: id in r <==> id in books && ContainsIgnoreCase(books[id].author, a)
  {
    Filter(SortedKeys(books.Keys), id => id in books && ContainsIgnoreCase(books[id].author, a))
  }

  /** findByLibraryCodeContainingIgnoreCase. */
  function FindByLibraryCodeContainingIgnoreCase(books: Books, code: string): (r: seq<Id>)
    ensures Increasing(r)
    ensures forall id :: id in r <==> id in books && ContainsIgnoreCase(books[id].libraryCode, code)
  {
    Filter(SortedKeys(books.Keys), id => id in books && ContainsIgnoreCase(books[id].libraryCode, code))
  }

  /** `:p IS NULL OR :p = ''`: a parameter that imposes nothing. */
  predicate Unset(p: Option<string>) {
    p.None? || p.value == []
  }

  /** The WHERE clause of findBooksWithFilters, one conjunct per parameter. */
  predicate MatchesFilters(b: Book, title: Option<string>, author: Option<string>,
                           category: Option<string>, code: Option<string>, isbn: Option<string>)
  {
    && (Unset(title) || ContainsIgnoreCase(b.title, title.value))
    && (Unset(author) || ContainsIgnoreCase(b.author, author.value))
    && (Unset(category) || EqualsIgnoreCase(b.bookCategory, category.value))
    && (Unset(code) || ContainsIgnoreCase(b.libraryCode, code.value))
    && (Unset(isbn) || ContainsIgnoreCase(b.isbn, isbn.value))
  }

  /** findBooksWithFilters. */
  function FindBooksWithFilters(books: Books, title: Option<string>, author: Option<string>,
                                category: Option<string>, code: Option<string>, isbn: Option<string>): (r: seq<Id>)
    ensures Increasing(r)
    ensures forall id :: id in r <==>
              id in books && MatchesFilters(books[id], title, author, category, code, isbn)
  {
    Filter(SortedKeys(books.Keys),
           id => id in books && MatchesFilters(books[id], title, author, category, code, isbn))
  }

  /** With every parameter null or empty the search is findAll. */
  lemma NoFilterReturnsEveryBook(books: Books, title: Option<string>, author: Option<string>,
                                 category: Option<string>, code: Option<string>, isbn: Option<string>)
    requires Unset(title) && Unset(author) && Unset(category) && Unset(code) && Unset(isbn)
    ensures FindBooksWithFilters(books, title, author, category, code, isbn) == SortedKeys(books.Keys)
  {
    FilterKeepsAll(SortedKeys(books.Keys),
                   id => id in books && MatchesFilters(books[id], title, author, category, code, isbn));
  }

  /** An empty string and null are the same "no constraint". */
  lemma EmptyTitleIsNoTitle(books: Books, author: Option<string>,
                            category: Option<string>, code: Option<string>, isbn: Option<string>)
    ensures FindBooksWithFilters(books, Some([]), author, category, code, isbn)
            == FindBooksWithFilters(books, None, author, category, code, isbn)
  {
    FilterExtensional(SortedKeys(books.Keys),
                      id => id in books && MatchesFilters(books[id], Some([]), author, category, code, isbn),
                      id => id in books && MatchesFilters(books[id], None, author, category, code, isbn));
  }

  /**
   * The filters are a conjunction: each book found also answers the
   * single-field query of every parameter that is set; the category one
   * is an equality, the others substring tests.
   */
  lemma FiltersMeetSingleQueries(books: Books, title: Option<string>, author: Option<string>,
                                 category: Option<string>, code: Option<string>, isbn: Option<string>, id: Id)
    requires id in FindBooksWithFilters(books, title, author, category, code, isbn)
    ensures !Unset(title) ==> id in FindByTitleContainingIgnoreCase(books, title.value)
    ensures !Unset(author) ==> id in FindByAuthorContainingIgnoreCase(books, author.value)
    ensures !Unset(category) ==> id in FindByBookCategoryIgnoreCase(books, category.value)
    ensures !Unset(code) ==> id in FindByLibraryCodeContainingIgnoreCase(books, code.value)
    ensures !Unset(isbn) ==> ContainsIgnoreCase(books[id].isbn, isbn.value)
  {
  }

  /** `q` constrains at least as much as `p`: p is unset or the same value. */
  predicate NoLooser(p: Option<string>, q: Option<string>) {
    Unset(p) || p == q
  }

  /** Adding or keeping filters never enlarges the result. */
  lemma MoreFiltersFewerBooks(books: Books,
                              t1: Option<string>, a1: Option<string>, c1: Option<string>, l1: Option<string>, i1: Option<string>,
                              t2: Option<string>, a2: Option<string>, c2: Option<string>, l2: Option<string>, i2: Option<string>)
    requires NoLooser(t1, t2) && NoLooser(a1, a2) && NoLooser(c1, c2) && NoLooser(l1, l2) && NoLooser(i1, i2)
    ensures forall id :: id in FindBooksWithFilters(books, t2, a2, c2, l2, i2) ==>
                         id in FindBooksWithFilters(books, t1, a1, c1, l1, i1)
    ensures |FindBooksWithFilters(books, t2, a2, c2, l2, i2)| <= |FindBooksWithFilters(books, t1, a1, c1, l1, i1)|
  {
    var narrow := FindBooksWithFilters(books, t2, a2, c2, l2, i2);
    var wide := FindBooksWithFilters(books, t1, a1, c1, l1, i1);
    forall id | id in narrow ensures id in wide {
      assert MatchesFilters(books[id], t2, a2, c2, l2, i2);
    }
    var ns := set id | id in narrow;
    var ws := set id | id in wide;
    IncreasingCard(narrow);
    IncreasingCard(wide);
    SubsetCard(ns, ws);
  }

  /** existsByLibraryCode: exact, case-sensitive equality. */
  predicate ExistsByLibraryCode(books: Books, code: string)
    ensures ExistsByLibraryCode(books, code) <==> exists id :: id in books && books[id].libraryCode == code
  {
    var found := Filter(SortedKeys(books.Keys), id => id in books && books[id].libraryCode == code);
    if found == [] then
      false
    else
      assert found[0] in found;
      true
  }

  predicate StrictlySorted(xs: seq<string>) {
    forall i, j :: 0 <= i < j < |xs| ==> Less(xs[i], xs[j])
  }

  /** Adds c to a strictly sorted list of names unless it is already there. */
  function InsertName(c: string, ys: seq<string>): (r: seq<string>)
    requires StrictlySorted(ys)
    ensures StrictlySorted(r)
    ensures forall x :: x in r <==> x == c || x in ys
  {
    if ys == [] then [c]
    else if c == ys[0] then ys
    else if Less(c, ys[0]) then
      assert forall j :: 0 <= j < |ys| ==> Less(c, ys[j]) by {
        forall j | 0 < j < |ys| ensures Less(c, ys[j]) {
          LessTransitive(c, ys[0], ys[j]);
        }
      }
      [c] + ys
    else
      LessTotal(c, ys[0]);
      var rest := InsertName(c, ys[1..]);
      assert forall j :: 0 <= j < |rest| ==> Less(ys[0], rest[j]) by {
        forall j | 0 <= j < |rest| ensures Less(ys[0], rest[j]) {
          assert rest[j] in rest;
          if rest[j] != c {
            var k :| 0 <= k < |ys[1..]| && ys[1..][k] == rest[j];
            assert ys[k + 1] == rest[j];
          }
        }
      }
      [ys[0]] + rest
  }

  /** The categories of the listed books, sorted and without repeats. */
  function CollectCategories(books: Books, ids: seq<Id>): (r: seq<string>)
    requires forall i :: 0 <= i < |ids| ==> ids[i] in books
    ensures StrictlySorted(r)
    ensures forall c :: c in r <==> exists id :: id in ids && books[id].bookCategory == c
  {
    if ids == [] then []
    else
      var rest := CollectCategories(books, ids[1..]);
      var r := InsertName(books[ids[0]].bookCategory, rest);
      assert forall c :: c in r <==> exists id :: id in ids && books[id].bookCategory == c by {
        forall c ensures c in r <==> exists id :: id in ids && books[id].bookCategory == c {
          if c in rest {
            var id :| id in ids[1..] && books[id].bookCategory == c;
            assert id in ids;
          }
          if exists id :: id in ids && books[id].bookCategory == c {
            var id :| id in ids && books[id].bookCategory == c;
            if id != ids[0] {
              assert id in ids[1..];
            }
          }
        }
      }
      r
  }

  /**
   * findAllDistinctCategories: every category some book carries, once
   * each, in ascending order. (A category is never null in this model.)
   */
  function FindAllDistinctCategories(books: Books): (r: seq<string>)
    ensures StrictlySorted(r)
    ensures forall i, j :: 0 <= i < j < |r| ==> r[i] != r[j]
    ensures forall c :: c in r <==> exists id :: id in books && books[id].bookCategory == c
  {
    var ids := SortedKeys(books.Keys);
    var r := CollectCategories(books, ids);
    assert forall i, j :: 0 <= i < j < |r| ==> r[i] != r[j] by {
      forall i, j | 0 <= i < j < |r| ensures r[i] != r[j] {
        LessIrreflexive(r[i]);
      }
    }
    r
  }
}
