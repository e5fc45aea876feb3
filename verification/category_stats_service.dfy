/**
 * CategoryStatsService: per-category counts of books, loans and returns,
 * and the top five active categories ranked by their total activity.
 */
module CategoryStatsService {
  import opened Entities
  import opened Text
  import opened Keys
  import opened LoanQueries
  import opened BookRepository
  import opened CategoryRepository

  /** CategoryStatsDto. */
  datatype CategoryStats = CategoryStats(name: string, booksCount: nat, loansCount: nat, returnsCount: nat)

  /** The ranking score: books + loans + returns. */
  function Activity(s: CategoryStats): nat {
    s.booksCount + s.loansCount + s.returnsCount
  }

  /** The loans, active or returned, of any of the given books. */
  function LoansOfBooks(loans: Loans, bookIds: set<Id>): set<Id> {
    set l | l in loans && loans[l].bookId in bookIds
  }

  /** Σ countByBookId over the listed books. */
  function LoanSum(loans: Loans, ids: seq<Id>): nat {
    if ids == [] then 0 else |OfBook(loans, ids[0])| + LoanSum(loans, ids[1..])
  }

  /** Σ countByBookIdAndReturnDateIsNotNull over the listed books. */
  function ReturnSum(loans: Loans, ids: seq<Id>): nat {
    if ids == [] then 0 else |OfBook(loans, ids[0]) * Returned(loans)| + ReturnSum(loans, ids[1..])
  }

  /** Adding one more book to a set of books adds exactly that book's loans. */
  lemma LoansOfOneMoreBook(loans: Loans, h: Id, rest: set<Id>)
    requires h !in rest
    ensures |LoansOfBooks(loans, {h} + rest)| == |OfBook(loans, h)| + |LoansOfBooks(loans, rest)|
    ensures |LoansOfBooks(loans, {h} + rest) * Returned(loans)|
            == |OfBook(loans, h) * Returned(loans)| + |LoansOfBooks(loans, rest) * Returned(loans)|
  {
    var mine := OfBook(loans, h);
    var others := LoansOfBooks(loans, rest);
    assert LoansOfBooks(loans, {h} + rest) == mine + others;
    assert mine * others == {};
    assert (mine + others) * Returned(loans) == mine * Returned(loans) + others * Returned(loans);
    assert (mine * Returned(loans)) * (others * Returned(loans)) == {};
  }

  /**
   * Summing per-book counts over a repeat-free list of books counts each
   * loan of those books exactly once.
   */
  lemma {:induction false} SumsCountLoans(loans: Loans, ids: seq<Id>)
    requires Distinct(ids)
    ensures LoanSum(loans, ids) == |LoansOfBooks(loans, set b | b in ids)|
    ensures ReturnSum(loans, ids) == |LoansOfBooks(loans, set b | b in ids) * Returned(loans)|
  {
    if ids != [] {
      var h := ids[0];
      var t := ids[1..];
      assert Distinct(t) by {
        forall i, j | 0 <= i < j < |t| ensures t[i] != t[j] {
          assert t[i] == ids[i + 1] && t[j] == ids[j + 1];
        }
      }
      SumsCountLoans(loans, t);
      assert h !in t;
      assert (set b | b in ids) == {h} + (set b | b in t) by {
        assert ids == [h] + t;
      }
      LoansOfOneMoreBook(loans, h, set b | b in t);
    }
  }

  /** createCategoryStats. */
  function CreateCategoryStats(lib: Library, name: string): (r: CategoryStats)
    ensures r.name == name
    ensures r.returnsCount <= r.loansCount
  {
    var books := FindByBookCategoryIgnoreCase(lib.books, name);
    ReturnsWithinLoans(lib.loans, books);
    CategoryStats(name, |books|, LoanSum(lib.loans, books), ReturnSum(lib.loans, books))
  }

  lemma {:induction false} ReturnsWithinLoans(loans: Loans, ids: seq<Id>)
    ensures ReturnSum(loans, ids) <= LoanSum(loans, ids)
  {
    if ids != [] {
      ReturnsWithinLoans(loans, ids[1..]);
      SubsetCard(OfBook(loans, ids[0]) * Returned(loans), OfBook(loans, ids[0]));
    }
  }

  /**
   * What the three counts of createCategoryStats mean: the books of the
   * category, every loan of those books, and the returned ones among them.
   */
  lemma CategoryStatsCounts(lib: Library, name: string)
    ensures CreateCategoryStats(lib, name).booksCount == |InCategory(lib.books, name)|
    ensures CreateCategoryStats(lib, name).loansCount == |LoansOfBooks(lib.loans, InCategory(lib.books, name))|
    ensures CreateCategoryStats(lib, name).returnsCount
            == |LoansOfBooks(lib.loans, InCategory(lib.books, name)) * Returned(lib.loans)|
  {
    var books := FindByBookCategoryIgnoreCase(lib.books, name);
    CategoryBookCount(lib.books, name);
    IncreasingDistinct(books);
    SumsCountLoans(lib.loans, books);
    ListedCategory(lib.books, name);
  }

  lemma ListedCategory(books: Books, name: string)
    ensures (set b | b in FindByBookCategoryIgnoreCase(books, name)) == InCategory(books, name)
  {
  }

  /** Most active first. */
  predicate NonIncreasing(xs: seq<CategoryStats>) {
    forall i, j :: 0 <= i < j < |xs| ==> Activity(xs[i]) >= Activity(xs[j])
  }

  /** A bound on every position is a bound on every member. */
  lemma MembersAtMost(xs: seq<CategoryStats>, b: nat)
    requires forall k :: 0 <= k < |xs| ==> Activity(xs[k]) <= b
    ensures forall s :: s in multiset(xs) ==> Activity(s) <= b
  {
    forall s | s in multiset(xs) ensures Activity(s) <= b {
      var k :| 0 <= k < |xs| && xs[k] == s;
    }
  }

  /**
   * Puts x ahead of the first entry it is at least as active as. x comes
   * from earlier in the input than every entry of ys, so ties keep the
   * input order.
   */
  function Insert(x: CategoryStats, ys: seq<CategoryStats>): seq<CategoryStats> {
    if ys == [] then [x]
    else if Activity(x) >= Activity(ys[0]) then [x] + ys
    else [ys[0]] + Insert(x, ys[1..])
  }

  /** Inserting adds exactly x. */
  lemma {:induction false} InsertPerm(x: CategoryStats, ys: seq<CategoryStats>)
    ensures multiset(Insert(x, ys)) == multiset(ys) + multiset{x}
    ensures |Insert(x, ys)| == |ys| + 1
  {
    if ys != [] && Activity(x) < Activity(ys[0]) {
      InsertPerm(x, ys[1..]);
      assert ys == [ys[0]] + ys[1..];
    }
  }

  /** An entry at least as active as every entry of a ranked list can head it. */
  lemma ConsNonIncreasing(y: CategoryStats, rest: seq<CategoryStats>)
    requires NonIncreasing(rest)
    requires forall k :: 0 <= k < |rest| ==> Activity(rest[k]) <= Activity(y)
    ensures NonIncreasing([y] + rest)
  {
    var r := [y] + rest;
    forall i, j | 0 <= i < j < |r| ensures Activity(r[i]) >= Activity(r[j]) {
      assert r[j] == rest[j - 1];
      if i > 0 {
        assert r[i] == rest[i - 1];
      }
    }
  }

  lemma TailNonIncreasing(ys: seq<CategoryStats>)
    requires ys != [] && NonIncreasing(ys)
    ensures NonIncreasing(ys[1..])
    ensures forall k :: 0 <= k < |ys[1..]| ==> Activity(ys[1..][k]) <= Activity(ys[0])
  {
    forall i, j | 0 <= i < j < |ys[1..]| ensures Activity(ys[1..][i]) >= Activity(ys[1..][j]) {
      assert ys[1..][i] == ys[i + 1] && ys[1..][j] == ys[j + 1];
    }
    forall k | 0 <= k < |ys[1..]| ensures Activity(ys[1..][k]) <= Activity(ys[0]) {
      assert ys[1..][k] == ys[k + 1];
    }
  }

  /** Inserting into a most-active-first list keeps it most-active-first. */
  lemma {:induction false} InsertSorted(x: CategoryStats, ys: seq<CategoryStats>)
    requires NonIncreasing(ys)
    ensures NonIncreasing(Insert(x, ys))
  {
    if ys == [] {
    } else if Activity(x) >= Activity(ys[0]) {
      TailNonIncreasing(ys);
      assert ys == [ys[0]] + ys[1..];
      ConsNonIncreasing(ys[0], ys[1..]);
      ConsNonIncreasing(x, ys);
    } else {
      var rest := Insert(x, ys[1..]);
      TailNonIncreasing(ys);
      InsertSorted(x, ys[1..]);
      InsertPerm(x, ys[1..]);
      MembersAtMost(ys[1..], Activity(ys[0]));
      forall k | 0 <= k < |rest| ensures Activity(rest[k]) <= Activity(ys[0]) {
        assert rest[k] in multiset(rest);
      }
      ConsNonIncreasing(ys[0], rest);
    }
  }

  /** `List.sort` with the descending activity comparator: a stable sort. */
  function Rank(xs: seq<CategoryStats>): (r: seq<CategoryStats>)
    ensures NonIncreasing(r)
    ensures multiset(r) == multiset(xs)
    ensures |r| == |xs|
  {
    if xs == [] then []
    else
      var rest := Rank(xs[1..]);
      RankStep(xs, rest);
      Insert(xs[0], rest)
  }

  /** Inserting the head into a ranking of the tail ranks the whole list. */
  lemma RankStep(xs: seq<CategoryStats>, rest: seq<CategoryStats>)
    requires xs != []
    requires NonIncreasing(rest) && multiset(rest) == multiset(xs[1..])
    ensures NonIncreasing(Insert(xs[0], rest))
    ensures multiset(Insert(xs[0], rest)) == multiset(xs)
    ensures |Insert(xs[0], rest)| == |xs|
  {
    InsertSorted(xs[0], rest);
    InsertPerm(xs[0], rest);
    assert xs == [xs[0]] + xs[1..];
    assert |rest| == |multiset(rest)| == |xs[1..]|;
  }

  /** The entries of one activity score, in their order. */
  function WithActivity(xs: seq<CategoryStats>, a: nat): seq<CategoryStats> {
    if xs == [] then []
    else (if Activity(xs[0]) == a then [xs[0]] else []) + WithActivity(xs[1..], a)
  }

  /** The entries of score a in a list with a given head. */
  lemma WithActivityCons(x: CategoryStats, ys: seq<CategoryStats>, a: nat)
    ensures WithActivity([x] + ys, a) == (if Activity(x) == a then [x] else []) + WithActivity(ys, a)
  {
    assert ([x] + ys)[1..] == ys;
  }

  lemma {:induction false} InsertStable(x: CategoryStats, ys: seq<CategoryStats>, a: nat)
    ensures WithActivity(Insert(x, ys), a) == WithActivity([x] + ys, a)
  {
    if ys != [] && Activity(x) < Activity(ys[0]) {
      var y := ys[0];
      var rest := Insert(x, ys[1..]);
      assert Insert(x, ys) == [y] + rest;
      var w := WithActivity(ys[1..], a);
      var px: seq<CategoryStats> := if Activity(x) == a then [x] else [];
      var py: seq<CategoryStats> := if Activity(y) == a then [y] else [];
      InsertStable(x, ys[1..], a);
      WithActivityCons(x, ys[1..], a);
      assert WithActivity(rest, a) == px + w;
      WithActivityCons(y, rest, a);
      assert WithActivity(Insert(x, ys), a) == py + (px + w);
      assert ys == [y] + ys[1..];
      WithActivityCons(y, ys[1..], a);
      WithActivityCons(x, ys, a);
      assert WithActivity([x] + ys, a) == px + (py + w);
      if Activity(x) == a {
        assert py == [];
      } else {
        assert px == [];
      }
    } else {
      assert Insert(x, ys) == [x] + ys;
    }
  }

  /**
   * The sort is stable: for every score, the entries with that score come
   * out in the order they went in.
   */
  lemma {:induction false} RankStable(xs: seq<CategoryStats>, a: nat)
    ensures WithActivity(Rank(xs), a) == WithActivity(xs, a)
  {
    if xs != [] {
      RankStable(xs[1..], a);
      InsertStable(xs[0], Rank(xs[1..]), a);
      assert ([xs[0]] + Rank(xs[1..]))[1..] == Rank(xs[1..]);
    }
  }

  predicate NamesAscending(xs: seq<CategoryStats>) {
    forall i, j :: 0 <= i < j < |xs| ==> LessEq(xs[i].name, xs[j].name)
  }

  /** Entries with the same score are in name order. */
  predicate TiesByName(xs: seq<CategoryStats>) {
    forall i, j :: 0 <= i < j < |xs| && Activity(xs[i]) == Activity(xs[j]) ==> LessEq(xs[i].name, xs[j].name)
  }

  /** An entry named no later than its equally active followers can head a list. */
  lemma ConsTiesByName(y: CategoryStats, rest: seq<CategoryStats>)
    requires TiesByName(rest)
    requires forall s :: s in rest && Activity(s) == Activity(y) ==> LessEq(y.name, s.name)
    ensures TiesByName([y] + rest)
  {
    var r := [y] + rest;
    forall i, j | 0 <= i < j < |r| && Activity(r[i]) == Activity(r[j]) ensures LessEq(r[i].name, r[j].name) {
      assert r[j] == rest[j - 1];
      if i > 0 {
        assert r[i] == rest[i - 1];
      } else {
        assert rest[j - 1] in rest;
      }
    }
  }

  lemma TailTiesByName(ys: seq<CategoryStats>)
    requires ys != [] && TiesByName(ys)
    ensures TiesByName(ys[1..])
    ensures forall s :: s in ys[1..] && Activity(s) == Activity(ys[0]) ==> LessEq(ys[0].name, s.name)
  {
    var t := ys[1..];
    forall i, j | 0 <= i < j < |t| && Activity(t[i]) == Activity(t[j]) ensures LessEq(t[i].name, t[j].name) {
      assert t[i] == ys[i + 1] && t[j] == ys[j + 1];
    }
    forall s | s in t && Activity(s) == Activity(ys[0]) ensures LessEq(ys[0].name, s.name) {
      var k :| 0 <= k < |t| && t[k] == s;
      assert ys[k + 1] == s;
    }
  }

  lemma {:induction false} InsertKeepsTiesByName(x: CategoryStats, ys: seq<CategoryStats>)
    requires TiesByName(ys)
    requires forall s :: s in ys ==> LessEq(x.name, s.name)
    ensures TiesByName(Insert(x, ys))
  {
    if ys == [] {
    } else if Activity(x) >= Activity(ys[0]) {
      ConsTiesByName(x, ys);
    } else {
      var rest := Insert(x, ys[1..]);
      TailTiesByName(ys);
      forall s | s in ys[1..] ensures LessEq(x.name, s.name) {
        var k :| 0 <= k < |ys[1..]| && ys[1..][k] == s;
        assert ys[k + 1] == s;
      }
      InsertKeepsTiesByName(x, ys[1..]);
      InsertPerm(x, ys[1..]);
      forall s | s in rest && Activity(s) == Activity(ys[0]) ensures LessEq(ys[0].name, s.name) {
        assert s in multiset(rest);
      }
      ConsTiesByName(ys[0], rest);
    }
  }

  /** Given entries in name order, the ranking lists equally active entries by name. */
  lemma {:induction false} RankTiesByName(xs: seq<CategoryStats>)
    requires NamesAscending(xs)
    ensures TiesByName(Rank(xs))
  {
    if xs != [] {
      var t := xs[1..];
      assert NamesAscending(t) by {
        forall i, j | 0 <= i < j < |t| ensures LessEq(t[i].name, t[j].name) {
          assert t[i] == xs[i + 1] && t[j] == xs[j + 1];
        }
      }
      RankTiesByName(t);
      var ranked := Rank(t);
      forall s | s in ranked ensures LessEq(xs[0].name, s.name) {
        assert s in multiset(t);
        var m :| 0 <= m < |t| && t[m] == s;
        assert xs[m + 1] == s;
      }
      InsertKeepsTiesByName(xs[0], ranked);
    }
  }

  /** How many entries `.limit(5)` keeps. */
  const TopCount := 5

  /** In a ranking, every entry of a prefix is at least as active as any entry after it. */
  lemma PrefixBeatsLater(ranked: seq<CategoryStats>, n: nat, j: nat)
    requires NonIncreasing(ranked)
    requires n <= j < |ranked|
    ensures forall t :: t in ranked[..n] ==> Activity(t) >= Activity(ranked[j])
  {
    forall t | t in ranked[..n] ensures Activity(t) >= Activity(ranked[j]) {
      var i :| 0 <= i < n && ranked[..n][i] == t;
      assert ranked[i] == t;
    }
  }

  /** A prefix of a ranking of xs: drawn from xs, and whatever it leaves out is no more active. */
  lemma PrefixOfRanking(xs: seq<CategoryStats>, ranked: seq<CategoryStats>, n: nat)
    requires NonIncreasing(ranked) && multiset(ranked) == multiset(xs)
    requires n <= |ranked|
    ensures forall s :: s in ranked[..n] ==> s in xs
    ensures forall s :: s in xs ==> s in ranked[..n] || forall t :: t in ranked[..n] ==> Activity(t) >= Activity(s)
  {
    forall s | s in ranked[..n] ensures s in xs {
      assert s in multiset(ranked);
    }
    forall s | s in xs ensures s in ranked[..n] || forall t :: t in ranked[..n] ==> Activity(t) >= Activity(s) {
      assert s in multiset(ranked);
      var j :| 0 <= j < |ranked| && ranked[j] == s;
      if j >= n {
        PrefixBeatsLater(ranked, n, j);
      } else {
        assert ranked[..n][j] == s;
      }
    }
  }

  /** Sort by activity, then keep the first five. */
  function TopFive(xs: seq<CategoryStats>): (r: seq<CategoryStats>)
    ensures |r| == if |xs| < TopCount then |xs| else TopCount
    ensures NonIncreasing(r)
    ensures forall s :: s in r ==> s in xs
    ensures forall s :: s in xs ==> s in r || forall t :: t in r ==> Activity(t) >= Activity(s)
  {
    var ranked := Rank(xs);
    var n := if |ranked| <= TopCount then |ranked| else TopCount;
    PrefixOfRanking(xs, ranked, n);
    ranked[..n]
  }

  /** Cutting a ranking of name-ordered entries keeps ties in name order. */
  lemma TopFiveTiesByName(xs: seq<CategoryStats>)
    requires NamesAscending(xs)
    ensures TiesByName(TopFive(xs))
  {
    RankTiesByName(xs);
  }

  /** The statistics of one category. */
  function StatsOfCategory(lib: Library, id: Id): CategoryStats
    requires id in lib.categories
  {
    CreateCategoryStats(lib, lib.categories[id].name)
  }

  /** The statistics of the listed categories, in list order. */
  function StatsOf(lib: Library, ids: seq<Id>): (r: seq<CategoryStats>)
    requires Stored(lib.categories, ids)
    ensures |r| == |ids|
    ensures forall i :: 0 <= i < |ids| ==> r[i] == StatsOfCategory(lib, ids[i])
  {
    if ids == [] then []
    else [StatsOfCategory(lib, ids[0])] + StatsOf(lib, ids[1..])
  }

  /** The ids of the active categories. */
  function ActiveCategories(cats: Categories): set<Id> {
    set id | id in cats && cats[id].active
  }

  /**
   * getTopCategories: the statistics of the active categories (taken in
   * name order), ranked by activity, cut to the first five.
   */
  function TopCategories(lib: Library): (r: seq<CategoryStats>)
    ensures |r| == if |ActiveCategories(lib.categories)| < TopCount then |ActiveCategories(lib.categories)| else TopCount
    ensures NonIncreasing(r)
    ensures TiesByName(r)
    ensures forall s :: s in r ==>
              exists id :: id in ActiveCategories(lib.categories) && s == StatsOfCategory(lib, id)
    ensures forall id :: id in ActiveCategories(lib.categories) ==>
              StatsOfCategory(lib, id) in r || forall s :: s in r ==> Activity(s) >= Activity(StatsOfCategory(lib, id))
  {
    var listed := FindAllByActiveTrueOrderByNameAsc(lib.categories);
    var stats := StatsOf(lib, listed);
    ActiveListingCard(lib.categories, listed);
    ActiveStats(lib, listed, stats);
    StatsInNameOrder(lib, listed, stats);
    TopFiveTiesByName(stats);
    TopFive(stats)
  }

  lemma ActiveListingCard(cats: Categories, listed: seq<Id>)
    requires Stored(cats, listed) && ByName(cats, listed)
    requires forall id :: id in listed <==> id in cats && cats[id].active
    ensures |listed| == |ActiveCategories(cats)|
  {
    ByNameSortsNames(cats, listed);
    DistinctCard(listed);
    assert (set x | x in listed) == ActiveCategories(cats);
  }

  /** The statistics list holds exactly the statistics of the listed categories. */
  lemma ActiveStats(lib: Library, listed: seq<Id>, stats: seq<CategoryStats>)
    requires Stored(lib.categories, listed)
    requires forall id :: id in listed <==> id in ActiveCategories(lib.categories)
    requires stats == StatsOf(lib, listed)
    ensures forall s :: s in stats ==>
              exists id :: id in ActiveCategories(lib.categories) && s == StatsOfCategory(lib, id)
    ensures forall id :: id in ActiveCategories(lib.categories) ==> StatsOfCategory(lib, id) in stats
  {
    forall s | s in stats
      ensures exists id :: id in ActiveCategories(lib.categories) && s == StatsOfCategory(lib, id)
    {
      var k :| 0 <= k < |stats| && stats[k] == s;
      assert listed[k] in listed;
    }
    forall id | id in ActiveCategories(lib.categories) ensures StatsOfCategory(lib, id) in stats {
      var k :| 0 <= k < |listed| && listed[k] == id;
      assert stats[k] == StatsOfCategory(lib, id);
    }
  }

  /** Categories listed by name give statistics listed by name. */
  lemma StatsInNameOrder(lib: Library, listed: seq<Id>, stats: seq<CategoryStats>)
    requires Stored(lib.categories, listed) && ByName(lib.categories, listed)
    requires stats == StatsOf(lib, listed)
    ensures NamesAscending(stats)
  {
    ByNameSortsNames(lib.categories, listed);
    forall i, j | 0 <= i < j < |stats| ensures LessEq(stats[i].name, stats[j].name) {
      assert stats[i].name == lib.categories[listed[i]].name;
      assert stats[j].name == lib.categories[listed[j]].name;
    }
  }
}
