/**
 * CategoryRepository: lookups by exact name, the listings ordered by name,
 * and the case-insensitive name search over the category store.
 */
module CategoryRepository {
  import opened Wrappers
  import opened Entities
  import opened Text
  import opened Keys

  type Categories = map<Id, Category>

  /** The ids whose category carries exactly this name. */
  function Named(cats: Categories, name: string): set<Id> {
    set id | id in cats && cats[id].name == name
  }

  /** No two categories share a name (the invariant saveCategory is there to keep). */
  predicate UniqueNames(cats: Categories) {
    forall i, j :: i in cats && j in cats && cats[i].name == cats[j].name ==> i == j
  }

  /**
   * findByName: the category with exactly this name. Should several rows
   * carry it, the one with the smallest id is taken.
   */
  function FindByName(cats: Categories, name: string): (r: Option<Id>)
    ensures r.None? <==> forall id :: id in cats ==> cats[id].name != name
    ensures r.Some? ==> r.value in cats && cats[r.value].name == name
    ensures r.Some? ==> forall id :: id in cats && cats[id].name == name ==> r.value <= id
  {
    var s := Named(cats, name);
    assert forall id :: id in cats && cats[id].name == name ==> id in s;
    if s == {} then None
    else
      var m := Least(s);
      Some(m)
  }

  /** Under unique names the lookup finds the one category carrying the name. */
  lemma FindByNameUnique(cats: Categories, id: Id)
    requires UniqueNames(cats)
    requires id in cats
    ensures FindByName(cats, cats[id].name) == Some(id)
  {
  }

  /** A name nobody carried is found, after storing it, at the id it was stored under. */
  lemma FindByNameAfterAdd(cats: Categories, f: Id, c: Category)
    requires FindByName(cats, c.name).None?
    ensures FindByName(cats[f := c], c.name) == Some(f)
  {
    assert Named(cats[f := c], c.name) == {f};
  }

  /** Lookups by name do not see the active flag. */
  lemma FindByNameIgnoresActive(cats: Categories, id: Id, active: bool, name: string)
    requires id in cats
    ensures FindByName(cats[id := cats[id].(active := active)], name) == FindByName(cats, name)
  {
    assert Named(cats[id := cats[id].(active := active)], name) == Named(cats, name);
  }

  /** existsByName: exact match, and the lookup succeeds exactly when it holds. */
  predicate ExistsByName(cats: Categories, name: string)
    ensures ExistsByName(cats, name) <==> FindByName(cats, name).Some?
    ensures ExistsByName(cats, name) <==> exists id :: id in cats && cats[id].name == name
  {
    var found := FindByName(cats, name);
    if found.Some? then
      assert found.value in cats && cats[found.value].name == name;
      true
    else
      false
  }

  /** Every listed id is a stored category. */
  predicate Stored(cats: Categories, xs: seq<Id>) {
    forall i :: 0 <= i < |xs| ==> xs[i] in cats
  }

  /** ORDER BY name, with ties broken by id: a strict total order on stored ids. */
  predicate Before(cats: Categories, a: Id, b: Id)
    requires a in cats && b in cats
  {
    Less(cats[a].name, cats[b].name) || (cats[a].name == cats[b].name && a < b)
  }

  lemma BeforeIrreflexive(cats: Categories, a: Id)
    requires a in cats
    ensures !Before(cats, a, a)
  {
    LessIrreflexive(cats[a].name);
  }

  lemma BeforeTransitive(cats: Categories, a: Id, b: Id, c: Id)
    requires a in cats && b in cats && c in cats
    requires Before(cats, a, b) && Before(cats, b, c)
    ensures Before(cats, a, c)
  {
    if Less(cats[a].name, cats[b].name) && Less(cats[b].name, cats[c].name) {
      LessTransitive(cats[a].name, cats[b].name, cats[c].name);
    }
  }

  lemma BeforeTotal(cats: Categories, a: Id, b: Id)
    requires a in cats && b in cats && a != b
    ensures Before(cats, a, b) || Before(cats, b, a)
  {
    LessTotal(cats[a].name, cats[b].name);
  }

  /** Listed in name order, each id once. */
  predicate ByName(cats: Categories, xs: seq<Id>)
    requires Stored(cats, xs)
  {
    forall i, j :: 0 <= i < j < |xs| ==> Before(cats, xs[i], xs[j])
  }

  /** Places a stored id into a name-ordered listing that lacks it. */
  function InsertByName(cats: Categories, id: Id, ys: seq<Id>): (r: seq<Id>)
    requires id in cats && Stored(cats, ys) && ByName(cats, ys)
    requires id !in ys
    ensures Stored(cats, r) && ByName(cats, r)
    ensures forall x :: x in r <==> x == id || x in ys
    ensures |r| == |ys| + 1
  {
    if ys == [] then [id]
    else if Before(cats, id, ys[0]) then
      assert forall j :: 0 <= j < |ys| ==> Before(cats, id, ys[j]) by {
        forall j | 0 < j < |ys| ensures Before(cats, id, ys[j]) {
          BeforeTransitive(cats, id, ys[0], ys[j]);
        }
      }
      [id] + ys
    else
      BeforeTotal(cats, id, ys[0]);
      var rest := InsertByName(cats, id, ys[1..]);
      assert forall j :: 0 <= j < |rest| ==> Before(cats, ys[0], rest[j]) by {
        forall j | 0 <= j < |rest| ensures Before(cats, ys[0], rest[j]) {
          assert rest[j] in rest;
          if rest[j] != id {
            var k :| 0 <= k < |ys[1..]| && ys[1..][k] == rest[j];
            assert ys[k + 1] == rest[j];
          }
        }
      }
      [ys[0]] + rest
  }

  /** Insertion sort of a repeat-free list of stored ids into name order. */
  function SortByName(cats: Categories, xs: seq<Id>): (r: seq<Id>)
    requires Stored(cats, xs) && Distinct(xs)
    ensures Stored(cats, r) && ByName(cats, r)
    ensures forall x :: x in r <==> x in xs
    ensures |r| == |xs|
  {
    if xs == [] then []
    else
      assert xs[0] !in xs[1..];
      InsertByName(cats, xs[0], SortByName(cats, xs[1..]))
  }

  /** A name-ordered listing never repeats an id, so it sorts the names ascending. */
  lemma ByNameSortsNames(cats: Categories, xs: seq<Id>)
    requires Stored(cats, xs) && ByName(cats, xs)
    ensures Distinct(xs)
    ensures forall i, j :: 0 <= i < j < |xs| ==> LessEq(cats[xs[i]].name, cats[xs[j]].name)
  {
    forall i, j | 0 <= i < j < |xs|
      ensures xs[i] != xs[j] && LessEq(cats[xs[i]].name, cats[xs[j]].name)
    {
      BeforeIrreflexive(cats, xs[i]);
      if Less(cats[xs[i]].name, cats[xs[j]].name) {
        LessAsymmetric(cats[xs[i]].name, cats[xs[j]].name);
      } else {
        LessIrreflexive(cats[xs[i]].name);
      }
    }
  }

  /**
   * Name order fixes the listing: two name-ordered listings of the same
   * categories are the same list.
   */
  lemma {:induction false} ByNameUnique(cats: Categories, xs: seq<Id>, ys: seq<Id>)
    requires Stored(cats, xs) && ByName(cats, xs)
    requires Stored(cats, ys) && ByName(cats, ys)
    requires forall x :: x in xs <==> x in ys
    ensures xs == ys
    decreases |xs|
  {
    ByNameSortsNames(cats, xs);
    ByNameSortsNames(cats, ys);
    DistinctCard(xs);
    DistinctCard(ys);
    assert (set x | x in xs) == (set x | x in ys);
    if xs != [] {
      var a := xs[0];
      var b := ys[0];
      assert a in ys && b in xs;
      if a != b {
        var i :| 0 <= i < |ys| && ys[i] == a;
        var j :| 0 <= j < |xs| && xs[j] == b;
        assert Before(cats, b, a);
        assert Before(cats, a, b);
        BeforeTransitive(cats, a, b, a);
        BeforeIrreflexive(cats, a);
      }
      forall x ensures x in xs[1..] <==> x in ys[1..] {
        if x in xs[1..] {
          var k :| 0 <= k < |xs[1..]| && xs[1..][k] == x;
          assert xs[k + 1] == x && x != a;
          assert x in ys;
        }
        if x in ys[1..] {
          var k :| 0 <= k < |ys[1..]| && ys[1..][k] == x;
          assert ys[k + 1] == x && x != b;
          assert x in xs;
        }
      }
      ByNameUnique(cats, xs[1..], ys[1..]);
      assert xs == [a] + xs[1..] && ys == [b] + ys[1..];
    }
  }

  /** findAllByOrderByNameAsc: every category once, in name order. */
  function FindAllByOrderByNameAsc(cats: Categories): (r: seq<Id>)
    ensures Stored(cats, r) && ByName(cats, r)
    ensures forall id :: id in r <==> id in cats
    ensures |r| == |cats|
  {
    var ids := SortedKeys(cats.Keys);
    IncreasingDistinct(ids);
    SortByName(cats, ids)
  }

  /** findAllByActiveTrueOrderByNameAsc: the active categories once each, in name order. */
  function FindAllByActiveTrueOrderByNameAsc(cats: Categories): (r: seq<Id>)
    ensures Stored(cats, r) && ByName(cats, r)
    ensures forall id :: id in r <==> id in cats && cats[id].active
  {
    var ids := Filter(SortedKeys(cats.Keys), id => id in cats && cats[id].active);
    IncreasingDistinct(ids);
    SortByName(cats, ids)
  }

  /** findByNameContainingIgnoreCase, in id order. */
  function FindByNameContainingIgnoreCase(cats: Categories, s: string): (r: seq<Id>)
    ensures Increasing(r)
    ensures forall id :: id in r <==> id in cats && ContainsIgnoreCase(cats[id].name, s)
  {
    Filter(SortedKeys(cats.Keys), id => id in cats && ContainsIgnoreCase(cats[id].name, s))
  }

  /** Every name contains the empty string, so an empty search lists every category. */
  lemma EmptySearchFindsAll(cats: Categories)
    ensures FindByNameContainingIgnoreCase(cats, []) == SortedKeys(cats.Keys)
  {
    forall id | id in SortedKeys(cats.Keys)
      ensures id in cats && ContainsIgnoreCase(cats[id].name, [])
    {
      ContainsEmpty(Lower(cats[id].name));
    }
    FilterKeepsAll(SortedKeys(cats.Keys), id => id in cats && ContainsIgnoreCase(cats[id].name, []));
  }
}
