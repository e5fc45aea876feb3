/**
 * CategoryService: creating categories by name (find-or-create), saving
 * them under a duplicate-name guard, soft deletion, search, and the
 * dashboard's top categories. The lookups getCategoryById,
 * getCategoryByName, categoryExists, getAllCategories and
 * getAllActiveCategories are the repository queries themselves.
 */
module CategoryService {
  import opened Wrappers
  import opened Entities
  import opened Text
  import opened Keys
  import opened BookRepository
  import opened CategoryRepository
  import CategoryStatsService

  /** A Category made from a name alone starts out active. */
  const NewCategoryActive := true

  /** Only the category store may differ between the two libraries. */
  predicate OnlyCategoriesChange(lib: Library, after: Library) {
    after.books == lib.books && after.members == lib.members && after.loans == lib.loans
  }

  /**
   * saveNewCategory: a null or blank name is refused; an existing
   * category with the trimmed name is returned as it is; otherwise a new
   * active category with the trimmed name is stored under freshId.
   */
  function SaveNewCategory(lib: Library, name: Option<string>, freshId: Id): (r: Result<(Library, Id), Err>)
    requires freshId !in lib.categories
    ensures name.None? || IsBlank(name.value) ==> r == Failure(EmptyCategoryName)
    ensures r.Success? <==> name.Some? && !IsBlank(name.value)
    ensures r.Success? ==>
              && r.value.1 in r.value.0.categories
              && r.value.0.categories[r.value.1].name == Trim(name.value)
              && OnlyCategoriesChange(lib, r.value.0)
    ensures r.Success? && ExistsByName(lib.categories, Trim(name.value)) ==>
              r.value == (lib, FindByName(lib.categories, Trim(name.value)).value)
    ensures r.Success? && !ExistsByName(lib.categories, Trim(name.value)) ==>
              && r.value.1 == freshId
              && r.value.0.categories.Keys == lib.categories.Keys + {freshId}
              && r.value.0.categories[freshId] == Category(Trim(name.value), NewCategoryActive)
              && (forall k :: k in lib.categories ==> r.value.0.categories[k] == lib.categories[k])
  {
    if name.None? || IsBlank(name.value) then Failure(EmptyCategoryName)
    else
      var trimmed := Trim(name.value);
      if ExistsByName(lib.categories, trimmed) then
        Success((lib, FindByName(lib.categories, trimmed).value))
      else
        Success((lib.(categories := lib.categories[freshId := Category(trimmed, NewCategoryActive)]), freshId))
  }

  /**
   * findOrCreateCategory: the category whose name is exactly the trimmed
   * name, whether it is active or not; failing that, saveNewCategory.
   */
  function FindOrCreateCategory(lib: Library, name: string, freshId: Id): (r: Result<(Library, Id), Err>)
    requires freshId !in lib.categories
    ensures FindByName(lib.categories, Trim(name)).Some? ==>
              r == Success((lib, FindByName(lib.categories, Trim(name)).value))
    ensures FindByName(lib.categories, Trim(name)).None? && IsBlank(name) ==> r == Failure(EmptyCategoryName)
    ensures r.Success? <==> FindByName(lib.categories, Trim(name)).Some? || !IsBlank(name)
    ensures r.Success? ==>
              && r.value.1 in r.value.0.categories
              && r.value.0.categories[r.value.1].name == Trim(name)
              && OnlyCategoriesChange(lib, r.value.0)
              && r.value.0.categories.Keys <= lib.categories.Keys + {freshId}
              && (forall k :: k in lib.categories ==> k in r.value.0.categories && r.value.0.categories[k] == lib.categories[k])
              && |r.value.0.categories| <= |lib.categories| + 1
  {
    var trimmed := Trim(name);
    TrimIdempotent(name);
    match FindByName(lib.categories, trimmed)
    case Some(id) => Success((lib, id))
    case None =>
      var r := SaveNewCategory(lib, Some(trimmed), freshId);
      assert r.Success? ==> r.value.0.categories.Keys == lib.categories.Keys + {freshId};
      r
  }

  /** A category findOrCreateCategory has to create is new, stored under freshId, and active. */
  lemma FindOrCreateNewIsActive(lib: Library, name: string, freshId: Id)
    requires freshId !in lib.categories
    requires FindOrCreateCategory(lib, name, freshId).Success?
    ensures var (after, id) := FindOrCreateCategory(lib, name, freshId).value;
            FindByName(lib.categories, Trim(name)).None? ==>
            id == freshId && id !in lib.categories && after.categories[id] == Category(Trim(name), NewCategoryActive)
  {
    TrimIdempotent(name);
  }

  /** What findOrCreateCategory returns is what a lookup of the trimmed name then finds. */
  lemma FindOrCreateThenFind(lib: Library, name: string, freshId: Id)
    requires freshId !in lib.categories
    requires FindOrCreateCategory(lib, name, freshId).Success?
    ensures var first := FindOrCreateCategory(lib, name, freshId).value;
            FindByName(first.0.categories, Trim(name)) == Some(first.1)
  {
    var n := Trim(name);
    if FindByName(lib.categories, n).None? {
      TrimIdempotent(name);
      assert !ExistsByName(lib.categories, n);
      FindByNameAfterAdd(lib.categories, freshId, Category(n, NewCategoryActive));
    }
  }

  /** A second findOrCreateCategory with the same name finds what the first returned and stores nothing. */
  lemma FindOrCreateIdempotent(lib: Library, name: string, freshId: Id, nextId: Id)
    requires freshId !in lib.categories
    requires FindOrCreateCategory(lib, name, freshId).Success?
    requires nextId !in FindOrCreateCategory(lib, name, freshId).value.0.categories
    ensures var first := FindOrCreateCategory(lib, name, freshId).value;
            FindOrCreateCategory(first.0, name, nextId) == Success(first)
  {
    FindOrCreateThenFind(lib, name, freshId);
  }

  /** findOrCreateCategory hands back an inactive category rather than creating another. */
  lemma FindOrCreateReturnsInactive(lib: Library, name: string, freshId: Id, id: Id)
    requires freshId !in lib.categories
    requires UniqueNames(lib.categories)
    requires id in lib.categories && !lib.categories[id].active
    requires Trim(name) == lib.categories[id].name
    ensures FindOrCreateCategory(lib, name, freshId) == Success((lib, id))
  {
    FindByNameUnique(lib.categories, id);
  }

  /** Creating a category by name never introduces a second category of that name. */
  lemma FindOrCreateKeepsUniqueNames(lib: Library, name: string, freshId: Id)
    requires freshId !in lib.categories
    requires UniqueNames(lib.categories)
    requires FindOrCreateCategory(lib, name, freshId).Success?
    ensures UniqueNames(FindOrCreateCategory(lib, name, freshId).value.0.categories)
  {
    var cats := FindOrCreateCategory(lib, name, freshId).value.0.categories;
    if FindByName(lib.categories, Trim(name)).None? {
      forall i, j | i in cats && j in cats && cats[i].name == cats[j].name ensures i == j {
        if i != freshId && j != freshId {
          assert cats[i] == lib.categories[i] && cats[j] == lib.categories[j];
        }
      }
    }
  }

  /** A category as the edit form submits it; the id is absent for a new one. */
  datatype CategoryForm = CategoryForm(id: Option<Id>, name: Option<string>, active: bool)

  /**
   * saveCategory: the name must not be null or blank and is stored
   * trimmed; a category of a different id already carrying the trimmed
   * name is a duplicate. The form is written under its id, or under
   * freshId when it has none.
   */
  function SaveCategory(lib: Library, form: CategoryForm, freshId: Id): (r: Result<(Library, Id), Err>)
    requires form.id.None? ==> freshId !in lib.categories
    ensures form.name.None? || IsBlank(form.name.value) ==> r == Failure(EmptyCategoryName)
    ensures form.name.Some? && !IsBlank(form.name.value) ==>
              var owner := FindByName(lib.categories, Trim(form.name.value));
              && (owner.Some? && form.id != owner ==> r == Failure(DuplicateCategoryName(Trim(form.name.value))))
              && (r.Success? <==> owner.None? || form.id == owner)
    ensures r.Success? ==>
              var key := r.value.1;
              var cats := r.value.0.categories;
              && key == form.id.GetOr(freshId)
              && cats.Keys == lib.categories.Keys + {key}
              && cats[key] == Category(Trim(form.name.value), form.active)
              && (forall k :: k in lib.categories && k != key ==> cats[k] == lib.categories[k])
              && OnlyCategoriesChange(lib, r.value.0)
  {
    if form.name.None? || IsBlank(form.name.value) then Failure(EmptyCategoryName)
    else
      var trimmed := Trim(form.name.value);
      var owner := FindByName(lib.categories, trimmed);
      if owner.Some? && form.id != owner then Failure(DuplicateCategoryName(trimmed))
      else
        var key := form.id.GetOr(freshId);
        Success((lib.(categories := lib.categories[key := Category(trimmed, form.active)]), key))
  }

  /** Re-saving a category under its own name is not a duplicate. */
  lemma SaveUnderOwnNameAccepted(lib: Library, id: Id, name: string, active: bool, freshId: Id)
    requires UniqueNames(lib.categories)
    requires id in lib.categories && lib.categories[id].name != []
    requires Trim(name) == lib.categories[id].name
    ensures SaveCategory(lib, CategoryForm(Some(id), Some(name), active), freshId).Success?
  {
    FindByNameUnique(lib.categories, id);
  }

  /** A successful save keeps category names unique. */
  lemma SaveCategoryKeepsUniqueNames(lib: Library, form: CategoryForm, freshId: Id)
    requires form.id.None? ==> freshId !in lib.categories
    requires UniqueNames(lib.categories)
    requires SaveCategory(lib, form, freshId).Success?
    ensures UniqueNames(SaveCategory(lib, form, freshId).value.0.categories)
  {
    var key := SaveCategory(lib, form, freshId).value.1;
    var cats := SaveCategory(lib, form, freshId).value.0.categories;
    forall i, j | i in cats && j in cats && cats[i].name == cats[j].name ensures i == j {
      if i != key && j != key {
        assert cats[i] == lib.categories[i] && cats[j] == lib.categories[j];
      }
    }
  }

  /**
   * deleteCategory: a soft delete. An unknown id is refused, and so is a
   * category that books are still filed under (compared ignoring case),
   * with their number; otherwise only the active flag is cleared.
   */
  function DeleteCategory(lib: Library, id: Id): (r: Result<Library, Err>)
    ensures id !in lib.categories ==> r == Failure(CategoryNotFound)
    ensures id in lib.categories && |InCategory(lib.books, lib.categories[id].name)| > 0 ==>
              r == Failure(CategoryInUse(lib.categories[id].name, |InCategory(lib.books, lib.categories[id].name)|))
    ensures r.Success? <==> id in lib.categories && InCategory(lib.books, lib.categories[id].name) == {}
    ensures r.Success? ==>
              && r.value.categories.Keys == lib.categories.Keys
              && r.value.categories[id] == lib.categories[id].(active := false)
              && (forall k :: k in lib.categories && k != id ==> r.value.categories[k] == lib.categories[k])
              && OnlyCategoriesChange(lib, r.value)
  {
    if id !in lib.categories then Failure(CategoryNotFound)
    else
      var category := lib.categories[id];
      var books := FindByBookCategoryIgnoreCase(lib.books, category.name);
      CategoryBookCount(lib.books, category.name);
      if |books| > 0 then Failure(CategoryInUse(category.name, |books|))
      else Success(lib.(categories := lib.categories[id := category.(active := false)]))
  }

  /** After a soft delete the category is no longer listed as active but is still listed. */
  lemma SoftDeleteHidesCategory(lib: Library, id: Id)
    requires DeleteCategory(lib, id).Success?
    ensures var after := DeleteCategory(lib, id).value;
            && id !in FindAllByActiveTrueOrderByNameAsc(after.categories)
            && id in FindAllByOrderByNameAsc(after.categories)
  {
  }

  /** A soft-deleted category is still found by its name, so it keeps the name taken. */
  lemma SoftDeleteKeepsName(lib: Library, id: Id, name: string)
    requires DeleteCategory(lib, id).Success?
    ensures FindByName(DeleteCategory(lib, id).value.categories, name) == FindByName(lib.categories, name)
    ensures UniqueNames(lib.categories) ==> UniqueNames(DeleteCategory(lib, id).value.categories)
  {
    FindByNameIgnoresActive(lib.categories, id, false, name);
    assert DeleteCategory(lib, id).value.categories == lib.categories[id := lib.categories[id].(active := false)];
  }

  /** Deleting a category twice: the second call succeeds and changes nothing. */
  lemma DeleteCategoryTwice(lib: Library, id: Id)
    requires DeleteCategory(lib, id).Success?
    ensures DeleteCategory(DeleteCategory(lib, id).value, id) == Success(DeleteCategory(lib, id).value)
  {
    var after := DeleteCategory(lib, id).value;
    assert after.categories[id := after.categories[id].(active := false)] == after.categories;
  }

  /** searchCategories: the search text is trimmed first. */
  function SearchCategories(cats: Categories, search: string): (r: seq<Id>)
    ensures Increasing(r)
    ensures forall id :: id in r <==> id in cats && ContainsIgnoreCase(cats[id].name, Trim(search))
  {
    FindByNameContainingIgnoreCase(cats, Trim(search))
  }

  /** A blank search text lists every category, and surrounding spaces never matter. */
  lemma BlankSearchListsAll(cats: Categories, search: string)
    ensures IsBlank(search) ==> SearchCategories(cats, search) == SortedKeys(cats.Keys)
    ensures SearchCategories(cats, search) == SearchCategories(cats, Trim(search))
  {
    TrimIdempotent(search);
    if IsBlank(search) {
      EmptySearchFindsAll(cats);
    }
  }

  /**
   * getTopCategoriesWithStats: the same ranking as the statistics
   * service, at most five entries, most active first, all of them active
   * categories.
   */
  function TopCategoriesWithStats(lib: Library): (r: seq<CategoryStatsService.CategoryStats>)
    ensures var active := |CategoryStatsService.ActiveCategories(lib.categories)|;
            |r| == if active < CategoryStatsService.TopCount then active else CategoryStatsService.TopCount
    ensures CategoryStatsService.NonIncreasing(r)
    ensures forall s :: s in r ==>
              exists id :: id in lib.categories && lib.categories[id].active
                           && s == CategoryStatsService.StatsOfCategory(lib, id)
    ensures CategoryStatsService.TiesByName(r)
    ensures forall id :: id in lib.categories && lib.categories[id].active ==>
              || CategoryStatsService.StatsOfCategory(lib, id) in r
              || forall s :: s in r ==>
                   CategoryStatsService.Activity(s) >= CategoryStatsService.Activity(CategoryStatsService.StatsOfCategory(lib, id))
  {
    assert forall id :: id in lib.categories && lib.categories[id].active ==>
             id in CategoryStatsService.ActiveCategories(lib.categories);
    CategoryStatsService.TopCategories(lib)
  }
}
