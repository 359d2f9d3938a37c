/**
  `GET /api/categories` and `POST /api/categories`: listing categories with
  an optional parent filter and their `children_count`, and creating a
  category at the end of its sibling group.
 */
module CategoriesApi {
  import opened Wrappers
  import opened Types
  import opened Database
  import Text
  import Collections

  const NameAndColorRequired := "Name and color are required"
  /** SQLite's messages for the constraint failures an insert into `categories` can raise. */
  const SlugNotUnique := "UNIQUE constraint failed: categories.slug"
  const ForeignKeyFailed := "FOREIGN KEY constraint failed"

  /** The `children_count` subquery: how many categories have `id` as their parent. */
  function ChildrenCount(cats: map<int, Category>, id: int): nat {
    |set k | k in cats && cats[k].parentId == Some(id)|
  }

  /**
    The `WHERE` clause chosen by the `parent_id` query parameter: absent lists
    every category; `'null'` or empty lists the roots; anything else is
    passed through `Number()` and compared with `parent_id`, so a value that
    is not a number matches no row.
   */
  predicate Wanted(parentParam: Option<string>, c: Category) {
    match parentParam
    case None => true
    case Some(p) =>
      if p == "null" || p == "" then c.parentId.None?
      else
        var n := Text.JsNumber(p);
        n.Some? && c.parentId == n
  }

  /**
    The three filters: no parameter selects every category, `'null'` and the
    empty string select the roots, and the decimal form of an id selects
    exactly the children of that id.
   */
  lemma WantedCases(c: Category, n: int)
    ensures Wanted(None, c)
    ensures Wanted(Some("null"), c) <==> c.parentId.None?
    ensures Wanted(Some(""), c) <==> c.parentId.None?
    ensures Wanted(Some(Text.IntToString(n)), c) <==> c.parentId == Some(n)
  {
    var s := Text.IntToString(n);
    Text.JsNumberOfIntToString(n);
    assert s[0] == '-' || Text.IsDigit(s[0]);
    assert s != "null";
  }

  /** The `WHERE` clause as a row condition. */
  function WantedBy(parentParam: Option<string>): Category -> bool {
    (c: Category) => Wanted(parentParam, c)
  }

  /** The rows `GET` returns, ordered by `sort_order`. */
  function List(cats: map<int, Category>, parentParam: Option<string>): seq<CategoryRow> {
    var rows := Select(cats, WantedBy(parentParam), CategoryOrder);
    WithCounts(cats, rows)
  }

  /** The selected rows, each with its `children_count` subquery. */
  function WithCounts(cats: map<int, Category>, rows: seq<Category>): (r: seq<CategoryRow>)
    ensures |r| == |rows|
    ensures forall i :: 0 <= i < |r| ==> r[i].category == rows[i] && r[i].childrenCount == ChildrenCount(cats, rows[i].id)
  {
    if rows == [] then [] else [CategoryRow(rows[0], ChildrenCount(cats, rows[0].id))] + WithCounts(cats, rows[1..])
  }

  /** `GET` lists its rows in ascending `sort_order`. */
  lemma ListSorted(cats: map<int, Category>, parentParam: Option<string>)
    ensures var r := List(cats, parentParam);
      forall i, j :: 0 <= i < j < |r| ==> r[i].category.sortOrder <= r[j].category.sortOrder
  {
    SelectSorted(cats, WantedBy(parentParam), CategoryOrder);
  }

  /** Every row `GET` returns is a stored category the filter selects, with its number of children. */
  lemma ListSelected(cats: map<int, Category>, parentParam: Option<string>)
    requires forall k :: k in cats ==> cats[k].id == k
    ensures var r := List(cats, parentParam);
      forall i :: 0 <= i < |r| ==>
        && r[i].category.id in cats && cats[r[i].category.id] == r[i].category
        && Wanted(parentParam, r[i].category)
        && r[i].childrenCount == ChildrenCount(cats, r[i].category.id)
  {
    var r := List(cats, parentParam);
    forall i | 0 <= i < |r|
      ensures r[i].category.id in cats && cats[r[i].category.id] == r[i].category
      ensures Wanted(parentParam, r[i].category)
    {
      SelectSound(cats, WantedBy(parentParam), CategoryOrder, i);
    }
  }

  /** Every stored category the filter selects is among the rows `GET` returns. */
  lemma ListComplete(cats: map<int, Category>, parentParam: Option<string>)
    ensures var r := List(cats, parentParam);
      forall k :: k in cats && Wanted(parentParam, cats[k]) ==>
        exists i :: 0 <= i < |r| && r[i].category == cats[k]
  {
    forall k | k in cats && Wanted(parentParam, cats[k])
      ensures exists i :: 0 <= i < |List(cats, parentParam)| && List(cats, parentParam)[i].category == cats[k]
    {
      ListHas(cats, parentParam, k);
    }
  }

  lemma ListHas(cats: map<int, Category>, parentParam: Option<string>, k: int)
    requires k in cats && Wanted(parentParam, cats[k])
    ensures exists i :: 0 <= i < |List(cats, parentParam)| && List(cats, parentParam)[i].category == cats[k]
  {
    var rows := Select(cats, WantedBy(parentParam), CategoryOrder);
    assert WantedBy(parentParam)(cats[k]);
    SelectedHas(cats, WantedBy(parentParam), k);
    var i :| 0 <= i < |rows| && rows[i] == cats[k];
    var r := List(cats, parentParam);
    assert r == WithCounts(cats, rows);
    assert r[i].category == rows[i];
  }

  lemma SelectedHas(cats: map<int, Category>, p: Category -> bool, k: int)
    requires k in cats && p(cats[k])
    ensures exists i :: 0 <= i < |Select(cats, p, CategoryOrder)| && Select(cats, p, CategoryOrder)[i] == cats[k]
  {
    SelectComplete(cats, p, CategoryOrder, k);
  }

  /** The `sort_order` values of the categories whose parent is `parentId` (the roots for None). */
  function SiblingOrders(cats: map<int, Category>, parentId: Option<int>): set<int> {
    set k | k in cats && cats[k].parentId == parentId :: cats[k].sortOrder
  }

  /**
    The foreign key `categories.parent_id → categories(id)` admits the new
    row `newId`: no parent, a stored parent, or the row itself, since SQLite
    checks the key after the row is inserted.
   */
  predicate ParentAdmitted(cats: map<int, Category>, newId: int, parentId: Option<int>) {
    parentId.None? || parentId.value in cats || parentId.value == newId
  }

  /** `slug` is already used by some category (the `UNIQUE` constraint on `categories.slug`). */
  predicate SlugTaken(cats: map<int, Category>, slug: string) {
    exists k :: k in cats && cats[k].slug == slug
  }

  /**
    `POST`: name and colour must be non-empty (None stands for a missing or
    null field), else 400 with nothing written. The slug is `slugify(name)`,
    the order one past the siblings' largest, the parent the given one or
    null. An insert that would repeat a slug, or name a parent that is
    neither stored nor the new row itself, fails with SQLite's error and
    status 500, writing nothing.
    Otherwise the row gets the next AUTOINCREMENT id and comes back with
    status 201. `now` is `datetime('now')`.
   */
  method Create(db: Db, name: Option<string>, color: Option<string>, parentId: Option<int>,
                slugify: string -> string, now: string)
    returns (resp: Response<CategoryRow>)
    requires db.Valid()
    modifies db`categories, db`lastCategoryId
    ensures db.Valid()
    ensures !Text.Truthy(name) || !Text.Truthy(color) ==>
      resp == Error(400, NameAndColorRequired) && db.categories == old(db.categories)
    ensures Text.Truthy(name) && Text.Truthy(color) && SlugTaken(old(db.categories), slugify(name.value)) ==>
      resp == Error(500, SlugNotUnique) && db.categories == old(db.categories)
    ensures Text.Truthy(name) && Text.Truthy(color) && !SlugTaken(old(db.categories), slugify(name.value))
            && !ParentAdmitted(old(db.categories), old(db.lastCategoryId) + 1, parentId) ==>
      resp == Error(500, ForeignKeyFailed) && db.categories == old(db.categories)
    ensures resp.Error? ==> db.categories == old(db.categories) && db.lastCategoryId == old(db.lastCategoryId)
    ensures (Text.Truthy(name) && Text.Truthy(color) && !SlugTaken(old(db.categories), slugify(name.value))
             && ParentAdmitted(old(db.categories), old(db.lastCategoryId) + 1, parentId)) ==> resp.Ok?
    ensures resp.Ok? ==>
      var id := old(db.lastCategoryId) + 1;
      var c := Category(id, name.value, slugify(name.value), color.value,
                        NextSortOrder(SiblingOrders(old(db.categories), parentId)), parentId, now, now);
      && Text.Truthy(name) && Text.Truthy(color)
      && !SlugTaken(old(db.categories), slugify(name.value))
      && ParentAdmitted(old(db.categories), id, parentId)
      && db.categories == old(db.categories)[id := c]
      && db.lastCategoryId == id
      && resp == Ok(201, CategoryRow(c, ChildrenCount(db.categories, id)))
  {
    if !Text.Truthy(name) || !Text.Truthy(color) {
      return Error(400, NameAndColorRequired);
    }
    var slug := slugify(name.value);
    var sortOrder := NextSortOrder(SiblingOrders(db.categories, parentId));
    if SlugTaken(db.categories, slug) {
      return Error(500, SlugNotUnique);
    }
    if !ParentAdmitted(db.categories, db.lastCategoryId + 1, parentId) {
      return Error(500, ForeignKeyFailed);
    }
    var id := db.lastCategoryId + 1;
    var c := Category(id, name.value, slug, color.value, sortOrder, parentId, now, now);
    db.categories := db.categories[id := c];
    db.lastCategoryId := id;
    resp := Ok(201, CategoryRow(c, ChildrenCount(db.categories, id)));
  }

  /**
    A new category is read back with `children_count` 0, or 1 when it is
    its own parent: when every stored parent is itself a stored category
    (the foreign key), no stored row points at a fresh id.
   */
  lemma FreshChildrenCount(cats: map<int, Category>, lastId: int, c: Category)
    requires forall k :: k in cats ==> k <= lastId
    requires forall k :: k in cats && cats[k].parentId.Some? ==> cats[k].parentId.value in cats
    requires c.id == lastId + 1
    requires ParentAdmitted(cats, c.id, c.parentId)
    ensures ChildrenCount(cats[c.id := c], c.id) == if c.parentId == Some(c.id) then 1 else 0
  {
    var after := cats[c.id := c];
    var children := set k | k in after && after[k].parentId == Some(c.id);
    forall k | k in after && k != c.id ensures after[k].parentId != Some(c.id) {
      assert k in cats;
    }
    if c.parentId == Some(c.id) {
      assert children == {c.id};
    } else {
      assert children == {};
    }
  }
}
