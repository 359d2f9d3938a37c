/**
  The board page's server `load`: the root categories as columns, each with
  its items and its child categories, every item with its tags attached,
  and the tag list ordered by name.
 */
module PageLoad {
  import opened Wrappers
  import opened Types
  import opened Database
  import Collections
  import CategoriesApi
  import ItemsApi

  /** What the page receives. */
  datatype PageData = PageData(columns: seq<Column>, tags: seq<Tag>, allItems: seq<TaggedItem>)

  /** The root categories with their `children_count`, in `sort_order`. */
  function Roots(cats: map<int, Category>): seq<CategoryRow> {
    CategoriesApi.List(cats, Some("null"))
  }

  function RootIds(roots: seq<CategoryRow>): seq<int> {
    Collections.Map(roots, (r: CategoryRow) => r.category.id)
  }

  /**
    `SELECT * FROM categories WHERE parent_id IN (…) ORDER BY sort_order`
    over the root ids; the query is not run when there are no roots.
   */
  function ChildCategories(cats: map<int, Category>, rootIds: seq<int>): seq<Category> {
    if rootIds == [] then []
    else Select(cats, InRoots(rootIds), CategoryOrder)
  }

  /** The `WHERE parent_id IN (…)` condition over the root ids. */
  function InRoots(ids: seq<int>): Category -> bool {
    (c: Category) => c.parentId.Some? && c.parentId.value in ids
  }

  /** No `WHERE` clause. */
  predicate AnyItem(it: Item) { true }

  /** `.filter((it) => it.category_id === id)` on the tagged items. */
  function InCategory(id: int): TaggedItem -> bool {
    (t: TaggedItem) => t.item.categoryId == id
  }

  /** The children of the category `id`. */
  function ChildOf(id: int): Category -> bool {
    (ch: Category) => ch.parentId == Some(id)
  }

  /** A tagged item's `sort_order`. */
  function TaggedOrder(t: TaggedItem): int { t.item.sortOrder }

  /** `SELECT * FROM items ORDER BY sort_order`. */
  function AllItems(items: map<int, Item>): seq<Item> {
    Select(items, AnyItem, ItemOrder)
  }

  /** The `name` column of `tags`, as an `ORDER BY` key. */
  function TagName(t: Tag): string { t.name }

  /** `SELECT * FROM tags ORDER BY name`. */
  function TagsByName(rows: map<int, Tag>): seq<Tag> {
    Collections.SortByText(RowsInIdOrder(rows), TagName)
  }

  /** The ids that have a row in the tag table. */
  function KnownIn(rows: map<int, Tag>): int -> bool {
    (k: int) => k in rows
  }

  /** `.map((it) => tagMap.get(it.tag_id)).filter(Boolean)`: ids without a tag row are dropped. */
  function LookupTags(rows: map<int, Tag>, ids: seq<int>): seq<Tag> {
    if ids == [] then []
    else (if ids[0] in rows then [rows[ids[0]]] else []) + LookupTags(rows, ids[1..])
  }

  /** The tags of one item: its `item_tags` pairs, in ascending tag id, looked up in the tag table. */
  function ItemTags(rows: map<int, Tag>, pairs: set<ItemTag>, itemId: int): seq<Tag> {
    LookupTags(rows, Collections.SortedIds(TagIdsOf(pairs, itemId)))
  }

  /** Each item with its tags. */
  function Attached(rows: map<int, Tag>, pairs: set<ItemTag>, items: seq<Item>): (r: seq<TaggedItem>)
    ensures |r| == |items|
    ensures forall i :: 0 <= i < |r| ==> r[i] == TaggedItem(items[i], ItemTags(rows, pairs, items[i].id))
  {
    Collections.Map(items, (it: Item) => TaggedItem(it, ItemTags(rows, pairs, it.id)))
  }

  /** One column: the category, its items, and its children. */
  function ColumnOf(root: CategoryRow, tagged: seq<TaggedItem>, children: seq<Category>): Column {
    Column(root.category, root.childrenCount,
           Collections.Filter(tagged, InCategory(root.category.id)),
           Collections.Filter(children, ChildOf(root.category.id)))
  }

  function Columns(roots: seq<CategoryRow>, tagged: seq<TaggedItem>, children: seq<Category>): seq<Column> {
    Collections.Map(roots, (r: CategoryRow) => ColumnOf(r, tagged, children))
  }

  /**
    The whole `load`, as a function of the tables. A database without a
    `tags` table fails at the tag query, with status 500.
   */
  function Page(cats: map<int, Category>, items: map<int, Item>, pairs: set<ItemTag>, tags: Option<TagTable>)
    : Response<PageData>
  {
    if tags.None? then Error(500, ItemsApi.NoTagsTable)
    else
      var roots := Roots(cats);
      var tagged := Attached(tags.value.rows, pairs, AllItems(items));
      Ok(200, PageData(Columns(roots, tagged, ChildCategories(cats, RootIds(roots))),
                       TagsByName(tags.value.rows), tagged))
  }

  /** The loop that sets `item.tags` on each item, done in a fresh sequence. */
  method AttachTags(rows: map<int, Tag>, pairs: set<ItemTag>, items: seq<Item>) returns (tagged: seq<TaggedItem>)
    ensures |tagged| == |items|
    ensures forall i :: 0 <= i < |items| ==> tagged[i] == TaggedItem(items[i], ItemTags(rows, pairs, items[i].id))
  {
    tagged := [];
    if |items| > 0 {
      for i := 0 to |items|
        invariant |tagged| == i
        invariant forall j :: 0 <= j < i ==> tagged[j] == TaggedItem(items[j], ItemTags(rows, pairs, items[j].id))
      {
        tagged := tagged + [TaggedItem(items[i], ItemTags(rows, pairs, items[i].id))];
      }
    }
  }

  /** `load` itself: it only reads the database, and gives what `Page` describes. */
  method Load(db: Db) returns (resp: Response<PageData>)
    ensures resp == Page(db.categories, db.items, db.itemTags, db.tags)
  {
    var roots := Roots(db.categories);
    var all := AllItems(db.items);
    var children := ChildCategories(db.categories, RootIds(roots));
    if db.tags.None? {
      return Error(500, ItemsApi.NoTagsTable);
    }
    var rows := db.tags.value.rows;
    var tags := TagsByName(rows);
    var tagged := AttachTags(rows, db.itemTags, all);
    assert tagged == Attached(rows, db.itemTags, all);
    resp := Ok(200, PageData(Columns(roots, tagged, children), tags, tagged));
  }

  // ---------------------------------------------------------------------------
  // What the page gets

  /** The columns are the root categories, in `sort_order`, each with its number of children. */
  lemma ColumnsAreRoots(cats: map<int, Category>, tagged: seq<TaggedItem>)
    requires forall k :: k in cats ==> cats[k].id == k
    ensures var roots := Roots(cats);
      var cols := Columns(roots, tagged, ChildCategories(cats, RootIds(roots)));
      && (forall i :: 0 <= i < |cols| ==>
            && cols[i].category.parentId.None?
            && cols[i].category.id in cats && cats[cols[i].category.id] == cols[i].category
            && cols[i].childrenCount == CategoriesApi.ChildrenCount(cats, cols[i].category.id))
      && (forall k :: k in cats && cats[k].parentId.None? ==>
            exists i :: 0 <= i < |cols| && cols[i].category == cats[k])
      && (forall i, j :: 0 <= i < j < |cols| ==> cols[i].category.sortOrder <= cols[j].category.sortOrder)
  {
    ColumnsSound(cats, tagged);
    ColumnsComplete(cats, tagged);
    ColumnsSorted(cats, tagged);
  }

  lemma ColumnsSound(cats: map<int, Category>, tagged: seq<TaggedItem>)
    requires forall k :: k in cats ==> cats[k].id == k
    ensures var roots := Roots(cats);
      var cols := Columns(roots, tagged, ChildCategories(cats, RootIds(roots)));
      forall i :: 0 <= i < |cols| ==>
        && cols[i].category.parentId.None?
        && cols[i].category.id in cats && cats[cols[i].category.id] == cols[i].category
        && cols[i].childrenCount == CategoriesApi.ChildrenCount(cats, cols[i].category.id)
  {
    var roots := Roots(cats);
    var cols := Columns(roots, tagged, ChildCategories(cats, RootIds(roots)));
    ColumnsFollowRoots(roots, tagged, ChildCategories(cats, RootIds(roots)));
    RootsSound(cats);
    forall i | 0 <= i < |cols|
      ensures && cols[i].category.parentId.None?
              && cols[i].category.id in cats && cats[cols[i].category.id] == cols[i].category
              && cols[i].childrenCount == CategoriesApi.ChildrenCount(cats, cols[i].category.id)
    {
      assert cols[i].category == roots[i].category && cols[i].childrenCount == roots[i].childrenCount;
    }
  }

  lemma ColumnsComplete(cats: map<int, Category>, tagged: seq<TaggedItem>)
    ensures var roots := Roots(cats);
      var cols := Columns(roots, tagged, ChildCategories(cats, RootIds(roots)));
      forall k :: k in cats && cats[k].parentId.None? ==>
        exists i :: 0 <= i < |cols| && cols[i].category == cats[k]
  {
    var roots := Roots(cats);
    var cols := Columns(roots, tagged, ChildCategories(cats, RootIds(roots)));
    ColumnsFollowRoots(roots, tagged, ChildCategories(cats, RootIds(roots)));
    forall k | k in cats && cats[k].parentId.None?
      ensures exists i :: 0 <= i < |cols| && cols[i].category == cats[k]
    {
      RootListed(cats, k);
      var i :| 0 <= i < |roots| && roots[i].category == cats[k];
      assert cols[i].category == cats[k];
    }
  }

  lemma ColumnsSorted(cats: map<int, Category>, tagged: seq<TaggedItem>)
    ensures var roots := Roots(cats);
      var cols := Columns(roots, tagged, ChildCategories(cats, RootIds(roots)));
      forall i, j :: 0 <= i < j < |cols| ==> cols[i].category.sortOrder <= cols[j].category.sortOrder
  {
    var roots := Roots(cats);
    var cols := Columns(roots, tagged, ChildCategories(cats, RootIds(roots)));
    ColumnsFollowRoots(roots, tagged, ChildCategories(cats, RootIds(roots)));
    CategoriesApi.ListSorted(cats, Some("null"));
    forall i, j | 0 <= i < j < |cols| ensures cols[i].category.sortOrder <= cols[j].category.sortOrder {
      assert roots[i].category.sortOrder <= roots[j].category.sortOrder;
    }
  }

  lemma RootsSound(cats: map<int, Category>)
    requires forall k :: k in cats ==> cats[k].id == k
    ensures var roots := Roots(cats);
      forall i :: 0 <= i < |roots| ==>
        && roots[i].category.parentId.None?
        && roots[i].category.id in cats && cats[roots[i].category.id] == roots[i].category
        && roots[i].childrenCount == CategoriesApi.ChildrenCount(cats, roots[i].category.id)
  {
    var roots := Roots(cats);
    CategoriesApi.ListSelected(cats, Some("null"));
    forall i | 0 <= i < |roots| ensures roots[i].category.parentId.None? {
      assert CategoriesApi.Wanted(Some("null"), roots[i].category);
    }
  }

  lemma RootListed(cats: map<int, Category>, k: int)
    requires k in cats && cats[k].parentId.None?
    ensures exists i :: 0 <= i < |Roots(cats)| && Roots(cats)[i].category == cats[k]
  {
    var p := Some("null");
    assert Roots(cats) == CategoriesApi.List(cats, p);
    assert CategoriesApi.Wanted(p, cats[k]);
    CategoriesApi.ListHas(cats, p, k);
    var i :| 0 <= i < |CategoriesApi.List(cats, p)| && CategoriesApi.List(cats, p)[i].category == cats[k];
    assert Roots(cats)[i].category == cats[k];
  }

  lemma ColumnsFollowRoots(roots: seq<CategoryRow>, tagged: seq<TaggedItem>, children: seq<Category>)
    ensures var cols := Columns(roots, tagged, children);
      |cols| == |roots| &&
      forall i :: 0 <= i < |cols| ==> cols[i].category == roots[i].category && cols[i].childrenCount == roots[i].childrenCount
  {
  }

  /** `allItems` holds every stored item, in `sort_order`, each with its tags. */
  lemma AllItemsComplete(items: map<int, Item>, rows: map<int, Tag>, pairs: set<ItemTag>)
    ensures var tagged := Attached(rows, pairs, AllItems(items));
      && (forall k :: k in items ==> exists i :: 0 <= i < |tagged| && tagged[i].item == items[k])
      && (forall i :: 0 <= i < |tagged| ==> tagged[i].tags == ItemTags(rows, pairs, tagged[i].item.id))
      && (forall i, j :: 0 <= i < j < |tagged| ==> tagged[i].item.sortOrder <= tagged[j].item.sortOrder)
  {
    var tagged := Attached(rows, pairs, AllItems(items));
    forall k | k in items ensures exists i :: 0 <= i < |tagged| && tagged[i].item == items[k] {
      AllItemsHas(items, rows, pairs, k);
    }
    var all := AllItems(items);
    forall i | 0 <= i < |tagged| ensures tagged[i].tags == ItemTags(rows, pairs, tagged[i].item.id) {
      assert tagged[i] == TaggedItem(all[i], ItemTags(rows, pairs, all[i].id));
    }
    AllItemsSorted(items, rows, pairs);
    forall i, j | 0 <= i < j < |tagged| ensures tagged[i].item.sortOrder <= tagged[j].item.sortOrder {
      assert TaggedOrder(tagged[i]) <= TaggedOrder(tagged[j]);
    }
  }

  lemma AllItemsHas(items: map<int, Item>, rows: map<int, Tag>, pairs: set<ItemTag>, k: int)
    requires k in items
    ensures var tagged := Attached(rows, pairs, AllItems(items));
      exists i :: 0 <= i < |tagged| && tagged[i].item == items[k]
  {
    var all := AllItems(items);
    var tagged := Attached(rows, pairs, all);
    SelectComplete(items, AnyItem, ItemOrder, k);
    var i :| 0 <= i < |all| && all[i] == items[k];
    assert |tagged| == |all|;
    assert tagged[i] == TaggedItem(all[i], ItemTags(rows, pairs, all[i].id));
  }

  lemma AllItemsSorted(items: map<int, Item>, rows: map<int, Tag>, pairs: set<ItemTag>)
    ensures Collections.SortedByKey(Attached(rows, pairs, AllItems(items)), TaggedOrder)
  {
    var all := AllItems(items);
    var tagged := Attached(rows, pairs, all);
    SelectSorted(items, AnyItem, ItemOrder);
    forall i, j | 0 <= i < j < |tagged| ensures tagged[i].item.sortOrder <= tagged[j].item.sortOrder {
      assert tagged[i].item == all[i] && tagged[j].item == all[j];
    }
  }

  /** The items of a column belong to its category and are stored items. */
  lemma ColumnItemsSound(items: map<int, Item>, rows: map<int, Tag>, pairs: set<ItemTag>, root: CategoryRow,
                         children: seq<Category>, i: int)
    requires 0 <= i < |ColumnOf(root, Attached(rows, pairs, AllItems(items)), children).items|
    ensures var t := ColumnOf(root, Attached(rows, pairs, AllItems(items)), children).items[i];
      t.item.categoryId == root.category.id && exists k :: k in items && items[k] == t.item
  {
    var tagged := Attached(rows, pairs, AllItems(items));
    var t := ColumnOf(root, tagged, children).items[i];
    assert t in tagged;
    var j :| 0 <= j < |tagged| && tagged[j] == t;
    SelectSound(items, AnyItem, ItemOrder, j);
  }

  /** Every stored item of a column's category is among the column's items. */
  lemma ColumnItemsComplete(items: map<int, Item>, rows: map<int, Tag>, pairs: set<ItemTag>, root: CategoryRow,
                            children: seq<Category>, k: int)
    requires k in items && items[k].categoryId == root.category.id
    ensures var col := ColumnOf(root, Attached(rows, pairs, AllItems(items)), children);
      exists i :: 0 <= i < |col.items| && col.items[i].item == items[k]
  {
    var tagged := Attached(rows, pairs, AllItems(items));
    var col := ColumnOf(root, tagged, children);
    var p := InCategory(root.category.id);
    assert col.items == Collections.Filter(tagged, p);
    AllItemsHas(items, rows, pairs, k);
    var j :| 0 <= j < |tagged| && tagged[j].item == items[k];
    assert p(tagged[j]);
    assert tagged[j] in col.items;
    var i :| 0 <= i < |col.items| && col.items[i] == tagged[j];
  }

  /** A column's items are in `sort_order`. */
  lemma ColumnItemsSorted(items: map<int, Item>, rows: map<int, Tag>, pairs: set<ItemTag>, root: CategoryRow,
                          children: seq<Category>)
    ensures Collections.SortedByKey(ColumnOf(root, Attached(rows, pairs, AllItems(items)), children).items,
                                    TaggedOrder)
  {
    var tagged := Attached(rows, pairs, AllItems(items));
    var key := TaggedOrder;
    AllItemsSorted(items, rows, pairs);
    Collections.FilterSortedByKey(tagged, InCategory(root.category.id), key);
  }

  /** A child listed in a column has that column's category as its parent, and is stored. */
  lemma ColumnChildSound(cats: map<int, Category>, tagged: seq<TaggedItem>, i: int, c: Category)
    requires forall k :: k in cats ==> cats[k].id == k
    requires 0 <= i < |Roots(cats)|
    requires c in ColumnOf(Roots(cats)[i], tagged, ChildCategories(cats, RootIds(Roots(cats)))).children
    ensures c.parentId == Some(Roots(cats)[i].category.id) && c.id in cats && cats[c.id] == c
  {
    var roots := Roots(cats);
    var ids := RootIds(roots);
    var children := ChildCategories(cats, ids);
    var col := ColumnOf(roots[i], tagged, children);
    assert col.children == Collections.Filter(children, ChildOf(roots[i].category.id));
    var l :| 0 <= l < |col.children| && col.children[l] == c;
    assert ChildOf(roots[i].category.id)(c) && c in children;
    assert ids != [];
    var j :| 0 <= j < |children| && children[j] == c;
    SelectSound(cats, InRoots(ids), CategoryOrder, j);
    var k :| k in cats && cats[k] == c;
  }

  /** Every stored category whose parent is a column's category is among that column's children. */
  lemma ColumnChildComplete(cats: map<int, Category>, tagged: seq<TaggedItem>, i: int, k: int)
    requires 0 <= i < |Roots(cats)|
    requires k in cats && cats[k].parentId == Some(Roots(cats)[i].category.id)
    ensures cats[k] in ColumnOf(Roots(cats)[i], tagged, ChildCategories(cats, RootIds(Roots(cats)))).children
  {
    var roots := Roots(cats);
    var ids := RootIds(roots);
    assert ids[i] == roots[i].category.id;
    SelectComplete(cats, InRoots(ids), CategoryOrder, k);
    assert cats[k] in ChildCategories(cats, ids);
  }

  /** The tag list is ordered by name and holds every stored tag. */
  lemma TagsOrdered(rows: map<int, Tag>)
    ensures Collections.SortedByText(TagsByName(rows), TagName)
    ensures forall k :: k in rows ==> rows[k] in TagsByName(rows)
    ensures forall i :: 0 <= i < |TagsByName(rows)| ==> exists k :: k in rows && rows[k] == TagsByName(rows)[i]
  {
    var sorted := TagsByName(rows);
    forall k | k in rows ensures rows[k] in sorted {
      TagListed(rows, k);
    }
    forall i | 0 <= i < |sorted| ensures exists k :: k in rows && rows[k] == sorted[i] {
      TagStored(rows, i);
    }
  }

  lemma TagListed(rows: map<int, Tag>, k: int)
    requires k in rows
    ensures rows[k] in TagsByName(rows)
  {
    var scan := RowsInIdOrder(rows);
    RowInScan(rows, k);
    assert rows[k] in multiset(scan);
    assert multiset(TagsByName(rows)) == multiset(scan);
  }

  lemma TagStored(rows: map<int, Tag>, i: int)
    requires 0 <= i < |TagsByName(rows)|
    ensures exists k :: k in rows && rows[k] == TagsByName(rows)[i]
  {
    var scan := RowsInIdOrder(rows);
    var sorted := TagsByName(rows);
    assert multiset(sorted) == multiset(scan);
    assert sorted[i] in multiset(scan);
    var j :| 0 <= j < |scan| && scan[j] == sorted[i];
    var ids := Collections.SortedIds(rows.Keys);
    assert scan[j] == rows[ids[j]];
  }

  /** Looking tags up by id and dropping unknown ids reads the rows of the known ids. */
  lemma {:induction false} LookupIsRowsAt(rows: map<int, Tag>, ids: seq<int>)
    ensures var known := Collections.Filter(ids, KnownIn(rows));
      (forall i :: 0 <= i < |known| ==> known[i] in rows) && LookupTags(rows, ids) == RowsAt(rows, known)
  {
    if ids != [] {
      LookupIsRowsAt(rows, ids[1..]);
    }
  }

  /**
    The page attaches to an item the same tags as `GET /api/items`: the
    tag rows it is paired with, each once, in ascending id.
   */
  lemma ItemTagsAgree(rows: map<int, Tag>, pairs: set<ItemTag>, itemId: int)
    ensures ItemTags(rows, pairs, itemId) == ItemsApi.TagsForItem(rows, pairs, itemId)
  {
    var paired := TagIdsOf(pairs, itemId);
    var ids := Collections.SortedIds(paired);
    LookupIsRowsAt(rows, ids);
    KnownAreJoined(rows, paired);
  }

  /** Dropping the ids without a row from the sorted ids is the sorted join with the tag table. */
  lemma KnownAreJoined(rows: map<int, Tag>, paired: set<int>)
    ensures Collections.Filter(Collections.SortedIds(paired), KnownIn(rows)) == Collections.SortedIds(paired * rows.Keys)
  {
    var ids := Collections.SortedIds(paired);
    var known := Collections.Filter(ids, KnownIn(rows));
    var expected := Collections.SortedIds(paired * rows.Keys);
    assert Collections.Increasing(ids);
    Collections.FilterIncreasing(ids, KnownIn(rows));
    forall x ensures x in known <==> x in expected {
      if x in paired * rows.Keys { assert x in ids; }
    }
    Collections.SortedUnique(known, expected);
  }
}
