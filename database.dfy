/**
  One SQLite database handle as explicit state. Each table the handlers touch
  is a field: `categories` and `items` map a row id to its row, `item_tags`
  is the set of its (item, tag) pairs, `meta` maps a key to its value. A
  table named `tags` is optional: a space database has one until its tags
  are migrated to the global database, which keeps its own. `columns` and
  `indexes` record the schema, so that the additive migrations can be
  stated. The `last…Id` fields are AUTOINCREMENT's `sqlite_sequence`
  entries: the largest id a table has ever handed out.
 */
module Database {
  import opened Wrappers
  import opened Types
  import Collections

  /** A `tags` table: its rows and its AUTOINCREMENT counter. */
  datatype TagTable = TagTable(rows: map<int, Tag>, lastId: int)

  /** Every row is stored under its own id, and no id exceeds the counter. */
  ghost predicate TagTableValid(t: TagTable) {
    forall k :: k in t.rows ==> t.rows[k].id == k && k <= t.lastId
  }

  /** The `UNIQUE` constraint on the global table's `name` column. */
  ghost predicate UniqueNames(t: TagTable) {
    forall j, k :: j in t.rows && k in t.rows && t.rows[j].name == t.rows[k].name ==> j == k
  }

  predicate HasName(t: TagTable, name: string) {
    exists k :: k in t.rows && t.rows[k].name == name
  }

  /** The rows of a table in the order a full scan yields them: ascending id. */
  function RowsInIdOrder<R>(m: map<int, R>): seq<R> {
    RowsAt(m, Collections.SortedIds(m.Keys))
  }

  /** Every row of the table appears in a full scan. */
  lemma RowInScan<R>(m: map<int, R>, k: int)
    requires k in m
    ensures |RowsInIdOrder(m)| == |m|
    ensures exists i :: 0 <= i < |m| && RowsInIdOrder(m)[i] == m[k]
  {
    var ids := Collections.SortedIds(m.Keys);
    var i :| 0 <= i < |ids| && ids[i] == k;
    assert RowsInIdOrder(m)[i] == m[k];
  }

  function RowsAt<R>(m: map<int, R>, ids: seq<int>): (r: seq<R>)
    requires forall i :: 0 <= i < |ids| ==> ids[i] in m
    ensures |r| == |ids| && forall i :: 0 <= i < |ids| ==> r[i] == m[ids[i]]
  {
    if ids == [] then [] else [m[ids[0]]] + RowsAt(m, ids[1..])
  }

  /** `SELECT * FROM t WHERE p ORDER BY key`: a scan in id order, filtered, then stably sorted. */
  function Select<R>(m: map<int, R>, p: R -> bool, key: R -> int): seq<R> {
    Collections.SortByKey(Collections.Filter(RowsInIdOrder(m), p), key)
  }

  /** The selected rows come out ordered by the key. */
  lemma SelectSorted<R>(m: map<int, R>, p: R -> bool, key: R -> int)
    ensures Collections.SortedByKey(Select(m, p, key), key)
  {
  }

  /** A selected row is a stored row satisfying the condition. */
  lemma SelectSound<R>(m: map<int, R>, p: R -> bool, key: R -> int, i: int)
    requires 0 <= i < |Select(m, p, key)|
    ensures exists k :: k in m && m[k] == Select(m, p, key)[i] && p(m[k])
  {
    var scan := RowsInIdOrder(m);
    var rows := Collections.Filter(scan, p);
    var x := Select(m, p, key)[i];
    assert x in multiset(rows);
    var j :| 0 <= j < |rows| && rows[j] == x;
    var l :| 0 <= l < |scan| && scan[l] == x;
    var ids := Collections.SortedIds(m.Keys);
    assert scan[l] == m[ids[l]];
  }

  /** Every stored row satisfying the condition is selected, as often as it is stored. */
  lemma SelectComplete<R>(m: map<int, R>, p: R -> bool, key: R -> int, k: int)
    requires k in m && p(m[k])
    ensures exists i :: 0 <= i < |Select(m, p, key)| && Select(m, p, key)[i] == m[k]
  {
    var scan := RowsInIdOrder(m);
    var rows := Collections.Filter(scan, p);
    RowInScan(m, k);
    var j :| 0 <= j < |scan| && scan[j] == m[k];
    assert m[k] in rows;
    var sorted := Select(m, p, key);
    assert m[k] in multiset(sorted);
    var i :| 0 <= i < |sorted| && sorted[i] == m[k];
  }

  /**
    `COALESCE(MAX(sort_order), 0) + 1` over the orders of a sibling group:
    1 for an empty group, otherwise one past the largest, so the new row
    sorts after every sibling.
   */
  function NextSortOrder(orders: set<int>): (r: int)
    ensures orders == {} ==> r == 1
    ensures forall x :: x in orders ==> x < r
    ensures orders != {} ==> r - 1 in orders
  {
    Collections.MaxOrZero(orders) + 1
  }

  /** The `sort_order` values of the items of one category. */
  function ItemOrders(items: map<int, Item>, categoryId: int): set<int> {
    set k | k in items && items[k].categoryId == categoryId :: items[k].sortOrder
  }

  /** The tag ids `item_tags` pairs with `itemId`. */
  function TagIdsOf(pairs: set<ItemTag>, itemId: int): set<int> {
    set p | p in pairs && p.itemId == itemId :: p.tagId
  }

  /** A non-empty set of `item_tags` pairs has a first pair to visit. */
  lemma NonEmptyPairs(s: set<ItemTag>)
    requires s != {}
    ensures exists p :: p in s
  {
    if forall p :: p !in s { assert false; }
  }

  class Db {
    var categories: map<int, Category>
    var items: map<int, Item>
    var itemTags: set<ItemTag>
    var tags: Option<TagTable>
    var meta: map<string, string>
    /** Table name to the names of its columns, for the tables `initSchema` creates. */
    var columns: map<string, set<string>>
    var indexes: set<string>
    var lastCategoryId: int
    var lastItemId: int

    ghost predicate Valid()
      reads this
    {
      && (forall k :: k in categories ==> categories[k].id == k && k <= lastCategoryId)
      && (forall k :: k in items ==> items[k].id == k && k <= lastItemId)
      && (tags.Some? ==> TagTableValid(tags.value))
    }

    /** A database file that has just been created: it holds no table yet. */
    constructor ()
      ensures Valid()
      ensures categories == map[] && items == map[] && itemTags == {} && tags == None
      ensures meta == map[] && columns == map[] && indexes == {}
      ensures lastCategoryId == 0 && lastItemId == 0
    {
      categories := map[];
      items := map[];
      itemTags := {};
      tags := None;
      meta := map[];
      columns := map[];
      indexes := {};
      lastCategoryId := 0;
      lastItemId := 0;
    }
  }
}
