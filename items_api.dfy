/**
  `GET /api/items` and `POST /api/items`: filtering items with their tags
  attached, and creating a link or note item, optionally titled from the
  fetched page, together with its tag pairs.
 */
module ItemsApi {
  import opened Wrappers
  import opened Types
  import opened Database
  import Text
  import Collections

  const Required := "category_id, type, and title are required"
  /** The message SQLite gives when a statement names a table the database lacks. */
  const NoTagsTable := "no such table: tags"
  /** SQLite's messages for the constraint failures the item insert can raise. */
  const TypeCheckFailed := "CHECK constraint failed: type IN ('link', 'note', 'document')"
  const ForeignKeyFailed := "FOREIGN KEY constraint failed"
  const PairNotUnique := "UNIQUE constraint failed: item_tags.item_id, item_tags.tag_id"

  /** The values the `type` column's `CHECK` admits. */
  const ItemTypes: set<string> := {"link", "note", "document"}

  // ---------------------------------------------------------------------------
  // Tags of an item

  /**
    `getTagsForItem`: the tag rows joined to the item through `item_tags`,
    in ascending tag id (the order of the pair table's primary key); a pair
    whose tag has no row joins nothing.
   */
  function TagsForItem(rows: map<int, Tag>, pairs: set<ItemTag>, itemId: int): seq<Tag> {
    var ids := Collections.SortedIds(TagIdsOf(pairs, itemId) * rows.Keys);
    assert forall i :: 0 <= i < |ids| ==> ids[i] in rows by {
      forall i | 0 <= i < |ids| ensures ids[i] in rows {
        assert ids[i] in ids;
      }
    }
    RowsAt(rows, ids)
  }

  /**
    The tags of an item are exactly the stored tags it is paired with, each
    once, in ascending id.
   */
  lemma TagsForItemSpec(rows: map<int, Tag>, pairs: set<ItemTag>, itemId: int)
    requires forall k :: k in rows ==> rows[k].id == k
    ensures var r := TagsForItem(rows, pairs, itemId);
      && (forall i :: 0 <= i < |r| ==> r[i].id in rows && rows[r[i].id] == r[i] && ItemTag(itemId, r[i].id) in pairs)
      && (forall k :: k in rows && ItemTag(itemId, k) in pairs ==> rows[k] in r)
      && (forall i, j :: 0 <= i < j < |r| ==> r[i].id < r[j].id)
  {
    var ids := Collections.SortedIds(TagIdsOf(pairs, itemId) * rows.Keys);
    var r := TagsForItem(rows, pairs, itemId);
    assert |r| == |ids|;
    forall i | 0 <= i < |r|
      ensures r[i].id == ids[i] && ids[i] in rows && rows[ids[i]] == r[i] && ItemTag(itemId, ids[i]) in pairs
    {
      TagAt(rows, pairs, itemId, i);
    }
    forall k | k in rows && ItemTag(itemId, k) in pairs ensures rows[k] in r {
      TagListed(rows, pairs, itemId, k);
    }
  }

  lemma TagAt(rows: map<int, Tag>, pairs: set<ItemTag>, itemId: int, i: int)
    requires forall k :: k in rows ==> rows[k].id == k
    requires 0 <= i < |TagsForItem(rows, pairs, itemId)|
    ensures var ids := Collections.SortedIds(TagIdsOf(pairs, itemId) * rows.Keys);
      var r := TagsForItem(rows, pairs, itemId);
      |ids| == |r| && r[i].id == ids[i] && ids[i] in rows && rows[ids[i]] == r[i] && ItemTag(itemId, ids[i]) in pairs
  {
    var ids := Collections.SortedIds(TagIdsOf(pairs, itemId) * rows.Keys);
    assert ids[i] in ids;
    assert ids[i] in TagIdsOf(pairs, itemId);
    var p :| p in pairs && p.itemId == itemId && p.tagId == ids[i];
  }

  lemma TagListed(rows: map<int, Tag>, pairs: set<ItemTag>, itemId: int, k: int)
    requires k in rows && ItemTag(itemId, k) in pairs
    ensures rows[k] in TagsForItem(rows, pairs, itemId)
  {
    var ids := Collections.SortedIds(TagIdsOf(pairs, itemId) * rows.Keys);
    assert k in TagIdsOf(pairs, itemId);
    assert k in ids;
    var i :| 0 <= i < |ids| && ids[i] == k;
    assert TagsForItem(rows, pairs, itemId)[i] == rows[k];
  }

  /** `attachTags`: each item with its tag list. */
  function AttachTags(rows: map<int, Tag>, pairs: set<ItemTag>, items: seq<Item>): (r: seq<TaggedItem>)
    ensures |r| == |items|
    ensures forall i :: 0 <= i < |r| ==> r[i].item == items[i] && r[i].tags == TagsForItem(rows, pairs, items[i].id)
  {
    Collections.Map(items, (it: Item) => TaggedItem(it, TagsForItem(rows, pairs, it.id)))
  }

  // ---------------------------------------------------------------------------
  // GET

  /** The query parameters `category_id`, `type` and `search`; None when absent. */
  datatype ItemQuery = ItemQuery(categoryId: Option<string>, itemType: Option<string>, search: Option<string>)

  /**
    The `WHERE` clause built from the non-empty parameters: `category_id`
    through `Number()` (a value that is not a number matches nothing), the
    exact `type`, and `search` as a case-insensitive substring of the title,
    the description or the content.
   */
  predicate Matches(q: ItemQuery, it: Item) {
    && (Text.Truthy(q.categoryId) ==>
          var n := Text.JsNumber(q.categoryId.value); n.Some? && it.categoryId == n.value)
    && (Text.Truthy(q.itemType) ==> it.itemType == q.itemType.value)
    && (Text.Truthy(q.search) ==>
          var s := q.search.value;
          Text.LikeNullable(Some(it.title), s) || Text.LikeNullable(it.description, s)
          || Text.LikeNullable(it.content, s))
  }

  /** The `WHERE` clause as a row condition. */
  function MatchesQuery(q: ItemQuery): Item -> bool {
    (it: Item) => Matches(q, it)
  }

  function Query(items: map<int, Item>, q: ItemQuery): seq<Item> {
    Select(items, MatchesQuery(q), ItemOrder)
  }

  /**
    `GET`: the matching items ordered by `sort_order`, with tags attached.
    Attaching reads the `tags` table, so a database without one fails with
    500 as soon as there is an item to attach tags to.
   */
  function List(items: map<int, Item>, pairs: set<ItemTag>, tags: Option<TagTable>, q: ItemQuery)
    : Response<seq<TaggedItem>>
  {
    var rows := Query(items, q);
    if rows == [] then Ok(200, [])
    else if tags.None? then Error(500, NoTagsTable)
    else Ok(200, AttachTags(tags.value.rows, pairs, rows))
  }

  /**
    The query returns stored items that satisfy every supplied filter, in
    `sort_order`, and every stored item that satisfies them.
   */
  lemma QuerySpec(items: map<int, Item>, q: ItemQuery)
    requires forall k :: k in items ==> items[k].id == k
    ensures var r := Query(items, q);
      && (forall i, j :: 0 <= i < j < |r| ==> r[i].sortOrder <= r[j].sortOrder)
      && (forall i :: 0 <= i < |r| ==> r[i].id in items && items[r[i].id] == r[i] && Matches(q, r[i]))
      && (forall k :: k in items && Matches(q, items[k]) ==> exists i :: 0 <= i < |r| && r[i] == items[k])
  {
    var p := MatchesQuery(q);
    var key := ItemOrder;
    var rows := Query(items, q);
    SelectSorted(items, p, key);
    forall i | 0 <= i < |rows| ensures rows[i].id in items && items[rows[i].id] == rows[i] && Matches(q, rows[i]) {
      SelectSound(items, p, key, i);
    }
    forall k | k in items && Matches(q, items[k]) ensures exists i :: 0 <= i < |rows| && rows[i] == items[k] {
      SelectComplete(items, p, key, k);
    }
  }

  // ---------------------------------------------------------------------------
  // POST

  /** The JSON body of `POST`; None stands for a missing or null field. */
  datatype NewItem = NewItem(
    categoryId: Option<int>,
    itemType: Option<string>,
    title: Option<string>,
    content: Option<string>,
    description: Option<string>,
    tags: Option<seq<int>>,
    fetchTitle: bool)

  /** What fetching the linked page yields; each part may be missing. */
  datatype PageMeta = PageMeta(title: Option<string>, description: Option<string>)

  /** `category_id`, `type` and `title` are all truthy (0 and "" are not). */
  predicate HasRequired(req: NewItem) {
    req.categoryId.Some? && req.categoryId.value != 0 && Text.Truthy(req.itemType) && Text.Truthy(req.title)
  }

  /** The page is fetched only for a link with a URL whose creator asked for it. */
  predicate FetchesPage(req: NewItem) {
    req.fetchTitle && req.itemType == Some("link") && Text.Truthy(req.content)
  }

  /** The stored title: the fetched one when the page is fetched and has one, else the given one. */
  function Title(req: NewItem, meta: PageMeta): (t: string)
    requires Text.Truthy(req.title)
    ensures t != ""
    ensures t != req.title.value ==> FetchesPage(req) && meta.title == Some(t)
    ensures FetchesPage(req) && Text.Truthy(meta.title) ==> t == meta.title.value
  {
    if FetchesPage(req) && Text.Truthy(meta.title) then meta.title.value else req.title.value
  }

  /** The stored description: the given one, else the fetched one when the page is fetched; empty is NULL. */
  function Description(req: NewItem, meta: PageMeta): (d: Option<string>)
    ensures Text.Truthy(req.description) ==> d == req.description
    ensures !Text.Truthy(req.description) && FetchesPage(req) ==> d == Text.OrNull(meta.description)
    ensures !Text.Truthy(req.description) && !FetchesPage(req) ==> d == None
  {
    Text.OrNull(
      if FetchesPage(req) && Text.Truthy(meta.description) && !Text.Truthy(req.description)
      then meta.description else req.description)
  }

  /** The tag ids to pair with the new item: an absent or non-array `tags` pairs none. */
  function TagList(req: NewItem): seq<int> {
    if req.tags.Some? then req.tags.value else []
  }

  /** Each `INSERT INTO item_tags` succeeds: no id repeats and no pair exists yet. */
  predicate PairsInsertable(existing: set<ItemTag>, itemId: int, tagIds: seq<int>) {
    Collections.Distinct(tagIds) && forall i :: 0 <= i < |tagIds| ==> ItemTag(itemId, tagIds[i]) !in existing
  }

  function NewPairs(itemId: int, tagIds: seq<int>): set<ItemTag> {
    set i | 0 <= i < |tagIds| :: ItemTag(itemId, tagIds[i])
  }

  /** The three tables `POST` writes. */
  datatype ItemTables = ItemTables(items: map<int, Item>, itemTags: set<ItemTag>, lastId: int)

  datatype Outcome = Outcome(tables: ItemTables, resp: Response<TaggedItem>)

  /** The row `POST` inserts for a request that has the required fields. */
  function NewRow(t: ItemTables, req: NewItem, meta: PageMeta, now: string): Item
    requires HasRequired(req)
  {
    var cid := req.categoryId.value;
    Item(t.lastId + 1, cid, req.itemType.value, Title(req, meta), Text.OrNull(req.content),
         None, None, None, None, Description(req, meta),
         NextSortOrder(ItemOrders(t.items, cid)), 0, now, now)
  }

  /** The constraint, if any, that the insert transaction violates, with SQLite's message. */
  function InsertFailure(t: ItemTables, cats: map<int, Category>, req: NewItem): Option<string>
    requires HasRequired(req)
  {
    if req.itemType.value !in ItemTypes then Some(TypeCheckFailed)
    else if req.categoryId.value !in cats then Some(ForeignKeyFailed)
    else if !PairsInsertable(t.itemTags, t.lastId + 1, TagList(req)) then Some(PairNotUnique)
    else None
  }

  /** The tables once the transaction has committed `item` and its pairs. */
  function Inserted(t: ItemTables, item: Item, tagIds: seq<int>): ItemTables {
    ItemTables(t.items[item.id := item], t.itemTags + NewPairs(item.id, tagIds), item.id)
  }

  /** Reading the new item back with `getTagsForItem`, which needs the `tags` table. */
  function ReadBack(tags: Option<TagTable>, pairs: set<ItemTag>, item: Item): Response<TaggedItem> {
    if tags.None? then Error(500, NoTagsTable)
    else Ok(201, TaggedItem(item, TagsForItem(tags.value.rows, pairs, item.id)))
  }

  /**
    `POST`, as a function of the tables before it. The insert of the row and
    of its pairs is one transaction: a failing constraint leaves every table
    as it was. The item is then read back with its tags.
   */
  function Create(t: ItemTables, cats: map<int, Category>, tags: Option<TagTable>,
                  req: NewItem, meta: PageMeta, now: string): Outcome
  {
    if !HasRequired(req) then Outcome(t, Error(400, Required))
    else
      match InsertFailure(t, cats, req)
      case Some(message) => Outcome(t, Error(500, message))
      case None =>
        var item := NewRow(t, req, meta, now);
        var after := Inserted(t, item, TagList(req));
        Outcome(after, ReadBack(tags, after.itemTags, item))
  }

  /**
    A request missing a required field, or failing a constraint, writes
    nothing; only the read back of the tags can fail after the write.
   */
  lemma CreateRejects(t: ItemTables, cats: map<int, Category>, tags: Option<TagTable>,
                      req: NewItem, meta: PageMeta, now: string)
    ensures var o := Create(t, cats, tags, req, meta, now);
      && (!HasRequired(req) ==> o.tables == t && o.resp == Error(400, Required))
      && (o.resp.Error? && o.resp.message != NoTagsTable ==> o.tables == t)
      && (o.tables != t ==> HasRequired(req) && InsertFailure(t, cats, req).None?)
  {
  }

  /** The new row sorts after every item already in its category, and is first in an empty one. */
  lemma NewRowLast(t: ItemTables, req: NewItem, meta: PageMeta, now: string)
    requires HasRequired(req)
    ensures var row := NewRow(t, req, meta, now);
      && row.categoryId == req.categoryId.value
      && (forall k :: k in t.items && t.items[k].categoryId == row.categoryId ==>
            t.items[k].sortOrder < row.sortOrder)
      && ((forall k :: k in t.items ==> t.items[k].categoryId != row.categoryId) ==> row.sortOrder == 1)
  {
    var row := NewRow(t, req, meta, now);
    var cid := req.categoryId.value;
    forall k | k in t.items && t.items[k].categoryId == cid
      ensures t.items[k].sortOrder < row.sortOrder
    {
      assert t.items[k].sortOrder in ItemOrders(t.items, cid);
    }
    if forall k :: k in t.items ==> t.items[k].categoryId != cid {
      assert ItemOrders(t.items, cid) == {};
    }
  }

  /**
    When the request is complete and no constraint fails, `POST` adds
    exactly one row, under a fresh id, and one pair per supplied tag id, and
    nothing else.
   */
  lemma CreateWrites(t: ItemTables, cats: map<int, Category>, tags: Option<TagTable>,
                     req: NewItem, meta: PageMeta, now: string)
    requires forall k :: k in t.items ==> t.items[k].id == k && k <= t.lastId
    requires HasRequired(req) && InsertFailure(t, cats, req).None?
    ensures var o := Create(t, cats, tags, req, meta, now);
      var id := t.lastId + 1;
      && req.itemType.value in ItemTypes && req.categoryId.value in cats
      && PairsInsertable(t.itemTags, id, TagList(req))
      && id !in t.items
      && o.tables.items == t.items[id := NewRow(t, req, meta, now)]
      && o.tables.itemTags == t.itemTags + NewPairs(id, TagList(req))
      && o.tables.lastId == id
  {
    var row := NewRow(t, req, meta, now);
    var after := Inserted(t, row, TagList(req));
    assert Create(t, cats, tags, req, meta, now) == Outcome(after, ReadBack(tags, after.itemTags, row));
  }

  /**
    The returned item carries exactly the supplied tags that exist in the
    `tags` table, in ascending id, when no earlier pair names the new id.
   */
  lemma CreatedTags(t: ItemTables, cats: map<int, Category>, tags: Option<TagTable>,
                    req: NewItem, meta: PageMeta, now: string)
    requires tags.Some? && TagTableValid(tags.value)
    requires forall p :: p in t.itemTags ==> p.itemId <= t.lastId
    ensures var o := Create(t, cats, tags, req, meta, now);
      o.resp.Ok? ==>
        var r := o.resp.body.tags;
        && (forall i :: 0 <= i < |r| ==> r[i] in tags.value.rows.Values && r[i].id in TagList(req))
        && (forall k :: k in tags.value.rows && k in TagList(req) ==> tags.value.rows[k] in r)
        && (forall i, j :: 0 <= i < j < |r| ==> r[i].id < r[j].id)
  {
    var o := Create(t, cats, tags, req, meta, now);
    if o.resp.Ok? {
      var id := t.lastId + 1;
      var rows := tags.value.rows;
      var pairs := o.tables.itemTags;
      TagsForItemSpec(rows, pairs, id);
      var r := o.resp.body.tags;
      forall i | 0 <= i < |r| ensures r[i] in rows.Values && r[i].id in TagList(req) {
        assert ItemTag(id, r[i].id) in pairs;
        assert ItemTag(id, r[i].id) !in t.itemTags;
        var j :| 0 <= j < |TagList(req)| && ItemTag(id, TagList(req)[j]) == ItemTag(id, r[i].id);
      }
      forall k | k in rows && k in TagList(req) ensures rows[k] in r {
        var j :| 0 <= j < |TagList(req)| && TagList(req)[j] == k;
        assert ItemTag(id, k) in NewPairs(id, TagList(req));
      }
    }
  }

  /**
    The pair inserts of the transaction, in order. On success the table
    holds exactly the new pairs as well; on failure the caller rolls back.
   */
  method InsertPairs(db: Db, itemId: int, tagIds: seq<int>) returns (ok: bool)
    modifies db`itemTags
    ensures ok == PairsInsertable(old(db.itemTags), itemId, tagIds)
    ensures ok ==> db.itemTags == old(db.itemTags) + NewPairs(itemId, tagIds)
  {
    ghost var pairs0 := db.itemTags;
    for i := 0 to |tagIds|
      invariant db.itemTags == pairs0 + NewPairs(itemId, tagIds[..i])
      invariant PairsInsertable(pairs0, itemId, tagIds[..i])
    {
      var pair := ItemTag(itemId, tagIds[i]);
      if pair in db.itemTags {
        assert !PairsInsertable(pairs0, itemId, tagIds) by {
          if pair !in pairs0 {
            var j :| 0 <= j < i && ItemTag(itemId, tagIds[..i][j]) == pair;
            assert tagIds[j] == tagIds[i];
          }
        }
        return false;
      }
      assert NewPairs(itemId, tagIds[..i + 1]) == NewPairs(itemId, tagIds[..i]) + {pair} by {
        assert tagIds[..i + 1][i] == tagIds[i];
        forall x | x in NewPairs(itemId, tagIds[..i + 1]) ensures x in NewPairs(itemId, tagIds[..i]) + {pair} {
          var j :| 0 <= j < i + 1 && x == ItemTag(itemId, tagIds[..i + 1][j]);
          if j < i { assert tagIds[..i + 1][j] == tagIds[..i][j]; }
        }
        forall x | x in NewPairs(itemId, tagIds[..i]) ensures x in NewPairs(itemId, tagIds[..i + 1]) {
          var j :| 0 <= j < i && x == ItemTag(itemId, tagIds[..i][j]);
          assert tagIds[..i + 1][j] == tagIds[..i][j];
        }
      }
      db.itemTags := db.itemTags + {pair};
      assert PairsInsertable(pairs0, itemId, tagIds[..i + 1]) by {
        var pre := tagIds[..i + 1];
        forall a, b | 0 <= a < b < i + 1 ensures pre[a] != pre[b] {
          if b == i {
            assert ItemTag(itemId, tagIds[..i][a]) in NewPairs(itemId, tagIds[..i]);
          } else {
            assert tagIds[..i][a] == pre[a] && tagIds[..i][b] == pre[b];
          }
        }
      }
    }
    assert tagIds[..|tagIds|] == tagIds;
    ok := true;
  }

  /**
    `POST` on a database handle: validation, the optional page title and
    description, the next `sort_order`, the insert transaction, and the read
    back with tags; it does what `Create` describes. `meta` is what
    fetching the linked page returns and is consulted only when the page
    would be fetched; `now` is `datetime('now')`.
   */
  method Post(db: Db, req: NewItem, meta: PageMeta, now: string) returns (resp: Response<TaggedItem>)
    requires db.Valid()
    modifies db`items, db`itemTags, db`lastItemId
    ensures db.Valid()
    ensures Outcome(ItemTables(db.items, db.itemTags, db.lastItemId), resp)
      == Create(ItemTables(old(db.items), old(db.itemTags), old(db.lastItemId)), db.categories, db.tags, req, meta, now)
  {
    ghost var t := ItemTables(db.items, db.itemTags, db.lastItemId);
    if req.categoryId.None? || req.categoryId.value == 0 || !Text.Truthy(req.itemType) || !Text.Truthy(req.title) {
      return Error(400, Required);
    }
    var title := req.title.value;
    var desc := req.description;
    if req.fetchTitle && req.itemType.value == "link" && Text.Truthy(req.content) {
      if Text.Truthy(meta.title) {
        title := meta.title.value;
      }
      if Text.Truthy(meta.description) && !Text.Truthy(desc) {
        desc := meta.description;
      }
    }
    var categoryId := req.categoryId.value;
    var sortOrder := NextSortOrder(ItemOrders(db.items, categoryId));

    // The transaction.
    if req.itemType.value !in ItemTypes {
      return Error(500, TypeCheckFailed);
    }
    if categoryId !in db.categories {
      return Error(500, ForeignKeyFailed);
    }
    var itemId := db.lastItemId + 1;
    var item := Item(itemId, categoryId, req.itemType.value, title, Text.OrNull(req.content),
                     None, None, None, None, Text.OrNull(desc), sortOrder, 0, now, now);
    assert item == NewRow(t, req, meta, now);
    assert InsertFailure(t, db.categories, req) == if PairsInsertable(t.itemTags, itemId, TagList(req)) then None else Some(PairNotUnique);
    var tagIds := if req.tags.Some? then req.tags.value else [];
    assert tagIds == TagList(req);
    var ok := InsertItem(db, item, tagIds);
    if !ok {
      return Error(500, PairNotUnique);
    }
    resp := ReadBack(db.tags, db.itemTags, item);
  }

  /**
    The statements of the transaction: the row under the next id, then its
    pairs; when a pair insert fails, every table is rolled back.
   */
  method InsertItem(db: Db, item: Item, tagIds: seq<int>) returns (ok: bool)
    requires db.Valid() && item.id == db.lastItemId + 1
    modifies db`items, db`itemTags, db`lastItemId
    ensures db.Valid()
    ensures ok == PairsInsertable(old(db.itemTags), item.id, tagIds)
    ensures ok ==> ItemTables(db.items, db.itemTags, db.lastItemId)
                   == Inserted(ItemTables(old(db.items), old(db.itemTags), old(db.lastItemId)), item, tagIds)
    ensures !ok ==> db.items == old(db.items) && db.itemTags == old(db.itemTags) && db.lastItemId == old(db.lastItemId)
  {
    var items0, pairs0, last0 := db.items, db.itemTags, db.lastItemId;
    db.items := db.items[item.id := item];
    db.lastItemId := item.id;
    ok := InsertPairs(db, item.id, tagIds);
    if !ok {
      db.items, db.itemTags, db.lastItemId := items0, pairs0, last0;
    }
  }
}
