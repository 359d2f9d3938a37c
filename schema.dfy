/**
  Schema creation and evolution for a space database and for the global
  database, the one-time move of per-space tags into the global `tags`
  table, and the `meta` key/value accessors.
 */
module Schema {
  import opened Wrappers
  import opened Types
  import opened Database
  import Text
  import Collections

  // ---------------------------------------------------------------------------
  // meta

  /** The value stored under `key` in a `meta` table, or null. */
  function Lookup(meta: map<string, string>, key: string): (r: Option<string>)
    ensures r.Some? <==> key in meta
  {
    if key in meta then Some(meta[key]) else None
  }

  /** `getMeta`: the value of the `meta` row for `key`, or null when there is none. */
  function GetMeta(db: Db, key: string): (r: Option<string>)
    reads db
    ensures r == None <==> key !in db.meta
    ensures r.Some? ==> r.value == db.meta[key]
  {
    Lookup(db.meta, key)
  }

  /** `setMeta`: `INSERT OR REPLACE` of one `meta` row. */
  method SetMeta(db: Db, key: string, value: string)
    modifies db`meta
    ensures GetMeta(db, key) == Some(value)
    ensures forall k :: k != key ==> GetMeta(db, k) == old(GetMeta(db, k))
    ensures db.meta == old(db.meta)[key := value]
  {
    db.meta := db.meta[key := value];
  }

  // ---------------------------------------------------------------------------
  // initSchema and initGlobalSchema

  const CategoriesColumns: set<string> :=
    {"id", "name", "slug", "color", "sort_order", "created_at", "updated_at"}
  const ItemsColumns: set<string> :=
    {"id", "category_id", "type", "title", "content", "file_path", "file_name", "file_size",
     "mime_type", "description", "favicon_url", "sort_order", "is_pinned", "created_at", "updated_at"}
  const ItemTagsColumns: set<string> := {"item_id", "tag_id"}
  const MetaColumns: set<string> := {"key", "value"}
  const BaseIndexes: set<string> := {"idx_items_category", "idx_items_sort", "idx_categories_sort"}
  const ParentIndexes: set<string> := {"idx_categories_parent", "idx_categories_parent_sort"}

  /** `CREATE TABLE IF NOT EXISTS`: a table that already exists keeps its columns. */
  function CreateIfNotExists(cols: map<string, set<string>>, table: string, create: set<string>)
    : map<string, set<string>>
  {
    if table in cols then cols else cols[table := create]
  }

  /** The four `CREATE TABLE IF NOT EXISTS` statements of `initSchema`. */
  function CreateTables(cols: map<string, set<string>>): map<string, set<string>> {
    var c1 := CreateIfNotExists(cols, "categories", CategoriesColumns);
    var c2 := CreateIfNotExists(c1, "items", ItemsColumns);
    var c3 := CreateIfNotExists(c2, "item_tags", ItemTagsColumns);
    CreateIfNotExists(c3, "meta", MetaColumns)
  }

  /** The `ALTER TABLE … ADD COLUMN` migration, issued only when the probe finds the column missing. */
  function AddColumnIfMissing(cols: map<string, set<string>>, table: string, column: string)
    : map<string, set<string>>
    requires table in cols
  {
    if column in cols[table] then cols else cols[table := cols[table] + {column}]
  }

  /** The columns of every table once `initSchema` has run. */
  function InitColumns(cols: map<string, set<string>>): map<string, set<string>> {
    var created := CreateTables(cols);
    var withFavicon := AddColumnIfMissing(created, "items", "favicon_url");
    AddColumnIfMissing(withFavicon, "categories", "parent_id")
  }

  /** The indexes once `initSchema` has run; the parent indexes come with the `parent_id` column. */
  function InitIndexes(cols: map<string, set<string>>, indexes: set<string>): set<string> {
    var created := CreateTables(cols);
    indexes + BaseIndexes
      + (if "parent_id" in created["categories"] then {} else ParentIndexes)
  }

  /** The `meta` table once `initSchema(db, displayName)` has run. */
  function InitMeta(meta: map<string, string>, displayName: Option<string>): map<string, string> {
    if Text.Truthy(displayName) && !Text.Truthy(Lookup(meta, "display_name"))
    then meta["display_name" := displayName.value]
    else meta
  }

  /**
    The migrations are additive: every table and column that existed is still
    there, the four tables exist with at least their declared columns, and
    `items.favicon_url` and `categories.parent_id` are present.
   */
  lemma InitColumnsAdditive(cols: map<string, set<string>>)
    ensures var r := InitColumns(cols);
      && (forall t :: t in cols ==> t in r && cols[t] <= r[t])
      && "categories" in r && "items" in r && "item_tags" in r && "meta" in r
      && "favicon_url" in r["items"] && "parent_id" in r["categories"]
      && ("categories" !in cols ==> r["categories"] == CategoriesColumns + {"parent_id"})
      && ("items" !in cols ==> r["items"] == ItemsColumns)
      && (forall t :: t in r && t !in cols ==> t in {"categories", "items", "item_tags", "meta"})
  {
    var created := CreateTables(cols);
    CreateTablesSpec(cols);
    var withFavicon := AddColumnIfMissing(created, "items", "favicon_url");
    assert withFavicon.Keys == created.Keys;
    assert withFavicon["categories"] == created["categories"];
    assert forall t :: t in created ==> created[t] <= withFavicon[t];
  }

  /** The `CREATE TABLE IF NOT EXISTS` statements keep every existing table and add the four declared ones. */
  lemma CreateTablesSpec(cols: map<string, set<string>>)
    ensures var c := CreateTables(cols);
      && (forall t :: t in cols ==> t in c && c[t] == cols[t])
      && "categories" in c && "items" in c && "item_tags" in c && "meta" in c
      && ("categories" !in cols ==> c["categories"] == CategoriesColumns)
      && ("items" !in cols ==> c["items"] == ItemsColumns)
      && (forall t :: t in c && t !in cols ==> t in {"categories", "items", "item_tags", "meta"})
  {
  }

  /** A second `initSchema` changes neither columns, indexes nor meta. */
  lemma InitSchemaIdempotent(cols: map<string, set<string>>, indexes: set<string>,
                             meta: map<string, string>, displayName: Option<string>)
    ensures InitColumns(InitColumns(cols)) == InitColumns(cols)
    ensures InitIndexes(InitColumns(cols), InitIndexes(cols, indexes)) == InitIndexes(cols, indexes)
    ensures InitMeta(InitMeta(meta, displayName), displayName) == InitMeta(meta, displayName)
  {
    InitColumnsAdditive(cols);
  }

  /**
    `display_name` is written only when a non-empty name is given and no
    non-empty value is stored; a stored name is never overwritten, and no
    other key changes.
   */
  lemma InitMetaWritesOnce(meta: map<string, string>, displayName: Option<string>)
    ensures var r := InitMeta(meta, displayName);
      && (forall k :: k != "display_name" ==> Lookup(r, k) == Lookup(meta, k))
      && (Text.Truthy(Lookup(meta, "display_name")) ==> r == meta)
      && (!Text.Truthy(displayName) ==> r == meta)
      && ((Text.Truthy(displayName) && !Text.Truthy(Lookup(meta, "display_name")))
          ==> Lookup(r, "display_name") == displayName)
  {
  }

  /** `initGlobalSchema`: creates the global `tags` table when it is missing. */
  method InitGlobalSchema(db: Db)
    requires db.Valid()
    modifies db`tags
    ensures db.Valid()
    ensures old(db.tags).Some? ==> db.tags == old(db.tags)
    ensures old(db.tags).None? ==> db.tags == Some(TagTable(map[], 0))
  {
    if db.tags.None? {
      db.tags := Some(TagTable(map[], 0));
    }
  }

  /** `initSchema(db, displayName)`: creates the tables, applies the additive migrations, records the name. */
  method InitSchema(db: Db, displayName: Option<string>)
    modifies db`columns, db`indexes, db`meta
    ensures db.columns == InitColumns(old(db.columns))
    ensures db.indexes == InitIndexes(old(db.columns), old(db.indexes))
    ensures db.meta == InitMeta(old(db.meta), displayName)
  {
    CreateAndMigrate(db);
    RecordDisplayName(db, displayName);
  }

  /** The `CREATE TABLE`, `CREATE INDEX` and `ALTER TABLE` statements of `initSchema`. */
  method CreateAndMigrate(db: Db)
    modifies db`columns, db`indexes
    ensures db.columns == InitColumns(old(db.columns))
    ensures db.indexes == InitIndexes(old(db.columns), old(db.indexes))
  {
    ghost var cols0 := db.columns;
    db.columns := CreateTables(db.columns);
    ghost var created := db.columns;
    assert "items" in created && "categories" in created;
    db.indexes := db.indexes + BaseIndexes;
    if "favicon_url" !in db.columns["items"] {
      db.columns := db.columns["items" := db.columns["items"] + {"favicon_url"}];
    }
    ghost var withFavicon := db.columns;
    assert withFavicon == AddColumnIfMissing(created, "items", "favicon_url");
    assert withFavicon["categories"] == created["categories"];
    if "parent_id" !in db.columns["categories"] {
      db.columns := db.columns["categories" := db.columns["categories"] + {"parent_id"}];
      db.indexes := db.indexes + ParentIndexes;
    }
  }

  /** The `display_name` step of `initSchema`. */
  method RecordDisplayName(db: Db, displayName: Option<string>)
    modifies db`meta
    ensures db.meta == InitMeta(old(db.meta), displayName)
  {
    if Text.Truthy(displayName) {
      var existing := GetMeta(db, "display_name");
      if !Text.Truthy(existing) {
        SetMeta(db, "display_name", displayName.value);
      }
    }
  }

  // ---------------------------------------------------------------------------
  // migrateTagsToGlobal

  /** The id of the tag called `name`: `SELECT id FROM tags WHERE name = ?`. */
  function IdNamed(t: TagTable, name: string): (k: int)
    requires HasName(t, name)
    ensures k in t.rows && t.rows[k].name == name
  {
    var ids := set k | k in t.rows && t.rows[k].name == name;
    assert ids != {} by {
      var k :| k in t.rows && t.rows[k].name == name;
      assert k in ids;
    }
    Collections.MinOf(ids)
  }

  /**
    `INSERT OR IGNORE INTO tags (name, color)`: the UNIQUE name makes a
    second insert add no row. The AUTOINCREMENT sequence still advances:
    SQLite draws the new rowid before it checks the constraint, and writes
    the sequence back when the statement ends.
   */
  function InsertOrIgnore(t: TagTable, name: string, color: string): TagTable {
    if HasName(t, name) then TagTable(t.rows, t.lastId + 1)
    else TagTable(t.rows[t.lastId + 1 := Tag(t.lastId + 1, name, color)], t.lastId + 1)
  }

  /** The global table and the old-to-new id map after the copy loop has seen `local[ids[i]]` for each i. */
  datatype TagCopy = TagCopy(global: TagTable, idMap: map<int, int>)

  function CopyTags(global: TagTable, local: map<int, Tag>, ids: seq<int>): TagCopy
    requires forall i :: 0 <= i < |ids| ==> ids[i] in local
  {
    if ids == [] then TagCopy(global, map[])
    else
      var prev := CopyTags(global, local, ids[..|ids| - 1]);
      var tag := local[ids[|ids| - 1]];
      var g := InsertOrIgnore(prev.global, tag.name, tag.color);
      assert HasName(g, tag.name) by {
        if !HasName(prev.global, tag.name) {
          assert g.rows[prev.global.lastId + 1].name == tag.name;
        }
      }
      TagCopy(g, prev.idMap[tag.id := IdNamed(g, tag.name)])
  }

  /** `tag` is the first of `local[ids[0]], local[ids[1]], …` called `name`, and it has colour `color`. */
  ghost predicate FirstNamed(local: map<int, Tag>, ids: seq<int>, name: string, color: string)
    requires forall i :: 0 <= i < |ids| ==> ids[i] in local
  {
    exists i :: 0 <= i < |ids| && local[ids[i]].name == name && local[ids[i]].color == color
      && forall j :: 0 <= j < i ==> local[ids[j]].name != name
  }

  /** One `INSERT OR IGNORE`: existing rows stay, and a row is added only for a new name. */
  lemma InsertOrIgnoreSpec(t: TagTable, name: string, color: string)
    requires TagTableValid(t) && UniqueNames(t)
    ensures var r := InsertOrIgnore(t, name, color);
      && TagTableValid(r) && UniqueNames(r) && HasName(r, name) && r.lastId == t.lastId + 1
      && (forall k :: k in t.rows ==> k in r.rows && r.rows[k] == t.rows[k])
      && (forall k :: k in r.rows && k !in t.rows ==> r.rows[k] == Tag(k, name, color) && !HasName(t, name))
  {
    var r := InsertOrIgnore(t, name, color);
    if !HasName(t, name) {
      assert r.rows[t.lastId + 1].name == name;
    }
  }

  /**
    The copy loop keeps every global row that existed, so on a name
    collision the global colour wins, and the names stay unique.
   */
  lemma {:induction false} CopyTagsKeepsRows(global: TagTable, local: map<int, Tag>, ids: seq<int>)
    requires TagTableValid(global) && UniqueNames(global)
    requires forall i :: 0 <= i < |ids| ==> ids[i] in local
    ensures var g := CopyTags(global, local, ids).global;
      && TagTableValid(g) && UniqueNames(g)
      && (forall k :: k in global.rows ==> k in g.rows && g.rows[k] == global.rows[k])
  {
    if ids != [] {
      var n := |ids| - 1;
      CopyTagsKeepsRows(global, local, ids[..n]);
      var prev := CopyTags(global, local, ids[..n]).global;
      var tag := local[ids[n]];
      InsertOrIgnoreSpec(prev, tag.name, tag.color);
    }
  }

  /** After the copy loop every local name has a global row. */
  lemma {:induction false} CopyTagsHasNames(global: TagTable, local: map<int, Tag>, ids: seq<int>)
    requires TagTableValid(global) && UniqueNames(global)
    requires forall i :: 0 <= i < |ids| ==> ids[i] in local
    ensures var g := CopyTags(global, local, ids).global;
      forall i :: 0 <= i < |ids| ==> HasName(g, local[ids[i]].name)
  {
    if ids != [] {
      var n := |ids| - 1;
      var init := ids[..n];
      CopyTagsHasNames(global, local, init);
      CopyTagsKeepsRows(global, local, init);
      CopyTagsStep(global, local, ids, n);
      assert ids[..n + 1] == ids;
      var prev := CopyTags(global, local, init).global;
      var tag := local[ids[n]];
      var g := CopyTags(global, local, ids).global;
      assert g == InsertOrIgnore(prev, tag.name, tag.color);
      InsertOrIgnoreSpec(prev, tag.name, tag.color);
      forall i | 0 <= i < |ids| ensures HasName(g, local[ids[i]].name) {
        if i < n {
          assert init[i] == ids[i];
          assert HasName(prev, local[init[i]].name);
          var k :| k in prev.rows && prev.rows[k].name == local[init[i]].name;
          assert g.rows[k].name == local[ids[i]].name;
        } else {
          assert local[ids[i]] == tag;
        }
      }
    }
  }

  /**
    A row the copy loop added carries the colour of the first local tag, in
    scan order, with that name: on a later duplicate name the insert is ignored.
   */
  lemma {:induction false} CopyTagsAddedRows(global: TagTable, local: map<int, Tag>, ids: seq<int>)
    requires TagTableValid(global) && UniqueNames(global)
    requires forall i :: 0 <= i < |ids| ==> ids[i] in local
    ensures var g := CopyTags(global, local, ids).global;
      forall k :: k in g.rows && k !in global.rows ==>
        FirstNamed(local, ids, g.rows[k].name, g.rows[k].color)
  {
    if ids != [] {
      var n := |ids| - 1;
      var init := ids[..n];
      CopyTagsAddedRows(global, local, init);
      CopyTagsHasNames(global, local, init);
      CopyTagsKeepsRows(global, local, init);
      CopyTagsStep(global, local, ids, n);
      assert ids[..n + 1] == ids;
      var prev := CopyTags(global, local, init).global;
      var tag := local[ids[n]];
      var g := CopyTags(global, local, ids).global;
      InsertOrIgnoreSpec(prev, tag.name, tag.color);
      forall k | k in g.rows && k !in global.rows
        ensures FirstNamed(local, ids, g.rows[k].name, g.rows[k].color)
      {
        if k in prev.rows {
          assert g.rows[k] == prev.rows[k];
          FirstNamedExtend(local, ids, n, prev.rows[k].name, prev.rows[k].color);
        } else {
          assert g.rows[k] == Tag(k, tag.name, tag.color);
          forall j | 0 <= j < n ensures local[ids[j]].name != tag.name {
            assert ids[j] == init[j];
            assert HasName(prev, local[init[j]].name);
          }
          FirstNamedLast(local, ids, tag.name, tag.color);
        }
      }
    }
  }

  /** The first tag of a prefix with a name is still the first one in the whole scan. */
  lemma FirstNamedExtend(local: map<int, Tag>, ids: seq<int>, n: int, name: string, color: string)
    requires forall i :: 0 <= i < |ids| ==> ids[i] in local
    requires 0 <= n <= |ids|
    requires FirstNamed(local, ids[..n], name, color)
    ensures FirstNamed(local, ids, name, color)
  {
    var init := ids[..n];
    var i :| 0 <= i < |init| && local[init[i]].name == name && local[init[i]].color == color
      && forall j :: 0 <= j < i ==> local[init[j]].name != name;
    assert ids[i] == init[i];
    forall j | 0 <= j < i ensures local[ids[j]].name != name {
      assert ids[j] == init[j];
    }
  }

  /** The last tag of the scan is the first with its name when no earlier tag has it. */
  lemma FirstNamedLast(local: map<int, Tag>, ids: seq<int>, name: string, color: string)
    requires forall i :: 0 <= i < |ids| ==> ids[i] in local
    requires ids != [] && local[ids[|ids| - 1]].name == name && local[ids[|ids| - 1]].color == color
    requires forall j :: 0 <= j < |ids| - 1 ==> local[ids[j]].name != name
    ensures FirstNamed(local, ids, name, color)
  {
    var i := |ids| - 1;
    assert local[ids[i]].name == name;
  }

  /**
    After the copy loop every local name has a global row, and a row the
    loop added carries the colour of the first local tag, in scan order,
    with that name.
   */
  lemma CopyTagsNames(global: TagTable, local: map<int, Tag>, ids: seq<int>)
    requires TagTableValid(global) && UniqueNames(global)
    requires forall i :: 0 <= i < |ids| ==> ids[i] in local
    ensures var g := CopyTags(global, local, ids).global;
      && (forall i :: 0 <= i < |ids| ==> HasName(g, local[ids[i]].name))
      && (forall k :: k in g.rows && k !in global.rows ==>
            FirstNamed(local, ids, g.rows[k].name, g.rows[k].color))
  {
    CopyTagsHasNames(global, local, ids);
    CopyTagsAddedRows(global, local, ids);
  }

  /** The id map has exactly one entry per local tag. */
  lemma {:induction false} CopyTagsIdKeys(global: TagTable, local: map<int, Tag>, ids: seq<int>)
    requires forall k :: k in local ==> local[k].id == k
    requires forall i :: 0 <= i < |ids| ==> ids[i] in local
    ensures CopyTags(global, local, ids).idMap.Keys == (set i | 0 <= i < |ids| :: ids[i])
  {
    if ids != [] {
      var n := |ids| - 1;
      var init := ids[..n];
      CopyTagsIdKeys(global, local, init);
      var before := set i | 0 <= i < |init| :: init[i];
      var after := set i | 0 <= i < |ids| :: ids[i];
      assert after == before + {ids[n]} by {
        forall x | x in after ensures x in before + {ids[n]} {
          var i :| 0 <= i < |ids| && ids[i] == x;
          if i < n { assert init[i] == x; }
        }
        forall x | x in before ensures x in after {
          var i :| 0 <= i < |init| && init[i] == x;
          assert ids[i] == x;
        }
      }
    }
  }

  /** The id map sends each local tag id to the global row with the same name. */
  lemma {:induction false} CopyTagsIdValues(global: TagTable, local: map<int, Tag>, ids: seq<int>)
    requires TagTableValid(global) && UniqueNames(global)
    requires forall k :: k in local ==> local[k].id == k
    requires forall i :: 0 <= i < |ids| ==> ids[i] in local
    ensures var r := CopyTags(global, local, ids);
      forall k :: k in r.idMap ==>
        k in local && r.idMap[k] in r.global.rows && r.global.rows[r.idMap[k]].name == local[k].name
  {
    if ids != [] {
      var n := |ids| - 1;
      var init := ids[..n];
      CopyTagsIdValues(global, local, init);
      CopyTagsKeepsRows(global, local, init);
      var prev := CopyTags(global, local, init);
      var tag := local[ids[n]];
      var r := CopyTags(global, local, ids);
      InsertOrIgnoreSpec(prev.global, tag.name, tag.color);
      assert r.idMap == prev.idMap[tag.id := IdNamed(r.global, tag.name)];
      forall k | k in r.idMap
        ensures k in local && r.idMap[k] in r.global.rows && r.global.rows[r.idMap[k]].name == local[k].name
      {
        if k != tag.id {
          assert k in prev.idMap;
        }
      }
    }
  }

  /** `item_tags` after the remap: each pair whose tag was mapped, with its new tag id; equal pairs merge. */
  function RemapPairs(pairs: set<ItemTag>, idMap: map<int, int>): (r: set<ItemTag>)
    ensures forall p :: p in pairs && p.tagId in idMap ==> ItemTag(p.itemId, idMap[p.tagId]) in r
    ensures forall q :: q in r ==>
      exists p :: p in pairs && p.tagId in idMap && q == ItemTag(p.itemId, idMap[p.tagId])
  {
    set p | p in pairs && p.tagId in idMap :: ItemTag(p.itemId, idMap[p.tagId])
  }

  /** One more pass of the copy loop: insert the next local tag's name, then record its global id. */
  lemma CopyTagsStep(global: TagTable, local: map<int, Tag>, ids: seq<int>, i: int)
    requires forall j :: 0 <= j < |ids| ==> ids[j] in local
    requires 0 <= i < |ids|
    ensures var prev := CopyTags(global, local, ids[..i]);
      var tag := local[ids[i]];
      var g := InsertOrIgnore(prev.global, tag.name, tag.color);
      && HasName(g, tag.name)
      && CopyTags(global, local, ids[..i + 1]) == TagCopy(g, prev.idMap[tag.id := IdNamed(g, tag.name)])
  {
    var s := ids[..i + 1];
    assert s[..|s| - 1] == ids[..i] && s[|s| - 1] == ids[i];
    var prev := CopyTags(global, local, ids[..i]);
    var tag := local[ids[i]];
    if !HasName(prev.global, tag.name) {
      var g := InsertOrIgnore(prev.global, tag.name, tag.color);
      assert g.rows[prev.global.lastId + 1].name == tag.name;
    }
  }

  /** The copy loop: one `INSERT OR IGNORE` and one id lookup per local tag, in scan order. */
  method CopyTagsToGlobal(globalDb: Db, local: map<int, Tag>) returns (idMap: map<int, int>)
    requires globalDb.tags.Some? && TagTableValid(globalDb.tags.value) && UniqueNames(globalDb.tags.value)
    modifies globalDb`tags
    ensures var copy := CopyTags(old(globalDb.tags).value, local, Collections.SortedIds(local.Keys));
      globalDb.tags == Some(copy.global) && idMap == copy.idMap
  {
    var ids := Collections.SortedIds(local.Keys);
    ghost var global0 := globalDb.tags.value;
    idMap := map[];
    for i := 0 to |ids|
      invariant globalDb.tags.Some?
      invariant TagCopy(globalDb.tags.value, idMap) == CopyTags(global0, local, ids[..i])
    {
      var tag := local[ids[i]];
      CopyTagsStep(global0, local, ids, i);
      var g := InsertOrIgnore(globalDb.tags.value, tag.name, tag.color);
      globalDb.tags := Some(g);
      idMap := idMap[tag.id := IdNamed(g, tag.name)];
    }
    assert ids[..|ids|] == ids;
  }

  /** The re-insert loop: `INSERT OR IGNORE` of each old pair whose tag id is in the map, remapped. */
  method ReinsertRemapped(spaceDb: Db, itemTags: set<ItemTag>, idMap: map<int, int>)
    modifies spaceDb`itemTags
    ensures spaceDb.itemTags == RemapPairs(itemTags, idMap)
  {
    spaceDb.itemTags := {};
    var remaining := itemTags;
    while remaining != {}
      invariant remaining <= itemTags
      invariant spaceDb.itemTags == RemapPairs(itemTags - remaining, idMap)
      decreases remaining
    {
      NonEmptyPairs(remaining);
      var it :| it in remaining;
      if it.tagId in idMap {
        spaceDb.itemTags := spaceDb.itemTags + {ItemTag(it.itemId, idMap[it.tagId])};
      }
      remaining := remaining - {it};
      assert itemTags - remaining == (itemTags - (remaining + {it})) + {it};
    }
    assert itemTags - remaining == itemTags;
  }

  /**
    `migrateTagsToGlobal(spaceDb, globalDb)`. Without a local `tags` table it
    does nothing. Otherwise it copies the local tags in scan order into the
    global table, then drops the local table and rebuilds `item_tags` through
    the id map, so that a second run finds no local table and does nothing.
   */
  method MigrateTagsToGlobal(spaceDb: Db, globalDb: Db)
    requires spaceDb != globalDb
    requires spaceDb.Valid() && globalDb.Valid()
    requires globalDb.tags.Some? && UniqueNames(globalDb.tags.value)
    modifies spaceDb`tags, spaceDb`itemTags, globalDb`tags
    ensures spaceDb.Valid() && globalDb.Valid()
    ensures old(spaceDb.tags).None? ==>
      spaceDb.tags == None && spaceDb.itemTags == old(spaceDb.itemTags) && globalDb.tags == old(globalDb.tags)
    ensures old(spaceDb.tags).Some? ==>
      var local := old(spaceDb.tags).value.rows;
      var copy := CopyTags(old(globalDb.tags).value, local, Collections.SortedIds(local.Keys));
      && spaceDb.tags == None
      && globalDb.tags == Some(copy.global)
      && spaceDb.itemTags == RemapPairs(old(spaceDb.itemTags), copy.idMap)
    ensures globalDb.tags.Some? && UniqueNames(globalDb.tags.value)
  {
    if spaceDb.tags.None? {
      return;
    }
    var local := spaceDb.tags.value.rows;
    CopyTagsKeepsRows(globalDb.tags.value, local, Collections.SortedIds(local.Keys));
    var idMap := CopyTagsToGlobal(globalDb, local);
    // The transaction: read item_tags, drop it and the local tags, recreate item_tags, re-insert.
    var itemTags := spaceDb.itemTags;
    spaceDb.tags := None;
    ReinsertRemapped(spaceDb, itemTags, idMap);
  }
}
