# Pane board core, modelled in Dafny

Pane is a self-hosted board of **categories** (columns, which can nest)
holding **items** (links, notes and uploaded documents). Items carry **tags**.
Each space has its own SQLite database. Uploaded files sit in a storage
tree under `<category-slug>/<uuid><ext>`.

This project models the sequential core of the server handlers and the
client stores:

- **Tables as state.** A database handle is the class `Database.Db`.
  - `categories` and `items` map an id to its row.
  - `item_tags` is a set of pairs.
  - An optional `tags` table is a `TagTable` value holding its rows and its AUTOINCREMENT counter.
  - `meta` is a string map.
  - The schema is recorded as table → columns, plus a set of index names.
  - `lastCategoryId` and `lastItemId` are the AUTOINCREMENT counters.
  - `SELECT … WHERE p ORDER BY k` is `Database.Select`: a scan in id order, filtered, then stably sorted.
- **Storage.** `Storage.FileStore` holds the file map (relative path → bytes) and the set of created directories. `join`, `basename` and `extname` are written out as string functions.
- **Handlers.** Each handler is a method on this state, specified by a function of the old state:
  - the category and item list/create handlers;
  - the two reorder handlers;
  - the upload handler;
  - space creation;
  - the home page loader.
- **Client stores.** The board store, the rate limiter, the theme store and the palette store are classes whose fields are the `$state` variables.
- **Explicit inputs.** Clocks, random ids, fetched responses and URL parsing are passed in as parameters.

Each operation has a partner that it is proved against:

- a function specifying it;
- an invariant it keeps;
- or lemmas relating it to an independent statement of the promised behaviour. Examples:
  - soundness and completeness of a filter;
  - last-write-wins of a batch;
  - idempotence of a migration;
  - round trips of a storage key.

## Model

| member | source | states |
|---|---|---|
| Text.Trim | src/routes/api/spaces/+server.ts:28 | `String.prototype.trim`: the result is the slice of the input that starts after its leading white space, with only white space after it; it has no white space at either end, is empty exactly when the input is all white space, and is the input itself when it has none |
| Text.TrimPadded | src/routes/api/spaces/+server.ts:28 | white space around a text that neither starts nor ends with white space is removed, and nothing else |
| Text.TrimStartIsSuffix | src/routes/api/spaces/+server.ts:28 | trimming the front leaves a suffix of the input |
| Text.TrimEndIsPrefix | src/routes/api/spaces/+server.ts:28 | trimming the back leaves a prefix of the input |
| Text.JsNumber | src/routes/api/categories/+server.ts:23 | `Number(s)` on decimal strings: a non-empty run of digits denotes its value, and a blank string (empty or all white space) is 0 |
| Text.JsNumberSigned | src/routes/api/categories/+server.ts:23 | an optionally signed run of digits with white space around it is the digits' value, negated after a minus sign |
| Text.ParseSigned | src/routes/api/categories/+server.ts:23 | the trimmed text, an optional sign followed by digits, reads as the signed value |
| Text.JsNumberNaN | src/routes/api/categories/+server.ts:23 | `Number(s)` is NaN exactly when the trimmed text is not blank and has a character other than a digit, except a leading sign followed by more text |
| Text.JsNumberOfIntToString | src/lib/stores/board.svelte.ts:16 | `Number(String(n)) == n` for every integer, so the parent id the board sends is the one the handler filters on |
| Text.JsNumberOfNegative | src/lib/stores/board.svelte.ts:16 | a minus sign followed by the decimal digits of a positive number reads back as the negative number |
| Text.NatToStringInjective | src/routes/api/spaces/+server.ts:40-41 | distinct suffix numbers give distinct decimal strings |
| Text.OrNull | src/routes/api/items/+server.ts:115 | `s \|\| null`: null exactly when the value is missing or empty, otherwise the value |
| Text.IndexOf | src/lib/stores/theme.svelte.ts:64 | `indexOf`: the first position holding the value, -1 exactly when it is absent |
| Collections.SortByKey | src/lib/stores/board.svelte.ts:37 | sorting by a numeric key yields a permutation of the input that is ordered by the key |
| Collections.Filter | src/routes/+page.server.ts:34 | `filter`: every kept element is from the input and satisfies the predicate, and every input element that satisfies it is kept |
| Collections.FilterSortedByKey | src/routes/+page.server.ts:42 | filtering a list that is ordered by a key keeps it ordered |
| Collections.SortByText | src/routes/+page.server.ts:25 | `ORDER BY name` under binary collation: a permutation ordered by code-point comparison of the key |
| Collections.TextLeTotal | src/routes/+page.server.ts:25 | the binary collation compares every two names |
| Collections.TextLeTrans | src/routes/+page.server.ts:25 | the binary collation is transitive |
| Collections.SortedIds | src/routes/+page.server.ts:15 | a full table scan visits each id exactly once, in ascending order |
| Collections.LastIndex | src/routes/api/categories/reorder/+server.ts:16-18 | the last position holding a value, -1 exactly when it is absent |
| Database.RowInScan | src/routes/+page.server.ts:15 | every stored row appears in a full scan, which has one entry per row |
| Database.SelectSorted | src/routes/api/categories/+server.ts:16-17 | a `SELECT … ORDER BY sort_order` result is ordered by the key |
| Database.SelectSound | src/routes/api/categories/+server.ts:16-17 | every selected row is a stored row that satisfies the `WHERE` clause |
| Database.SelectComplete | src/routes/api/categories/+server.ts:16-17 | every stored row that satisfies the `WHERE` clause is selected |
| Database.NextSortOrder | src/routes/api/categories/+server.ts:52-55 | `COALESCE(MAX(sort_order), 0) + 1`: 1 for an empty group, otherwise one past the largest order |
| Schema.GetMeta | src/lib/server/schema.ts:137-140 | `getMeta`: null exactly when the key is absent, otherwise the stored value |
| Schema.SetMeta | src/lib/server/schema.ts:133-135 | `setMeta(k, v)`: `getMeta(k)` then returns `v`; any earlier value is replaced and every other key is unchanged |
| Schema.InitColumnsAdditive | src/lib/server/schema.ts:62-122 | the migrations only add: existing tables and columns stay, the four tables exist, and `favicon_url` and `parent_id` are present afterwards |
| Schema.InitSchemaIdempotent | src/lib/server/schema.ts:108-130 | a second `initSchema` changes neither columns, indexes nor meta |
| Schema.InitMetaWritesOnce | src/lib/server/schema.ts:124-130 | `display_name` is written only when a name is given and none is stored; a stored value is never overwritten |
| Schema.InitGlobalSchema | src/lib/server/schema.ts:3-11 | creates an empty global `tags` table when it is missing and leaves an existing one alone |
| Schema.InitSchema | src/lib/server/schema.ts:62-131 | the new schema, indexes and meta are the functions whose properties the three lemmas above prove |
| Schema.CreateTablesSpec | src/lib/server/schema.ts:63-101 | `CREATE TABLE IF NOT EXISTS` keeps every existing table and its columns, adds the four tables, and gives a new `categories` or `items` table its declared columns |
| Schema.CreateAndMigrate | src/lib/server/schema.ts:63-122 | the statements and the two column migrations leave the columns and indexes the schema functions describe |
| Schema.RecordDisplayName | src/lib/server/schema.ts:124-130 | the `display_name` step leaves the meta table the meta function describes |
| Schema.IdNamed | src/lib/server/schema.ts:23-29 | `SELECT id FROM tags WHERE name = ?` finds the row with that name |
| Schema.InsertOrIgnoreSpec | src/lib/server/schema.ts:22-28 | one `INSERT OR IGNORE`: existing rows stay, a row is added only for a new name, names stay unique, and the AUTOINCREMENT sequence advances by one even when the insert is ignored |
| Schema.CopyTagsKeepsRows | src/lib/server/schema.ts:20-31 | the copy loop keeps every pre-existing global row, so the global colour wins on a name collision |
| Schema.CopyTagsNames | src/lib/server/schema.ts:20-31 | afterwards every local name has a global row, and an added row has the colour of the first local tag with that name |
| Schema.CopyTagsHasNames | src/lib/server/schema.ts:20-31 | afterwards every local tag's name has a global row |
| Schema.CopyTagsAddedRows | src/lib/server/schema.ts:20-31 | a global row the loop added has the name and colour of the first local tag, in scan order, with that name |
| Schema.CopyTagsStep | src/lib/server/schema.ts:21-30 | one pass inserts the tag's name unless it is taken, after which the name has a row, and records that row's id for the tag |
| Schema.CopyTagsIdKeys | src/lib/server/schema.ts:26-31 | the id map has exactly the local tag ids as keys |
| Schema.CopyTagsIdValues | src/lib/server/schema.ts:26-31 | the id map sends each local tag id to the global row that has the same name |
| Schema.RemapPairs | src/lib/server/schema.ts:51-58 | rebuilt `item_tags` holds exactly the old pairs whose tag was mapped, with the new tag id; unmapped pairs are dropped and colliding pairs merge |
| Schema.CopyTagsToGlobal | src/lib/server/schema.ts:21-31 | the loop leaves the global table and the id map that the copy function describes |
| Schema.ReinsertRemapped | src/lib/server/schema.ts:34-59 | the re-insert loop leaves exactly the remapped pairs |
| Schema.MigrateTagsToGlobal | src/lib/server/schema.ts:13-60 | without a local `tags` table nothing changes; otherwise the local table is dropped, the global table is the copy and `item_tags` is remapped, so a second run is a no-op |
| Storage.Basename | src/lib/server/storage.ts:27 | `path.basename` returns a name with no slash |
| Storage.ExtShape | src/lib/server/storage.ts:15 | `path.extname` is empty, or a dot followed by characters that are neither dots nor slashes |
| Storage.StoredNameKeepsExtension | src/lib/server/storage.ts:15-17 | `<uuid><ext>` has the original file's extension |
| Storage.SavedPathKeepsExtension | src/lib/server/storage.ts:15-18 | the saved path lies in the category directory and keeps the original extension |
| Storage.BasenameOfJoin | src/lib/server/storage.ts:27-29 | the base name of `join(dir, name)` is `name` |
| Storage.FilesAfterMoveSpec | src/lib/server/storage.ts:23-32 | a move places the contents at the returned path and removes them from the old path; nothing else changes, and nothing changes when there is no source |
| Storage.MoveKeepsBasename | src/lib/server/storage.ts:27-29 | a moved file keeps its name, and moving it back restores the old path |
| Storage.MovedPathKeepsName | src/lib/server/storage.ts:27-31 | the new path is in the new category directory and has the old base name |
| Storage.DeleteIdempotent | src/lib/server/storage.ts:34-46 | deleting a file or a category directory twice is the same as once |
| Storage.FilesOutside | src/lib/server/storage.ts:41-46 | removing a directory keeps exactly the entries outside it, unchanged |
| Storage.DirsAfterMove | src/lib/server/storage.ts:28 | a move creates the target directory, and only when a file moves |
| Storage.FileStore.EnsureCategoryDir | src/lib/server/storage.ts:7-11 | creates the category directory and returns it |
| Storage.FileStore.SaveFile | src/lib/server/storage.ts:13-21 | returns `join(categorySlug, uuid + extname(originalName))` and the original name, and adds exactly that file holding `data` |
| Storage.FileStore.MoveFile | src/lib/server/storage.ts:23-32 | returns the old path and changes nothing when there is no source; otherwise returns `join(newCategorySlug, basename(oldPath))` and the store is the move function's result |
| Storage.FileStore.DeleteFile | src/lib/server/storage.ts:34-39 | removes the file if present; otherwise a no-op |
| Storage.FileStore.DeleteCategoryDir | src/lib/server/storage.ts:41-46 | removes every entry under the directory and nothing outside it |
| CategoriesReorder.Reordered | src/routes/api/categories/reorder/+server.ts:16-19 | the update loop keeps the set of rows and their ids |
| CategoriesReorder.ReorderedStep | src/routes/api/categories/reorder/+server.ts:16-18 | one more pass of the loop is one more update, with the position plus one as order |
| CategoriesReorder.ReorderedAt | src/routes/api/categories/reorder/+server.ts:16-19 | each category gets its last listed position plus one; unlisted categories and unknown ids change nothing |
| CategoriesReorder.Dense | src/routes/api/categories/reorder/+server.ts:17-19 | with distinct, existing ids, the listed categories get exactly the orders 1..n in list order |
| CategoriesReorder.Reorder | src/routes/api/categories/reorder/+server.ts:5-29 | a missing or empty list is 400 and changes nothing; otherwise the table becomes the update loop's result and the reply is `{ success: true }` |
| ItemsReorder.ApplyMoves | src/routes/api/items/reorder/+server.ts:25-40 | the loop keeps the set of item rows and their ids, whether it runs to the end or stops at a failing move |
| ItemsReorder.ApplyMoveSpec | src/routes/api/items/reorder/+server.ts:25-39 | a move of a missing item changes nothing; a move of an existing item to a missing category fails on the foreign key, and only then; otherwise the item gets exactly the move's category and order, its file path changes only when the file is relocated and then to `moveFile`'s result, and other rows are unchanged |
| ItemsReorder.ApplyMoveAt | src/routes/api/items/reorder/+server.ts:26-39 | one move that does not fail updates only the row it names |
| ItemsReorder.MoveFails | src/routes/api/items/reorder/+server.ts:26-39 | a move fails exactly when it names an existing item and a missing category |
| ItemsReorder.ApplyMovesStep | src/routes/api/items/reorder/+server.ts:25-40 | one more pass of the loop, when nothing has failed yet, is one more move, and a failing move ends the loop failed |
| ItemsReorder.FailedStays | src/routes/api/items/reorder/+server.ts:18-43 | after a failing move no later move runs |
| ItemsReorder.ApplyMovesAt | src/routes/api/items/reorder/+server.ts:25-40 | over a batch with no failing move, an unnamed item is unchanged and a named item takes the category and order of the last move naming it |
| ItemsReorder.AnyViolatesSnoc | src/routes/api/items/reorder/+server.ts:25 | a batch has a move that breaks the foreign key exactly when the batch before its last move has one or its last move is one |
| ItemsReorder.BatchFails | src/routes/api/items/reorder/+server.ts:18-43 | a batch fails exactly when one of its moves names an existing item and a missing category, whatever the order |
| ItemsReorder.MoveOne | src/routes/api/items/reorder/+server.ts:25-39 | one pass of the loop fails exactly when the move function fails, and then writes nothing; otherwise it leaves the rows and files the move function describes |
| ItemsReorder.Reorder | src/routes/api/items/reorder/+server.ts:7-50 | a missing or empty batch is 400 and changes nothing; a batch with a failing move is 500, the rows are rolled back and the files are where the earlier moves put them; otherwise items and files become the batch function's result and the reply is `{ success: true }` |
| ItemsReorder.RunBatch | src/routes/api/items/reorder/+server.ts:18-43 | the transaction's loop fails exactly when the batch function fails, and leaves the files, and on success the rows, that the batch function gives |
| CategoriesApi.WantedCases | src/routes/api/categories/+server.ts:13-31 | no `parent_id` selects all categories, `'null'` or `''` selects the roots, and an id's decimal form selects exactly that id's children |
| CategoriesApi.ListSorted | src/routes/api/categories/+server.ts:15-30 | the listed rows are ordered by `sort_order` |
| CategoriesApi.ListSelected | src/routes/api/categories/+server.ts:15-30 | every listed row is a stored category that the filter selects, with `children_count` equal to the number of its children |
| CategoriesApi.ListComplete | src/routes/api/categories/+server.ts:15-30 | every stored category that the filter selects is listed |
| CategoriesApi.WithCounts | src/routes/api/categories/+server.ts:16-28 | each selected row is returned once, in its place, with the number of categories whose parent it is |
| CategoriesApi.ListHas | src/routes/api/categories/+server.ts:13-30 | every stored category the filter selects is listed, with its children count |
| CategoriesApi.Create | src/routes/api/categories/+server.ts:40-71 | a missing name or colour is 400 with no write; a taken slug, or a parent that is neither stored nor the new row itself, is 500 with no write; every other request succeeds with 201, adding one row under the next id with `slugify(name)`, the sibling maximum plus one, and the parent or null; no error writes anything |
| CategoriesApi.FreshChildrenCount | src/routes/api/categories/+server.ts:57-64 | a newly created category is read back with `children_count` 0, or 1 when it is its own parent, which the foreign key admits |
| ItemsApi.TagsForItemSpec | src/routes/api/items/+server.ts:33-40 | an item's tags are exactly the tag rows joined through its `item_tags` pairs, in ascending id |
| ItemsApi.TagListed | src/routes/api/items/+server.ts:33-40 | each existing tag paired with the item is among its tags |
| ItemsApi.AttachTags | src/routes/api/items/+server.ts:42-47 | each item is kept in place and given its own tags |
| ItemsApi.QuerySpec | src/routes/api/items/+server.ts:57-78 | `GET` returns exactly the stored items that satisfy every supplied filter, ordered by `sort_order` |
| ItemsApi.Title | src/routes/api/items/+server.ts:96-102 | the fetched title replaces the given one only when `fetch_title` is set, the type is link, content is non-empty and the fetch gave a title |
| ItemsApi.Description | src/routes/api/items/+server.ts:97-115 | a given description is kept; otherwise the fetched one, when fetched; an empty one is stored as null |
| ItemsApi.CreateRejects | src/routes/api/items/+server.ts:92-129 | a missing `category_id`, `type` or `title` is 400 with no write, and a failed constraint writes nothing |
| ItemsApi.NewRowLast | src/routes/api/items/+server.ts:106-109 | the new item's order is past every item of its category, and 1 in an empty category |
| ItemsApi.CreateWrites | src/routes/api/items/+server.ts:111-129 | a complete request adds exactly one row under a fresh id and one pair per supplied tag id, and nothing else |
| ItemsApi.CreatedTags | src/routes/api/items/+server.ts:131-132 | the returned item carries exactly the supplied tag ids that exist |
| ItemsApi.InsertPairs | src/routes/api/items/+server.ts:119-124 | the tag loop adds one pair per tag id, and fails exactly when a pair repeats |
| ItemsApi.InsertItem | src/routes/api/items/+server.ts:111-127 | the transaction succeeds exactly when every pair can be inserted; then it adds the row and the pairs, and otherwise it rolls every table back |
| ItemsApi.Post | src/routes/api/items/+server.ts:88-139 | the tables and the response are those the create function gives |
| Upload.AdmitOrder | src/routes/api/items/upload/+server.ts:7-36 | no file is 400; a file over 1024³ bytes is 413 (exactly 1024³ passes); no `category_id` is 400; an unknown category is 404; these are checked in this order |
| Upload.DocumentRow | src/routes/api/items/upload/+server.ts:47-59 | the row has type `document` and null content; the title defaults to the file name; an empty description is null; the MIME type defaults to `application/octet-stream`; the size is the file's |
| Upload.Post | src/routes/api/items/upload/+server.ts:9-69 | a rejected form changes nothing and saves no file; otherwise it saves one file, inserts one row with the category's next order, and returns it with no tags, status 201 |
| Upload.Store | src/routes/api/items/upload/+server.ts:38-64 | saves the file at its stored path, then adds the document row under the next id |
| Upload.InsertDocument | src/routes/api/items/upload/+server.ts:42-61 | adds exactly the document row, under the next id |
| SpacesApi.Collapse | src/routes/api/spaces/+server.ts:9 | `replace(/[^a-z0-9]+/g, '-')` is empty exactly for an empty input, and keeps or replaces the first character |
| SpacesApi.CollapseShape | src/routes/api/spaces/+server.ts:9 | after replacement only `[a-z0-9-]` remains, with no two dashes in a row |
| SpacesApi.CollapseKeepsAlnum | src/routes/api/spaces/+server.ts:9 | replacement keeps every `[a-z0-9]` character, in order |
| SpacesApi.StripDashes | src/routes/api/spaces/+server.ts:10 | `replace(/^-+\|-+$/g, '')` leaves no dash at either end |
| SpacesApi.StripLeadingIsSuffix | src/routes/api/spaces/+server.ts:10 | removing the leading dashes leaves a suffix of the input |
| SpacesApi.StripTrailingIsPrefix | src/routes/api/spaces/+server.ts:10 | removing the trailing dashes leaves a prefix of the input |
| SpacesApi.StrippedShape | src/routes/api/spaces/+server.ts:8-10 | before the cut the slug has only `[a-z0-9-]`, no double dash, and no dash at either end |
| SpacesApi.TakeIsPrefix | src/routes/api/spaces/+server.ts:11 | `slice(0, 64)` is the prefix of length at most 64 |
| SpacesApi.GenerateSlug | src/routes/api/spaces/+server.ts:6-12 | as written: 1 to 64 characters from `[a-z0-9-]`, no double dash, no leading dash |
| SpacesApi.SlugTrailingDash | src/routes/api/spaces/+server.ts:10-11 | 63 letters, a space and a letter give a slug that ends in a dash |
| SpacesApi.GenerateSlugFixed | src/routes/api/spaces/+server.ts:6-12 | corrected: as above, and no trailing dash either |
| SpacesApi.FixedAgrees | src/routes/api/spaces/+server.ts:6-12 | the corrected slug equals the written one whenever the written one does not end in a dash |
| SpacesApi.CollapseAlnumPrefix | src/routes/api/spaces/+server.ts:9 | a prefix that is already `[a-z0-9]` passes the replacement unchanged |
| SpacesApi.SlugIdempotent | src/routes/api/spaces/+server.ts:6-12 | a slug is its own slug |
| SpacesApi.CandidateInjective | src/routes/api/spaces/+server.ts:40-41 | distinct suffixes give distinct candidates |
| SpacesApi.UniqueSlug | src/routes/api/spaces/+server.ts:38-43 | the chosen slug is free; it is the base slug when that is free, otherwise `base-k` for the least `k ≥ 2` that is free |
| SpacesApi.SpaceRegistry.Post | src/routes/api/spaces/+server.ts:24-53 | a missing or blank name is 400; an invalid slug is 400; otherwise the first free candidate is registered with the trimmed name, its directory is created, and both are returned with 201 |
| PageLoad.Attached | src/routes/+page.server.ts:28-38 | each item is paired with its tags |
| PageLoad.AttachTags | src/routes/+page.server.ts:29-36 | the loop gives each item its `item_tags` rows mapped through the tag table |
| PageLoad.Load | src/routes/+page.server.ts:5-47 | the response is the page function of the four tables |
| PageLoad.ColumnsAreRoots | src/routes/+page.server.ts:8-44 | the columns are exactly the root categories, in `sort_order` |
| PageLoad.ColumnsSound | src/routes/+page.server.ts:8-44 | every column is a stored root category |
| PageLoad.ColumnsComplete | src/routes/+page.server.ts:8-44 | every stored root category has a column |
| PageLoad.ColumnsSorted | src/routes/+page.server.ts:8-44 | the columns are in `sort_order` |
| PageLoad.ColumnsFollowRoots | src/routes/+page.server.ts:40-44 | there is one column per root row, in the roots' order |
| PageLoad.AllItemsComplete | src/routes/+page.server.ts:15-46 | `allItems` contains every item, whatever its category |
| PageLoad.AllItemsHas | src/routes/+page.server.ts:15-37 | every stored item appears in `allItems` |
| PageLoad.AllItemsSorted | src/routes/+page.server.ts:15 | `allItems` is in `sort_order` |
| PageLoad.ColumnItemsSound | src/routes/+page.server.ts:15-42 | every item in a column belongs to that column's category |
| PageLoad.ColumnItemsComplete | src/routes/+page.server.ts:15-42 | every item of the column's category is in the column |
| PageLoad.ColumnItemsSorted | src/routes/+page.server.ts:15-42 | a column's items are in `sort_order` |
| PageLoad.ColumnChildSound | src/routes/+page.server.ts:17-43 | every child in a column is a stored category whose parent is the column |
| PageLoad.ColumnChildComplete | src/routes/+page.server.ts:17-43 | every category whose parent is the column is among its children |
| PageLoad.TagsOrdered | src/routes/+page.server.ts:25 | the tag list is ordered by name and holds exactly the stored tags |
| PageLoad.TagListed | src/routes/+page.server.ts:25 | every stored tag is in the tag list |
| PageLoad.TagStored | src/routes/+page.server.ts:25 | every listed tag is a stored tag |
| PageLoad.LookupIsRowsAt | src/routes/+page.server.ts:33-36 | looking ids up in the tag map drops unknown ids and keeps the rest in order |
| PageLoad.ItemTagsAgree | src/routes/+page.server.ts:33-36 | the page's tag attachment gives the same tags as the items handler's join |
| PageLoad.KnownAreJoined | src/routes/+page.server.ts:35-36 | dropping the ids the tag map does not know leaves exactly the paired ids that have a tag row, ascending |
| BoardStore.FlatItemsMembers | src/lib/stores/board.svelte.ts:6 | `initial.flatMap(c => c.items)` holds exactly the items of the initial columns |
| BoardStore.ParentParamSelects | src/lib/stores/board.svelte.ts:16-18 | the `parent_id` parameter the board sends selects exactly the categories whose parent is the current one |
| BoardStore.Find | src/lib/stores/board.svelte.ts:27 | `find` returns a listed category with that id, or none when none has it |
| BoardStore.DisplayCats | src/lib/stores/board.svelte.ts:25-31 | when drilled in and the parent is found, it comes first, followed by the fetched children; otherwise the fetched list is unchanged |
| BoardStore.ColumnItemsSpec | src/lib/stores/board.svelte.ts:37 | a column's items are the fetched items of its category, each as often as it was fetched, sorted ascending by `sort_order` |
| BoardStore.ColumnChildrenSpec | src/lib/stores/board.svelte.ts:33-39 | the current parent's column has no children; every other column has the categories whose parent it is |
| BoardStore.FilterOfFilter | src/lib/stores/board.svelte.ts:34-39 | filtering the child list again by one parent is the same as filtering all categories by that parent |
| BoardStore.LinkRequest | src/lib/stores/board.svelte.ts:145-152 | `addLink` sends type link, the URL as content, `fetch_title` true, and hostname + pathname as the title when the URL parses, else the raw URL |
| BoardStore.LinkRequestAccepted | src/lib/stores/board.svelte.ts:145-152 | that request passes the items handler's required-field check and fetches the page |
| BoardStore.Board.constructor | src/lib/stores/board.svelte.ts:4-9 | the columns are the initial ones; `allItems` is the given list, or else the columns' items flattened; no tags, no parent, no breadcrumb |
| BoardStore.Board.LoadTags | src/lib/stores/board.svelte.ts:11-13 | the tags are the fetched list |
| BoardStore.Board.Refresh | src/lib/stores/board.svelte.ts:15-41 | `allItems` is the fetched items and the columns are the column function of the fetched lists |
| BoardStore.Board.DrillDown | src/lib/stores/board.svelte.ts:81-87 | sets the current parent and the breadcrumb, then refreshes |
| BoardStore.Board.NavigateTo | src/lib/stores/board.svelte.ts:89-97 | sets the current parent; null empties the breadcrumb; then refreshes |
| BoardStore.Board.AddTag | src/lib/stores/board.svelte.ts:155-161 | appends the returned tag after the earlier ones and returns it |
| RateLimit.RecentOf | src/lib/server/rate-limit.ts:8 | the recent timestamps are exactly those with `now - t < 60000` |
| RateLimit.CheckSpec | src/lib/server/rate-limit.ts:5-16 | with 100 or more recent timestamps the call is limited and records nothing new; otherwise `now` is appended; other addresses are untouched |
| RateLimit.CheckKeepsBound | src/lib/server/rate-limit.ts:9-15 | no address ever holds more than 100 timestamps |
| RateLimit.PrunedSpec | src/lib/server/rate-limit.ts:19-25 | cleanup deletes addresses with no recent timestamps and keeps only recent ones for the rest |
| RateLimit.PruneStep | src/lib/server/rate-limit.ts:22-24 | one pass deletes the address when it has no recent timestamp and otherwise keeps only the recent ones |
| RateLimit.PrunedBounded | src/lib/server/rate-limit.ts:19-25 | cleanup keeps every address within 100 timestamps |
| RateLimit.RateLimiter.IsRateLimited | src/lib/server/rate-limit.ts:5-16 | the answer and the new map are those the check function gives, and the bound is kept |
| RateLimit.RateLimiter.Cleanup | src/lib/server/rate-limit.ts:19-26 | the loop leaves the pruned map |
| ThemeStore.ParseMode | src/lib/stores/theme.svelte.ts:14 | a stored value names a mode only when it is one of the three names exactly |
| ThemeStore.ParseModeName | src/lib/stores/theme.svelte.ts:14-48 | every persisted mode name reads back as that mode |
| ThemeStore.SystemTheme | src/lib/stores/theme.svelte.ts:6-9 | `light` without a window; in a browser `dark` exactly when the media query prefers dark |
| ThemeStore.LoadMode | src/lib/stores/theme.svelte.ts:11-18 | `system` without a window; the stored mode when it is valid; otherwise `system` |
| ThemeStore.ResolveSpec | src/lib/stores/theme.svelte.ts:34-36 | the resolved theme is the mode unless the mode is `system`, and then the system theme; it is never `system` |
| ThemeStore.NextCycles | src/lib/stores/theme.svelte.ts:62-66 | toggle cycles light → system → dark → light, never stays put, and three toggles return to the start |
| ThemeStore.Theme.constructor | src/lib/stores/theme.svelte.ts:20-48 | loads the mode and the system theme, then persists the mode |
| ThemeStore.Theme.Persist | src/lib/stores/theme.svelte.ts:39-48 | in a browser the storage key holds the mode's name, not the resolved theme |
| ThemeStore.Theme.SetMode | src/lib/stores/theme.svelte.ts:58-60 | sets the mode and persists it |
| ThemeStore.Theme.Toggle | src/lib/stores/theme.svelte.ts:41-66 | the mode becomes the next in the cycle; in a browser it is persisted under the theme key and no other stored key changes, and without a window storage is untouched |
| ThemeStore.Theme.SystemChanged | src/lib/stores/theme.svelte.ts:26-31 | the listener sets the system theme, and the stored mode is unchanged |
| PaletteStore.LoadPalette | src/lib/stores/palette.svelte.ts:23-30 | always a palette id; the stored id when it names a palette; `indigo` without a window or for a missing or unknown value |
| PaletteStore.Persisted | src/lib/stores/palette.svelte.ts:40-46 | `indigo` removes the storage key; another palette stores its id; no other key changes |
| PaletteStore.PersistRoundTrip | src/lib/stores/palette.svelte.ts:23-46 | a persisted palette is what the next load reads back |
| PaletteStore.Palette.constructor | src/lib/stores/palette.svelte.ts:34-47 | loads the palette and, in a browser, persists it |
| PaletteStore.Palette.SetPalette | src/lib/stores/palette.svelte.ts:49-51 | sets the palette and persists it; the palette is always one of the eight |

## Left out

- **Revision mismatch in storage calls.** The upload and item-reorder handlers pass a leading space slug to `saveFile` and `moveFile`, which the storage module shown lacks. The model calls the storage functions with their declared parameters and does not model a per-space prefix.
- Schema.InsertOrIgnore: an ignored insert advances the AUTOINCREMENT sequence, so the next new tag name skips an id. This follows SQLite's implementation, in which the rowid is drawn before the UNIQUE check. SQLite's AUTOINCREMENT documentation promises only that such ids are not reused, so the global tag ids the copy assigns are one allowed outcome among several.
- **External functions as parameters.** `slugify`, `validateSpaceSlug`, `createDb`, `slugExists` and `ensureSpaceDir` are not part of this model.
  - `slugify` and `validateSpaceSlug` are function parameters.
  - The other three act on `SpacesApi.SpaceRegistry`.
- **`GET /api/spaces`** only forwards `listSpaces` and is not modelled.
- **Board operations that only refresh.** Several board operations only send a request and then refresh: `addCategory`, `addSubcategory`, `updateCategory`, `deleteCategory`, `addItem`, `updateItem`, `deleteItem`, `reorderItems` and `uploadFile`. The request itself is I/O, so only `Refresh` is modelled. `addLink` is modelled through the request it builds.
- **`reorderCategories` on the board** (src/lib/stores/board.svelte.ts:73-78) sends the reorder request and does not refresh, so the board keeps its columns until the next refresh. Only the request is I/O, and no board state changes, so it has no member here; the handler it calls is `CategoriesReorder.Reorder`.
- **The board's `columns` setter** (src/lib/stores/board.svelte.ts:166) lets the page overwrite the columns directly, which is how dragging reorders them locally. That write is not modelled: the `Board` class changes its columns only through `Refresh`.
- **Inputs passed in as parameters:**
  - fetched API responses;
  - `Date.now`, `datetime('now')` and `CURRENT_TIMESTAMP`;
  - `randomUUID`;
  - URL parsing (`new URL`), given as an optional (hostname, pathname);
  - the result of `fetchPageMeta`, given as the page's title and description.
- **Browser effects.** DOM attributes, the 350 ms transition timeout, `matchMedia` and the `setInterval` timer are left out. Storage is a string map.
- **Concurrency and transactions.** `Promise.all`, concurrent requests and SQLite durability are not modelled. A transaction is "all or nothing" on the in-memory tables.
- **Storage.FileStore.MoveFile:** a file moved inside the item-reorder transaction is not moved back when a later move fails on the foreign key; the rows are rolled back, the files are not, as in the source.
- **Text.JsNumber** models `Number()` only for decimal integers, optionally signed and surrounded by white space. Other numeric forms (fractions, exponents, hex, `Infinity`) are NaN in the model.
- **`LIKE`** in the item search is a case-insensitive ASCII substring test. `%` and `_` inside the search text are taken literally, not as wildcards.
- **`ORDER BY` ties.** Rows with equal `sort_order` come out in id order. SQLite leaves this order unspecified.
- **`getTagsForItem`** returns tags in ascending tag id, the order of the pair table's primary key. SQLite does not promise any order without `ORDER BY`.
- **SpacesApi.LowerChar** lower-cases only the characters that can matter to a slug: ASCII capitals, U+0130 and the Kelvin sign. Every other character is kept and then replaced by a dash anyway.
- **SpacesApi.UniqueSlug:** a suffixed slug can exceed 64 characters, as in the source; the model states no length bound for it.
- **Upload.Post** files the row under the category's own id where the source uses `Number(category_id)`. The two are equal because the category was found under that number.
- **SpacesApi.SpaceRegistry.Post** uses the corrected `GenerateSlugFixed` (see Findings). With the written `GenerateSlug` it would differ only for names whose cut slug ends in a dash.
- **`fetchPageMeta`, the seed route, hook plumbing, the database singleton and the fetch wrapper** are I/O. They are not part of this model.

## Findings

| source | as written | input that shows it | evidently intended | confidence | as-written member | corrected member |
|---|---|---|---|---|---|---|
| src/routes/api/spaces/+server.ts:10-11 | dashes are stripped from both ends before the cut to 64 characters, so the cut can leave a trailing dash | a name of 63 letters `a`, a space, then `b`: the slug is 63 `a`s followed by `-` | a slug with no trailing dash, as the strip step intends | not executed | SpacesApi.GenerateSlug, SpacesApi.SlugTrailingDash | SpacesApi.GenerateSlugFixed, SpacesApi.SlugIdempotent |
