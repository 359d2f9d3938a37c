/**
  `PUT /api/items/reorder`: a batch of moves, each giving an item its new
  category and `sort_order`. A document that changes category has its file
  moved into the new category's directory, and the row records the new path.
 */
module ItemsReorder {
  import opened Wrappers
  import opened Types
  import opened Database
  import opened Storage
  import Text
  import Collections

  const BadMoves := "moves must be a non-empty array"

  /** The rows of `items` together with the storage tree, which a move changes jointly. */
  datatype Board = Board(items: map<int, Item>, files: map<string, Bytes>, dirs: set<string>)

  /** The file of `item` is relocated by `m`: the category changes, the item has a file, the target exists. */
  predicate Relocates(cats: map<int, Category>, item: Item, m: ReorderMove) {
    m.categoryId != item.categoryId && Text.Truthy(item.filePath) && m.categoryId in cats
  }

  /**
    The `UPDATE` for `m` fails on the foreign key `items.category_id →
    categories(id)`: the item exists and the category it is moved to does
    not. SQLite checks a key column named in `SET` even when its value is
    unchanged.
   */
  predicate Violates(cats: map<int, Category>, items: map<int, Item>, m: ReorderMove) {
    m.id in items && m.categoryId !in cats
  }

  /**
    One iteration of the loop: the item is read again (so an earlier move of
    the same id is seen), skipped when it does not exist, otherwise updated
    with `file_path = COALESCE(newFilePath, file_path)`. None when the
    update fails on the foreign key; no file has moved then, since a file
    moves only into an existing category.
   */
  function ApplyMove(cats: map<int, Category>, b: Board, m: ReorderMove, now: string): Option<Board> {
    if m.id !in b.items then Some(b)
    else if m.categoryId !in cats then None
    else
      var item := b.items[m.id];
      var moved := item.(categoryId := m.categoryId, sortOrder := m.sortOrder, updatedAt := now);
      if Relocates(cats, item, m) then
        var path := item.filePath.value;
        var slug := cats[m.categoryId].slug;
        Some(Board(b.items[m.id := moved.(filePath := Some(MovedPath(b.files, path, slug)))],
                   FilesAfterMove(b.files, path, slug),
                   DirsAfterMove(b.files, b.dirs, path, slug)))
      else
        Some(Board(b.items[m.id := moved], b.files, b.dirs))
  }

  /**
    The loop over a batch: `failed` tells whether some `UPDATE` failed, and
    `board` is the state after every move, or, on a failure, the state the
    moves before the failing one left.
   */
  datatype Run = Run(board: Board, failed: bool)

  /** The loop over `moves[0]`, …, in array order, stopping at the first failing move. */
  function ApplyMoves(cats: map<int, Category>, b: Board, moves: seq<ReorderMove>, now: string): (r: Run)
    ensures r.board.items.Keys == b.items.Keys
    ensures forall k :: k in r.board.items ==> r.board.items[k].id == b.items[k].id
  {
    if moves == [] then Run(b, false)
    else
      var prev := ApplyMoves(cats, b, moves[..|moves| - 1], now);
      if prev.failed then prev
      else
        var next := ApplyMove(cats, prev.board, moves[|moves| - 1], now);
        if next.None? then Run(prev.board, true) else Run(next.value, false)
  }

  /** The ids a batch names. */
  function MovedIds(moves: seq<ReorderMove>): seq<int> {
    Collections.Map(moves, (m: ReorderMove) => m.id)
  }

  /**
    One move of a missing item changes nothing, and a move of an existing
    item to a missing category fails. Otherwise the item gets exactly its
    new category and `sort_order`; its `file_path` changes only when the
    file is relocated, and then to the path `moveFile` returns; every other
    row is unchanged.
   */
  lemma ApplyMoveSpec(cats: map<int, Category>, b: Board, m: ReorderMove, now: string)
    ensures m.id !in b.items ==> ApplyMove(cats, b, m, now) == Some(b)
    ensures ApplyMove(cats, b, m, now).None? <==> Violates(cats, b.items, m)
    ensures m.id in b.items && m.categoryId in cats ==>
      var r := ApplyMove(cats, b, m, now).value;
      var item := b.items[m.id];
      && r.items.Keys == b.items.Keys
      && r.items[m.id].categoryId == m.categoryId && r.items[m.id].sortOrder == m.sortOrder
      && r.items[m.id].title == item.title && r.items[m.id].content == item.content
      && (r.items[m.id].filePath != item.filePath ==> Relocates(cats, item, m))
      && (Relocates(cats, item, m) ==>
            r.items[m.id].filePath == Some(MovedPath(b.files, item.filePath.value, cats[m.categoryId].slug)))
      && (!Relocates(cats, item, m) ==> r.files == b.files && r.dirs == b.dirs)
      && (forall k :: k in b.items && k != m.id ==> r.items[k] == b.items[k])
  {
  }

  /** A move fails exactly when it violates the foreign key. */
  lemma MoveFails(cats: map<int, Category>, b: Board, m: ReorderMove, now: string)
    ensures ApplyMove(cats, b, m, now).None? <==> Violates(cats, b.items, m)
  {
  }

  /** The row `k` after one move that does not fail. */
  lemma ApplyMoveAt(cats: map<int, Category>, b: Board, m: ReorderMove, now: string, k: int)
    requires k in b.items
    ensures ApplyMove(cats, b, m, now).Some? ==>
      var r := ApplyMove(cats, b, m, now).value.items;
      && k in r
      && (m.id != k ==> r[k] == b.items[k])
      && (m.id == k ==> r[k].categoryId == m.categoryId && r[k].sortOrder == m.sortOrder)
  {
  }

  /** One more pass of the loop, when no earlier move has failed. */
  lemma ApplyMovesStep(cats: map<int, Category>, b: Board, moves: seq<ReorderMove>, now: string, i: int)
    requires 0 <= i < |moves|
    ensures var prev := ApplyMoves(cats, b, moves[..i], now);
      var next := ApplyMove(cats, prev.board, moves[i], now);
      !prev.failed ==>
        ApplyMoves(cats, b, moves[..i + 1], now) == if next.None? then Run(prev.board, true) else Run(next.value, false)
  {
    var s := moves[..i + 1];
    assert s[..|s| - 1] == moves[..i] && s[|s| - 1] == moves[i];
  }

  /** Once a move has failed, the later moves do not run. */
  lemma {:induction false} FailedStays(cats: map<int, Category>, b: Board, moves: seq<ReorderMove>, now: string, j: int)
    requires 0 <= j <= |moves| && ApplyMoves(cats, b, moves[..j], now).failed
    ensures ApplyMoves(cats, b, moves, now) == ApplyMoves(cats, b, moves[..j], now)
    decreases |moves|
  {
    if j < |moves| {
      var n := |moves| - 1;
      var init := moves[..n];
      assert init[..j] == moves[..j];
      FailedStays(cats, b, init, now, j);
    } else {
      assert moves[..j] == moves;
    }
  }

  /** Some move of a non-empty batch violates the key exactly when one before the last does or the last does. */
  lemma AnyViolatesSnoc(cats: map<int, Category>, items: map<int, Item>, moves: seq<ReorderMove>)
    requires moves != []
    ensures var n := |moves| - 1;
      (exists i :: 0 <= i < |moves| && Violates(cats, items, moves[i]))
        <==> (exists i :: 0 <= i < n && Violates(cats, items, moves[..n][i])) || Violates(cats, items, moves[n])
  {
    var n := |moves| - 1;
    var init := moves[..n];
    if exists i :: 0 <= i < |moves| && Violates(cats, items, moves[i]) {
      var i :| 0 <= i < |moves| && Violates(cats, items, moves[i]);
      if i < n { assert init[i] == moves[i]; }
    }
    if exists i :: 0 <= i < n && Violates(cats, items, init[i]) {
      var i :| 0 <= i < n && Violates(cats, items, init[i]);
      assert moves[i] == init[i];
    }
  }

  /**
    A batch fails exactly when one of its moves names an existing item and
    a missing category: the set of item ids never changes, so whether a
    move fails does not depend on the moves before it.
   */
  lemma {:induction false} BatchFails(cats: map<int, Category>, b: Board, moves: seq<ReorderMove>, now: string)
    ensures ApplyMoves(cats, b, moves, now).failed <==>
      exists i :: 0 <= i < |moves| && Violates(cats, b.items, moves[i])
  {
    if moves != [] {
      var n := |moves| - 1;
      var init := moves[..n];
      BatchFails(cats, b, init, now);
      var prev := ApplyMoves(cats, b, init, now);
      MoveFails(cats, prev.board, moves[n], now);
      AnyViolatesSnoc(cats, b.items, moves);
    }
  }

  /**
    Over a whole batch that does not fail: an item no move names is
    unchanged, and an item that is named takes the category and
    `sort_order` of the LAST move naming it.
   */
  lemma {:induction false} ApplyMovesAt(cats: map<int, Category>, b: Board, moves: seq<ReorderMove>,
                                        now: string, k: int)
    requires k in b.items
    ensures var r := ApplyMoves(cats, b, moves, now);
      var i := Collections.LastIndex(MovedIds(moves), k);
      && (!r.failed && i == -1 ==> r.board.items[k] == b.items[k])
      && (!r.failed && i >= 0 ==>
            r.board.items[k].categoryId == moves[i].categoryId && r.board.items[k].sortOrder == moves[i].sortOrder)
  {
    if moves != [] {
      var n := |moves| - 1;
      var init := moves[..n];
      ApplyMovesAt(cats, b, init, now, k);
      var prev := ApplyMoves(cats, b, init, now);
      ApplyMoveAt(cats, prev.board, moves[n], now, k);
      var ids := MovedIds(moves);
      assert ids[..n] == MovedIds(init);
      assert ids[n] == moves[n].id;
      if moves[n].id != k {
        assert Collections.LastIndex(ids, k) == Collections.LastIndex(ids[..n], k);
      }
    }
  }

  const ReorderFailed := "Failed to reorder items"

  /**
    `PUT`: a missing or empty `moves` (None stands for a field that is absent
    or not an array) is refused with 400 before anything is read; otherwise
    the moves run in array order against the category table and the reply
    is `{ success: true }`. When an `UPDATE` fails the transaction rolls the
    rows back and the reply is 500; files the earlier moves relocated stay
    where they went. `now` is `CURRENT_TIMESTAMP`.
   */
  method Reorder(db: Db, fs: FileStore, moves: Option<seq<ReorderMove>>, now: string)
    returns (resp: Response<bool>)
    requires db.Valid()
    modifies db`items, fs
    ensures db.Valid()
    ensures (moves.None? || moves.value == []) ==>
      && resp == Error(400, BadMoves)
      && db.items == old(db.items) && fs.files == old(fs.files) && fs.dirs == old(fs.dirs)
    ensures moves.Some? && moves.value != [] ==>
      var run := ApplyMoves(db.categories, Board(old(db.items), old(fs.files), old(fs.dirs)), moves.value, now);
      && (run.failed ==>
            resp == Error(500, ReorderFailed) && db.items == old(db.items)
            && fs.files == run.board.files && fs.dirs == run.board.dirs)
      && (!run.failed ==> resp == Ok(200, true) && Board(db.items, fs.files, fs.dirs) == run.board)
  {
    if moves.None? || |moves.value| == 0 {
      return Error(400, BadMoves);
    }
    var items0 := db.items;
    var ok := RunBatch(db, fs, moves.value, now);
    if !ok {
      // The transaction rolls back: the rows return to their state before the batch.
      db.items := items0;
      return Error(500, ReorderFailed);
    }
    resp := Ok(200, true);
  }

  /**
    The transaction's loop: false when a move fails, after which no later
    move runs. The rows are then those the earlier moves left, until the
    caller rolls them back.
   */
  method RunBatch(db: Db, fs: FileStore, batch: seq<ReorderMove>, now: string) returns (ok: bool)
    requires db.Valid()
    modifies db`items, fs
    ensures db.Valid()
    ensures var run := ApplyMoves(db.categories, Board(old(db.items), old(fs.files), old(fs.dirs)), batch, now);
      && ok == !run.failed
      && fs.files == run.board.files && fs.dirs == run.board.dirs
      && (ok ==> db.items == run.board.items)
  {
    ghost var b0 := Board(db.items, fs.files, fs.dirs);
    for i := 0 to |batch|
      invariant !ApplyMoves(db.categories, b0, batch[..i], now).failed
      invariant Board(db.items, fs.files, fs.dirs) == ApplyMoves(db.categories, b0, batch[..i], now).board
      invariant db.Valid()
    {
      ApplyMovesStep(db.categories, b0, batch, now, i);
      ok := MoveOne(db, fs, batch[i], now);
      if !ok {
        FailedStays(db.categories, b0, batch, now, i + 1);
        return false;
      }
    }
    assert batch[..|batch|] == batch;
    ok := true;
  }

  /** One iteration of the loop in `PUT`; false when its `UPDATE` fails, which then writes nothing. */
  method MoveOne(db: Db, fs: FileStore, m: ReorderMove, now: string) returns (ok: bool)
    requires db.Valid()
    modifies db`items, fs
    ensures db.Valid()
    ensures ok <==> ApplyMove(db.categories, Board(old(db.items), old(fs.files), old(fs.dirs)), m, now).Some?
    ensures ok ==>
      Board(db.items, fs.files, fs.dirs) == ApplyMove(db.categories, Board(old(db.items), old(fs.files), old(fs.dirs)), m, now).value
    ensures !ok ==> db.items == old(db.items) && fs.files == old(fs.files) && fs.dirs == old(fs.dirs)
  {
    ok := true;
    if m.id in db.items {
      var item := db.items[m.id];
      var newFilePath: Option<string> := None;
      if m.categoryId != item.categoryId && Text.Truthy(item.filePath) {
        if m.categoryId in db.categories {
          var newCategory := db.categories[m.categoryId];
          var p := fs.MoveFile(item.filePath.value, newCategory.slug);
          newFilePath := Some(p);
        }
      }
      if m.categoryId !in db.categories {
        // FOREIGN KEY constraint failed
        return false;
      }
      var filePath := if newFilePath.Some? then newFilePath else item.filePath;
      db.items := db.items[m.id := item.(categoryId := m.categoryId, sortOrder := m.sortOrder,
                                         filePath := filePath, updatedAt := now)];
    }
  }
}
