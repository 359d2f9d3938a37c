/**
  `PUT /api/categories/reorder`: the request lists category ids in their new
  order and each listed category gets its position plus one as `sort_order`,
  inside one transaction.
 */
module CategoriesReorder {
  import opened Wrappers
  import opened Types
  import opened Database
  import Collections

  const BadOrderedIds := "orderedIds must be a non-empty array"

  /** One `UPDATE categories SET sort_order = ?, updated_at = … WHERE id = ?`: no row, no change. */
  function SetSortOrder(cats: map<int, Category>, id: int, order: int, now: string): map<int, Category> {
    if id in cats then cats[id := cats[id].(sortOrder := order, updatedAt := now)] else cats
  }

  /** The table after the updates for `ids[0]`, …, `ids[|ids| - 1]`, in that order. */
  function Reordered(cats: map<int, Category>, ids: seq<int>, now: string): (r: map<int, Category>)
    ensures r.Keys == cats.Keys
    ensures forall k :: k in r ==> r[k].id == cats[k].id
  {
    if ids == [] then cats
    else SetSortOrder(Reordered(cats, ids[..|ids| - 1], now), ids[|ids| - 1], |ids|, now)
  }

  /** One more pass of the update loop: the update for `ids[i]` with order `i + 1`. */
  lemma ReorderedStep(cats: map<int, Category>, ids: seq<int>, now: string, i: int)
    requires 0 <= i < |ids|
    ensures Reordered(cats, ids[..i + 1], now) == SetSortOrder(Reordered(cats, ids[..i], now), ids[i], i + 1, now)
  {
    var s := ids[..i + 1];
    assert s[..|s| - 1] == ids[..i] && s[|s| - 1] == ids[i];
  }

  /**
    Each category takes its position plus one from the LAST place it is
    listed, and only `sort_order` and `updated_at` change; a category that is
    not listed is unchanged, and a listed id with no row adds none.
   */
  lemma {:induction false} ReorderedAt(cats: map<int, Category>, ids: seq<int>, now: string, k: int)
    requires k in cats
    ensures var i := Collections.LastIndex(ids, k);
      Reordered(cats, ids, now)[k]
        == if i >= 0 then cats[k].(sortOrder := i + 1, updatedAt := now) else cats[k]
  {
    if ids != [] {
      var n := |ids| - 1;
      ReorderedAt(cats, ids[..n], now, k);
      if ids[n] != k {
        assert Collections.LastIndex(ids, k) == Collections.LastIndex(ids[..n], k);
      }
    }
  }

  /** With distinct ids that all exist, the listed categories get exactly the orders 1..n, in list order. */
  lemma Dense(cats: map<int, Category>, ids: seq<int>, now: string)
    requires Collections.Distinct(ids)
    requires forall i :: 0 <= i < |ids| ==> ids[i] in cats
    ensures var r := Reordered(cats, ids, now);
      forall i :: 0 <= i < |ids| ==> r[ids[i]].sortOrder == i + 1
  {
    var r := Reordered(cats, ids, now);
    forall i | 0 <= i < |ids| ensures r[ids[i]].sortOrder == i + 1 {
      ReorderedAt(cats, ids, now, ids[i]);
      var j := Collections.LastIndex(ids, ids[i]);
      assert j == i;
    }
  }

  /**
    `PUT`: a missing or empty `orderedIds` (None stands for a body field that
    is absent or not an array) is refused with 400 before the database is
    touched; otherwise the updates run in list order and the reply is
    `{ success: true }`. `now` is `CURRENT_TIMESTAMP`.
   */
  method Reorder(db: Db, orderedIds: Option<seq<int>>, now: string) returns (resp: Response<bool>)
    requires db.Valid()
    modifies db`categories
    ensures db.Valid()
    ensures (orderedIds.None? || orderedIds.value == []) ==>
      resp == Error(400, BadOrderedIds) && db.categories == old(db.categories)
    ensures orderedIds.Some? && orderedIds.value != [] ==>
      resp == Ok(200, true) && db.categories == Reordered(old(db.categories), orderedIds.value, now)
  {
    if orderedIds.None? || |orderedIds.value| == 0 {
      return Error(400, BadOrderedIds);
    }
    var ids := orderedIds.value;
    ghost var cats0 := db.categories;
    for i := 0 to |ids|
      invariant db.categories == Reordered(cats0, ids[..i], now)
    {
      ReorderedStep(cats0, ids, now, i);
      db.categories := SetSortOrder(db.categories, ids[i], i + 1, now);
    }
    assert ids[..|ids|] == ids;
    resp := Ok(200, true);
  }
}
