/**
  The client-side board store: the columns on screen, every item, the tag
  list, the category currently drilled into, and its breadcrumb. The
  responses the store fetches from the API are parameters of its methods.
 */
module BoardStore {
  import opened Wrappers
  import opened Types
  import Text
  import Collections
  import CategoriesApi
  import ItemsApi

  /** `initial.flatMap((c) => c.items)`: the columns' items, column after column. */
  function FlatItems(columns: seq<Column>): seq<TaggedItem> {
    if columns == [] then [] else columns[0].items + FlatItems(columns[1..])
  }

  /** An item is in the flattened list exactly when some column holds it. */
  lemma {:induction false} FlatItemsMembers(columns: seq<Column>, t: TaggedItem)
    ensures t in FlatItems(columns) <==> exists i :: 0 <= i < |columns| && t in columns[i].items
  {
    if columns != [] {
      FlatItemsMembers(columns[1..], t);
      if t in FlatItems(columns[1..]) {
        var i :| 0 <= i < |columns[1..]| && t in columns[1..][i].items;
        assert t in columns[i + 1].items;
      }
      if exists i :: 0 <= i < |columns| && t in columns[i].items {
        var i :| 0 <= i < |columns| && t in columns[i].items;
        if i > 0 { assert t in columns[1..][i - 1].items; }
      }
    }
  }

  /** The `parent_id` query parameter `refresh` sends: `'null'` at the top, else the id. */
  function ParentParam(currentParentId: Option<int>): string {
    if currentParentId.None? then "null" else Text.IntToString(currentParentId.value)
  }

  /** `refresh`'s category request lists exactly the children of the current parent (the roots at the top). */
  lemma ParentParamSelects(currentParentId: Option<int>, c: Category)
    ensures CategoriesApi.Wanted(Some(ParentParam(currentParentId)), c) <==> c.parentId == currentParentId
  {
    if currentParentId.Some? {
      var n := currentParentId.value;
      var s := Text.IntToString(n);
      Text.JsNumberOfIntToString(n);
      assert s != "null" by {
        if n < 0 { assert s[0] == '-'; } else { assert Text.IsDigit(s[0]); }
      }
    }
  }

  /** `allCats.find((c) => c.id === id)`. */
  function Find(allCats: seq<CategoryRow>, id: int): (r: Option<CategoryRow>)
    ensures r.Some? ==> r.value in allCats && r.value.category.id == id
    ensures r.None? ==> forall i :: 0 <= i < |allCats| ==> allCats[i].category.id != id
  {
    if allCats == [] then None
    else if allCats[0].category.id == id then Some(allCats[0])
    else Find(allCats[1..], id)
  }

  /** The categories shown: the fetched ones, preceded by the current parent when drilled in and it is found. */
  function DisplayCats(currentParentId: Option<int>, cats: seq<CategoryRow>, allCats: seq<CategoryRow>): (r: seq<CategoryRow>)
    ensures currentParentId.None? ==> r == cats
    ensures currentParentId.Some? && Find(allCats, currentParentId.value).Some? ==>
      r == [Find(allCats, currentParentId.value).value] + cats && r[0].category.id == currentParentId.value
    ensures currentParentId.Some? && Find(allCats, currentParentId.value).None? ==> r == cats
  {
    if currentParentId.None? then cats
    else
      var parent := Find(allCats, currentParentId.value);
      if parent.Some? then [parent.value] + cats else cats
  }

  /** The items of one column: the fetched items of that category, sorted by `sort_order`. */
  function ColumnItems(fetchedItems: seq<TaggedItem>, id: int): seq<TaggedItem> {
    Collections.SortByKey(Collections.Filter(fetchedItems, (t: TaggedItem) => t.item.categoryId == id),
                          (t: TaggedItem) => t.item.sortOrder)
  }

  /** The categories of the full list whose parent is one of the shown ones. */
  function ChildCats(display: seq<CategoryRow>, allCats: seq<CategoryRow>): seq<Category> {
    var catIds := set i | 0 <= i < |display| :: display[i].category.id;
    var all := Collections.Map(allCats, (r: CategoryRow) => r.category);
    Collections.Filter(all, (c: Category) => c.parentId.Some? && c.parentId.value in catIds)
  }

  function BoardColumn(currentParentId: Option<int>, cat: CategoryRow, fetchedItems: seq<TaggedItem>,
                       childCats: seq<Category>): Column
  {
    Column(cat.category, cat.childrenCount, ColumnItems(fetchedItems, cat.category.id),
           if Some(cat.category.id) == currentParentId then []
           else Collections.Filter(childCats, (ch: Category) => ch.parentId == Some(cat.category.id)))
  }

  /** The columns `refresh` computes from what it fetched. */
  function BoardColumns(currentParentId: Option<int>, cats: seq<CategoryRow>, fetchedItems: seq<TaggedItem>,
                        allCats: seq<CategoryRow>): seq<Column>
  {
    var display := DisplayCats(currentParentId, cats, allCats);
    var childCats := ChildCats(display, allCats);
    Collections.Map(display, (cat: CategoryRow) => BoardColumn(currentParentId, cat, fetchedItems, childCats))
  }

  /**
    Each column shows, in ascending `sort_order`, exactly the fetched items
    of its category, as often as they were fetched.
   */
  lemma ColumnItemsSpec(fetchedItems: seq<TaggedItem>, id: int)
    ensures Collections.SortedByKey(ColumnItems(fetchedItems, id), (t: TaggedItem) => t.item.sortOrder)
    ensures forall t :: t in ColumnItems(fetchedItems, id) <==> t in fetchedItems && t.item.categoryId == id
    ensures forall t :: multiset(ColumnItems(fetchedItems, id))[t]
                        == if t.item.categoryId == id then multiset(fetchedItems)[t] else 0
  {
    var p := (t: TaggedItem) => t.item.categoryId == id;
    var f := Collections.Filter(fetchedItems, p);
    forall t ensures multiset(ColumnItems(fetchedItems, id))[t] == if p(t) then multiset(fetchedItems)[t] else 0 {
      Collections.FilterMultiset(fetchedItems, p, t);
    }
    forall t ensures t in ColumnItems(fetchedItems, id) <==> t in fetchedItems && t.item.categoryId == id {
      assert t in ColumnItems(fetchedItems, id) <==> t in multiset(f);
      if t in fetchedItems && p(t) {
        var i :| 0 <= i < |fetchedItems| && fetchedItems[i] == t;
      }
    }
  }

  /**
    The column of the current parent lists no children; every other column
    lists, in the order of the full category list, exactly the categories
    whose parent it is.
   */
  lemma ColumnChildrenSpec(currentParentId: Option<int>, cats: seq<CategoryRow>, fetchedItems: seq<TaggedItem>,
                           allCats: seq<CategoryRow>, i: int)
    requires 0 <= i < |DisplayCats(currentParentId, cats, allCats)|
    ensures var col := BoardColumns(currentParentId, cats, fetchedItems, allCats)[i];
      var id := DisplayCats(currentParentId, cats, allCats)[i].category.id;
      && col.category.id == id
      && (Some(id) == currentParentId ==> col.children == [])
      && (Some(id) != currentParentId ==>
            col.children == Collections.Filter(Collections.Map(allCats, (r: CategoryRow) => r.category),
                                               (c: Category) => c.parentId == Some(id)))
  {
    var display := DisplayCats(currentParentId, cats, allCats);
    var id := display[i].category.id;
    var catIds := set j | 0 <= j < |display| :: display[j].category.id;
    assert id in catIds;
    var all := Collections.Map(allCats, (r: CategoryRow) => r.category);
    var inShown := (c: Category) => c.parentId.Some? && c.parentId.value in catIds;
    var ofId := (c: Category) => c.parentId == Some(id);
    FilterOfFilter(all, inShown, ofId);
  }

  /** Filtering twice, where the second condition implies the first, is filtering once. */
  lemma {:induction false} FilterOfFilter<T>(s: seq<T>, p: T -> bool, q: T -> bool)
    requires forall x :: q(x) ==> p(x)
    ensures Collections.Filter(Collections.Filter(s, p), q) == Collections.Filter(s, q)
  {
    if s != [] {
      FilterOfFilter(s[1..], p, q);
    }
  }

  /** `addLink`'s title: hostname and path when the URL parses, else the URL itself. */
  function LinkTitle(url: string, parsed: Option<(string, string)>): string {
    if parsed.Some? then parsed.value.0 + parsed.value.1 else url
  }

  /**
    The request `addLink` sends: a link in the given category, titled by
    `LinkTitle`, with the URL as content, asking the server to fetch the
    page's title.
   */
  function LinkRequest(url: string, categoryId: int, parsed: Option<(string, string)>): (r: ItemsApi.NewItem)
    ensures r.categoryId == Some(categoryId) && r.itemType == Some("link") && r.content == Some(url) && r.fetchTitle
    ensures r.title == Some(if parsed.Some? then parsed.value.0 + parsed.value.1 else url)
    ensures r.description == None && r.tags == None
  {
    ItemsApi.NewItem(Some(categoryId), Some("link"), Some(LinkTitle(url, parsed)), Some(url), None, None, true)
  }

  /** Whenever the link has a non-zero category and a non-empty title, the server accepts it as a link it fetches. */
  lemma LinkRequestAccepted(url: string, categoryId: int, parsed: Option<(string, string)>)
    requires categoryId != 0 && LinkTitle(url, parsed) != "" && url != ""
    ensures ItemsApi.HasRequired(LinkRequest(url, categoryId, parsed))
    ensures ItemsApi.FetchesPage(LinkRequest(url, categoryId, parsed))
  {
  }

  class Board {
    var columns: seq<Column>
    var allItems: seq<TaggedItem>
    var allTags: seq<Tag>
    var currentParentId: Option<int>
    var breadcrumb: seq<BreadcrumbSegment>

    /** `createBoardStore(initial, initialAllItems)`. */
    constructor (initial: seq<Column>, initialAllItems: Option<seq<TaggedItem>>)
      ensures columns == initial
      ensures allItems == if initialAllItems.Some? then initialAllItems.value else FlatItems(initial)
      ensures allTags == [] && currentParentId == None && breadcrumb == []
    {
      columns := initial;
      allItems := if initialAllItems.Some? then initialAllItems.value else FlatItems(initial);
      allTags := [];
      currentParentId := None;
      breadcrumb := [];
    }

    /** `loadTags`, given the fetched tag list. */
    method LoadTags(fetched: seq<Tag>)
      modifies this`allTags
      ensures allTags == fetched
    {
      allTags := fetched;
    }

    /**
      `refresh`, given the three responses: the categories under the current
      parent, every item, and every category.
     */
    method Refresh(cats: seq<CategoryRow>, fetchedItems: seq<TaggedItem>, allCats: seq<CategoryRow>)
      modifies this`allItems, this`columns
      ensures allItems == fetchedItems
      ensures columns == BoardColumns(currentParentId, cats, fetchedItems, allCats)
    {
      allItems := fetchedItems;
      columns := BoardColumns(currentParentId, cats, fetchedItems, allCats);
    }

    /** `drillDown(categoryId)`, given the breadcrumb and the refresh responses. */
    method DrillDown(categoryId: int, fetchedBreadcrumb: seq<BreadcrumbSegment>,
                     cats: seq<CategoryRow>, fetchedItems: seq<TaggedItem>, allCats: seq<CategoryRow>)
      modifies this`currentParentId, this`breadcrumb, this`allItems, this`columns
      ensures currentParentId == Some(categoryId) && breadcrumb == fetchedBreadcrumb
      ensures allItems == fetchedItems
      ensures columns == BoardColumns(Some(categoryId), cats, fetchedItems, allCats)
    {
      currentParentId := Some(categoryId);
      Refresh(cats, fetchedItems, allCats);
      breadcrumb := fetchedBreadcrumb;
    }

    /**
      `navigateTo(parentId)`: the top level empties the breadcrumb; a
      category takes the fetched one. Then the board refreshes.
     */
    method NavigateTo(parentId: Option<int>, fetchedBreadcrumb: seq<BreadcrumbSegment>,
                      cats: seq<CategoryRow>, fetchedItems: seq<TaggedItem>, allCats: seq<CategoryRow>)
      modifies this`currentParentId, this`breadcrumb, this`allItems, this`columns
      ensures currentParentId == parentId
      ensures breadcrumb == if parentId.None? then [] else fetchedBreadcrumb
      ensures allItems == fetchedItems
      ensures columns == BoardColumns(parentId, cats, fetchedItems, allCats)
    {
      currentParentId := parentId;
      if parentId.None? {
        breadcrumb := [];
      } else {
        breadcrumb := fetchedBreadcrumb;
      }
      Refresh(cats, fetchedItems, allCats);
    }

    /** `addTag`, given the created tag: it goes at the end of the list. */
    method AddTag(tag: Tag) returns (r: Tag)
      modifies this`allTags
      ensures allTags == old(allTags) + [tag] && r == tag
    {
      allTags := allTags + [tag];
      r := tag;
    }
  }
}
