/**
  The board's rows and API shapes: categories, items, tags and their
  association, the category-with-items column, a reorder move, a
  breadcrumb segment, a space, and the JSON response of a handler.
 */
module Types {
  import opened Wrappers

  /** Raw file contents. */
  type Bytes = seq<bv8>

  /** A category row; `parentId` None is a root category. */
  datatype Category = Category(
    id: int,
    name: string,
    slug: string,
    color: string,
    sortOrder: int,
    parentId: Option<int>,
    createdAt: string,
    updatedAt: string)

  /**
    An item row. `itemType` is the text of the `type` column ('link', 'note'
    or 'document'); the file columns are set for uploaded documents only.
   */
  datatype Item = Item(
    id: int,
    categoryId: int,
    itemType: string,
    title: string,
    content: Option<string>,
    filePath: Option<string>,
    fileName: Option<string>,
    fileSize: Option<int>,
    mimeType: Option<string>,
    description: Option<string>,
    sortOrder: int,
    isPinned: int,
    createdAt: string,
    updatedAt: string)

  /** The `sort_order` column of `categories`, as an `ORDER BY` key. */
  function CategoryOrder(c: Category): int { c.sortOrder }

  /** The `sort_order` column of `items`, as an `ORDER BY` key. */
  function ItemOrder(it: Item): int { it.sortOrder }

  datatype Tag = Tag(id: int, name: string, color: string)

  /** A row of `item_tags`: the pair is the table's primary key. */
  datatype ItemTag = ItemTag(itemId: int, tagId: int)

  /** An item as the API returns it, with its `tags` list attached. */
  datatype TaggedItem = TaggedItem(item: Item, tags: seq<Tag>)

  /** A category as the listing queries return it, with `children_count`. */
  datatype CategoryRow = CategoryRow(category: Category, childrenCount: int)

  /** CategoryWithItems: one board column. */
  datatype Column = Column(
    category: Category,
    childrenCount: int,
    items: seq<TaggedItem>,
    children: seq<Category>)

  /** One entry of an item reorder batch. */
  datatype ReorderMove = ReorderMove(id: int, categoryId: int, sortOrder: int)

  datatype BreadcrumbSegment = BreadcrumbSegment(id: Option<int>, name: string)

  datatype Space = Space(slug: string, name: string)

  /** A handler's reply: a JSON body with a success status, or `{ error }` with an error status. */
  datatype Response<+T> = Ok(status: int, body: T) | Error(status: int, message: string)
}
