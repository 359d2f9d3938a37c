/**
  `POST /api/items/upload`: a multipart form carrying a file for a category.
  The guards run in a fixed order; once they pass, the file is stored under
  the category's directory and a `document` item records it.
 */
module Upload {
  import opened Wrappers
  import opened Types
  import opened Database
  import opened Storage
  import Text

  /** 1 GB: the largest file accepted. */
  const MaxFileSize: int := 1024 * 1024 * 1024
  const DefaultMimeType := "application/octet-stream"
  const FileRequired := "File is required"
  const FileTooLarge := "File size exceeds the 1 GB limit"
  const CategoryRequired := "category_id is required"
  const CategoryNotFound := "Category not found"

  /** An uploaded file: its name, its declared MIME type ("" when unknown) and its contents. */
  datatype UploadFile = UploadFile(name: string, mimeType: string, data: Bytes)

  /** The form fields; None stands for a field the form lacks. */
  datatype UploadForm = UploadForm(
    file: Option<UploadFile>,
    categoryId: Option<string>,
    title: Option<string>,
    description: Option<string>)

  /** What the guards decide: a rejection, or the category the file goes to. */
  datatype Admission = Reject(status: int, message: string) | Accept(category: Category)

  /** The guards in the order the handler runs them. */
  function Admit(form: UploadForm, cats: map<int, Category>): Admission {
    if form.file.None? then Reject(400, FileRequired)
    else if |form.file.value.data| > MaxFileSize then Reject(413, FileTooLarge)
    else if !Text.Truthy(form.categoryId) then Reject(400, CategoryRequired)
    else
      var n := Text.JsNumber(form.categoryId.value);
      if n.None? || n.value !in cats then Reject(404, CategoryNotFound)
      else Accept(cats[n.value])
  }

  /**
    The guards' order and bounds: no file is 400 whatever else is wrong; a
    file larger than 1 GB is 413 even without a category; a file of exactly
    1 GB passes the size guard; a missing category id is 400 and an unknown
    one 404; an admitted form names a stored category.
   */
  lemma AdmitOrder(form: UploadForm, cats: map<int, Category>)
    ensures form.file.None? ==> Admit(form, cats) == Reject(400, FileRequired)
    ensures Admit(form, cats) == Reject(413, FileTooLarge) <==>
      form.file.Some? && |form.file.value.data| > MaxFileSize
    ensures Admit(form, cats) == Reject(400, CategoryRequired) <==>
      form.file.Some? && |form.file.value.data| <= MaxFileSize && !Text.Truthy(form.categoryId)
    ensures Admit(form, cats).Accept? <==>
      && form.file.Some? && |form.file.value.data| <= MaxFileSize && Text.Truthy(form.categoryId)
      && Text.JsNumber(form.categoryId.value).Some? && Text.JsNumber(form.categoryId.value).value in cats
    ensures Admit(form, cats).Accept? ==>
      Admit(form, cats).category == cats[Text.JsNumber(form.categoryId.value).value]
  {
  }

  /**
    The row inserted for an admitted upload: a `document` with no content,
    titled by the form or else by the file name, an empty description
    stored as NULL, and the MIME type defaulting to
    `application/octet-stream`.
   */
  function DocumentRow(id: int, category: Category, form: UploadForm, filePath: string, fileName: string,
                       sortOrder: int, now: string): (r: Item)
    requires form.file.Some?
    ensures r.id == id && r.categoryId == category.id
    ensures r.itemType == "document" && r.content == None
    ensures r.title == (if Text.Truthy(form.title) then form.title.value else form.file.value.name)
    ensures r.description == Text.OrNull(form.description)
    ensures r.mimeType == Some(if form.file.value.mimeType != "" then form.file.value.mimeType else DefaultMimeType)
    ensures r.fileSize == Some(|form.file.value.data|)
  {
    var file := form.file.value;
    Item(id, category.id, "document",
         if Text.Truthy(form.title) then form.title.value else file.name,
         None, Some(filePath), Some(fileName), Some(|file.data|),
         Some(if file.mimeType != "" then file.mimeType else DefaultMimeType),
         Text.OrNull(form.description), sortOrder, 0, now, now)
  }

  /**
    `POST`. A rejected form changes nothing, in particular no file is saved
    for an unknown category. An admitted one saves the file as
    `<category-slug>/<uuid><ext>`, inserts the document row at the end of
    the category under the next id, and returns it with an empty tag list.
    `uuid` is the generated file id and `now` is `datetime('now')`.
   */
  method Post(db: Db, fs: FileStore, form: UploadForm, uuid: string, now: string)
    returns (resp: Response<TaggedItem>)
    requires db.Valid()
    modifies db`items, db`lastItemId, fs
    ensures db.Valid()
    ensures Admit(form, db.categories).Reject? ==>
      && resp == Error(Admit(form, db.categories).status, Admit(form, db.categories).message)
      && db.items == old(db.items) && db.lastItemId == old(db.lastItemId)
      && fs.files == old(fs.files) && fs.dirs == old(fs.dirs)
    ensures Admit(form, db.categories).Accept? ==>
      var c := Admit(form, db.categories).category;
      var file := form.file.value;
      var path := Join(c.slug, uuid + Extname(file.name));
      var id := old(db.lastItemId) + 1;
      var row := DocumentRow(id, c, form, path, file.name, NextSortOrder(ItemOrders(old(db.items), c.id)), now);
      && fs.files == old(fs.files)[path := file.data]
      && fs.dirs == old(fs.dirs) + {c.slug}
      && db.items == old(db.items)[id := row]
      && db.lastItemId == id
      && resp == Ok(201, TaggedItem(row, []))
  {
    match Admit(form, db.categories)
    case Reject(status, message) =>
      resp := Error(status, message);
    case Accept(category) =>
      resp := Store(db, fs, category, form.file.value, form, uuid, now);
  }

  /** Where `saveFile` puts an upload: `<category-slug>/<uuid><ext>`. */
  function StoredPath(category: Category, file: UploadFile, uuid: string): string {
    Join(category.slug, uuid + Extname(file.name))
  }

  /** The document row an admitted upload inserts under `id`, last in its category. */
  function StoredRow(items: map<int, Item>, id: int, category: Category, form: UploadForm, uuid: string, now: string): Item
    requires form.file.Some?
  {
    var file := form.file.value;
    DocumentRow(id, category, form, StoredPath(category, file, uuid), file.name,
                NextSortOrder(ItemOrders(items, category.id)), now)
  }

  /** The admitted branch: save the file, then insert and return its row. */
  method Store(db: Db, fs: FileStore, category: Category, file: UploadFile, form: UploadForm,
               uuid: string, now: string)
    returns (resp: Response<TaggedItem>)
    requires db.Valid() && form.file == Some(file)
    modifies db`items, db`lastItemId, fs
    ensures db.Valid()
    ensures fs.files == old(fs.files)[StoredPath(category, file, uuid) := file.data]
    ensures fs.dirs == old(fs.dirs) + {category.slug}
    ensures db.lastItemId == old(db.lastItemId) + 1
    ensures db.items == old(db.items)[db.lastItemId := StoredRow(old(db.items), db.lastItemId, category, form, uuid, now)]
    ensures resp == Ok(201, TaggedItem(db.items[db.lastItemId], []))
  {
    var filePath, fileName := fs.SaveFile(category.slug, file.name, file.data, uuid);
    var row := InsertDocument(db, category, form, filePath, fileName, now);
    resp := Ok(201, TaggedItem(row, []));
  }

  /** `INSERT INTO items …` for the document row, last in its category. */
  method InsertDocument(db: Db, category: Category, form: UploadForm, filePath: string, fileName: string,
                        now: string)
    returns (row: Item)
    requires db.Valid() && form.file.Some?
    modifies db`items, db`lastItemId
    ensures db.Valid()
    ensures db.lastItemId == old(db.lastItemId) + 1
    ensures row == DocumentRow(db.lastItemId, category, form, filePath, fileName,
                               NextSortOrder(ItemOrders(old(db.items), category.id)), now)
    ensures db.items == old(db.items)[db.lastItemId := row]
  {
    var sortOrder := NextSortOrder(ItemOrders(db.items, category.id));
    var id := db.lastItemId + 1;
    row := DocumentRow(id, category, form, filePath, fileName, sortOrder, now);
    ghost var before := db.items;
    db.items := db.items[id := row];
    db.lastItemId := id;
    assert forall k :: k in db.items ==> db.items[k].id == k && k <= db.lastItemId by {
      forall k | k in db.items ensures db.items[k].id == k && k <= db.lastItemId {
        if k != id { assert k in before; }
      }
    }
  }
}
