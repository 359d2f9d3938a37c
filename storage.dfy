/**
  The storage tree for uploaded documents: a file is saved under
  `<category-slug>/<uuid><ext>`, moved between category directories keeping
  its base name, and deleted singly or with its whole category directory.
  Paths are relative to the storage root. The path helpers follow Node's
  POSIX `path` module for paths without `.`/`..` segments or repeated
  separators: `join` is concatenation with one `/`.
 */
module Storage {
  import opened Types

  // ---------------------------------------------------------------------------
  // Path arithmetic

  /** `path.join(dir, name)` for a normalised `dir` and a single-segment `name`. */
  function Join(dir: string, name: string): string {
    dir + "/" + name
  }

  predicate NoSlash(s: string) { forall i :: 0 <= i < |s| ==> s[i] != '/' }

  predicate NoDot(s: string) { forall i :: 0 <= i < |s| ==> s[i] != '.' }

  /** The path without its trailing separators. */
  function StripTrailingSlashes(p: string): (r: string)
  {
    if p != [] && p[|p| - 1] == '/' then StripTrailingSlashes(p[..|p| - 1]) else p
  }

  /** The part of `s` after its last `/` (all of `s` when it has none). */
  function AfterLastSlash(s: string): (r: string)
    ensures NoSlash(r)
  {
    if s == [] then []
    else if s[|s| - 1] == '/' then []
    else AfterLastSlash(s[..|s| - 1]) + [s[|s| - 1]]
  }

  /** `path.basename(p)`: the last segment, ignoring trailing separators. */
  function Basename(p: string): (r: string)
    ensures NoSlash(r)
  {
    AfterLastSlash(StripTrailingSlashes(p))
  }

  /** The position of the last `.` in `s`, or -1. */
  function LastDot(s: string): (i: int)
    ensures -1 <= i < |s|
    ensures i >= 0 ==> s[i] == '.' && NoDot(s[i + 1..])
    ensures i == -1 ==> NoDot(s)
  {
    if s == [] then -1
    else if s[|s| - 1] == '.' then |s| - 1
    else
      var j := LastDot(s[..|s| - 1]);
      assert j >= 0 ==> s[j + 1..] == s[..|s| - 1][j + 1..] + [s[|s| - 1]];
      assert j == -1 ==> s == s[..|s| - 1] + [s[|s| - 1]];
      j
  }

  /**
    The extension of one path segment: from its last `.` to the end, or empty
    when it has no `.`, when that `.` is its first character, or when the
    segment is `..`.
   */
  function SegmentExt(b: string): string {
    var i := LastDot(b);
    if i <= 0 || b == ".." then "" else b[i..]
  }

  /** `path.extname(p)`. */
  function Extname(p: string): string {
    SegmentExt(Basename(p))
  }

  /** An extension is empty or a `.` followed by characters that are neither `.` nor `/`. */
  lemma ExtShape(p: string)
    ensures var e := Extname(p);
      e == [] || (e[0] == '.' && NoDot(e[1..]) && NoSlash(e))
  {
    var b := Basename(p);
    var i := LastDot(b);
    if i > 0 && b != ".." {
      assert Extname(p) == b[i..];
      assert b[i..][1..] == b[i + 1..];
    }
  }

  /**
    Naming a stored file `<uuid><ext>` keeps the original file's extension:
    the extension of the stored name is the extension of `originalName`,
    whenever the generated id has neither `.` nor `/` (a UUID is hex digits
    and dashes).
   */
  lemma {:induction false} StoredNameKeepsExtension(uuid: string, originalName: string)
    requires uuid != [] && NoDot(uuid) && NoSlash(uuid)
    ensures Extname(uuid + Extname(originalName)) == Extname(originalName)
  {
    var e := Extname(originalName);
    ExtShape(originalName);
    var s := uuid + e;
    assert NoSlash(s);
    NoSlashBasename(s);
    if e == [] {
      assert s == uuid;
      NoDotLastDot(uuid);
    } else {
      LastDotAfter(uuid, e);
      assert s[|uuid|..] == e;
      assert s != ".." by { assert s[0] != '.'; }
    }
  }

  /**
    The path `saveFile` returns lies in the category directory and has the
    original file's extension.
   */
  lemma SavedPathKeepsExtension(categorySlug: string, uuid: string, originalName: string)
    requires uuid != [] && NoDot(uuid) && NoSlash(uuid)
    ensures var p := Join(categorySlug, uuid + Extname(originalName));
      Extname(p) == Extname(originalName) && Under(p, categorySlug)
  {
    var name := uuid + Extname(originalName);
    var p := Join(categorySlug, name);
    ExtShape(originalName);
    assert NoSlash(name);
    BasenameOfJoin(categorySlug, name);
    NoSlashBasename(name);
    StoredNameKeepsExtension(uuid, originalName);
    assert p[..|categorySlug| + 1] == categorySlug + "/";
  }

  lemma {:induction false} NoDotLastDot(s: string)
    requires NoDot(s)
    ensures LastDot(s) == -1
  {
    if s != [] {
      NoDotLastDot(s[..|s| - 1]);
    }
  }

  /** In `u + e` with `u` free of dots and `e` a `.` followed by no dot, the last dot is the one `e` starts with. */
  lemma {:induction false} LastDotAfter(u: string, e: string)
    requires NoDot(u) && e != [] && e[0] == '.' && NoDot(e[1..])
    ensures LastDot(u + e) == |u|
  {
    var s := u + e;
    if |e| > 1 {
      var e' := e[..|e| - 1];
      assert e'[1..] == e[1..][..|e| - 2];
      assert s[..|s| - 1] == u + e';
      assert s[|s| - 1] == e[1..][|e| - 2];
      LastDotAfter(u, e');
    }
  }

  lemma {:induction false} NoSlashStrip(s: string)
    requires NoSlash(s)
    ensures StripTrailingSlashes(s) == s
  {
  }

  lemma {:induction false} NoSlashAfter(s: string)
    requires NoSlash(s)
    ensures AfterLastSlash(s) == s
  {
    if s != [] {
      NoSlashAfter(s[..|s| - 1]);
      assert s == s[..|s| - 1] + [s[|s| - 1]];
    }
  }

  lemma NoSlashBasename(s: string)
    requires NoSlash(s)
    ensures Basename(s) == s
  {
    NoSlashStrip(s);
    NoSlashAfter(s);
  }

  /** The base name of `<dir>/<name>` is `name` for any non-empty single-segment name. */
  lemma {:induction false} BasenameOfJoin(dir: string, name: string)
    requires name != [] && NoSlash(name)
    ensures Basename(Join(dir, name)) == name
  {
    var p := Join(dir, name);
    assert p[|p| - 1] == name[|name| - 1];
    assert StripTrailingSlashes(p) == p;
    AfterLastSlashOfJoin(dir, name);
  }

  lemma {:induction false} AfterLastSlashOfJoin(dir: string, name: string)
    requires NoSlash(name)
    ensures AfterLastSlash(dir + "/" + name) == name
  {
    var p := dir + "/" + name;
    if name == [] {
      assert p[|p| - 1] == '/';
    } else {
      var n := |name| - 1;
      assert p[..|p| - 1] == dir + "/" + name[..n];
      AfterLastSlashOfJoin(dir, name[..n]);
      assert name == name[..n] + [name[n]];
    }
  }

  // ---------------------------------------------------------------------------
  // The file store

  /** `p` is `dir` itself or lies below it. */
  predicate Under(p: string, dir: string) {
    p == dir || (|dir| + 1 <= |p| && p[..|dir| + 1] == dir + "/")
  }

  /** The files left once `rm -r dir` has run. */
  function FilesOutside(files: map<string, Bytes>, dir: string): (r: map<string, Bytes>)
    ensures forall p :: p in r <==> p in files && !Under(p, dir)
    ensures forall p :: p in r ==> r[p] == files[p]
  {
    map p | p in files && !Under(p, dir) :: files[p]
  }

  function DirsOutside(dirs: set<string>, dir: string): (r: set<string>)
    ensures forall d :: d in r <==> d in dirs && !Under(d, dir)
  {
    set d | d in dirs && !Under(d, dir)
  }

  /** The path `moveFile(oldPath, newCategorySlug)` returns. */
  function MovedPath(files: map<string, Bytes>, oldPath: string, newCategorySlug: string): string {
    if oldPath in files then Join(newCategorySlug, Basename(oldPath)) else oldPath
  }

  /** The files after `moveFile(oldPath, newCategorySlug)`. */
  function FilesAfterMove(files: map<string, Bytes>, oldPath: string, newCategorySlug: string)
    : map<string, Bytes>
  {
    if oldPath in files then
      (files - {oldPath})[MovedPath(files, oldPath, newCategorySlug) := files[oldPath]]
    else files
  }

  /**
    A move relocates exactly one file: the contents of `oldPath` now sit at
    the returned path and no longer at `oldPath`, and every other path is
    untouched; with no file at `oldPath` nothing changes.
   */
  lemma FilesAfterMoveSpec(files: map<string, Bytes>, oldPath: string, newCategorySlug: string)
    ensures oldPath !in files ==> FilesAfterMove(files, oldPath, newCategorySlug) == files
    ensures oldPath in files ==>
      var r := FilesAfterMove(files, oldPath, newCategorySlug);
      var np := MovedPath(files, oldPath, newCategorySlug);
      && np in r && r[np] == files[oldPath]
      && (np != oldPath ==> oldPath !in r)
      && (forall p :: p != oldPath && p != np ==> (p in r <==> p in files))
      && (forall p :: p in r && p != oldPath && p != np ==> r[p] == files[p])
  {
    if oldPath in files {
      var np := MovedPath(files, oldPath, newCategorySlug);
      assert FilesAfterMove(files, oldPath, newCategorySlug) == (files - {oldPath})[np := files[oldPath]];
      MoveEntry(files, oldPath, np);
    } else {
      assert FilesAfterMove(files, oldPath, newCategorySlug) == files;
    }
  }

  /** Moving the entry at `a` of a map to `b`. */
  lemma MoveEntry<K, V>(m: map<K, V>, a: K, b: K)
    requires a in m
    ensures var r := (m - {a})[b := m[a]];
      && b in r && r[b] == m[a]
      && (b != a ==> a !in r)
      && (forall p :: p != a && p != b ==> (p in r <==> p in m))
      && (forall p :: p in r && p != a && p != b ==> r[p] == m[p])
  {
  }

  /** The directories after `moveFile`: the target category directory is created when a file moves. */
  function DirsAfterMove(files: map<string, Bytes>, dirs: set<string>, oldPath: string, newCategorySlug: string)
    : (r: set<string>)
    ensures oldPath in files ==> r == dirs + {newCategorySlug}
    ensures oldPath !in files ==> r == dirs
  {
    if oldPath in files then dirs + {newCategorySlug} else dirs
  }

  /**
    The files and directories below the storage root. `files` maps a
    relative path to the file's contents; `dirs` holds the directories that
    have been created.
   */
  class FileStore {
    var files: map<string, Bytes>
    var dirs: set<string>

    constructor ()
      ensures files == map[] && dirs == {}
    {
      files := map[];
      dirs := {};
    }

    /** `fs.existsSync` of a path below the root: something is stored at it or below it. */
    predicate Exists(p: string)
      reads this
    {
      (exists f :: f in files && Under(f, p)) || (exists d :: d in dirs && Under(d, p))
    }

    /** `ensureCategoryDir(slug)`: `mkdir -p <root>/<slug>`; returns that directory. */
    method EnsureCategoryDir(slug: string) returns (dir: string)
      modifies this`dirs
      ensures dirs == old(dirs) + {slug}
      ensures dir == slug
    {
      dirs := dirs + {slug};
      dir := slug;
    }

    /**
      `saveFile(categorySlug, originalName, data)` with the generated UUID as
      a parameter: writes `data` to `<categorySlug>/<uuid><ext>` and returns
      that relative path together with the original file name.
     */
    method SaveFile(categorySlug: string, originalName: string, data: Bytes, uuid: string)
      returns (filePath: string, fileName: string)
      modifies this
      ensures filePath == Join(categorySlug, uuid + Extname(originalName))
      ensures fileName == originalName
      ensures files == old(files)[filePath := data]
      ensures dirs == old(dirs) + {categorySlug}
    {
      var dir := EnsureCategoryDir(categorySlug);
      var ext := Extname(originalName);
      var storedName := uuid + ext;
      filePath := Join(categorySlug, storedName);
      files := files[Join(dir, storedName) := data];
      fileName := originalName;
    }

    /**
      `moveFile(oldPath, newCategorySlug)`: a path with no file behind it is
      returned unchanged and nothing moves; otherwise the file is renamed to
      `<newCategorySlug>/<basename>` and that path is returned.
     */
    method MoveFile(oldPath: string, newCategorySlug: string) returns (newPath: string)
      modifies this
      ensures newPath == MovedPath(old(files), oldPath, newCategorySlug)
      ensures files == FilesAfterMove(old(files), oldPath, newCategorySlug)
      ensures dirs == DirsAfterMove(old(files), old(dirs), oldPath, newCategorySlug)
    {
      if oldPath !in files {
        return oldPath;
      }
      var data := files[oldPath];
      var baseName := Basename(oldPath);
      newPath := Join(newCategorySlug, baseName);
      files := (files - {oldPath})[newPath := data];
      var newDir := EnsureCategoryDir(newCategorySlug);
    }

    /** `deleteFile(filePath)`: removes the file when there is one. */
    method DeleteFile(filePath: string)
      modifies this`files
      ensures files == old(files) - {filePath}
    {
      if filePath in files {
        files := files - {filePath};
      }
    }

    /** `deleteCategoryDir(slug)`: `rm -rf <root>/<slug>` when it exists. */
    method DeleteCategoryDir(slug: string)
      modifies this
      ensures files == FilesOutside(old(files), slug)
      ensures dirs == DirsOutside(old(dirs), slug)
    {
      if Exists(slug) {
        files := FilesOutside(files, slug);
        dirs := DirsOutside(dirs, slug);
      } else {
        assert files == FilesOutside(files, slug);
        assert dirs == DirsOutside(dirs, slug);
      }
    }
  }

  /**
    A moved file keeps its name: the new path is `<newCategorySlug>/<name>`
    with the same base name as the old path, and moving it back to the old
    directory restores the old path.
   */
  lemma MoveKeepsBasename(dir: string, name: string, newCategorySlug: string)
    requires name != [] && NoSlash(name)
    ensures Basename(Join(newCategorySlug, Basename(Join(dir, name)))) == name
    ensures Join(dir, Basename(Join(newCategorySlug, Basename(Join(dir, name))))) == Join(dir, name)
  {
    BasenameOfJoin(dir, name);
    BasenameOfJoin(newCategorySlug, name);
  }

  /**
    A moved file keeps its base name and lands directly in the new category
    directory.
   */
  lemma MovedPathKeepsName(files: map<string, Bytes>, oldPath: string, newCategorySlug: string)
    requires oldPath in files && Basename(oldPath) != []
    ensures var np := MovedPath(files, oldPath, newCategorySlug);
      Basename(np) == Basename(oldPath) && Under(np, newCategorySlug)
  {
    var b := Basename(oldPath);
    BasenameOfJoin(newCategorySlug, b);
    var np := Join(newCategorySlug, b);
    assert np[..|newCategorySlug| + 1] == newCategorySlug + "/";
  }

  /** Deleting a file twice is the same as deleting it once; so is removing a directory twice. */
  lemma DeleteIdempotent(files: map<string, Bytes>, dirs: set<string>, path: string, dir: string)
    ensures (files - {path}) - {path} == files - {path}
    ensures FilesOutside(FilesOutside(files, dir), dir) == FilesOutside(files, dir)
    ensures DirsOutside(DirsOutside(dirs, dir), dir) == DirsOutside(dirs, dir)
  {
  }
}
