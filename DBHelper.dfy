/**
 * DBHelper.java: importing a directory listing into the mirror tree, and
 * restoring the mirror tree onto the local disk.
 *
 * The store is reduced to the one query both operations make (the directory
 * without parent, passed in as `stored`); the walk of the local directory is
 * a listing of entries, each a directory, a file with its bytes, or something
 * that is neither. Paths in the listing are absolute and normalized, as
 * `Paths.get(..).toAbsolutePath().normalize()` leaves them.
 */
module DBHelper {
  import opened PathStrings
  import opened Models
  import opened TreeProperties
  import opened MirrorTree
  import opened LocalDisk

  /** One element of the listing of the directory to import. */
  datatype Entry =
    | DirEntry(path: string)
    | FileEntry(path: string, content: seq<byte>)
    | OtherEntry(path: string)

  /** The root that was saved, or the exception raised for an entry that is neither kind. */
  datatype ImportResult =
    | Imported(root: DirId)
    | NotFileNorDirectory(path: string)

  /** `p` lies strictly below `rootPath`: the root, one separator, then a path not ending in a separator. */
  predicate Under(rootPath: string, p: string)
  {
    && !EndsInSep(rootPath)
    && |p| > |rootPath| + 1
    && p[..|rootPath|] == rootPath
    && p[|rootPath|] == Sep
    && p[|p| - 1] != Sep
  }

  /** What the listing of `rootPath` can hold: the root directory itself, or an entry below it. */
  predicate InListing(rootPath: string, e: Entry)
  {
    (e.DirEntry? && e.path == rootPath) || Under(rootPath, e.path)
  }

  /**
   * The relative path of an entry: its path with the root and one separator
   * removed. It splits into its pieces, the last being the entry's name.
   */
  function Relative(rootPath: string, p: string): (r: string)
    requires Under(rootPath, p)
    ensures rootPath + [Sep] + r == p
    ensures r != "" && r[|r| - 1] != Sep
    ensures Split(r) != [] && Last(Split(r)) == BaseName(p)
  {
    var r := RelativePath(rootPath, p);
    SplitOfRelative(r);
    BaseNameAfterSep(p, |rootPath|);
    r
  }

  /** The path ends in a separator, as only the file system root does once normalized. */
  predicate EndsInSep(s: string)
  {
    s != [] && s[|s| - 1] == Sep
  }

  /**
   * `p.substring(rootPath.length() + 1)` as the code writes it: the root and
   * one more character are cut, that character being taken for the separator
   * after the root.
   */
  function SubstringAfterRoot(rootPath: string, p: string): (r: string)
    requires |rootPath| < |p|
    ensures p[..|rootPath|] == rootPath && p[|rootPath|] == Sep ==> rootPath + [Sep] + r == p
  {
    var r := p[|rootPath| + 1..];
    assert p == p[..|rootPath|] + [p[|rootPath|]] + r;
    r
  }

  /**
   * Under the file system root "/" no separator follows the root, so the
   * code cuts the first letter of every entry: "/a/b" becomes "/b", whose
   * pieces are an empty name and "b".
   */
  lemma {:induction false} SubstringAfterFileSystemRoot()
    ensures SubstringAfterRoot([Sep], "/a/b") == "/b"
    ensures Split(SubstringAfterRoot([Sep], "/a/b")) == ["", "b"]
  {
    assert "/a/b"[2..] == "/b";
    assert FirstSep("/b") == 0;
    assert "/b"[1..] == "b";
    SplitOfName("b");
    assert SplitAll("/b") == [""] + SplitAll("b");
  }

  /**
   * The path of `p` relative to `rootPath`, as the code means it: the root
   * is cut, and so is the separator after it unless the root already ends in
   * one.
   */
  function RelativePath(rootPath: string, p: string): (r: string)
    requires |rootPath| <= |p| && p[..|rootPath|] == rootPath
    requires !EndsInSep(rootPath) ==> |rootPath| < |p| && p[|rootPath|] == Sep
    ensures EndsInSep(rootPath) ==> rootPath + r == p
    ensures !EndsInSep(rootPath) ==> rootPath + [Sep] + r == p
  {
    if EndsInSep(rootPath) then
      assert p == p[..|rootPath|] + p[|rootPath|..];
      p[|rootPath|..]
    else
      assert p == p[..|rootPath|] + [p[|rootPath|]] + p[|rootPath| + 1..];
      p[|rootPath| + 1..]
  }

  /** Under the file system root the relative path keeps every name. */
  lemma {:induction false} RelativeUnderFileSystemRoot()
    ensures RelativePath([Sep], "/a/b") == "a/b"
    ensures Split(RelativePath([Sep], "/a/b")) == ["a", "b"]
  {
    var r := RelativePath([Sep], "/a/b");
    assert r == "/a/b"[1..] == "a/b";
    SplitAppend("a", "b");
    SplitOfName("a");
    assert "a" + [Sep] + "b" == "a/b";
  }

  /** Where a separator follows the root, the code and the intended relative path agree. */
  lemma {:induction false} SubstringAfterRootAgrees(rootPath: string, p: string)
    requires !EndsInSep(rootPath) && |rootPath| < |p| && p[..|rootPath|] == rootPath && p[|rootPath|] == Sep
    ensures SubstringAfterRoot(rootPath, p) == RelativePath(rootPath, p)
  {
  }

  /**
   * The tree holds the entry below `root`: a file entry is found by
   * `existsFile`; a directory entry is the root, or `existsDirectory` answers
   * true for it, or a directory is listed under its pieces. Since
   * `existsDirectory` looks among the files, a directory entry is also held
   * when a FILE of its name sits at its path.
   */
  ghost predicate Covered(t: Tree, root: DirId, rootPath: string, e: Entry): (r: bool)
    requires Wf(t) && root in t.dirs && InListing(rootPath, e)
    ensures e.FileEntry? ==> (r <==> FileAt(t, root, Split(Relative(rootPath, e.path))))
    ensures e.DirEntry? && e.path != rootPath ==>
      (r <==> FileAt(t, root, Split(Relative(rootPath, e.path)))
              || DirectoryAt(t, root, Split(Relative(rootPath, e.path))))
    ensures e.OtherEntry? ==> !r
  {
    match e
    case DirEntry(p) =>
      || p == rootPath
      || ExistsDirectory(t, root, Relative(rootPath, p))
      || DirectoryAt(t, root, Split(Relative(rootPath, p)))
    case FileEntry(p, _) => ExistsFile(t, root, Relative(rootPath, p))
    case OtherEntry(_) => false
  }

  /** Coverage survives any growth of the tree. */
  lemma {:induction false} CoveredGrows(t: Tree, u: Tree, root: DirId, rootPath: string, e: Entry)
    requires Wf(t) && Wf(u) && Grows(t, u) && root in t.dirs && InListing(rootPath, e)
    requires Covered(t, root, rootPath, e)
    ensures root in u.dirs && Covered(u, root, rootPath, e)
  {
    if e.path != rootPath {
      var rel := Relative(rootPath, e.path);
      if e.FileEntry? || ExistsDirectory(t, root, rel) {
        ExistsFileGrows(t, u, root, rel);
      } else {
        DirectoryAtGrows(t, u, root, Split(rel));
      }
    }
  }

  /** A file node carries the name, the length as size and the bytes of a file entry. */
  ghost predicate FromEntry(e: Entry, n: FileNode)
  {
    e.FileEntry? && n.name == BaseName(e.path) && n.size == |e.content| && n.content == e.content
  }

  /** A file node comes from some file entry of the listing. */
  ghost predicate FromListing(listing: seq<Entry>, n: FileNode)
  {
    exists e :: e in listing && FromEntry(e, n)
  }

  /** `u` is `t` with some more directories, each without parent, subdirectories or files. */
  ghost predicate SameExceptDetached(t: Tree, u: Tree)
  {
    && u.files == t.files
    && (forall d :: d in t.dirs ==> d in u.dirs && u.dirs[d] == t.dirs[d])
    && (forall d :: d in u.dirs && d !in t.dirs ==>
          u.dirs[d].parent.None? && u.dirs[d].directories == map[] && u.dirs[d].files == map[])
  }

  lemma {:induction false} SameExceptDetachedTrans(t: Tree, u: Tree, v: Tree)
    requires SameExceptDetached(t, u) && SameExceptDetached(u, v)
    ensures SameExceptDetached(t, v)
  {
  }

  /** The facts the import's loop keeps about the entries it has processed. */
  ghost predicate ImportProgress(t0: Tree, t: Tree, root: DirId, rootPath: string, listing: seq<Entry>, i: nat)
    requires Wf(t) && root in t.dirs && i <= |listing|
    requires forall e :: e in listing ==> InListing(rootPath, e)
  {
    && (forall j :: 0 <= j < i ==> Covered(t, root, rootPath, listing[j]))
    && (forall f :: f in t.files && f !in t0.files ==> FromListing(listing, t.files[f]))
  }

  /**
   * Handling entry `i` after entries `0..i-1` keeps those covered, covers
   * entry `i`, and keeps the new file nodes traced to the listing.
   */
  lemma {:induction false} ImportProgressStep(t0: Tree, t: Tree, u: Tree, root: DirId, rootPath: string, listing: seq<Entry>, i: nat)
    requires Wf(t) && Wf(u) && Grows(t, u) && root in t.dirs && i < |listing|
    requires forall e :: e in listing ==> InListing(rootPath, e)
    requires ImportProgress(t0, t, root, rootPath, listing, i)
    requires Covered(u, root, rootPath, listing[i])
    requires forall f :: f in u.files && f !in t.files ==> FromEntry(listing[i], u.files[f])
    ensures root in u.dirs && ImportProgress(t0, u, root, rootPath, listing, i + 1)
  {
    forall j | 0 <= j < i
      ensures Covered(u, root, rootPath, listing[j])
    {
      CoveredGrows(t, u, root, rootPath, listing[j]);
    }
    forall f | f in u.files && f !in t0.files
      ensures FromListing(listing, u.files[f])
    {
      if f in t.files {
        var e :| e in listing && FromEntry(e, t.files[f]);
        assert u.files[f].(parent := None) == t.files[f].(parent := None);
        assert FromEntry(e, u.files[f]);
      } else {
        assert listing[i] in listing;
      }
    }
  }

  /**
   * `addDirectoryToDB`. The root is the stored directory without parent, or a
   * new directory named after the separator. Each entry is handled in listing
   * order (see `ImportEntry`); an entry that is neither a directory nor a file
   * raises an exception, and the root is not saved.
   */
  method AddDirectoryToDB(m: Mirror, rootPath: string, listing: seq<Entry>, stored: Option<DirId>)
    returns (result: ImportResult)
    requires m.Valid() && (stored.Some? ==> stored.value in m.dirs)
    requires forall e :: e in listing ==> InListing(rootPath, e)
    modifies m
    ensures m.Valid() && Grows(old(m.Snapshot()), m.Snapshot())
    ensures result.NotFileNorDirectory? <==> exists e :: e in listing && e.OtherEntry?
    ensures result.NotFileNorDirectory? ==> OtherEntry(result.path) in listing
    ensures result.NotFileNorDirectory? ==>
      exists i ::
        && 0 <= i < |listing| && listing[i] == OtherEntry(result.path)
        && forall j :: 0 <= j < i ==> !listing[j].OtherEntry?
    ensures result.Imported? ==>
      && result.root in m.dirs
      && (stored.Some? ==> result.root == stored.value)
      && (stored.None? ==> result.root !in old(m.dirs) && m.dirs[result.root].name == [Sep])
      && forall e :: e in listing ==> Covered(m.Snapshot(), result.root, rootPath, e)
    ensures forall f :: f in m.files && f !in old(m.files) ==> FromListing(listing, m.files[f])
    ensures stored.Some? && (forall e :: e in listing ==> Covered(old(m.Snapshot()), stored.value, rootPath, e)) ==>
      SameExceptDetached(old(m.Snapshot()), m.Snapshot())
  {
    ghost var t0 := m.Snapshot();
    ghost var idle := stored.Some? && forall e :: e in listing ==> Covered(t0, stored.value, rootPath, e);
    var root: DirId;
    if stored.Some? {
      root := stored.value;
    } else {
      root := m.NewDirectory(None, [Sep]);
      NewDetachedDirectory(t0, [Sep]);
    }
    var i := 0;
    while i < |listing|
      invariant 0 <= i <= |listing|
      invariant ImportLoop(m, t0, root, rootPath, listing, i, stored, idle)
    {
      var e := listing[i];
      assert e in listing;
      if e.OtherEntry? {
        FirstOtherEntry(listing, i);
        return NotFileNorDirectory(e.path);
      }
      ImportNext(m, t0, root, rootPath, listing, i, stored, idle);
      i := i + 1;
    }
    ImportProgressDone(t0, m.Snapshot(), root, rootPath, listing);
    result := Imported(root);
  }

  /** Entry `i` is the first entry that is neither a directory nor a file. */
  lemma {:induction false} FirstOtherEntry(listing: seq<Entry>, i: nat)
    requires i < |listing| && listing[i].OtherEntry? && forall j :: 0 <= j < i ==> !listing[j].OtherEntry?
    ensures exists k ::
              && 0 <= k < |listing| && listing[k] == OtherEntry(listing[i].path)
              && forall j :: 0 <= j < k ==> !listing[j].OtherEntry?
  {
    assert listing[i] == OtherEntry(listing[i].path);
  }

  /** What the import loop keeps before entry `i`. */
  ghost predicate ImportLoop(m: Mirror, t0: Tree, root: DirId, rootPath: string, listing: seq<Entry>, i: nat,
                             stored: Option<DirId>, idle: bool)
    reads m
  {
    && i <= |listing| && (forall e :: e in listing ==> InListing(rootPath, e))
    && (forall j :: 0 <= j < i ==> !listing[j].OtherEntry?)
    && m.Valid() && root in m.dirs && Wf(t0) && Grows(t0, m.Snapshot())
    && (stored.Some? ==> root == stored.value)
    && (stored.None? ==> root !in t0.dirs && m.dirs[root].name == [Sep])
    && ImportProgress(t0, m.Snapshot(), root, rootPath, listing, i)
    && (idle ==> stored.Some? && root in t0.dirs && SameExceptDetached(t0, m.Snapshot())
                 && forall e :: e in listing ==> Covered(t0, root, rootPath, e))
  }

  /** One turn of the import loop: entry `i`, neither the exception nor the end, is imported. */
  method ImportNext(m: Mirror, ghost t0: Tree, root: DirId, rootPath: string, listing: seq<Entry>, i: nat,
                    ghost stored: Option<DirId>, ghost idle: bool)
    requires i < |listing| && !listing[i].OtherEntry?
    requires ImportLoop(m, t0, root, rootPath, listing, i, stored, idle)
    modifies m
    ensures ImportLoop(m, t0, root, rootPath, listing, i + 1, stored, idle)
  {
    ghost var before := m.Snapshot();
    assert listing[i] in listing;
    ImportEntry(m, root, rootPath, listing[i]);
    ImportProgressStep(t0, before, m.Snapshot(), root, rootPath, listing, i);
    GrowsTrans(t0, before, m.Snapshot());
    assert NodeGrows(before.dirs[root], m.Snapshot().dirs[root]);
    if idle {
      CoveredGrows(t0, before, root, rootPath, listing[i]);
      SameExceptDetachedTrans(t0, before, m.Snapshot());
    }
  }

  /** After the last entry every entry of the listing is covered. */
  lemma {:induction false} ImportProgressDone(t0: Tree, t: Tree, root: DirId, rootPath: string, listing: seq<Entry>)
    requires Wf(t) && root in t.dirs
    requires forall e :: e in listing ==> InListing(rootPath, e)
    requires ImportProgress(t0, t, root, rootPath, listing, |listing|)
    ensures forall e :: e in listing ==> Covered(t, root, rootPath, e)
    ensures forall f :: f in t.files && f !in t0.files ==> FromListing(listing, t.files[f])
  {
    forall e | e in listing
      ensures Covered(t, root, rootPath, e)
    {
      var j :| 0 <= j < |listing| && listing[j] == e;
    }
  }

  /**
   * Importing the same listing twice, the second time over the root the
   * first pass returned: the second pass returns the same root and changes no
   * node of the tree; the only trace it leaves is unattached directories
   * made by `new Directory(name)` for entries already present.
   */
  method ImportTwice(m: Mirror, rootPath: string, listing: seq<Entry>, stored: Option<DirId>)
    returns (first: ImportResult, second: ImportResult, ghost between: Tree)
    requires m.Valid() && (stored.Some? ==> stored.value in m.dirs)
    requires forall e :: e in listing ==> InListing(rootPath, e)
    modifies m
    ensures m.Valid()
    ensures first.Imported? ==> second == first && SameExceptDetached(between, m.Snapshot())
    ensures first.NotFileNorDirectory? ==> second == first
  {
    first := AddDirectoryToDB(m, rootPath, listing, stored);
    between := m.Snapshot();
    if first.Imported? {
      second := AddDirectoryToDB(m, rootPath, listing, Some(first.root));
    } else {
      second := first;
    }
  }

  /**
   * One entry of the import loop: the root directory itself is skipped; a
   * directory is added unless `existsDirectory` answers true for its relative
   * path; a file is added unless `existsFile` does. Afterwards the entry is
   * covered, and when it was covered already the tree only gains detached
   * directories.
   */
  method ImportEntry(m: Mirror, root: DirId, rootPath: string, e: Entry)
    requires m.Valid() && root in m.dirs && InListing(rootPath, e) && !e.OtherEntry?
    modifies m
    ensures m.Valid() && root in m.dirs && Grows(old(m.Snapshot()), m.Snapshot())
    ensures Covered(m.Snapshot(), root, rootPath, e)
    ensures forall f :: f in m.files && f !in old(m.files) ==> FromEntry(e, m.files[f])
    ensures Covered(old(m.Snapshot()), root, rootPath, e) ==> SameExceptDetached(old(m.Snapshot()), m.Snapshot())
  {
    ghost var t := m.Snapshot();
    if e.DirEntry? {
      if e.path != rootPath {
        var rel := Relative(rootPath, e.path);
        if !ExistsDirectory(m.Snapshot(), root, rel) {
          ImportDirectory(m, root, rel, BaseName(e.path));
          if Covered(t, root, rootPath, e) {
            SameExceptDetachedNew(t, t, BaseName(e.path));
          }
        }
      }
    } else {
      var rel := Relative(rootPath, e.path);
      if !ExistsFile(m.Snapshot(), root, rel) {
        ImportFile(m, root, rel, BaseName(e.path), e.content);
      }
    }
  }

  /**
   * One added file entry: `new File(name, length, blob)` followed by
   * `root.addFile(rel, file)`. Afterwards `existsFile` finds the path; the
   * only new file node carries the entry's name, length and bytes.
   */
  method ImportFile(m: Mirror, root: DirId, rel: string, name: string, content: seq<byte>)
    requires m.Valid() && root in m.dirs
    requires Split(rel) != [] && Last(Split(rel)) == name
    modifies m
    ensures m.Valid() && root in m.dirs && Grows(old(m.Snapshot()), m.Snapshot())
    ensures ExistsFile(m.Snapshot(), root, rel)
    ensures forall f :: f in m.files && f !in old(m.files) ==>
      m.files[f].name == name && m.files[f].size == |content| && m.files[f].content == content
  {
    ghost var t := m.Snapshot();
    var f := m.NewFile(None, name, |content|, content);
    ghost var mid := m.Snapshot();
    m.AddFile(root, rel, f);
    ImportedFile(t, root, rel, name, content);
    AddFileRoundTrip(mid, root, rel, f);
  }

  /** What `ImportFile` leaves, on values: growth, and the one new file node carries the entry's data. */
  lemma {:induction false} ImportedFile(t: Tree, root: DirId, rel: string, name: string, content: seq<byte>)
    requires Wf(t) && root in t.dirs
    requires Split(rel) != [] && Last(Split(rel)) == name
    ensures var (mid, f) := NewFile(t, None, name, |content|, content);
      var u := AddFile(mid, root, rel, f);
      && Grows(t, u)
      && forall g :: g in u.files && g !in t.files ==>
           u.files[g].name == name && u.files[g].size == |content| && u.files[g].content == content
  {
    var (mid, f) := NewFile(t, None, name, |content|, content);
    var u := AddFile(mid, root, rel, f);
    GrowsTrans(t, mid, u);
    forall g | g in u.files && g !in t.files
      ensures u.files[g].name == name && u.files[g].size == |content| && u.files[g].content == content
    {
      assert g in mid.files && g == f;
      assert u.files[f].(parent := None) == mid.files[f].(parent := None);
    }
  }

  /** A detached directory created over a tree of that shape keeps it. */
  lemma {:induction false} SameExceptDetachedNew(t: Tree, u: Tree, name: string)
    requires Wf(u) && SameExceptDetached(t, u)
    ensures SameExceptDetached(t, NewDirectory(u, None, name).0)
  {
  }

  /**
   * One added directory entry: `new Directory(name)` followed by
   * `root.addDirectory(rel, directory)`. The directory is then listed under
   * the path, and when one was listed already the tree only gains the new
   * detached node.
   */
  method ImportDirectory(m: Mirror, root: DirId, rel: string, name: string)
    requires m.Valid() && root in m.dirs
    requires Split(rel) != [] && Last(Split(rel)) == name
    modifies m
    ensures m.Valid() && root in m.dirs && Grows(old(m.Snapshot()), m.Snapshot())
    ensures m.files == old(m.files)
    ensures DirectoryAt(m.Snapshot(), root, Split(rel))
    ensures DirectoryAt(old(m.Snapshot()), root, Split(rel)) ==>
      m.Snapshot() == Models.NewDirectory(old(m.Snapshot()), None, name).0
  {
    ghost var t := m.Snapshot();
    var x := m.NewDirectory(None, name);
    NewDetachedDirectory(t, name);
    ghost var mid := m.Snapshot();
    m.AddDirectory(root, rel, x);
    AddDirectoryRoundTrip(mid, root, rel, x);
    GrowsTrans(t, mid, m.Snapshot());
    if DirectoryAt(t, root, Split(rel)) {
      DirectoryAtGrows(t, mid, root, Split(rel));
      AddDirectoryOfListedNameChangesNothing(mid, root, rel, x);
    }
  }

  // ---------------------------------------------------------------------------
  // Restoring the mirror tree onto the disk

  /** `(int) size` on a Java `long`: the low 32 bits read as a two's-complement value. */
  function Int32(x: int): (r: int)
    ensures -0x8000_0000 <= r < 0x8000_0000
    ensures (x - r) % 0x1_0000_0000 == 0
    ensures -0x8000_0000 <= x < 0x8000_0000 ==> r == x
  {
    var w := x % 0x1_0000_0000;
    if w >= 0x8000_0000 then w - 0x1_0000_0000 else w
  }

  /** `getBytes(1, (int) size)` can be served: the cast size is neither negative nor beyond the blob. */
  predicate SizeFits(n: FileNode)
  {
    0 <= Int32(n.size) <= |n.content|
  }

  /** The bytes `getBytes(1, (int) size)` returns: the first `(int) size` bytes of the blob. */
  function Bytes(n: FileNode): (r: seq<byte>)
    requires SizeFits(n)
    ensures |r| == Int32(n.size) && r <= n.content
  {
    n.content[..Int32(n.size)]
  }

  /** Where a file is restored: the restore root followed by the file's path with name, read as a path. */
  function FileTarget(m: Mirror, rootPath: string, f: FileId): string
    reads m
    requires m.Valid() && f in m.files && m.files[f].parent.Some?
  {
    JavaPath(rootPath + m.FilePathWithName(f))
  }

  /** The directory `mkdirs` is asked for before a file is written. */
  function FileFolder(m: Mirror, rootPath: string, f: FileId): string
    reads m
    requires m.Valid() && f in m.files && m.files[f].parent.Some?
  {
    JavaPath(rootPath + m.FilePath(f))
  }

  /** The directory `mkdirs` is asked for when a subdirectory is restored. */
  function DirTarget(m: Mirror, rootPath: string, d: DirId): string
    reads m
    requires m.Valid() && d in m.dirs
  {
    JavaPath(rootPath + m.DirPathWithName(d))
  }

  /**
   * A file is restored: something is at its target, or it could not be
   * written for one of the reasons the code swallows (a file blocks its
   * directory, the cast size does not fit the blob, or its name is not a
   * single path piece).
   */
  ghost predicate FileRestored(m: Mirror, disk: Disk, rootPath: string, f: FileId)
    reads m
    requires m.Valid()
  {
    && f in m.files && m.files[f].parent.Some?
    && (|| disk.Exists(FileTarget(m, rootPath, f))
        || Blocked(disk.files, FileFolder(m, rootPath, f))
        || !SizeFits(m.files[f])
        || !ProperName(m.files[f].name))
  }

  /** A subdirectory is restored: its directory exists, or a file blocks it. */
  ghost predicate DirRestored(m: Mirror, disk: Disk, rootPath: string, c: DirId)
    reads m
    requires m.Valid() && c in m.dirs
  {
    DirTarget(m, rootPath, c) in disk.directories || Blocked(disk.files, DirTarget(m, rootPath, c))
  }

  /** Every subdirectory listed below `d` and every file listed in them is restored. */
  ghost predicate Restored(m: Mirror, disk: Disk, rootPath: string, d: DirId)
    reads m
    requires m.Valid() && d in m.dirs
    decreases m.height - m.rank[d]
  {
    && (forall k :: k in m.dirs[d].directories ==>
          var c := m.dirs[d].directories[k];
          && ChildRanked(m, d, c)
          && DirRestored(m, disk, rootPath, c)
          && Restored(m, disk, rootPath, c))
    && (forall k :: k in m.dirs[d].files ==> FileRestored(m, disk, rootPath, m.dirs[d].files[k]))
  }

  /** A listed subdirectory is allocated and ranks strictly between its parent and the height. */
  ghost predicate ChildRanked(m: Mirror, d: DirId, c: DirId)
    reads m
    requires m.Valid() && d in m.dirs
  {
    c in m.dirs && m.rank[d] < m.rank[c] <= m.height
  }

  lemma {:induction false} ChildrenRanked(m: Mirror, d: DirId)
    requires m.Valid() && d in m.dirs
    ensures forall k :: k in m.dirs[d].directories ==> ChildRanked(m, d, m.dirs[d].directories[k])
  {
    assert RankedNode(m.dirs[d], m.rank, m.rank[d]);
    forall k | k in m.dirs[d].directories
      ensures ChildRanked(m, d, m.dirs[d].directories[k])
    {
      var c := m.dirs[d].directories[k];
      assert DirRefsIn(m.Snapshot().dirs.Keys, m.Snapshot().files.Keys, m.dirs[d]);
      assert c in m.Snapshot().dirs;
    }
  }

  /** Every file listed in a directory is allocated and has a parent (a `File` never lacks one in the store). */
  ghost predicate FilesAttached(m: Mirror)
    reads m
  {
    forall d, k :: d in m.dirs && k in m.dirs[d].files ==>
      m.dirs[d].files[k] in m.files && m.files[m.dirs[d].files[k]].parent.Some?
  }

  lemma {:induction false} FileRestoredGrows(m: Mirror, disk: Disk, disk': Disk, rootPath: string, f: FileId)
    requires m.Valid() && DiskGrows(disk, disk')
    requires FileRestored(m, disk, rootPath, f)
    ensures FileRestored(m, disk', rootPath, f)
  {
    if Blocked(disk.files, FileFolder(m, rootPath, f)) {
      BlockedGrows(disk.files, disk'.files, FileFolder(m, rootPath, f));
    }
  }

  lemma {:induction false} DirRestoredGrows(m: Mirror, disk: Disk, disk': Disk, rootPath: string, c: DirId)
    requires m.Valid() && c in m.dirs && DiskGrows(disk, disk')
    requires DirRestored(m, disk, rootPath, c)
    ensures DirRestored(m, disk', rootPath, c)
  {
    if Blocked(disk.files, DirTarget(m, rootPath, c)) {
      BlockedGrows(disk.files, disk'.files, DirTarget(m, rootPath, c));
    }
  }

  /** Restoration once reached is never undone while the disk only grows. */
  lemma {:induction false} RestoredGrows(m: Mirror, disk: Disk, disk': Disk, rootPath: string, d: DirId)
    requires m.Valid() && d in m.dirs && DiskGrows(disk, disk')
    requires Restored(m, disk, rootPath, d)
    ensures Restored(m, disk', rootPath, d)
    decreases m.height - m.rank[d]
  {
    forall k | k in m.dirs[d].directories
      ensures DirRestored(m, disk', rootPath, m.dirs[d].directories[k])
      ensures Restored(m, disk', rootPath, m.dirs[d].directories[k])
    {
      var c := m.dirs[d].directories[k];
      DirRestoredGrows(m, disk, disk', rootPath, c);
      RestoredGrows(m, disk, disk', rootPath, c);
    }
    forall k | k in m.dirs[d].files
      ensures FileRestored(m, disk', rootPath, m.dirs[d].files[k])
    {
      FileRestoredGrows(m, disk, disk', rootPath, m.dirs[d].files[k]);
    }
  }

  /** The disk path `p` holds the restored bytes of some file of the mirror tree. */
  ghost predicate WrittenFrom(m: Mirror, rootPath: string, p: string, data: seq<byte>)
    reads m
    requires m.Valid()
  {
    exists f :: f in m.files && m.files[f].parent.Some? && SizeFits(m.files[f])
      && p == FileTarget(m, rootPath, f) && data == Bytes(m.files[f])
  }

  /** Every file that appeared on the disk holds the restored bytes of a file of the mirror tree. */
  ghost predicate OnlyMirrorWritten(m: Mirror, rootPath: string, before: Disk, after: Disk)
    reads m
    requires m.Valid()
  {
    forall p :: p in after.files && p !in before.files ==> WrittenFrom(m, rootPath, p, after.files[p])
  }

  lemma {:induction false} OnlyMirrorWrittenTrans(m: Mirror, rootPath: string, d1: Disk, d2: Disk, d3: Disk)
    requires m.Valid() && DiskGrows(d2, d3)
    requires OnlyMirrorWritten(m, rootPath, d1, d2) && OnlyMirrorWritten(m, rootPath, d2, d3)
    ensures OnlyMirrorWritten(m, rootPath, d1, d3)
  {
  }

  /** The possible ends of `restoreFileFromDB`. */
  datatype FileOutcome = AlreadyPresent | Written | Failed

  /** The separator-joined parent path of a name appended to a directory path is that path without its separator. */
  lemma {:induction false} ParentOfJoin(a: string, name: string)
    requires a != "" && a[|a| - 1] == Sep && ProperName(name)
    ensures ParentPath(a + name) == JavaFilePath(a)
    ensures forall q :: q in Ancestry(JavaFilePath(a)) ==> |q| < |a + name|
  {
    var s := a + name;
    assert s[|a|..] == name;
    NoSepBaseName(name);
    BaseNameAfterSep(s, |a| - 1);
    assert BaseName(s) == name && |s| - |BaseName(s)| == |a|;
    if |a| > 1 {
      assert s[..|a| - 1] == a[..|a| - 1];
      assert ParentPath(s) == a[..|a| - 1] == JavaFilePath(a);
    } else {
      assert ParentPath(s) == [Sep] == JavaFilePath(a);
    }
    forall q | q in Ancestry(JavaFilePath(a))
      ensures |q| < |s|
    {
      assert q <= JavaFilePath(a);
    }
  }

  /**
   * `restoreFileFromDB`: nothing happens when something exists at the
   * target; otherwise the file's directory is made, the first `(int) size`
   * bytes of the blob are read and written to the target. Every failure is
   * logged and swallowed.
   */
  method RestoreFile(m: Mirror, disk: Disk, rootPath: string, f: FileId) returns (outcome: FileOutcome, after: Disk)
    requires m.Valid() && f in m.files && m.files[f].parent.Some?
    ensures outcome == AlreadyPresent <==> disk.Exists(FileTarget(m, rootPath, f))
    ensures outcome == AlreadyPresent ==> after == disk
    ensures outcome != AlreadyPresent ==> after.directories == disk.MkDirs(FileFolder(m, rootPath, f)).directories
    ensures outcome == Written ==>
      SizeFits(m.files[f]) && after.files == disk.files[FileTarget(m, rootPath, f) := Bytes(m.files[f])]
    ensures outcome == Failed ==> after.files == disk.files
    ensures (&& outcome != AlreadyPresent && SizeFits(m.files[f]) && ProperName(m.files[f].name)
             && !Blocked(disk.files, FileFolder(m, rootPath, f))) ==> outcome == Written
    ensures DiskGrows(disk, after)
    ensures OnlyMirrorWritten(m, rootPath, disk, after)
    ensures FileRestored(m, after, rootPath, f)
  {
    var target := rootPath + m.FilePathWithName(f);
    var folder := rootPath + m.FilePath(f);
    assert target == folder + m.files[f].name;
    assert FileTarget(m, rootPath, f) == JavaPath(target) && FileFolder(m, rootPath, f) == JavaPath(folder);
    outcome, after := RestoreAt(disk, target, folder, m.files[f]);
    RestoreFileEffect(m, disk, rootPath, f, outcome, after);
  }

  /**
   * The disk steps of `restoreFileFromDB` once its two path strings are
   * built, each read as a path: nothing when something exists at `target`;
   * otherwise `mkdirs` on `folder`, then the first `(int) size` bytes of the
   * blob written to `target`, any failure being swallowed.
   */
  method RestoreAt(disk: Disk, target: string, folder: string, n: FileNode) returns (outcome: FileOutcome, after: Disk)
    requires folder != "" && folder[|folder| - 1] == Sep && target == folder + n.name
    ensures outcome == AlreadyPresent <==> disk.Exists(JavaPath(target))
    ensures outcome == AlreadyPresent ==> after == disk
    ensures outcome != AlreadyPresent ==> after.directories == disk.MkDirs(JavaPath(folder)).directories
    ensures outcome == Written ==> SizeFits(n) && after.files == disk.files[JavaPath(target) := Bytes(n)]
    ensures outcome == Failed ==> after.files == disk.files
    ensures (&& outcome != AlreadyPresent && SizeFits(n) && ProperName(n.name)
             && !Blocked(disk.files, JavaPath(folder))) ==> outcome == Written
  {
    var path := JavaPath(target);
    var dir := JavaPath(folder);
    if disk.Exists(path) {
      return AlreadyPresent, disk;
    }
    after := disk.MkDirs(dir);
    if ProperName(n.name) && !Blocked(disk.files, dir) {
      WritableAfterMkDirs(disk, folder, n.name);
    }
    var size := Int32(n.size);
    if 0 <= size <= |n.content| && after.CanWrite(path) {
      after := after.Write(path, n.content[..size]);
      outcome := Written;
    } else {
      outcome := Failed;
    }
  }

  /** Once `mkdirs` has made the folder, a single-piece name in it can be opened for writing unless something is there. */
  lemma {:induction false} WritableAfterMkDirs(disk: Disk, folder: string, name: string)
    requires folder != "" && folder[|folder| - 1] == Sep && ProperName(name)
    requires !disk.Exists(JavaPath(folder + name)) && !Blocked(disk.files, JavaPath(folder))
    ensures disk.MkDirs(JavaPath(folder)).CanWrite(JavaPath(folder + name))
  {
    JavaPathOfJoin(folder, name);
    ParentOfJoin(Collapse(folder), name);
  }

  /** What the outcome of `restoreFileFromDB` means for the disk: it only grows, with the file's bytes, and the file is restored. */
  lemma {:induction false} RestoreFileEffect(m: Mirror, disk: Disk, rootPath: string, f: FileId, outcome: FileOutcome, after: Disk)
    requires m.Valid() && f in m.files && m.files[f].parent.Some?
    requires outcome == AlreadyPresent <==> disk.Exists(FileTarget(m, rootPath, f))
    requires outcome == AlreadyPresent ==> after == disk
    requires outcome != AlreadyPresent ==> after.directories == disk.MkDirs(FileFolder(m, rootPath, f)).directories
    requires outcome == Written ==>
      SizeFits(m.files[f]) && after.files == disk.files[FileTarget(m, rootPath, f) := Bytes(m.files[f])]
    requires outcome == Failed ==> after.files == disk.files
    requires (&& outcome != AlreadyPresent && SizeFits(m.files[f]) && ProperName(m.files[f].name)
              && !Blocked(disk.files, FileFolder(m, rootPath, f))) ==> outcome == Written
    ensures DiskGrows(disk, after)
    ensures OnlyMirrorWritten(m, rootPath, disk, after)
    ensures FileRestored(m, after, rootPath, f)
  {
    var target := FileTarget(m, rootPath, f);
    if outcome == Written {
      forall p | p in after.files && p !in disk.files
        ensures WrittenFrom(m, rootPath, p, after.files[p])
      {
        assert p == target;
      }
      assert after.Exists(target);
    } else if outcome == Failed {
      assert Blocked(disk.files, FileFolder(m, rootPath, f)) || !SizeFits(m.files[f]) || !ProperName(m.files[f].name);
    }
  }

  /** A restored subdirectory: its directory, and everything below it. */
  ghost predicate ChildRestored(m: Mirror, disk: Disk, rootPath: string, d: DirId, c: DirId)
    reads m
    requires m.Valid() && d in m.dirs && ChildRanked(m, d, c)
  {
    DirRestored(m, disk, rootPath, c) && Restored(m, disk, rootPath, c)
  }

  /**
   * `restoreDirectoryFromDB(directory, rootPath)`: for each subdirectory,
   * `mkdirs` on its path with name and the same for what is below it; then
   * `restoreFileFromDB` for each file. The maps are visited in any order.
   */
  method RestoreDirectory(m: Mirror, disk: Disk, rootPath: string, d: DirId) returns (after: Disk)
    requires m.Valid() && d in m.dirs && FilesAttached(m)
    ensures DiskGrows(disk, after)
    ensures OnlyMirrorWritten(m, rootPath, disk, after)
    ensures Restored(m, after, rootPath, d)
    decreases m.height - m.rank[d], 1
  {
    var children := m.dirs[d].directories;
    ChildrenRanked(m, d);
    var pending := children.Keys;
    ghost var done: set<string> := {};
    after := disk;
    while pending != {}
      invariant pending <= children.Keys && done == children.Keys - pending
      invariant ChildrenProgress(m, rootPath, disk, after, d, done)
      decreases pending
    {
      var k :| k in pending;
      var next := RestoreChild(m, after, rootPath, d, children[k]);
      ChildrenProgressStep(m, rootPath, disk, after, next, d, done, k);
      VisitOneMore(children.Keys, pending, done, k);
      pending := pending - {k};
      done := done + {k};
      after := next;
    }
    var last := RestoreFiles(m, after, rootPath, d);
    ChildrenRestoredGrows(m, after, last, rootPath, d, done);
    DiskGrowsTrans(disk, after, last);
    OnlyMirrorWrittenTrans(m, rootPath, disk, after, last);
    RestoredOfParts(m, last, rootPath, d);
    after := last;
  }

  /** A directory is restored once each subdirectory and each file of it is. */
  lemma {:induction false} RestoredOfParts(m: Mirror, disk: Disk, rootPath: string, d: DirId)
    requires m.Valid() && d in m.dirs
    requires forall k :: k in m.dirs[d].directories ==> ChildRanked(m, d, m.dirs[d].directories[k])
    requires forall k :: k in m.dirs[d].directories ==> ChildRestored(m, disk, rootPath, d, m.dirs[d].directories[k])
    requires forall k :: k in m.dirs[d].files ==> FileRestored(m, disk, rootPath, m.dirs[d].files[k])
    ensures Restored(m, disk, rootPath, d)
  {
  }

  /** The loop over the subdirectories of `d` has restored those named in `done`, growing the disk with mirror bytes only. */
  ghost predicate ChildrenProgress(m: Mirror, rootPath: string, disk: Disk, after: Disk, d: DirId, done: set<string>)
    reads m
    requires m.Valid() && d in m.dirs
  {
    && (forall k :: k in m.dirs[d].directories ==> ChildRanked(m, d, m.dirs[d].directories[k]))
    && DiskGrows(disk, after)
    && OnlyMirrorWritten(m, rootPath, disk, after)
    && forall k :: k in m.dirs[d].directories && k in done ==>
         ChildRestored(m, after, rootPath, d, m.dirs[d].directories[k])
  }

  /** One more subdirectory restored by a step that only grows the disk and writes mirror bytes. */
  lemma {:induction false} ChildrenProgressStep(m: Mirror, rootPath: string, disk: Disk, after: Disk, next: Disk,
                                                d: DirId, done: set<string>, k: string)
    requires m.Valid() && d in m.dirs && k in m.dirs[d].directories
    requires ChildrenProgress(m, rootPath, disk, after, d, done)
    requires DiskGrows(after, next) && OnlyMirrorWritten(m, rootPath, after, next)
    requires ChildRestored(m, next, rootPath, d, m.dirs[d].directories[k])
    ensures ChildrenProgress(m, rootPath, disk, next, d, done + {k})
  {
    DiskGrowsTrans(disk, after, next);
    OnlyMirrorWrittenTrans(m, rootPath, disk, after, next);
    ChildrenRestoredGrows(m, after, next, rootPath, d, done);
  }

  /** One subdirectory: `mkdirs` on its path with name, then everything below it. */
  method RestoreChild(m: Mirror, disk: Disk, rootPath: string, d: DirId, c: DirId) returns (after: Disk)
    requires m.Valid() && d in m.dirs && ChildRanked(m, d, c) && FilesAttached(m)
    ensures DiskGrows(disk, after)
    ensures OnlyMirrorWritten(m, rootPath, disk, after)
    ensures ChildRestored(m, after, rootPath, d, c)
    decreases m.height - m.rank[d], 0
  {
    var made := disk.MkDirs(DirTarget(m, rootPath, c));
    after := RestoreDirectory(m, made, rootPath, c);
    DirRestoredGrows(m, made, after, rootPath, c);
    OnlyMirrorWrittenTrans(m, rootPath, disk, made, after);
  }

  /** The subdirectories already restored stay restored while the disk grows. */
  lemma {:induction false} ChildrenRestoredGrows(m: Mirror, disk: Disk, disk': Disk, rootPath: string,
                                                 d: DirId, done: set<string>)
    requires m.Valid() && d in m.dirs && DiskGrows(disk, disk')
    requires forall k :: k in m.dirs[d].directories ==> ChildRanked(m, d, m.dirs[d].directories[k])
    requires forall k :: k in m.dirs[d].directories && k in done ==>
      ChildRestored(m, disk, rootPath, d, m.dirs[d].directories[k])
    ensures forall k :: k in m.dirs[d].directories && k in done ==>
      ChildRestored(m, disk', rootPath, d, m.dirs[d].directories[k])
  {
    forall k | k in m.dirs[d].directories && k in done
      ensures ChildRestored(m, disk', rootPath, d, m.dirs[d].directories[k])
    {
      var c := m.dirs[d].directories[k];
      DirRestoredGrows(m, disk, disk', rootPath, c);
      RestoredGrows(m, disk, disk', rootPath, c);
    }
  }

  /**
   * The second half of `restoreDirectoryFromDB(directory, rootPath)`:
   * `restoreFileFromDB` for each file of the directory, in any order, inside
   * one transaction.
   */
  method RestoreFiles(m: Mirror, disk: Disk, rootPath: string, d: DirId) returns (after: Disk)
    requires m.Valid() && d in m.dirs && FilesAttached(m)
    ensures DiskGrows(disk, after)
    ensures OnlyMirrorWritten(m, rootPath, disk, after)
    ensures forall k :: k in m.dirs[d].files ==> FileRestored(m, after, rootPath, m.dirs[d].files[k])
  {
    var listed := m.dirs[d].files;
    var pending := listed.Keys;
    ghost var done: set<string> := {};
    after := disk;
    while pending != {}
      invariant pending <= listed.Keys && done == listed.Keys - pending
      invariant FilesProgress(m, rootPath, disk, after, listed, done)
      decreases pending
    {
      var k :| k in pending;
      var next := RestoreListedFile(m, disk, after, rootPath, d, done, k);
      VisitOneMore(listed.Keys, pending, done, k);
      pending := pending - {k};
      done := done + {k};
      after := next;
    }
    FilesProgressDone(m, rootPath, disk, after, d);
  }

  /** Visiting `k` moves it from the names still pending to the names done. */
  lemma {:induction false} VisitOneMore(keys: set<string>, pending: set<string>, done: set<string>, k: string)
    requires k in pending && pending <= keys && done == keys - pending
    ensures pending - {k} <= keys && done + {k} == keys - (pending - {k})
  {
  }

  /** The loop over a directory's files has visited every name. */
  lemma {:induction false} FilesProgressDone(m: Mirror, rootPath: string, disk: Disk, after: Disk, d: DirId)
    requires m.Valid() && d in m.dirs
    requires FilesProgress(m, rootPath, disk, after, m.dirs[d].files, m.dirs[d].files.Keys - {})
    ensures DiskGrows(disk, after)
    ensures OnlyMirrorWritten(m, rootPath, disk, after)
    ensures forall k :: k in m.dirs[d].files ==> FileRestored(m, after, rootPath, m.dirs[d].files[k])
  {
    assert m.dirs[d].files.Keys - {} == m.dirs[d].files.Keys;
  }

  /**
   * One turn of the loop over a directory's files: `restoreFileFromDB` on the
   * file listed under `k`, with its outcome dropped.
   */
  method RestoreListedFile(m: Mirror, disk: Disk, current: Disk, rootPath: string, d: DirId,
                           ghost done: set<string>, k: string) returns (next: Disk)
    requires m.Valid() && d in m.dirs && FilesAttached(m) && k in m.dirs[d].files
    requires FilesProgress(m, rootPath, disk, current, m.dirs[d].files, done)
    ensures FilesProgress(m, rootPath, disk, next, m.dirs[d].files, done + {k})
  {
    var f := m.dirs[d].files[k];
    assert f in m.files && m.files[f].parent.Some?;
    var _, after := RestoreFile(m, current, rootPath, f);
    FilesProgressStep(m, rootPath, disk, current, after, m.dirs[d].files, done, k);
    next := after;
  }

  /**
   * The state of the loop over a directory's files: the disk has only grown,
   * only restored bytes were written, and the files listed under the names
   * in `done` are restored.
   */
  ghost predicate FilesProgress(m: Mirror, rootPath: string, disk: Disk, after: Disk,
                                listed: map<string, FileId>, done: set<string>)
    reads m
    requires m.Valid()
  {
    && DiskGrows(disk, after)
    && OnlyMirrorWritten(m, rootPath, disk, after)
    && forall k :: k in listed && k in done ==> FileRestored(m, after, rootPath, listed[k])
  }

  /** One more file restored by a step that only grows the disk and writes restored bytes. */
  lemma {:induction false} FilesProgressStep(m: Mirror, rootPath: string, disk: Disk, after: Disk, next: Disk,
                                             listed: map<string, FileId>, done: set<string>, k: string)
    requires m.Valid() && k in listed
    requires FilesProgress(m, rootPath, disk, after, listed, done)
    requires DiskGrows(after, next) && OnlyMirrorWritten(m, rootPath, after, next)
    requires FileRestored(m, next, rootPath, listed[k])
    ensures FilesProgress(m, rootPath, disk, next, listed, done + {k})
  {
    DiskGrowsTrans(disk, after, next);
    OnlyMirrorWrittenTrans(m, rootPath, disk, after, next);
    forall j | j in listed && j in done + {k}
      ensures FileRestored(m, next, rootPath, listed[j])
    {
      if j != k {
        FileRestoredGrows(m, after, next, rootPath, listed[j]);
      }
    }
  }

  /**
   * `restoreDirectoryFromDB(path)`: restores below the stored directory
   * without parent, and does nothing when there is none.
   */
  method RestoreDirectoryFromDB(m: Mirror, disk: Disk, rootPath: string, stored: Option<DirId>) returns (after: Disk)
    requires m.Valid() && FilesAttached(m) && (stored.Some? ==> stored.value in m.dirs)
    ensures stored.None? ==> after == disk
    ensures DiskGrows(disk, after)
    ensures OnlyMirrorWritten(m, rootPath, disk, after)
    ensures stored.Some? ==> Restored(m, after, rootPath, stored.value)
  {
    after := disk;
    if stored.Some? {
      after := RestoreDirectory(m, disk, rootPath, stored.value);
    }
  }
}
