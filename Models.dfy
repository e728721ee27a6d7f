/**
 * The mirror tree (Directory.java, File.java) as values.
 *
 * Java objects become identifiers into two maps: a `Tree` holds every
 * directory node and every file node that has been allocated, and the
 * `directories`/`files` maps of a node hold identifiers, exactly as the Java
 * maps hold references. Allocation takes the next unused identifier. The
 * functions here are the meaning of the Java methods; the class in
 * MirrorTree.dfy performs the same updates step by step.
 */
module Models {
  import opened PathStrings

  type DirId = nat
  type FileId = nat

  newtype byte = b: int | 0 <= b < 256

  datatype Option<T> = None | Some(value: T)

  /** The fields of a `Directory` (its store identifier is left out). */
  datatype DirNode = DirNode(
    name: string,
    parent: Option<DirId>,
    directories: map<string, DirId>,
    files: map<string, FileId>)

  /** The fields of a `File`: `size` is whatever the creator passed, `content` is the blob. */
  datatype FileNode = FileNode(
    name: string,
    size: int,
    content: seq<byte>,
    parent: Option<DirId>)

  /** Every node allocated so far, and the next identifiers to hand out. */
  datatype Tree = Tree(
    dirs: map<DirId, DirNode>,
    files: map<FileId, FileNode>,
    nextDir: DirId,
    nextFile: FileId)

  /** The references a directory node holds point into the given sets of allocated nodes. */
  ghost predicate DirRefsIn(dirIds: set<DirId>, fileIds: set<FileId>, n: DirNode)
  {
    && (n.parent.Some? ==> n.parent.value in dirIds)
    && (forall k :: k in n.directories ==> n.directories[k] in dirIds)
    && (forall k :: k in n.files ==> n.files[k] in fileIds)
  }

  /** Every reference held by a node points at an allocated node; identifiers are below the counters. */
  ghost predicate Wf(t: Tree)
  {
    && (forall d :: d in t.dirs ==> d < t.nextDir && DirRefsIn(t.dirs.Keys, t.files.Keys, t.dirs[d]))
    && (forall f :: f in t.files ==> f < t.nextFile && (t.files[f].parent.Some? ==> t.files[f].parent.value in t.dirs))
  }

  function EmptyTree(): (t: Tree)
    ensures Wf(t) && t.dirs == map[] && t.files == map[]
  {
    Tree(map[], map[], 0, 0)
  }

  // ---------------------------------------------------------------------------
  // Parent links and allocation

  /** Replaces one directory node by another whose references stay within the tree. */
  function WithDirectory(t: Tree, d: DirId, n: DirNode): (r: Tree)
    requires Wf(t) && d in t.dirs && DirRefsIn(t.dirs.Keys, t.files.Keys, n)
    ensures Wf(r) && r == t.(dirs := t.dirs[d := n])
  {
    var r := t.(dirs := t.dirs[d := n]);
    assert r.dirs.Keys == t.dirs.Keys;
    r
  }

  /**
   * `Directory.setParent`: store the parent and, when there is one, put the
   * node into the parent's `directories` under its own name, replacing any
   * entry of that name. A missing parent only clears the field.
   */
  function SetDirectoryParent(t: Tree, x: DirId, parent: Option<DirId>): (r: Tree)
    requires Wf(t) && x in t.dirs && (parent.Some? ==> parent.value in t.dirs)
    ensures Wf(r) && r.files == t.files && r.dirs.Keys == t.dirs.Keys
    ensures r.nextDir == t.nextDir && r.nextFile == t.nextFile
    ensures r.dirs[x].parent == parent && r.dirs[x].name == t.dirs[x].name
    ensures parent.None? ==> r.dirs == t.dirs[x := t.dirs[x].(parent := None)]
    ensures parent.None? || parent.value != x ==> r.dirs[x] == t.dirs[x].(parent := parent)
    ensures parent.Some? ==>
      && r.dirs[parent.value].directories == t.dirs[parent.value].directories[t.dirs[x].name := x]
      && r.dirs[parent.value].files == t.dirs[parent.value].files
      && r.dirs[parent.value].name == t.dirs[parent.value].name
    ensures forall d :: d in t.dirs && d != x && (parent.None? || d != parent.value) ==> r.dirs[d] == t.dirs[d]
  {
    ParentRefs(t, x, parent);
    var n := t.dirs[x].(parent := parent);
    var t1 := WithDirectory(t, x, n);
    match parent
    case None => t1
    case Some(p) =>
      ChildRefs(t1, p, n.name, x);
      var q := t1.dirs[p].(directories := t1.dirs[p].directories[n.name := x]);
      assert q.files == t.dirs[p].files && q.name == t.dirs[p].name;
      assert q.directories == t.dirs[p].directories[n.name := x];
      WithDirectory(t1, p, q)
  }

  /** `setParent` on a directory never touches any `files` map. */
  lemma {:induction false} SetDirectoryParentKeepsFiles(t: Tree, x: DirId, parent: Option<DirId>)
    requires Wf(t) && x in t.dirs && (parent.Some? ==> parent.value in t.dirs)
    ensures forall e :: e in t.dirs ==> SetDirectoryParent(t, x, parent).dirs[e].files == t.dirs[e].files
  {
    var r := SetDirectoryParent(t, x, parent);
    forall e | e in t.dirs
      ensures r.dirs[e].files == t.dirs[e].files
    {
      if parent.Some? && e == parent.value {
      } else if e == x {
        assert r.dirs[x] == t.dirs[x].(parent := parent);
      }
    }
  }

  /** A node whose parent is replaced by an allocated one still points into the tree. */
  lemma {:induction false} ParentRefs(t: Tree, x: DirId, parent: Option<DirId>)
    requires Wf(t) && x in t.dirs && (parent.Some? ==> parent.value in t.dirs)
    ensures DirRefsIn(t.dirs.Keys, t.files.Keys, t.dirs[x].(parent := parent))
  {
    assert DirRefsIn(t.dirs.Keys, t.files.Keys, t.dirs[x]);
  }

  /** A node that lists one more allocated subdirectory still points into the tree. */
  lemma {:induction false} ChildRefs(t: Tree, p: DirId, name: string, x: DirId)
    requires Wf(t) && p in t.dirs && x in t.dirs
    ensures DirRefsIn(t.dirs.Keys, t.files.Keys, t.dirs[p].(directories := t.dirs[p].directories[name := x]))
  {
    assert DirRefsIn(t.dirs.Keys, t.files.Keys, t.dirs[p]);
  }

  /**
   * `File.setParent`: store the parent and, when there is one, put the file
   * into the parent's `files` under its own name, replacing any entry of that
   * name. The parent's `directories` are never touched.
   */
  function SetFileParent(t: Tree, f: FileId, parent: Option<DirId>): (r: Tree)
    requires Wf(t) && f in t.files && (parent.Some? ==> parent.value in t.dirs)
    ensures Wf(r) && r.files.Keys == t.files.Keys && r.dirs.Keys == t.dirs.Keys
    ensures r.nextDir == t.nextDir && r.nextFile == t.nextFile
    ensures r.files == t.files[f := t.files[f].(parent := parent)]
    ensures parent.None? ==> r.dirs == t.dirs
    ensures parent.Some? ==>
      && r.dirs == t.dirs[parent.value := t.dirs[parent.value].(files := t.dirs[parent.value].files[t.files[f].name := f])]
      && r.dirs[parent.value].directories == t.dirs[parent.value].directories
  {
    var t1 := t.(files := t.files[f := t.files[f].(parent := parent)]);
    match parent
    case None => t1
    case Some(p) =>
      t1.(dirs := t1.dirs[p := t1.dirs[p].(files := t1.dirs[p].files[t.files[f].name := f])])
  }

  /** `new Directory(parent, name)`: a fresh node with empty maps, then `setParent(parent)`. */
  function NewDirectory(t: Tree, parent: Option<DirId>, name: string): (r: (Tree, DirId))
    requires Wf(t) && (parent.Some? ==> parent.value in t.dirs)
    ensures Wf(r.0) && r.1 !in t.dirs && r.0.dirs.Keys == t.dirs.Keys + {r.1}
    ensures r.0.dirs[r.1] == DirNode(name, parent, map[], map[])
    ensures r.0.files == t.files && r.0.nextFile == t.nextFile && r.0.nextDir == r.1 + 1
    ensures parent.None? ==> forall d :: d in t.dirs ==> r.0.dirs[d] == t.dirs[d]
    ensures parent.Some? ==>
      && r.0.dirs[parent.value] == t.dirs[parent.value].(directories := t.dirs[parent.value].directories[name := r.1])
      && forall d :: d in t.dirs && d != parent.value ==> r.0.dirs[d] == t.dirs[d]
  {
    var id := t.nextDir;
    var t1 := t.(dirs := t.dirs[id := DirNode(name, None, map[], map[])], nextDir := id + 1);
    (SetDirectoryParent(t1, id, parent), id)
  }

  /** `new File(parent, name, size, content)`: the fields as given, then `setParent(parent)`. */
  function NewFile(t: Tree, parent: Option<DirId>, name: string, size: int, content: seq<byte>): (r: (Tree, FileId))
    requires Wf(t) && (parent.Some? ==> parent.value in t.dirs)
    ensures Wf(r.0) && r.1 !in t.files && r.0.files == t.files[r.1 := FileNode(name, size, content, parent)]
    ensures r.0.nextDir == t.nextDir && r.0.nextFile == r.1 + 1
    ensures parent.None? ==> r.0.dirs == t.dirs
    ensures parent.Some? ==>
      r.0.dirs == t.dirs[parent.value := t.dirs[parent.value].(files := t.dirs[parent.value].files[name := r.1])]
  {
    var id := t.nextFile;
    var t1 := t.(files := t.files[id := FileNode(name, size, content, None)], nextFile := id + 1);
    (SetFileParent(t1, id, parent), id)
  }

  /** `Directory.getSize`: the number of direct children, directories plus files. */
  function DirectorySize(t: Tree, d: DirId): (r: nat)
    requires d in t.dirs
    ensures r == 0 <==> t.dirs[d].directories == map[] && t.dirs[d].files == map[]
    ensures r >= |t.dirs[d].directories| && r >= |t.dirs[d].files|
  {
    |t.dirs[d].directories| + |t.dirs[d].files|
  }

  /** `File.getSize`: the size stored at construction, never recomputed from the content. */
  function FileSize(t: Tree, f: FileId): int
    requires f in t.files
  {
    t.files[f].size
  }

  // ---------------------------------------------------------------------------
  // Growth: what the add operations promise never to undo

  /** `b` keeps the name of `a` and every entry of its two maps. */
  ghost predicate NodeGrows(a: DirNode, b: DirNode)
  {
    && a.name == b.name
    && (forall k :: k in a.directories ==> k in b.directories && b.directories[k] == a.directories[k])
    && (forall k :: k in a.files ==> k in b.files && b.files[k] == a.files[k])
  }

  /** Nothing allocated in `t` disappears in `u`, no map entry is lost or redirected, file data stays. */
  ghost predicate Grows(t: Tree, u: Tree)
  {
    && t.nextDir <= u.nextDir && t.nextFile <= u.nextFile
    && (forall d :: d in t.dirs ==> d in u.dirs && NodeGrows(t.dirs[d], u.dirs[d]))
    && (forall f :: f in t.files ==> f in u.files && u.files[f].(parent := None) == t.files[f].(parent := None))
  }

  lemma {:induction false} GrowsTrans(t: Tree, u: Tree, v: Tree)
    requires Grows(t, u) && Grows(u, v)
    ensures Grows(t, v)
  {
    forall d | d in t.dirs
      ensures d in v.dirs && NodeGrows(t.dirs[d], v.dirs[d])
    {
      assert NodeGrows(t.dirs[d], u.dirs[d]) && NodeGrows(u.dirs[d], v.dirs[d]);
    }
    forall f | f in t.files
      ensures f in v.files && v.files[f].(parent := None) == t.files[f].(parent := None)
    {
      assert u.files[f].(parent := None) == t.files[f].(parent := None);
    }
  }

  /**
   * `File.getSize` answers the size passed to the constructor, whatever the
   * content holds, and keeps answering it while the tree grows.
   */
  lemma {:induction false} FileSizeAsConstructed(t: Tree, parent: Option<DirId>, name: string, size: int, content: seq<byte>, u: Tree)
    requires Wf(t) && (parent.Some? ==> parent.value in t.dirs)
    requires Grows(NewFile(t, parent, name, size, content).0, u)
    ensures NewFile(t, parent, name, size, content).1 in u.files
    ensures FileSize(u, NewFile(t, parent, name, size, content).1) == size
  {
    var (t1, f) := NewFile(t, parent, name, size, content);
    assert u.files[f].(parent := None) == t1.files[f].(parent := None);
  }

  // ---------------------------------------------------------------------------
  // Queries by relative path

  /**
   * `Directory.existsFile`: with more than one piece, descend into the
   * subdirectory named by the first piece (false when there is none) and look
   * up the text after the first separator there; with one piece, look it up
   * among the files. It answers whether a file is listed under the pieces of
   * the path. A path made only of separators splits into no piece at all,
   * where Java indexes past the end: such a path is not accepted.
   */
  function ExistsFile(t: Tree, d: DirId, rel: string): (r: bool)
    requires Wf(t) && d in t.dirs && Split(rel) != []
    ensures r == FileAt(t, d, Split(rel))
    decreases |rel|
  {
    var pieces := Split(rel);
    if |pieces| > 1 then
      SplitStep(rel);
      var first := pieces[0];
      var rest := rel[|first| + 1..];
      WalkInit(t, d, pieces, Split(rest));
      assert Last(Split(rest)) == Last(pieces);
      if first in t.dirs[d].directories then
        ExistsFile(t, t.dirs[d].directories[first], rest)
      else
        assert !FileAt(t, d, pieces);
        false
    else
      assert pieces[..0] == [];
      pieces[0] in t.dirs[d].files
  }

  /**
   * `Directory.existsDirectory`, as written: the same descent as `existsFile`,
   * and the last piece is looked up among the FILES, not the subdirectories,
   * so it answers exactly what `existsFile` answers.
   */
  function ExistsDirectory(t: Tree, d: DirId, rel: string): (r: bool)
    requires Wf(t) && d in t.dirs && Split(rel) != []
    ensures r == ExistsFile(t, d, rel)
    decreases |rel|
  {
    var pieces := Split(rel);
    if |pieces| > 1 then
      SplitStep(rel);
      var first := pieces[0];
      if first in t.dirs[d].directories then
        ExistsDirectory(t, t.dirs[d].directories[first], rel[|first| + 1..])
      else
        false
    else
      pieces[0] in t.dirs[d].files
  }

  /** Splitting off the first name of a walk. */
  lemma {:induction false} WalkInit(t: Tree, d: DirId, names: seq<string>, rest: seq<string>)
    requires Wf(t) && d in t.dirs && |names| > 1 && rest == names[1..]
    ensures Walk(t, d, names[..|names| - 1]) ==
      if names[0] in t.dirs[d].directories
      then Walk(t, t.dirs[d].directories[names[0]], rest[..|rest| - 1])
      else None
  {
    assert names[..|names| - 1][0] == names[0];
    assert names[..|names| - 1][1..] == rest[..|rest| - 1];
  }

  /** The directory reached from `d` by following `names` through the `directories` maps. */
  function Walk(t: Tree, d: DirId, names: seq<string>): (r: Option<DirId>)
    requires Wf(t) && d in t.dirs
    ensures r.Some? ==> r.value in t.dirs
    decreases |names|
  {
    if names == [] then Some(d)
    else if names[0] in t.dirs[d].directories then Walk(t, t.dirs[d].directories[names[0]], names[1..])
    else None
  }

  /** A file is listed under `names` below `d`: all names but the last lead to a directory holding it. */
  ghost predicate FileAt(t: Tree, d: DirId, names: seq<string>)
    requires Wf(t) && d in t.dirs
  {
    && names != []
    && var w := Walk(t, d, names[..|names| - 1]);
    && w.Some?
    && Last(names) in t.dirs[w.value].files
  }

  /** A directory is listed under `names` below `d`. */
  ghost predicate DirectoryAt(t: Tree, d: DirId, names: seq<string>)
    requires Wf(t) && d in t.dirs
  {
    Walk(t, d, names).Some?
  }

  // ---------------------------------------------------------------------------
  // Additions by relative path

  /**
   * The first step of both add operations: the subdirectory of `d` named
   * `first`, reused when listed, otherwise created as `new Directory(d, first)`
   * and put into `d.directories` once more.
   */
  function Subdirectory(t: Tree, d: DirId, first: string): (r: (Tree, DirId))
    requires Wf(t) && d in t.dirs
    ensures Wf(r.0) && Grows(t, r.0) && r.0.files == t.files && r.0.nextFile == t.nextFile
    ensures r.1 in r.0.dirs && first in r.0.dirs[d].directories && r.0.dirs[d].directories[first] == r.1
    ensures forall e :: e in t.dirs ==> r.0.dirs[e].files == t.dirs[e].files
    ensures first in t.dirs[d].directories ==> r == (t, t.dirs[d].directories[first])
    ensures first !in t.dirs[d].directories ==>
      && r.1 !in t.dirs && r.0.dirs.Keys == t.dirs.Keys + {r.1}
      && r.0.dirs[r.1] == DirNode(first, Some(d), map[], map[])
      && r.0.dirs == t.dirs[d := t.dirs[d].(directories := t.dirs[d].directories[first := r.1])][r.1 := DirNode(first, Some(d), map[], map[])]
  {
    if first in t.dirs[d].directories then
      (t, t.dirs[d].directories[first])
    else
      var (t1, c) := NewDirectory(t, Some(d), first);
      NewSubdirectory(t, d, first);
      var t2 := WithDirectory(t1, d, t1.dirs[d].(directories := t1.dirs[d].directories[first := c]));
      (t2, c)
  }

  /** The creating branch of `Subdirectory`: the second `put` repeats the one `setParent` made. */
  lemma {:induction false} NewSubdirectory(t: Tree, d: DirId, first: string)
    requires Wf(t) && d in t.dirs && first !in t.dirs[d].directories
    ensures var (t1, c) := NewDirectory(t, Some(d), first);
      && Grows(t, t1) && d in t1.dirs && first in t1.dirs[d].directories && t1.dirs[d].directories[first] == c
      && WithDirectory(t1, d, t1.dirs[d].(directories := t1.dirs[d].directories[first := c])) == t1
      && t1.dirs == t.dirs[d := t.dirs[d].(directories := t.dirs[d].directories[first := c])][c := DirNode(first, Some(d), map[], map[])]
  {
    var (t1, c) := NewDirectory(t, Some(d), first);
    NewDirectoryGrows(t, d, first);
    RepeatedPut(t1, d, first, c);
    assert t1.dirs == t.dirs[d := t.dirs[d].(directories := t.dirs[d].directories[first := c])][c := DirNode(first, Some(d), map[], map[])];
  }

  /** Creating a subdirectory under a name not yet listed only adds. */
  lemma {:induction false} NewDirectoryGrows(t: Tree, d: DirId, name: string)
    requires Wf(t) && d in t.dirs && name !in t.dirs[d].directories
    ensures Grows(t, NewDirectory(t, Some(d), name).0)
  {
    var r := NewDirectory(t, Some(d), name).0;
    forall e | e in t.dirs
      ensures e in r.dirs && NodeGrows(t.dirs[e], r.dirs[e])
    {
      if e == d {
        assert r.dirs[e].directories == t.dirs[e].directories[name := NewDirectory(t, Some(d), name).1];
      }
    }
  }

  /** Putting an entry that is already there changes nothing. */
  lemma {:induction false} RepeatedPut(t: Tree, d: DirId, name: string, c: DirId)
    requires Wf(t) && d in t.dirs && name in t.dirs[d].directories && t.dirs[d].directories[name] == c
    ensures WithDirectory(t, d, t.dirs[d].(directories := t.dirs[d].directories[name := c])) == t
  {
    assert t.dirs[d].directories[name := c] == t.dirs[d].directories;
    assert t.dirs[d := t.dirs[d]] == t.dirs;
  }

  /** Attaching a file where no file of its name is listed only adds. */
  lemma {:induction false} SetFileParentGrows(t: Tree, f: FileId, d: DirId)
    requires Wf(t) && f in t.files && d in t.dirs && t.files[f].name !in t.dirs[d].files
    ensures Grows(t, SetFileParent(t, f, Some(d)))
  {
  }

  /** Attaching a directory where no subdirectory of its name is listed only adds. */
  lemma {:induction false} SetDirectoryParentGrows(t: Tree, x: DirId, d: DirId)
    requires Wf(t) && x in t.dirs && d in t.dirs && t.dirs[x].name !in t.dirs[d].directories
    ensures Grows(t, SetDirectoryParent(t, x, Some(d)))
  {
    var r := SetDirectoryParent(t, x, Some(d));
    forall e | e in t.dirs
      ensures e in r.dirs && NodeGrows(t.dirs[e], r.dirs[e])
    {
      if e == d {
        assert r.dirs[d].directories == t.dirs[d].directories[t.dirs[x].name := x];
      } else if e == x {
        assert r.dirs[x] == t.dirs[x].(parent := Some(d));
      }
    }
  }

  /**
   * `Directory.addFile`: with more than one piece, take the subdirectory named
   * by the first piece (created when missing) and add the text after the
   * first separator there; with one piece, attach the file unless a file of
   * the FILE's own name is already listed.
   */
  function AddFile(t: Tree, d: DirId, rel: string, f: FileId): (r: Tree)
    requires Wf(t) && d in t.dirs && f in t.files
    ensures Wf(r) && Grows(t, r) && r.files.Keys == t.files.Keys && r.nextFile == t.nextFile
    decreases |rel|
  {
    var pieces := Split(rel);
    if |pieces| > 1 then
      SplitStep(rel);
      var (t1, c) := Subdirectory(t, d, pieces[0]);
      var r := AddFile(t1, c, rel[|pieces[0]| + 1..], f);
      GrowsTrans(t, t1, r);
      r
    else if t.files[f].name in t.dirs[d].files then
      t
    else
      SetFileParentGrows(t, f, d);
      SetFileParent(t, f, Some(d))
  }

  /**
   * `Directory.addDirectory`: the same descent as `addFile`; at the last piece
   * the directory is attached unless a subdirectory of ITS name is listed.
   */
  function AddDirectory(t: Tree, d: DirId, rel: string, x: DirId): (r: Tree)
    requires Wf(t) && d in t.dirs && x in t.dirs
    ensures Wf(r) && Grows(t, r) && r.files == t.files && r.nextFile == t.nextFile
    ensures forall e :: e in t.dirs ==> r.dirs[e].files == t.dirs[e].files
    decreases |rel|
  {
    var pieces := Split(rel);
    if |pieces| > 1 then
      SplitStep(rel);
      var (t1, c) := Subdirectory(t, d, pieces[0]);
      var r := AddDirectory(t1, c, rel[|pieces[0]| + 1..], x);
      GrowsTrans(t, t1, r);
      r
    else if t.dirs[x].name in t.dirs[d].directories then
      t
    else
      SetDirectoryParentGrows(t, x, d);
      SetDirectoryParentKeepsFiles(t, x, Some(d));
      SetDirectoryParent(t, x, Some(d))
  }

  /** The last level of `addFile`: attach the file unless a file of its name is listed. */
  lemma {:induction false} AddFileLast(t: Tree, d: DirId, rel: string, f: FileId)
    requires Wf(t) && d in t.dirs && f in t.files && |Split(rel)| <= 1
    ensures AddFile(t, d, rel, f) == if t.files[f].name in t.dirs[d].files then t else SetFileParent(t, f, Some(d))
  {
  }

  /** The last level of `addDirectory`: attach the directory unless a subdirectory of its name is listed. */
  lemma {:induction false} AddDirectoryLast(t: Tree, d: DirId, rel: string, x: DirId)
    requires Wf(t) && d in t.dirs && x in t.dirs && |Split(rel)| <= 1
    ensures AddDirectory(t, d, rel, x) == if t.dirs[x].name in t.dirs[d].directories then t else SetDirectoryParent(t, x, Some(d))
  {
  }

  /** One level of the descent of `addFile`: through the subdirectory named by the first piece. */
  lemma {:induction false} AddFileUnfold(t: Tree, d: DirId, rel: string, f: FileId)
    requires Wf(t) && d in t.dirs && f in t.files && |Split(rel)| > 1
    ensures |Split(rel)[0]| < |rel|
    ensures var first := Split(rel)[0];
            var rest := rel[|first| + 1..];
            var s := Subdirectory(t, d, first);
            && Split(rest) == Split(rel)[1..]
            && AddFile(t, d, rel, f) == AddFile(s.0, s.1, rest, f)
  {
    SplitStep(rel);
  }

  /** One level of the descent of `addDirectory`. */
  lemma {:induction false} AddDirectoryUnfold(t: Tree, d: DirId, rel: string, x: DirId)
    requires Wf(t) && d in t.dirs && x in t.dirs && |Split(rel)| > 1
    ensures |Split(rel)[0]| < |rel|
    ensures var first := Split(rel)[0];
            var rest := rel[|first| + 1..];
            var s := Subdirectory(t, d, first);
            && Split(rest) == Split(rel)[1..]
            && AddDirectory(t, d, rel, x) == AddDirectory(s.0, s.1, rest, x)
  {
    SplitStep(rel);
  }
}
