/**
 * The mirror tree as the Java objects hold it: one heap of directory and file
 * nodes whose fields are updated in place. `Mirror` keeps the nodes in two
 * maps indexed by identifier (a Java reference becomes an identifier) and
 * performs `setParent`, the constructors, `addFile` and `addDirectory` step by
 * step; each method is proved to leave exactly the tree that the function of
 * the same name in module Models describes.
 *
 * Ghost ranks make the parent chains and the child maps acyclic: a parent has
 * a smaller rank than each of its children, so the path of a node can be built
 * by walking up and a tree can be visited by walking down.
 */
module MirrorTree {
  import opened PathStrings
  import opened Models

  function Max(a: nat, b: nat): (r: nat)
    ensures r >= a && r >= b && (r == a || r == b)
  {
    if a < b then b else a
  }

  /** A parent ranks below the node, and the node below each listed subdirectory. */
  ghost predicate RankedNode(n: DirNode, rank: map<DirId, nat>, r: nat)
  {
    && (n.parent.Some? ==> n.parent.value in rank && rank[n.parent.value] < r)
    && (forall k :: k in n.directories ==> n.directories[k] in rank && r < rank[n.directories[k]])
  }

  /** Every directory has a rank no larger than `height`, consistent with both kinds of link. */
  ghost predicate Ranked(dirs: map<DirId, DirNode>, rank: map<DirId, nat>, height: nat)
  {
    && rank.Keys == dirs.Keys
    && forall d {:trigger d in dirs} :: d in dirs ==> rank[d] <= height && RankedNode(dirs[d], rank, rank[d])
  }

  /** No parent, and listed in no directory's `directories`. */
  ghost predicate Detached(dirs: map<DirId, DirNode>, x: DirId)
    requires x in dirs
  {
    && dirs[x].parent.None?
    && forall d, k :: d in dirs && k in dirs[d].directories ==> dirs[d].directories[k] != x
  }

  /** No subdirectory listed, and no directory has it as parent. */
  ghost predicate Leaf(dirs: map<DirId, DirNode>, x: DirId)
    requires x in dirs
  {
    && dirs[x].directories == map[]
    && forall d :: d in dirs && dirs[d].parent.Some? ==> dirs[d].parent.value != x
  }

  // ---------------------------------------------------------------------------
  // How each step keeps the ranks

  /** The node `new Directory(name)` creates before its parent is set. */
  function Allocated(t: Tree, name: string): (r: Tree)
    requires Wf(t)
    ensures Wf(r) && t.nextDir in r.dirs && Detached(r.dirs, t.nextDir) && Leaf(r.dirs, t.nextDir)
    ensures r.dirs == t.dirs[t.nextDir := DirNode(name, None, map[], map[])]
    ensures r.files == t.files && r.nextDir == t.nextDir + 1 && r.nextFile == t.nextFile
  {
    t.(dirs := t.dirs[t.nextDir := DirNode(name, None, map[], map[])], nextDir := t.nextDir + 1)
  }

  lemma {:induction false} AllocatedRanked(t: Tree, rank: map<DirId, nat>, height: nat, name: string)
    requires Wf(t) && Ranked(t.dirs, rank, height)
    ensures Ranked(Allocated(t, name).dirs, rank[t.nextDir := 0], height)
  {
    var r := Allocated(t, name);
    var rank' := rank[t.nextDir := 0];
    forall d | d in r.dirs
      ensures rank'[d] <= height && RankedNode(r.dirs[d], rank', rank'[d])
    {
      if d != t.nextDir {
        assert RankedNode(t.dirs[d], rank, rank[d]);
      }
    }
  }

  /** The directories after `x.setParent(p)`, for `x` other than `p`. */
  function Attached(dirs: map<DirId, DirNode>, x: DirId, p: DirId): map<DirId, DirNode>
    requires x in dirs && p in dirs
  {
    dirs[x := dirs[x].(parent := Some(p))][p := dirs[p].(directories := dirs[p].directories[dirs[x].name := x])]
  }

  lemma {:induction false} SetDirectoryParentAttaches(t: Tree, x: DirId, p: DirId)
    requires Wf(t) && x in t.dirs && p in t.dirs && x != p
    ensures SetDirectoryParent(t, x, Some(p)).dirs == Attached(t.dirs, x, p)
  {
  }

  /** Attaching a detached leaf below `p`: it takes the rank just above `p`. */
  lemma {:induction false} AttachedRanked(dirs: map<DirId, DirNode>, rank: map<DirId, nat>, height: nat, x: DirId, p: DirId)
    requires Ranked(dirs, rank, height)
    requires x in dirs && p in dirs && x != p && Detached(dirs, x) && Leaf(dirs, x)
    ensures Ranked(Attached(dirs, x, p), rank[x := rank[p] + 1], Max(height, rank[p] + 1))
  {
    var u := Attached(dirs, x, p);
    forall d | d in u
      ensures rank[x := rank[p] + 1][d] <= Max(height, rank[p] + 1)
      ensures RankedNode(u[d], rank[x := rank[p] + 1], rank[x := rank[p] + 1][d])
    {
      AttachedNodeRanked(dirs, rank, height, x, p, d);
    }
  }

  /** One node after attaching `x` below `p`. */
  lemma {:induction false} AttachedNodeRanked(dirs: map<DirId, DirNode>, rank: map<DirId, nat>, height: nat, x: DirId, p: DirId, d: DirId)
    requires Ranked(dirs, rank, height)
    requires x in dirs && p in dirs && x != p && Detached(dirs, x) && Leaf(dirs, x) && d in dirs
    ensures var rank' := rank[x := rank[p] + 1];
      && rank'[d] <= Max(height, rank[p] + 1)
      && RankedNode(Attached(dirs, x, p)[d], rank', rank'[d])
  {
    var u := Attached(dirs, x, p);
    var rank' := rank[x := rank[p] + 1];
    assert RankedNode(dirs[d], rank, rank[d]);
    if d == p {
      forall k | k in u[p].directories
        ensures u[p].directories[k] in rank' && rank'[p] < rank'[u[p].directories[k]]
      {
        if k != dirs[x].name {
          assert dirs[p].directories[k] != x;
        }
      }
    } else if d != x {
      assert u[d] == dirs[d];
      forall k | k in u[d].directories
        ensures rank'[d] < rank'[u[d].directories[k]]
      {
        assert dirs[d].directories[k] != x;
      }
    }
  }

  /** Clearing a parent field only drops a constraint. */
  lemma {:induction false} ParentClearedRanked(dirs: map<DirId, DirNode>, rank: map<DirId, nat>, height: nat, x: DirId)
    requires Ranked(dirs, rank, height) && x in dirs
    ensures Ranked(dirs[x := dirs[x].(parent := None)], rank, height)
  {
    var u := dirs[x := dirs[x].(parent := None)];
    forall d | d in u
      ensures rank[d] <= height && RankedNode(u[d], rank, rank[d])
    {
      assert RankedNode(dirs[d], rank, rank[d]);
    }
  }

  /** Files do not take part in the ranks. */
  lemma {:induction false} SetFileParentRanked(t: Tree, rank: map<DirId, nat>, height: nat, f: FileId, parent: Option<DirId>)
    requires Wf(t) && Ranked(t.dirs, rank, height) && f in t.files && (parent.Some? ==> parent.value in t.dirs)
    ensures Ranked(SetFileParent(t, f, parent).dirs, rank, height)
  {
    var r := SetFileParent(t, f, parent);
    forall d | d in r.dirs
      ensures rank[d] <= height && RankedNode(r.dirs[d], rank, rank[d])
    {
      assert RankedNode(t.dirs[d], rank, rank[d]);
    }
  }

  /** Taking the subdirectory named `first` leaves a detached leaf other than `d` detached, a leaf, and not taken. */
  lemma {:induction false} SubdirectoryKeepsDetached(t: Tree, d: DirId, first: string, x: DirId)
    requires Wf(t) && d in t.dirs && x in t.dirs && x != d && Detached(t.dirs, x) && Leaf(t.dirs, x)
    ensures var s := Subdirectory(t, d, first);
      x in s.0.dirs && s.1 != x && Detached(s.0.dirs, x) && Leaf(s.0.dirs, x)
  {
    var s := Subdirectory(t, d, first);
    if first !in t.dirs[d].directories {
      NewChildKeepsDetached(t.dirs, d, first, s.1, x);
    }
  }

  /** Listing a new node `c` below `d` keeps a detached leaf `x` other than both detached and a leaf. */
  lemma {:induction false} NewChildKeepsDetached(dirs: map<DirId, DirNode>, d: DirId, first: string, c: DirId, x: DirId)
    requires d in dirs && x in dirs && x != d && c !in dirs && Detached(dirs, x) && Leaf(dirs, x)
    ensures var u := dirs[d := dirs[d].(directories := dirs[d].directories[first := c])][c := DirNode(first, Some(d), map[], map[])];
      x in u && Detached(u, x) && Leaf(u, x)
  {
    var u := dirs[d := dirs[d].(directories := dirs[d].directories[first := c])][c := DirNode(first, Some(d), map[], map[])];
    forall e, k | e in u && k in u[e].directories
      ensures u[e].directories[k] != x
    {
      if e == d && k != first {
        assert u[e].directories[k] == dirs[d].directories[k];
      } else if e != d && e != c {
        assert u[e] == dirs[e];
      }
    }
    forall e | e in u && u[e].parent.Some?
      ensures u[e].parent.value != x
    {
      if e != c {
        assert u[e].parent == dirs[e].parent;
      }
    }
  }

  /** What the class keeps: references inside the heap, ranks consistent with all links. */
  ghost predicate Inv(t: Tree, rank: map<DirId, nat>, height: nat)
  {
    Wf(t) && Ranked(t.dirs, rank, height)
  }

  /** The ranks after `x.setParent(parent)`. */
  ghost function RankAfter(t: Tree, rank: map<DirId, nat>, x: DirId, parent: Option<DirId>): map<DirId, nat>
    requires parent.Some? ==> parent.value in rank
  {
    if parent.Some? then rank[x := rank[parent.value] + 1] else rank
  }

  ghost function HeightAfter(rank: map<DirId, nat>, height: nat, parent: Option<DirId>): nat
    requires parent.Some? ==> parent.value in rank
  {
    if parent.Some? then Max(height, rank[parent.value] + 1) else height
  }

  lemma {:induction false} AllocatedInv(t: Tree, rank: map<DirId, nat>, height: nat, name: string)
    requires Inv(t, rank, height)
    ensures Inv(Allocated(t, name), rank[t.nextDir := 0], height)
  {
    AllocatedRanked(t, rank, height, name);
  }

  lemma {:induction false} SetDirectoryParentInv(t: Tree, rank: map<DirId, nat>, height: nat, x: DirId, parent: Option<DirId>)
    requires Inv(t, rank, height) && x in t.dirs
    requires parent.Some? ==> parent.value in t.dirs && parent.value != x && Detached(t.dirs, x) && Leaf(t.dirs, x)
    ensures Inv(SetDirectoryParent(t, x, parent), RankAfter(t, rank, x, parent), HeightAfter(rank, height, parent))
  {
    if parent.Some? {
      AttachedRanked(t.dirs, rank, height, x, parent.value);
      SetDirectoryParentAttaches(t, x, parent.value);
    } else {
      ParentClearedRanked(t.dirs, rank, height, x);
    }
  }

  /** `new Directory(name)` yields a detached leaf and only adds to the tree. */
  lemma {:induction false} NewDetachedDirectory(t: Tree, name: string)
    requires Wf(t)
    ensures var r := NewDirectory(t, None, name);
      && Grows(t, r.0) && r.1 in r.0.dirs && Detached(r.0.dirs, r.1) && Leaf(r.0.dirs, r.1)
  {
    var r := NewDirectory(t, None, name);
    forall d, k | d in r.0.dirs && k in r.0.dirs[d].directories
      ensures r.0.dirs[d].directories[k] != r.1
    {
      if d != r.1 {
        assert DirRefsIn(t.dirs.Keys, t.files.Keys, t.dirs[d]);
      }
    }
    forall d | d in r.0.dirs && r.0.dirs[d].parent.Some?
      ensures r.0.dirs[d].parent.value != r.1
    {
      assert DirRefsIn(t.dirs.Keys, t.files.Keys, t.dirs[d]);
    }
  }

  // ---------------------------------------------------------------------------

  class Mirror {
    var dirs: map<DirId, DirNode>
    var files: map<FileId, FileNode>
    var nextDir: DirId
    var nextFile: FileId
    ghost var rank: map<DirId, nat>
    ghost var height: nat

    /** The whole heap as a value. */
    function Snapshot(): Tree
      reads this
    {
      Tree(dirs, files, nextDir, nextFile)
    }

    ghost predicate Valid()
      reads this
    {
      Inv(Snapshot(), rank, height)
    }

    /** An empty heap. */
    constructor()
      ensures Valid() && Snapshot() == EmptyTree()
    {
      dirs := map[];
      files := map[];
      nextDir := 0;
      nextFile := 0;
      rank := map[];
      height := 0;
    }

    /**
     * `Directory.setParent`. Attaching below a parent is restricted to a
     * detached leaf other than the parent, which is what every caller passes
     * (a directory just constructed, or the fresh one `addDirectory` receives).
     */
    method SetDirectoryParent(x: DirId, parent: Option<DirId>)
      requires Valid() && x in dirs
      requires parent.Some? ==> parent.value in dirs && parent.value != x && Detached(dirs, x) && Leaf(dirs, x)
      modifies this
      ensures Valid()
      ensures Snapshot() == Models.SetDirectoryParent(old(Snapshot()), x, parent)
    {
      ghost var t := Snapshot();
      SetDirectoryParentInv(t, rank, height, x, parent);
      var node := dirs[x];
      dirs := dirs[x := node.(parent := parent)];
      if parent.Some? {
        var p := parent.value;
        SetDirectoryParentAttaches(t, x, p);
        dirs := dirs[p := dirs[p].(directories := dirs[p].directories[node.name := x])];
        assert dirs == Attached(t.dirs, x, p);
      } else {
        assert dirs == t.dirs[x := t.dirs[x].(parent := None)];
      }
      rank := RankAfter(t, rank, x, parent);
      height := HeightAfter(old(rank), height, parent);
      assert Snapshot() == Models.SetDirectoryParent(t, x, parent);
    }

    /** `File.setParent`: the parent's `files` gain the file under its name. */
    method SetFileParent(f: FileId, parent: Option<DirId>)
      requires Valid() && f in files && (parent.Some? ==> parent.value in dirs)
      modifies this
      ensures Valid() && Snapshot() == Models.SetFileParent(old(Snapshot()), f, parent)
    {
      SetFileParentRanked(Snapshot(), rank, height, f, parent);
      var node := files[f];
      files := files[f := node.(parent := parent)];
      if parent.Some? {
        var p := parent.value;
        dirs := dirs[p := dirs[p].(files := dirs[p].files[node.name := f])];
      }
    }

    /** `new Directory(parent, name)`. */
    method NewDirectory(parent: Option<DirId>, name: string) returns (id: DirId)
      requires Valid() && (parent.Some? ==> parent.value in dirs)
      modifies this
      ensures Valid() && (Snapshot(), id) == Models.NewDirectory(old(Snapshot()), parent, name)
    {
      ghost var t := Snapshot();
      AllocatedInv(t, rank, height, name);
      id := nextDir;
      dirs := dirs[id := DirNode(name, None, map[], map[])];
      nextDir := nextDir + 1;
      rank := rank[id := 0];
      assert Snapshot() == Allocated(t, name);
      SetDirectoryParent(id, parent);
      assert Models.NewDirectory(t, parent, name) == (Models.SetDirectoryParent(Allocated(t, name), id, parent), id);
    }

    /** `new File(parent, name, size, content)`. */
    method NewFile(parent: Option<DirId>, name: string, size: int, content: seq<byte>) returns (id: FileId)
      requires Valid() && (parent.Some? ==> parent.value in dirs)
      modifies this
      ensures Valid() && (Snapshot(), id) == Models.NewFile(old(Snapshot()), parent, name, size, content)
    {
      id := nextFile;
      files := files[id := FileNode(name, size, content, None)];
      nextFile := nextFile + 1;
      forall d | d in dirs
        ensures DirRefsIn(dirs.Keys, files.Keys, dirs[d])
      {
        assert DirRefsIn(old(dirs.Keys), old(files.Keys), dirs[d]);
      }
      SetFileParent(id, parent);
    }

    /**
     * The first step of `addFile` and `addDirectory`: the subdirectory of `d`
     * named `first`, created when missing and then put into `d.directories`.
     */
    method Subdirectory(d: DirId, first: string) returns (c: DirId)
      requires Valid() && d in dirs
      modifies this
      ensures Valid() && (Snapshot(), c) == Models.Subdirectory(old(Snapshot()), d, first)
    {
      if first in dirs[d].directories {
        c := dirs[d].directories[first];
      } else {
        c := NewDirectory(Some(d), first);
        RepeatedPut(Snapshot(), d, first, c);
        dirs := dirs[d := dirs[d].(directories := dirs[d].directories[first := c])];
      }
    }

    /** `Directory.addFile`. */
    method AddFile(d: DirId, rel: string, f: FileId)
      requires Valid() && d in dirs && f in files
      modifies this
      ensures Valid() && Snapshot() == Models.AddFile(old(Snapshot()), d, rel, f)
      decreases |rel|
    {
      ghost var t := Snapshot();
      var pieces := Split(rel);
      if |pieces| > 1 {
        AddFileUnfold(t, d, rel, f);
        var first := pieces[0];
        var c := Subdirectory(d, first);
        assert (Snapshot(), c) == Models.Subdirectory(t, d, first);
        AddFile(c, rel[|first| + 1..], f);
      } else {
        AddFileLast(t, d, rel, f);
        if files[f].name !in dirs[d].files {
          SetFileParent(f, Some(d));
        }
      }
    }

    /**
     * `Directory.addDirectory`, for a detached leaf `x` other than `d` (the
     * importer always passes a directory it has just constructed).
     */
    method AddDirectory(d: DirId, rel: string, x: DirId)
      requires Valid() && d in dirs && x in dirs && x != d
      requires Detached(dirs, x) && Leaf(dirs, x)
      modifies this
      ensures Valid() && Snapshot() == Models.AddDirectory(old(Snapshot()), d, rel, x)
      decreases |rel|
    {
      var pieces := Split(rel);
      if |pieces| > 1 {
        ghost var t := Snapshot();
        AddDirectoryUnfold(t, d, rel, x);
        var first := pieces[0];
        SubdirectoryKeepsDetached(t, d, first, x);
        var c := Subdirectory(d, first);
        assert dirs == Models.Subdirectory(t, d, first).0.dirs;
        AddDirectory(c, rel[|first| + 1..], x);
      } else {
        AddDirectoryLast(Snapshot(), d, rel, x);
        if dirs[x].name !in dirs[d].directories {
          SetDirectoryParent(x, Some(d));
        }
      }
    }

    // -------------------------------------------------------------------------
    // Paths, built by walking up the parent links

    /**
     * `Directory.getPath`: empty for a directory without parent; otherwise the
     * parent's path with name, followed by a separator unless it is the
     * separator itself.
     */
    function DirPath(d: DirId): (p: string)
      reads this
      requires Valid() && d in dirs
      ensures (p == "") == dirs[d].parent.None?
      ensures p != "" ==> p[|p| - 1] == Sep
      decreases rank[d], 0
    {
      match dirs[d].parent
      case None => ""
      case Some(q) =>
        assert RankedNode(dirs[d], rank, rank[d]);
        var above := DirPathWithName(q);
        if above == [Sep] then above else above + [Sep]
    }

    /** `Directory.getPathWithName`: the path followed by the name. */
    function DirPathWithName(d: DirId): (p: string)
      reads this
      requires Valid() && d in dirs
      ensures dirs[d].parent.None? ==> p == dirs[d].name
      ensures |p| >= |dirs[d].name| && p[|p| - |dirs[d].name|..] == dirs[d].name
      decreases rank[d], 1
    {
      DirPath(d) + dirs[d].name
    }

    /**
     * `File.getPath`: the parent's path with name, followed by a separator
     * unless it is the separator itself. A file without parent has no path
     * (the Java code dereferences the missing parent).
     */
    function FilePath(f: FileId): (p: string)
      reads this
      requires Valid() && f in files && files[f].parent.Some?
      ensures p != "" && p[|p| - 1] == Sep
    {
      var q := files[f].parent.value;
      assert q in Snapshot().dirs;
      var above := DirPathWithName(q);
      if above == [Sep] then above else above + [Sep]
    }

    /**
     * `d` hangs below `root` through a chain in which every directory carries a
     * proper name and is listed under that name by its parent.
     */
    ghost predicate ListedUnder(d: DirId, root: DirId)
      reads this
      requires Valid() && d in dirs
      decreases rank[d]
    {
      || d == root
      || (&& dirs[d].parent.Some?
          && var q := dirs[d].parent.value;
          && q in dirs
          && ProperName(dirs[d].name)
          && dirs[d].name in dirs[q].directories
          && dirs[q].directories[dirs[d].name] == d
          && (assert RankedNode(dirs[d], rank, rank[d]); ListedUnder(q, root)))
    }

    /**
     * `File.getPathWithName`: the path followed by the name. A proper name is
     * both what `java.io.File.getName` reads back from it and its last piece.
     */
    function FilePathWithName(f: FileId): (p: string)
      reads this
      requires Valid() && f in files && files[f].parent.Some?
      ensures |p| > |files[f].name| && p[..|p| - |files[f].name|] == FilePath(f)
      ensures p[|p| - |files[f].name|..] == files[f].name
      ensures ProperName(files[f].name) ==> BaseName(p) == files[f].name && Split(p) != [] && Last(Split(p)) == files[f].name
    {
      NameAfterSep(FilePath(f), files[f].name);
      FilePath(f) + files[f].name
    }
  }
}
