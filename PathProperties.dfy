/**
 * What the derived paths of Directory.java and File.java mean: walking the
 * pieces of `getPathWithName` down from the parentless root named by the
 * separator leads back to the node itself.
 */
module PathProperties {
  import opened PathStrings
  import opened Models
  import opened TreeProperties
  import opened MirrorTree

  /** The mirror root: no parent, and named by the separator. */
  ghost predicate IsMirrorRoot(m: Mirror, root: DirId)
    reads m
  {
    root in m.dirs && m.dirs[root].parent.None? && m.dirs[root].name == [Sep]
  }

  /** The path with name of a directory that has a parent, in terms of the parent's. */
  lemma {:induction false} ChildPath(m: Mirror, d: DirId)
    requires m.Valid() && d in m.dirs && m.dirs[d].parent.Some?
    ensures m.dirs[d].parent.value in m.dirs
    ensures var above := m.DirPathWithName(m.dirs[d].parent.value);
      m.DirPathWithName(d) == (if above == [Sep] then above else above + [Sep]) + m.dirs[d].name
  {
    assert m.DirPathWithName(d) == m.DirPath(d) + m.dirs[d].name;
  }

  /** A file's path with name extends the path with name of its parent directory. */
  lemma {:induction false} FilePathBelowParent(m: Mirror, f: FileId)
    requires m.Valid() && f in m.files && m.files[f].parent.Some?
    ensures m.files[f].parent.value in m.dirs
    ensures var above := m.DirPathWithName(m.files[f].parent.value);
      var p := m.FilePathWithName(f);
      |above| <= |p| && p[..|above|] == above
  {
    var q := m.files[f].parent.value;
    assert q in m.Snapshot().dirs;
    var above := m.DirPathWithName(q);
    var a := m.FilePath(f);
    assert a == if above == [Sep] then above else above + [Sep];
    PrefixOfJoin(above, a, m.files[f].name);
  }

  lemma {:induction false} PrefixOfJoin(above: string, a: string, name: string)
    requires a == if above == [Sep] then above else above + [Sep]
    ensures |above| <= |a + name| && (a + name)[..|above|] == above
  {
    assert (a + name)[..|above|] == a[..|above|];
  }

  /**
   * What the path with name of `d` says about it: it starts with the
   * separator; it is the separator alone for the root; otherwise it does not
   * end in a separator and its pieces after the first separator lead from the
   * root to `d`.
   */
  ghost predicate PathLeadsTo(m: Mirror, root: DirId, d: DirId)
    reads m
    requires m.Valid() && root in m.dirs && d in m.dirs
  {
    var p := m.DirPathWithName(d);
    && p != [] && p[0] == Sep
    && (d == root ==> p == [Sep])
    && (d != root ==> |p| > 1 && p[|p| - 1] != Sep && Walk(m.Snapshot(), root, Split(p[1..])) == Some(d))
  }

  /**
   * Path round trip for directories: for every directory listed below the
   * mirror root, the pieces of its path with name lead back to it.
   */
  lemma {:induction false} DirPathRoundTrip(m: Mirror, root: DirId, d: DirId)
    requires m.Valid() && IsMirrorRoot(m, root) && d in m.dirs && m.ListedUnder(d, root)
    ensures PathLeadsTo(m, root, d)
    decreases m.rank[d]
  {
    if d == root {
      assert m.DirPath(root) == "";
    } else {
      var q := m.dirs[d].parent.value;
      assert RankedNode(m.dirs[d], m.rank, m.rank[d]);
      DirPathRoundTrip(m, root, q);
      if q == root {
        DirPathBelowRoot(m, root, d);
      } else {
        DirPathBelowChild(m, root, d);
      }
    }
  }

  /** A directory listed directly in the root. */
  lemma {:induction false} DirPathBelowRoot(m: Mirror, root: DirId, d: DirId)
    requires m.Valid() && IsMirrorRoot(m, root) && d in m.dirs && d != root && m.ListedUnder(d, root)
    requires m.dirs[d].parent == Some(root)
    ensures PathLeadsTo(m, root, d)
  {
    var name := m.dirs[d].name;
    var t := m.Snapshot();
    assert m.DirPath(root) == "";
    ChildPath(m, d);
    var p := m.DirPathWithName(d);
    assert p == [Sep] + name && p[1..] == name;
    assert name[|name| - 1] in name;
    SplitOfName(name);
    assert Walk(t, root, [name]) == Walk(t, d, []);
  }

  /** A directory listed in a directory other than the root. */
  lemma {:induction false} DirPathBelowChild(m: Mirror, root: DirId, d: DirId)
    requires m.Valid() && IsMirrorRoot(m, root) && d in m.dirs && d != root && m.ListedUnder(d, root)
    requires m.dirs[d].parent.Some? && m.dirs[d].parent.value != root
    requires m.dirs[d].parent.value in m.dirs && PathLeadsTo(m, root, m.dirs[d].parent.value)
    ensures PathLeadsTo(m, root, d)
  {
    var q := m.dirs[d].parent.value;
    var name := m.dirs[d].name;
    var t := m.Snapshot();
    var above := m.DirPathWithName(q);
    ChildPath(m, d);
    var p := m.DirPathWithName(d);
    assert p == above + [Sep] + name && p[1..] == above[1..] + [Sep] + name;
    assert name[|name| - 1] in name;
    SplitAppend(above[1..], name);
    WalkAppend(t, root, Split(above[1..]), name);
  }

  /**
   * Path round trip for files: for a file listed under its proper name by a
   * directory listed below the root, `existsFile` on its path with name
   * (without the leading separator) is true, and the walk ends in the file's
   * parent, which lists the file under the last piece.
   */
  lemma {:induction false} FilePathRoundTrip(m: Mirror, root: DirId, f: FileId)
    requires m.Valid() && IsMirrorRoot(m, root) && f in m.files && m.files[f].parent.Some?
    requires m.ListedUnder(m.files[f].parent.value, root)
    requires ProperName(m.files[f].name)
    requires m.files[f].name in m.dirs[m.files[f].parent.value].files
    requires m.dirs[m.files[f].parent.value].files[m.files[f].name] == f
    ensures var rel := m.FilePathWithName(f)[1..];
      && Split(rel) != []
      && ExistsFile(m.Snapshot(), root, rel)
      && var names := Split(rel);
      && Walk(m.Snapshot(), root, names[..|names| - 1]) == Some(m.files[f].parent.value)
      && Last(names) == m.files[f].name
  {
    var q := m.files[f].parent.value;
    DirPathRoundTrip(m, root, q);
    var rel := m.FilePathWithName(f)[1..];
    FilePieces(m, root, f);
  }

  /** The pieces of a file's path with name: the parent's pieces, then the file's name. */
  lemma {:induction false} FilePieces(m: Mirror, root: DirId, f: FileId)
    requires m.Valid() && IsMirrorRoot(m, root) && f in m.files && m.files[f].parent.Some?
    requires m.files[f].parent.value in m.dirs && PathLeadsTo(m, root, m.files[f].parent.value)
    requires ProperName(m.files[f].name)
    ensures var rel := m.FilePathWithName(f)[1..];
      && Split(rel) != []
      && var names := Split(rel);
      && Walk(m.Snapshot(), root, names[..|names| - 1]) == Some(m.files[f].parent.value)
      && Last(names) == m.files[f].name
  {
    var q := m.files[f].parent.value;
    var name := m.files[f].name;
    var above := m.DirPathWithName(q);
    var a := m.FilePath(f);
    assert a == if above == [Sep] then above else above + [Sep];
    assert m.FilePathWithName(f) == a + name;
    JoinPieces(above, name);
  }

  /** The pieces after the leading separator of a directory path joined with a proper name. */
  lemma {:induction false} JoinPieces(above: string, name: string)
    requires ProperName(name) && above != [] && above[0] == Sep
    requires above == [Sep] || (|above| > 1 && above[|above| - 1] != Sep)
    ensures var rel := ((if above == [Sep] then above else above + [Sep]) + name)[1..];
      && Split(rel) != [] && Last(Split(rel)) == name
      && Split(rel)[..|Split(rel)| - 1] == (if above == [Sep] then [] else Split(above[1..]))
  {
    var rel := ((if above == [Sep] then above else above + [Sep]) + name)[1..];
    if above == [Sep] {
      assert rel == name;
      SplitOfName(name);
      assert Split(rel)[..0] == [];
    } else {
      assert rel == above[1..] + [Sep] + name;
      SplitAppend(above[1..], name);
      assert Split(rel)[..|Split(rel)| - 1] == Split(above[1..]);
    }
  }

  /** `b.txt` in `a` in the root named by the separator has path with name `/a/b.txt`. */
  lemma {:induction false} FilePathExample(m: Mirror)
    requires m.Valid()
    requires m.dirs == map[0 := DirNode("/", None, map["a" := 1], map[]),
                           1 := DirNode("a", Some(0), map[], map["b.txt" := 0])]
    requires m.files == map[0 := FileNode("b.txt", 10, [], Some(1))]
    ensures m.FilePath(0) == "/a/" && m.FilePathWithName(0) == "/a/b.txt"
  {
    assert m.DirPath(0) == "";
    assert m.DirPathWithName(0) == "/";
    ChildPath(m, 1);
    assert m.DirPathWithName(1) == "/" + "a";
    assert m.FilePath(0) == "/a" + "/";
  }
}
