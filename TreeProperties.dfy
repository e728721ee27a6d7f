/**
 * What Directory.java promises about its path queries and additions, proved
 * about the functions of module Models.
 */
module TreeProperties {
  import opened PathStrings
  import opened Models

  /** A root holding only the subdirectory "a". */
  function RootWithSubdirectory(): (t: Tree)
    ensures Wf(t) && 0 in t.dirs && 1 in t.dirs
  {
    Tree(map[0 := DirNode("/", None, map["a" := 1], map[]),
             1 := DirNode("a", Some(0), map[], map[])],
         map[], 2, 0)
  }

  /**
   * The defect on an input: the subdirectory "a" is listed, yet
   * `existsDirectory("a")` answers false because no FILE "a" is listed.
   */
  lemma {:induction false} ExistsDirectoryMissesSubdirectory()
    ensures Split("a") == ["a"]
    ensures DirectoryAt(RootWithSubdirectory(), 0, ["a"])
    ensures !ExistsDirectory(RootWithSubdirectory(), 0, "a")
  {
    assert SplitAll("a") == ["a"];
  }

  /** A directory without children holds nothing under any path. */
  lemma {:induction false} EmptyDirectoryHoldsNothing(t: Tree, c: DirId, rel: string)
    requires Wf(t) && c in t.dirs && Split(rel) != []
    requires t.dirs[c].directories == map[] && t.dirs[c].files == map[]
    ensures !ExistsDirectory(t, c, rel)
  {
    var pieces := Split(rel);
    if |pieces| > 1 {
      assert Walk(t, c, pieces[..|pieces| - 1]) == None;
    } else {
      assert pieces[..0] == [];
    }
  }

  /**
   * `addDirectory` never changes what `existsDirectory` answers for the same
   * path: that answer looks at the files, and `addDirectory` leaves every
   * `files` map alone; a subdirectory it creates on the way is empty.
   */
  lemma {:induction false} AddDirectoryKeepsExistsDirectory(t: Tree, d: DirId, rel: string, x: DirId)
    requires Wf(t) && d in t.dirs && x in t.dirs && Split(rel) != []
    ensures ExistsDirectory(AddDirectory(t, d, rel, x), d, rel) == ExistsDirectory(t, d, rel)
    decreases |rel|
  {
    var pieces := Split(rel);
    var r := AddDirectory(t, d, rel, x);
    if |pieces| > 1 {
      AddDirectoryThrough(t, d, rel, x);
      var s := Subdirectory(t, d, pieces[0]);
      var rest := rel[|pieces[0]| + 1..];
      AddDirectoryKeepsExistsDirectory(s.0, s.1, rest, x);
      assert NodeGrows(s.0.dirs[d], r.dirs[d]);
      ExistsFileThrough(r, d, rel, s.1);
      if pieces[0] in t.dirs[d].directories {
        ExistsFileThrough(t, d, rel, s.1);
      } else {
        EmptyDirectoryHoldsNothing(s.0, s.1, rest);
        assert !ExistsFile(t, d, rel);
      }
    } else {
      ExistsFileHere(t, d, rel);
      ExistsFileHere(r, d, rel);
    }
  }

  /** With one piece, `existsFile` is a lookup among the directory's own files. */
  lemma {:induction false} ExistsFileHere(t: Tree, d: DirId, rel: string)
    requires Wf(t) && d in t.dirs && |Split(rel)| == 1
    ensures ExistsFile(t, d, rel) == (Split(rel)[0] in t.dirs[d].files)
  {
  }

  /**
   * The defect after `addDirectory(p, x)` on any tree: the directory is
   * listed under the pieces of `p`, yet `existsDirectory(p)` holds only when
   * a FILE was already listed there.
   */
  lemma {:induction false} AddDirectoryThenExistsDirectory(t: Tree, d: DirId, rel: string, x: DirId)
    requires Wf(t) && d in t.dirs && x in t.dirs && Split(rel) != []
    requires t.dirs[x].name == Last(Split(rel))
    ensures DirectoryAt(AddDirectory(t, d, rel, x), d, Split(rel))
    ensures ExistsDirectory(AddDirectory(t, d, rel, x), d, rel) <==> FileAt(t, d, Split(rel))
  {
    AddDirectoryRoundTrip(t, d, rel, x);
    AddDirectoryKeepsExistsDirectory(t, d, rel, x);
  }

  /** Growth keeps every walk that succeeded, to the same directory. */
  lemma {:induction false} WalkGrows(t: Tree, u: Tree, d: DirId, names: seq<string>)
    requires Wf(t) && Wf(u) && Grows(t, u) && d in t.dirs
    requires Walk(t, d, names).Some?
    ensures Walk(u, d, names) == Walk(t, d, names)
    decreases |names|
  {
    if names != [] {
      assert NodeGrows(t.dirs[d], u.dirs[d]);
      WalkGrows(t, u, t.dirs[d].directories[names[0]], names[1..]);
    }
  }

  /** A walk one name longer: one more lookup in `directories` at its end. */
  lemma {:induction false} WalkAppend(t: Tree, d: DirId, names: seq<string>, n: string)
    requires Wf(t) && d in t.dirs
    ensures Walk(t, d, names + [n]) ==
      var w := Walk(t, d, names);
      if w.Some? && n in t.dirs[w.value].directories then Some(t.dirs[w.value].directories[n]) else None
    decreases |names|
  {
    if names == [] {
      assert names + [n] == [n] && [n][1..] == [];
    } else {
      assert (names + [n])[0] == names[0] && (names + [n])[1..] == names[1..] + [n];
      if names[0] in t.dirs[d].directories {
        WalkAppend(t, t.dirs[d].directories[names[0]], names[1..], n);
      }
    }
  }

  /** A file once found by `existsFile` is still found after any growth. */
  lemma {:induction false} ExistsFileGrows(t: Tree, u: Tree, d: DirId, rel: string)
    requires Wf(t) && Wf(u) && Grows(t, u) && d in t.dirs && Split(rel) != []
    requires ExistsFile(t, d, rel)
    ensures ExistsFile(u, d, rel)
  {
    var pieces := Split(rel);
    var init := pieces[..|pieces| - 1];
    WalkGrows(t, u, d, init);
    assert NodeGrows(t.dirs[Walk(t, d, init).value], u.dirs[Walk(t, d, init).value]);
  }

  /** A directory once listed under a path stays listed after any growth. */
  lemma {:induction false} DirectoryAtGrows(t: Tree, u: Tree, d: DirId, names: seq<string>)
    requires Wf(t) && Wf(u) && Grows(t, u) && d in t.dirs
    requires DirectoryAt(t, d, names)
    ensures DirectoryAt(u, d, names)
  {
    WalkGrows(t, u, d, names);
  }

  /** One level of the descent of `existsFile`. */
  lemma {:induction false} ExistsFileThrough(t: Tree, d: DirId, rel: string, c: DirId)
    requires Wf(t) && d in t.dirs && |Split(rel)| > 1
    requires Split(rel)[0] in t.dirs[d].directories && t.dirs[d].directories[Split(rel)[0]] == c
    ensures |Split(rel)[0]| < |rel| && Split(rel[|Split(rel)[0]| + 1..]) == Split(rel)[1..]
    ensures ExistsFile(t, d, rel) == ExistsFile(t, c, rel[|Split(rel)[0]| + 1..])
  {
    SplitStep(rel);
    var rest := rel[|Split(rel)[0]| + 1..];
    assert Split(rest) != [];
    assert ExistsFile(t, d, rel) == ExistsFile(t, c, rest);
  }

  /** One level of a walk. */
  lemma {:induction false} WalkThrough(t: Tree, d: DirId, names: seq<string>, c: DirId)
    requires Wf(t) && d in t.dirs && names != []
    requires names[0] in t.dirs[d].directories && t.dirs[d].directories[names[0]] == c
    ensures c in t.dirs && Walk(t, d, names) == Walk(t, c, names[1..])
  {
  }

  /**
   * Round trip of `addFile`: when the file is named like the last piece of
   * the path, `existsFile` finds it there afterwards (whether it was attached
   * or a file of that name was listed already).
   */
  lemma {:induction false} AddFileRoundTrip(t: Tree, d: DirId, rel: string, f: FileId)
    requires Wf(t) && d in t.dirs && f in t.files && Split(rel) != []
    requires t.files[f].name == Last(Split(rel))
    ensures ExistsFile(AddFile(t, d, rel, f), d, rel)
    decreases |rel|
  {
    var pieces := Split(rel);
    if |pieces| > 1 {
      AddFileUnfold(t, d, rel, f);
      var first := pieces[0];
      var rest := rel[|first| + 1..];
      var s := Subdirectory(t, d, first);
      AddFileRoundTrip(s.0, s.1, rest, f);
      var r := AddFile(s.0, s.1, rest, f);
      assert NodeGrows(s.0.dirs[d], r.dirs[d]);
      ExistsFileThrough(r, d, rel, s.1);
    }
  }

  /**
   * Round trip of `addDirectory`: when the directory is named like the last
   * piece of the path, a directory is listed under the path afterwards.
   */
  lemma {:induction false} AddDirectoryRoundTrip(t: Tree, d: DirId, rel: string, x: DirId)
    requires Wf(t) && d in t.dirs && x in t.dirs && Split(rel) != []
    requires t.dirs[x].name == Last(Split(rel))
    ensures DirectoryAt(AddDirectory(t, d, rel, x), d, Split(rel))
    decreases |rel|
  {
    var pieces := Split(rel);
    if |pieces| > 1 {
      AddDirectoryThrough(t, d, rel, x);
      var s := Subdirectory(t, d, pieces[0]);
      var rest := rel[|pieces[0]| + 1..];
      assert Last(Split(rest)) == Last(pieces) by {
        assert Split(rest) == pieces[1..];
      }
      AddDirectoryRoundTrip(s.0, s.1, rest, x);
      assert Walk(AddDirectory(t, d, rel, x), d, pieces).Some?;
    } else {
      AddDirectoryHere(t, d, rel, x);
    }
  }

  /**
   * One level of `addDirectory` seen from the top: the rest of the path is
   * added below the subdirectory named by the first piece, and a walk from
   * the top passes through that subdirectory.
   */
  lemma {:induction false} AddDirectoryThrough(t: Tree, d: DirId, rel: string, x: DirId)
    requires Wf(t) && d in t.dirs && x in t.dirs && |Split(rel)| > 1
    ensures |Split(rel)[0]| < |rel|
    ensures var s := Subdirectory(t, d, Split(rel)[0]);
            var rest := rel[|Split(rel)[0]| + 1..];
            var r := AddDirectory(t, d, rel, x);
            && Split(rest) == Split(rel)[1..]
            && s.0.dirs[x].name == t.dirs[x].name
            && r == AddDirectory(s.0, s.1, rest, x)
            && Walk(r, d, Split(rel)) == Walk(r, s.1, Split(rest))
  {
    AddDirectoryUnfold(t, d, rel, x);
    var pieces := Split(rel);
    var s := Subdirectory(t, d, pieces[0]);
    var r := AddDirectory(s.0, s.1, rel[|pieces[0]| + 1..], x);
    assert NodeGrows(s.0.dirs[d], r.dirs[d]);
    WalkThrough(r, d, pieces, s.1);
  }

  /** The last level of `addDirectory`: afterwards a subdirectory of the directory's name is listed. */
  lemma {:induction false} AddDirectoryHere(t: Tree, d: DirId, rel: string, x: DirId)
    requires Wf(t) && d in t.dirs && x in t.dirs && |Split(rel)| == 1
    requires t.dirs[x].name == Split(rel)[0]
    ensures DirectoryAt(AddDirectory(t, d, rel, x), d, Split(rel))
  {
    var r := AddDirectory(t, d, rel, x);
    var name := t.dirs[x].name;
    assert name in r.dirs[d].directories;
    assert Split(rel)[1..] == [];
  }

  /**
   * No duplicates from `addFile`: when the intermediate directories exist and
   * a file of the file's name is listed in the last one, nothing changes.
   */
  lemma {:induction false} AddFileOfListedNameChangesNothing(t: Tree, d: DirId, rel: string, f: FileId)
    requires Wf(t) && d in t.dirs && f in t.files && Split(rel) != []
    requires var w := Walk(t, d, Split(rel)[..|Split(rel)| - 1]); w.Some? && t.files[f].name in t.dirs[w.value].files
    ensures AddFile(t, d, rel, f) == t
    decreases |rel|
  {
    var pieces := Split(rel);
    if |pieces| > 1 {
      var first := pieces[0];
      AddFileUnfold(t, d, rel, f);
      var rest := rel[|first| + 1..];
      WalkInit(t, d, pieces, Split(rest));
      var c := t.dirs[d].directories[first];
      assert Subdirectory(t, d, first) == (t, c);
      AddFileOfListedNameChangesNothing(t, c, rest, f);
    } else {
      assert pieces[..0] == [];
      AddFileOfListedNameHere(t, d, rel, f);
    }
  }

  /** The last level of the no-duplicate case: a file of that name is listed here. */
  lemma {:induction false} AddFileOfListedNameHere(t: Tree, d: DirId, rel: string, f: FileId)
    requires Wf(t) && d in t.dirs && f in t.files && |Split(rel)| == 1
    requires t.files[f].name in t.dirs[d].files
    ensures AddFile(t, d, rel, f) == t
  {
    AddFileLast(t, d, rel, f);
  }

  /**
   * No duplicates from `addDirectory`: when a directory is already listed
   * under the path and the new one carries the last piece's name, nothing
   * changes.
   */
  lemma {:induction false} AddDirectoryOfListedNameChangesNothing(t: Tree, d: DirId, rel: string, x: DirId)
    requires Wf(t) && d in t.dirs && x in t.dirs && Split(rel) != []
    requires DirectoryAt(t, d, Split(rel)) && t.dirs[x].name == Last(Split(rel))
    ensures AddDirectory(t, d, rel, x) == t
    decreases |rel|
  {
    var pieces := Split(rel);
    if |pieces| > 1 {
      SplitStep(rel);
      assert Last(Split(rel[|pieces[0]| + 1..])) == Last(pieces);
      AddDirectoryOfListedNameChangesNothing(t, t.dirs[d].directories[pieces[0]], rel[|pieces[0]| + 1..], x);
    }
  }

  /**
   * `getSize` after adding a file directly (a path of one piece): one more
   * child exactly when no file of that name was listed.
   */
  lemma {:induction false} AddFileHereSize(t: Tree, d: DirId, rel: string, f: FileId)
    requires Wf(t) && d in t.dirs && f in t.files && |Split(rel)| <= 1
    ensures DirectorySize(AddFile(t, d, rel, f), d) ==
      DirectorySize(t, d) + (if t.files[f].name in t.dirs[d].files then 0 else 1)
  {
  }

  /**
   * `getSize` counts only direct children: the root below holds one
   * subdirectory, which holds one file, and its size is 1.
   */
  lemma {:induction false} SizeIsNotRecursive()
    ensures var t := Tree(map[0 := DirNode("/", None, map["a" := 1], map[]),
                              1 := DirNode("a", Some(0), map[], map["b.txt" := 0])],
                          map[0 := FileNode("b.txt", 10, [], Some(1))], 2, 1);
            Wf(t) && DirectorySize(t, 0) == 1 && DirectorySize(t, 1) == 1
  {
  }
}
