# Mirror tree and import/restore of a directory-to-database synchroniser

The program keeps a directory of the local disk and a relational store in
step. Its core is an in-memory mirror of the directory: `Directory` nodes
hold two maps keyed by name, one for subdirectories and one for `File`
nodes, and every node points back to its parent. Two algorithms walk this
mirror:
- `addDirectoryToDB` lists the local directory and adds every entry the
  mirror does not hold yet.
- `restoreDirectoryFromDB` and `restoreFileFromDB` recreate on disk every
  directory and file of the mirror that the disk lacks.

This Dafny project models that core and proves what it promises. The
modules are:

- `PathStrings` models path strings with a fixed separator `/`. It covers
  Java's `String.split` exactly (trailing empty pieces dropped, `""` gives
  `[""]`), `java.io.File.getName`, how `java.io.File` and `Paths.get`
  read a path string (repeated separators count as one, a trailing
  separator is dropped), and the parent of a path.
- `Models` is the mirror tree as a value. A `Tree` holds every allocated
  directory and file node in maps indexed by identifier; a Java reference
  becomes an identifier. Each Java method is a function here: `setParent`,
  the constructors, `getSize`, `existsFile`, `existsDirectory`, `addFile`
  and `addDirectory`. The module also defines `Grows`: no node, map entry
  or file datum is ever lost.
- `TreeProperties` holds the lemmas about those functions:
  - the add/exists round trips;
  - what `addDirectory` does to `existsDirectory`;
  - growth;
  - no duplicates;
  - `getSize`.
- `MirrorTree` holds the class `Mirror`, the heap of nodes that the Java
  code updates in place.
  - Its methods perform `setParent`, the constructors, `addFile` and
    `addDirectory` step by step. Each is proved to leave exactly the tree
    the `Models` function describes.
  - Ghost ranks keep parent chains and child maps acyclic. With them,
    `getPath` and `getPathWithName` are functions that walk up the parent
    chain.
- `PathProperties` proves that the path a directory or a file reports
  leads back to it when walked down from the root.
- `LocalDisk` holds the datatype `Disk`: a set of directory paths and a map
  from file paths to bytes, with `mkdirs` and the writing of a file.
- `DBHelper` holds the import loop over a listing of entries, the recursive
  restore onto a `Disk`, and what each promises.

The store itself is reduced to the single query both algorithms make: the
stored directory without parent. It is passed in as `stored: Option<DirId>`.

## Model

| member | source | states |
|---|---|---|
| `PathStrings.SplitStep` | src/main/java/com/ymourino/ad05/persistence/models/Directory.java:172-178 | when `split` yields more than one piece, the first piece ends at the first separator and splitting the text after it yields the remaining pieces (the step every recursive descent takes) |
| `PathStrings.SplitPieces` | src/main/java/com/ymourino/ad05/persistence/models/Directory.java:172 | `split` on the separator gives pieces without separators; the empty string gives one empty piece, any other string no empty piece at the end |
| `PathStrings.BaseName` | src/main/java/com/ymourino/ad05/persistence/DBHelper.java:105 | `getName` is a suffix of the path without separators, preceded by a separator unless it is the whole path |
| `PathStrings.SplitOfRelative` | src/main/java/com/ymourino/ad05/persistence/DBHelper.java:94-105 | a relative path that is not empty and does not end in a separator splits into all its pieces, the last of which is the entry's base name (`getName`) |
| `PathStrings.LastOfSplitAll` | src/main/java/com/ymourino/ad05/persistence/DBHelper.java:105 | the last piece of the full split is the base name |
| `PathStrings.SplitAppend` | src/main/java/com/ymourino/ad05/persistence/models/File.java:145-148 | appending a separator and a proper name to a path adds exactly that name as the last piece |
| `PathStrings.JavaPath` | src/main/java/com/ymourino/ad05/persistence/DBHelper.java:190-191 | the path `new File(s)` and `Paths.get(s)` make of a string: empty only for the empty string, with no separator directly after another, and ending in a separator only when it is the root `/` |
| `PathStrings.JavaPathIdempotent` | src/main/java/com/ymourino/ad05/persistence/DBHelper.java:219-226 | reading a path a second time changes nothing |
| `PathStrings.JavaPathOfJoin` | src/main/java/com/ymourino/ad05/persistence/DBHelper.java:219-226 | for a folder string ending in a separator and a single-piece name, the target reads as the collapsed folder followed by the name, and the folder reads as the collapsed folder without its trailing separator |
| `PathStrings.JavaPathBelowFileSystemRoot` | src/main/java/com/ymourino/ad05/persistence/DBHelper.java:190 | with the restore root `/`, the string `rootPath + p` for a `p` starting with a separator reads as `p` itself |
| `PathStrings.JavaPathExamples` | src/main/java/com/ymourino/ad05/persistence/DBHelper.java:219-222 | `//a/b.txt` reads as `/a/b.txt`, and `/r/a/` as `/r/a` |
| `PathStrings.ParentPath` | src/main/java/com/ymourino/ad05/persistence/DBHelper.java:226 | the parent of a path, followed by a separator and the base name, gives the path back |
| `Models.SetDirectoryParent` | src/main/java/com/ymourino/ad05/persistence/models/Directory.java:92-99 | the parent field is set; with a parent, the parent's `directories` gains the node under its own name and its `files` and name stay, and the node keeps its own maps and name when it is not its own parent; without one, only the field is cleared; every other node is unchanged |
| `Models.SetFileParent` | src/main/java/com/ymourino/ad05/persistence/models/File.java:90-97 | the parent field is set and the file is put into the parent's `files` under its own name, replacing any entry of that name; `directories` is never touched; without a parent no directory changes |
| `Models.NewDirectory` | src/main/java/com/ymourino/ad05/persistence/models/Directory.java:70-77 | a fresh identifier with empty maps and the given name; with a parent it is registered there under its name, otherwise no existing node changes |
| `Models.NewFile` | src/main/java/com/ymourino/ad05/persistence/models/File.java:66-75 | a fresh file node storing name, size and content unchanged; with a null parent no directory changes |
| `Models.DirectorySize` | src/main/java/com/ymourino/ad05/persistence/models/Directory.java:127-130 | `getSize` of a directory is zero exactly when it lists no subdirectory and no file, and is at least the number of each |
| `Models.FileSizeAsConstructed` | src/main/java/com/ymourino/ad05/persistence/models/File.java:109-112 | `getSize` of a file returns the size given to its constructor, however the tree grows afterwards |
| `Models.ExistsFile` | src/main/java/com/ymourino/ad05/persistence/models/Directory.java:204-231 | `existsFile` is true exactly when every piece but the last names a subdirectory along the walk down from the directory and the last piece names a file of the directory reached (`FileAt`) |
| `Models.ExistsDirectory` | src/main/java/com/ymourino/ad05/persistence/models/Directory.java:285-300 | `existsDirectory`, as written, computes exactly what `existsFile` computes: it looks up the last piece among the files |
| `Models.WalkInit` | src/main/java/com/ymourino/ad05/persistence/models/Directory.java:219-224 | the walk to the last directory splits off its first lookup |
| `Models.Subdirectory` | src/main/java/com/ymourino/ad05/persistence/models/Directory.java:176-188 | the subdirectory named by the first piece is reused when listed; otherwise exactly one new directory with that name and parent is created and listed; the tree only grows |
| `Models.AddFile` | src/main/java/com/ymourino/ad05/persistence/models/Directory.java:171-195 | `addFile` only adds: every node, map entry and file datum of the tree stays (`Grows`), and no file node is created |
| `Models.AddDirectory` | src/main/java/com/ymourino/ad05/persistence/models/Directory.java:240-264 | `addDirectory` only adds, leaves every file node as it was and changes no directory's `files` map |
| `Models.SetDirectoryParentKeepsFiles` | src/main/java/com/ymourino/ad05/persistence/models/Directory.java:92-99 | `setParent` on a directory leaves the `files` map of every directory unchanged |
| `Models.AddFileLast` | src/main/java/com/ymourino/ad05/persistence/models/Directory.java:190-194 | proof step, one unfolding of `AddFile`: with one piece, `addFile` attaches the file exactly when no file of its name is listed, and otherwise changes nothing (the promise is `TreeProperties.AddFileRoundTrip` and `AddFileOfListedNameChangesNothing`) |
| `Models.AddDirectoryLast` | src/main/java/com/ymourino/ad05/persistence/models/Directory.java:259-263 | proof step, one unfolding of `AddDirectory`: with one piece, `addDirectory` attaches the directory exactly when no subdirectory of its name is listed, and otherwise changes nothing (the promise is `TreeProperties.AddDirectoryRoundTrip` and `AddDirectoryOfListedNameChangesNothing`) |
| `Models.GrowsTrans` | src/main/java/com/ymourino/ad05/persistence/models/Directory.java:171-264 | growth composes, so any sequence of additions only adds |
| `Models.SetFileParentGrows` | src/main/java/com/ymourino/ad05/persistence/models/Directory.java:190-194 | attaching a file where no file of its name is listed loses nothing |
| `Models.SetDirectoryParentGrows` | src/main/java/com/ymourino/ad05/persistence/models/Directory.java:259-263 | attaching a directory where no subdirectory of its name is listed loses nothing |
| `Models.NewDirectoryGrows` | src/main/java/com/ymourino/ad05/persistence/models/Directory.java:185-186 | creating a subdirectory under a name not yet listed loses nothing |
| `Models.RepeatedPut` | src/main/java/com/ymourino/ad05/persistence/models/Directory.java:186 | the second `directories.put` after `new Directory(this, first)` changes nothing |
| `Models.AddFileUnfold` | src/main/java/com/ymourino/ad05/persistence/models/Directory.java:176-189 | with more than one piece, `addFile` is `addFile` of the rest of the path in the subdirectory named by the first piece |
| `Models.AddDirectoryUnfold` | src/main/java/com/ymourino/ad05/persistence/models/Directory.java:245-258 | with more than one piece, `addDirectory` is `addDirectory` of the rest of the path in the subdirectory named by the first piece |
| `TreeProperties.ExistsDirectoryMissesSubdirectory` | src/main/java/com/ymourino/ad05/persistence/models/Directory.java:297-299 | on a root listing the subdirectory `a`, `existsDirectory("a")` answers false |
| `TreeProperties.AddDirectoryKeepsExistsDirectory` | src/main/java/com/ymourino/ad05/persistence/models/Directory.java:240-300 | on every tree, `addDirectory(p, x)` leaves the answer of `existsDirectory(p)` as it was |
| `TreeProperties.AddDirectoryThenExistsDirectory` | src/main/java/com/ymourino/ad05/persistence/models/Directory.java:240-300 | on every tree, after `addDirectory(p, x)` with `x` named like the last piece of `p`, a directory is listed under the pieces of `p`, yet `existsDirectory(p)` holds exactly when a FILE was listed there before |
| `TreeProperties.EmptyDirectoryHoldsNothing` | src/main/java/com/ymourino/ad05/persistence/models/Directory.java:285-300 | `existsDirectory` answers false in a directory without children, such as one `addDirectory` has just created on the way |
| `TreeProperties.ExistsFileHere` | src/main/java/com/ymourino/ad05/persistence/models/Directory.java:228-230 | proof step, one unfolding of `ExistsFile`: with one piece, `existsFile` looks the piece up among the directory's own files (the promise is `Models.ExistsFile` against `FileAt`, and `AddFileRoundTrip`) |
| `TreeProperties.AddFileRoundTrip` | src/main/java/com/ymourino/ad05/persistence/models/Directory.java:171-231 | after `addFile(p, f)` with `f` named like the last piece of `p`, `existsFile(p)` is true |
| `TreeProperties.AddDirectoryRoundTrip` | src/main/java/com/ymourino/ad05/persistence/models/Directory.java:240-264 | after `addDirectory(p, x)` with `x` named like the last piece of `p`, a directory is listed under the pieces of `p` |
| `TreeProperties.AddDirectoryHere` | src/main/java/com/ymourino/ad05/persistence/models/Directory.java:259-263 | with one piece, afterwards a subdirectory of the directory's name is listed |
| `TreeProperties.AddFileOfListedNameChangesNothing` | src/main/java/com/ymourino/ad05/persistence/models/Directory.java:171-195 | when the intermediate directories exist and a file of the file's name is listed in the last one, `addFile` changes nothing (no duplicate) |
| `TreeProperties.AddFileOfListedNameHere` | src/main/java/com/ymourino/ad05/persistence/models/Directory.java:190-194 | with one piece and a file of the file's name listed, `addFile` changes nothing |
| `TreeProperties.AddDirectoryOfListedNameChangesNothing` | src/main/java/com/ymourino/ad05/persistence/models/Directory.java:240-264 | when a directory is already listed under the path and the new one carries the last piece's name, `addDirectory` changes nothing |
| `TreeProperties.WalkGrows` | src/main/java/com/ymourino/ad05/persistence/models/Directory.java:171-264 | growth keeps every successful descent, to the same directory |
| `TreeProperties.ExistsFileGrows` | src/main/java/com/ymourino/ad05/persistence/models/Directory.java:204-231 | a file found by `existsFile` is still found after any growth |
| `TreeProperties.DirectoryAtGrows` | src/main/java/com/ymourino/ad05/persistence/models/Directory.java:240-264 | a directory listed under a path stays listed after any growth |
| `TreeProperties.WalkAppend` | src/main/java/com/ymourino/ad05/persistence/models/Directory.java:219-224 | a descent one name longer is one more lookup in `directories` at its end |
| `TreeProperties.ExistsFileThrough` | src/main/java/com/ymourino/ad05/persistence/models/Directory.java:219-224 | one level of `existsFile`: through the subdirectory named by the first piece |
| `TreeProperties.WalkThrough` | src/main/java/com/ymourino/ad05/persistence/models/Directory.java:219-224 | proof step, one unfolding of `Walk`: one level of a descent (the promise is `ExistsFileThrough` and the round-trip lemmas) |
| `TreeProperties.AddFileHereSize` | src/main/java/com/ymourino/ad05/persistence/models/Directory.java:127-130 | after adding with one piece, `getSize` grows by one exactly when no file of that name was listed |
| `TreeProperties.SizeIsNotRecursive` | src/main/java/com/ymourino/ad05/persistence/models/Directory.java:127-130 | `getSize` counts direct children only: a root holding one subdirectory that holds one file has size 1 |
| `MirrorTree.NewDetachedDirectory` | src/main/java/com/ymourino/ad05/persistence/models/Directory.java:70-72 | `new Directory(name)` yields a node without parent or children that no directory lists, and only adds to the tree |
| `MirrorTree.SetDirectoryParentInv` | src/main/java/com/ymourino/ad05/persistence/models/Directory.java:92-99 | attaching a detached leaf below another directory keeps the tree well formed and acyclic |
| `MirrorTree.AllocatedInv` | src/main/java/com/ymourino/ad05/persistence/models/Directory.java:74-77 | allocating a directory node keeps the tree well formed and acyclic |
| `MirrorTree.SubdirectoryKeepsDetached` | src/main/java/com/ymourino/ad05/persistence/models/Directory.java:251-256 | creating the intermediate subdirectory keeps the directory being added detached and a leaf |
| `MirrorTree.Mirror.SetDirectoryParent` | src/main/java/com/ymourino/ad05/persistence/models/Directory.java:92-99 | the in-place update leaves exactly `Models.SetDirectoryParent` of the old tree and keeps the heap acyclic |
| `MirrorTree.Mirror.SetFileParent` | src/main/java/com/ymourino/ad05/persistence/models/File.java:90-97 | the in-place update leaves exactly `Models.SetFileParent` of the old tree |
| `MirrorTree.Mirror.NewDirectory` | src/main/java/com/ymourino/ad05/persistence/models/Directory.java:70-77 | allocation and `setParent` leave exactly `Models.NewDirectory` of the old tree |
| `MirrorTree.Mirror.NewFile` | src/main/java/com/ymourino/ad05/persistence/models/File.java:66-75 | allocation and `setParent` leave exactly `Models.NewFile` of the old tree |
| `MirrorTree.Mirror.Subdirectory` | src/main/java/com/ymourino/ad05/persistence/models/Directory.java:180-187 | the reuse-or-create step leaves exactly `Models.Subdirectory` of the old tree |
| `MirrorTree.Mirror.AddFile` | src/main/java/com/ymourino/ad05/persistence/models/Directory.java:171-195 | the recursive in-place `addFile` leaves exactly `Models.AddFile` of the old tree |
| `MirrorTree.Mirror.AddDirectory` | src/main/java/com/ymourino/ad05/persistence/models/Directory.java:240-264 | the recursive in-place `addDirectory` of a detached leaf leaves exactly `Models.AddDirectory` of the old tree |
| `MirrorTree.Mirror.DirPath` | src/main/java/com/ymourino/ad05/persistence/models/Directory.java:137-152 | `getPath` is empty exactly for a directory without parent, and otherwise ends in a separator |
| `MirrorTree.Mirror.DirPathWithName` | src/main/java/com/ymourino/ad05/persistence/models/Directory.java:159-162 | `getPathWithName` ends in the name and equals the name for a directory without parent |
| `MirrorTree.Mirror.FilePath` | src/main/java/com/ymourino/ad05/persistence/models/File.java:131-138 | `File.getPath` of a file with parent is not empty and ends in a separator |
| `MirrorTree.Mirror.FilePathWithName` | src/main/java/com/ymourino/ad05/persistence/models/File.java:145-148 | `File.getPathWithName` ends in the name after `getPath`; for a single-piece name, `getName` of it and its last `split` piece both give the name back |
| `PathProperties.FilePathBelowParent` | src/main/java/com/ymourino/ad05/persistence/models/File.java:131-148 | a file's path with name starts with its directory's path with name |
| `PathProperties.ChildPath` | src/main/java/com/ymourino/ad05/persistence/models/Directory.java:139-147 | proof step, one unfolding of `getPath` for a child: the parent's path with name when that is the separator, and that followed by the separator otherwise (the promise is `DirPathRoundTrip`) |
| `PathProperties.DirPathRoundTrip` | src/main/java/com/ymourino/ad05/persistence/models/Directory.java:137-162 | for a directory hanging below the root through properly named, listed directories, `getPathWithName` starts with a separator, and walking its pieces down from the root reaches that directory |
| `PathProperties.DirPathBelowRoot` | src/main/java/com/ymourino/ad05/persistence/models/Directory.java:143-144 | the round trip for a child of the root |
| `PathProperties.DirPathBelowChild` | src/main/java/com/ymourino/ad05/persistence/models/Directory.java:145-147 | the round trip one level further down |
| `PathProperties.FilePathRoundTrip` | src/main/java/com/ymourino/ad05/persistence/models/File.java:131-148 | for a file listed under its proper name in a directory below the root, `existsFile` finds it at its `getPathWithName` without the leading separator, whose last piece is its name |
| `PathProperties.FilePieces` | src/main/java/com/ymourino/ad05/persistence/models/File.java:131-148 | the pieces of a file's path are those of its directory followed by its name |
| `PathProperties.FilePathExample` | src/main/java/com/ymourino/ad05/persistence/models/File.java:145-148 | file `b.txt` in directory `a` below a root named `/` has path `/a/` and path with name `/a/b.txt` |
| `LocalDisk.BlockedGrows` | src/main/java/com/ymourino/ad05/persistence/DBHelper.java:221-222 | a file blocking a path keeps blocking it while files are only added |
| `LocalDisk.DiskGrowsTrans` | src/main/java/com/ymourino/ad05/persistence/DBHelper.java:182-210 | disk growth composes |
| `LocalDisk.Disk.MkDirs` | src/main/java/com/ymourino/ad05/persistence/DBHelper.java:190-191 | `mkdirs` changes no file and only adds directories, all of them ancestors of the path; unless a file blocks the way, the path and all its ancestors exist afterwards; when one does, nothing changes |
| `LocalDisk.Disk.Write` | src/main/java/com/ymourino/ad05/persistence/DBHelper.java:226-228 | given that the parent is a directory and the path is not, only that file is set to the data; the directories and every other file stay |
| `DBHelper.Relative` | src/main/java/com/ymourino/ad05/persistence/DBHelper.java:94-101 | the relative path is what remains after the root and one separator (through `RelativePath`); it splits into its pieces, the last being the entry's base name |
| `DBHelper.SubstringAfterRoot` | src/main/java/com/ymourino/ad05/persistence/DBHelper.java:94-101 | `substring(rootPath.length() + 1)` as written: when a separator follows the root, the root, that separator and the result give the path back |
| `DBHelper.SubstringAfterFileSystemRoot` | src/main/java/com/ymourino/ad05/persistence/DBHelper.java:94-101 | under the root `/`, the code turns `/a/b` into `/b`, whose pieces are an empty name and `b`: the first name is lost |
| `DBHelper.RelativePath` | src/main/java/com/ymourino/ad05/persistence/DBHelper.java:94-101 | the intended relative path: the root, the separator after it unless the root ends in one, and the result give the path back, for every root including `/` |
| `DBHelper.RelativeUnderFileSystemRoot` | src/main/java/com/ymourino/ad05/persistence/DBHelper.java:94-101 | under the root `/`, the intended relative path of `/a/b` is `a/b`, with pieces `a` and `b` |
| `DBHelper.SubstringAfterRootAgrees` | src/main/java/com/ymourino/ad05/persistence/DBHelper.java:94-101 | for every root that does not end in a separator, the code's substring is the intended relative path |
| `DBHelper.Covered` | src/main/java/com/ymourino/ad05/persistence/DBHelper.java:89-137 | the skip tests of the loop: a file entry is held exactly when `FileAt` finds it; a directory entry other than the root exactly when a file or a directory is listed under its pieces; an entry of neither kind never |
| `DBHelper.CoveredGrows` | src/main/java/com/ymourino/ad05/persistence/DBHelper.java:86-143 | an entry the tree holds stays held after any growth |
| `DBHelper.ImportProgressStep` | src/main/java/com/ymourino/ad05/persistence/DBHelper.java:86-143 | handling one more entry keeps the earlier entries held and the new file nodes traced to the listing |
| `DBHelper.ImportNext` | src/main/java/com/ymourino/ad05/persistence/DBHelper.java:86-143 | one turn of the loop over an entry that is a file or a directory keeps the loop invariant: growth, the root, every earlier entry held, new file nodes traced to the listing |
| `DBHelper.ImportProgressDone` | src/main/java/com/ymourino/ad05/persistence/DBHelper.java:86-143 | after the last entry, every entry of the listing is held and every new file node comes from a file entry |
| `DBHelper.SameExceptDetachedTrans` | src/main/java/com/ymourino/ad05/persistence/DBHelper.java:86-143 | adding only unattached directories composes |
| `DBHelper.SameExceptDetachedNew` | src/main/java/com/ymourino/ad05/persistence/DBHelper.java:105 | `new Directory(name)` only adds an unattached directory |
| `DBHelper.AddDirectoryToDB` | src/main/java/com/ymourino/ad05/persistence/DBHelper.java:60-147 | the root is the stored one or a fresh directory named `/`; the tree only grows; the result is the exception exactly when the listing has an entry that is neither kind, and it reports the first such entry in listing order; on success every entry is held by the tree (`Covered`), where a directory entry also counts as held when a FILE of its name sits at its path, because `existsDirectory` looks among the files; every new file node carries the name, length and bytes of a file entry; when every entry was held already, no node of the tree changes |
| `DBHelper.ImportEntry` | src/main/java/com/ymourino/ad05/persistence/DBHelper.java:89-137 | the root entry is skipped; a directory is added unless `existsDirectory` holds, a file unless `existsFile` holds; afterwards the entry is held, and an entry held before changes no node |
| `DBHelper.ImportDirectory` | src/main/java/com/ymourino/ad05/persistence/DBHelper.java:104-107 | afterwards a directory is listed under the path; when one was listed already, the tree only gains the unattached new node |
| `DBHelper.ImportFile` | src/main/java/com/ymourino/ad05/persistence/DBHelper.java:125-137 | afterwards `existsFile` finds the path; the only new file node carries the entry's base name, byte length as size and bytes |
| `DBHelper.ImportedFile` | src/main/java/com/ymourino/ad05/persistence/DBHelper.java:130-136 | on values: the tree only grows, and every new file node carries the entry's base name, byte length as size and bytes |
| `DBHelper.ImportTwice` | src/main/java/com/ymourino/ad05/persistence/DBHelper.java:86-143 | importing the same listing a second time over the returned root returns the same root and changes no node |
| `DBHelper.Int32` | src/main/java/com/ymourino/ad05/persistence/DBHelper.java:225 | `(int)` on a `long`: a 32-bit value congruent to the input modulo 2^32, equal to it when it fits |
| `DBHelper.Bytes` | src/main/java/com/ymourino/ad05/persistence/DBHelper.java:224-225 | `getBytes(1, (int) size)` is a prefix of the blob of length `(int) size` |
| `DBHelper.ParentOfJoin` | src/main/java/com/ymourino/ad05/persistence/DBHelper.java:221-226 | for a collapsed folder ending in a separator and a single-piece name, the parent of the target is the folder without its trailing separator, which is the directory `new File(folder).mkdirs()` makes; every directory that `mkdirs` can create is shorter than the target |
| `DBHelper.RestoreFile` | src/main/java/com/ymourino/ad05/persistence/DBHelper.java:218-233 | both path strings are read as Java reads them (`JavaPath`), so root `/` and a name that is empty reach the paths Java reaches; nothing happens exactly when something exists at the target; otherwise `mkdirs` runs on the file's directory; a write puts exactly the first `(int) size` bytes at the target; unless a file blocks the directory, the size does not fit or the name is not a single piece, the write happens; existing files are never changed |
| `DBHelper.RestoreAt` | src/main/java/com/ymourino/ad05/persistence/DBHelper.java:219-231 | the disk steps once the path strings are built, each read as Java reads it: nothing happens exactly when something exists at the target; otherwise `mkdirs` runs on the folder; a write puts exactly the first `(int) size` bytes at the target; unless a file blocks the folder, the size does not fit or the name is not a single piece, the write happens |
| `DBHelper.RestoreFileEffect` | src/main/java/com/ymourino/ad05/persistence/DBHelper.java:218-233 | whatever the outcome, the disk only grows, every new file holds the file's restored bytes, and afterwards the file is restored |
| `DBHelper.WritableAfterMkDirs` | src/main/java/com/ymourino/ad05/persistence/DBHelper.java:221-226 | once `mkdirs` has made the folder, the target of a single-piece name in it can be opened for writing unless something is there |
| `DBHelper.RestoreDirectory` | src/main/java/com/ymourino/ad05/persistence/DBHelper.java:182-210 | with every target read as Java reads it, afterwards every subdirectory below exists unless a file blocks it, every file below is restored, no file on disk changed, and every new file holds a mirror file's bytes |
| `DBHelper.RestoreChild` | src/main/java/com/ymourino/ad05/persistence/DBHelper.java:186-197 | one subdirectory: its directory exists or is blocked, and everything below it is restored |
| `DBHelper.RestoreFiles` | src/main/java/com/ymourino/ad05/persistence/DBHelper.java:200-209 | every file listed in the directory is restored |
| `DBHelper.RestoreListedFile` | src/main/java/com/ymourino/ad05/persistence/DBHelper.java:204-206 | one turn of the loop over the files: the file listed under the name is restored, and the files restored before stay restored |
| `DBHelper.FilesProgressDone` | src/main/java/com/ymourino/ad05/persistence/DBHelper.java:200-209 | when the loop over the files has visited every name, every listed file is restored |
| `DBHelper.ChildrenProgressStep` | src/main/java/com/ymourino/ad05/persistence/DBHelper.java:186-197 | one more subdirectory restored keeps the earlier ones restored, the disk growing and only mirror bytes written |
| `DBHelper.RestoredOfParts` | src/main/java/com/ymourino/ad05/persistence/DBHelper.java:182-210 | a directory is restored once each of its subdirectories and each of its files is |
| `DBHelper.RestoreDirectoryFromDB` | src/main/java/com/ymourino/ad05/persistence/DBHelper.java:156-172 | without a stored root nothing changes; otherwise everything below it is restored |
| `DBHelper.RestoredGrows` | src/main/java/com/ymourino/ad05/persistence/DBHelper.java:185-209 | restoration once reached is never undone while the disk only grows |
| `DBHelper.FileRestoredGrows` | src/main/java/com/ymourino/ad05/persistence/DBHelper.java:219-231 | a restored file stays restored while the disk only grows |
| `DBHelper.DirRestoredGrows` | src/main/java/com/ymourino/ad05/persistence/DBHelper.java:190-191 | a restored directory stays restored while the disk only grows |
| `DBHelper.ChildrenRestoredGrows` | src/main/java/com/ymourino/ad05/persistence/DBHelper.java:186-197 | the subdirectories already restored stay restored while the disk only grows |
| `DBHelper.ChildrenRanked` | src/main/java/com/ymourino/ad05/persistence/DBHelper.java:186-193 | each listed subdirectory ranks below the height and above its parent, so the recursion ends |
| `DBHelper.OnlyMirrorWrittenTrans` | src/main/java/com/ymourino/ad05/persistence/DBHelper.java:204-206 | "every new file holds a mirror file's bytes" composes over steps that keep existing files |

## Left out

- The Swing interface, log redirection, the notification trigger, the listener thread and the JSON configuration are not part of this model. They are interface, concurrency and I/O plumbing; the listener only calls `restoreFileFromDB`, which is modelled.
- Hibernate is left out. The lookup of the directory without parent becomes the parameter `stored`. `saveElement(root)` and the transaction around the files of a directory have no effect on the tree and are not modelled. The `hibernateUtil != null` check is not modelled either.
- The real file system is replaced by `LocalDisk.Disk`. Listing the local directory becomes a sequence of entries with absolute, normalized paths: the root itself, or paths below it not ending in a separator. `rootPath` does not end in a separator (`DBHelper.Under`), so the file system root `/` is not imported; see "## Findings" for what the code does with it.
- The order of the listing is kept. The order in which the restore visits the `TreeMap`s is left open: any order is covered.
- `MirrorTree.Mirror.AddDirectory` and `MirrorTree.Mirror.SetDirectoryParent` require the directory being attached to be detached, a leaf and different from the parent. Every call in the code passes a directory just constructed. Attaching an arbitrary directory in Java can make a cycle, which this model does not represent.
- `DBHelper.RestoreDirectory` requires every file listed in a directory to have a parent. The store declares the parent of a `File` not null; a file without one makes `getPath` dereference null, which is not modelled.
- `DBHelper.RestoreFile`: `getBytes` with a cast size that is negative or beyond the blob is treated as a failure. In Java the outcome depends on the driver.
- `DBHelper.RestoreFile`: a name that is not a single path piece is not promised to be written.
- `PathStrings.JavaPath` models only how `java.io.File` and `Paths.get` treat separators. The file system's own resolution of `.` and `..` pieces when a path is opened is not modelled; the mirror's names come from normalized paths, which contain none.
- `PathProperties.DirPathRoundTrip` and `PathProperties.FilePathRoundTrip` hold only for chains in which every directory is listed by its parent under its own proper name. A duplicate name or a name containing `/` breaks the round trip in the code as well.
- `DBHelper.AddDirectoryToDB` follows the code, not the design description, on failure. An entry that is neither a file nor a directory throws before `saveElement(root)`, so nothing is saved. The in-memory additions made so far remain, and the model keeps them in `m`.
- `Models.ExistsFile` and `Models.ExistsDirectory` require a path that splits into at least one piece. A path made only of separators, such as `/`, splits into no piece in Java, and `foldersInPath[0]` then throws `ArrayIndexOutOfBoundsException`; that exception is not modelled. The import never passes such a path.
- `DBHelper.AddDirectoryToDB` does not state that a root it creates keeps no parent. The constructor leaves it without one and no later step attaches it, but the tree functions carry no frame on the parents of existing directories.
- The store identifiers of `Directory` and `File` and the `setName`/`setSize`/`setContent` setters are not used by the core and are not modelled.

## Findings

| source | as written | input that shows it | evidently intended | confidence | as-written member | corrected member |
|---|---|---|---|---|---|---|
| src/main/java/com/ymourino/ad05/persistence/DBHelper.java:94-101 | the relative path of an entry is `substring(rootPath.length() + 1)`, which takes the character after the root for a separator | root `/` (the normalized file system root) and entry `/a/b`: the relative path is `/b`, whose pieces are an empty name and `b` | the relative path `a/b`, cutting the separator only when the root does not already end in one | not executed; high | `DBHelper.SubstringAfterFileSystemRoot` | `DBHelper.RelativeUnderFileSystemRoot` |
