/**
 * The local file system as the restore code uses it through java.io: a set
 * of directory paths and a map from file paths to their bytes. Paths are the
 * strings the code builds; `mkdirs` creates a directory together with every
 * missing ancestor, and a `FileOutputStream` creates or truncates a file
 * whose parent is a directory.
 */
module LocalDisk {
  import opened PathStrings
  import opened Models

  /** `p` itself and every prefix of `p` that ends just before a separator (the root excluded). */
  function Ancestry(p: string): (r: set<string>)
    ensures p in r
    ensures forall a :: a in r ==> a <= p
  {
    (set i | 0 < i < |p| && p[i] == Sep :: p[..i]) + {p}
  }

  /** Some file sits at `p` or at one of its ancestors, so `mkdirs(p)` cannot succeed. */
  predicate Blocked(files: map<string, seq<byte>>, p: string)
  {
    exists a :: a in Ancestry(p) && a in files
  }

  /** The disk only gains: no directory disappears, no file disappears or changes. */
  ghost predicate DiskGrows(before: Disk, after: Disk)
  {
    && before.directories <= after.directories
    && forall p :: p in before.files ==> p in after.files && after.files[p] == before.files[p]
  }

  lemma {:induction false} DiskGrowsTrans(d1: Disk, d2: Disk, d3: Disk)
    requires DiskGrows(d1, d2) && DiskGrows(d2, d3)
    ensures DiskGrows(d1, d3)
  {
  }

  /** A file that blocks a path keeps blocking it while the disk grows. */
  lemma {:induction false} BlockedGrows(files: map<string, seq<byte>>, files': map<string, seq<byte>>, p: string)
    requires forall q :: q in files ==> q in files'
    requires Blocked(files, p)
    ensures Blocked(files', p)
  {
    var a :| a in Ancestry(p) && a in files;
    assert a in files';
  }

  /** The directories of the disk and the bytes of each of its files, as the restore code sees them. */
  datatype Disk = Disk(directories: set<string>, files: map<string, seq<byte>>)
  {
    /** `Files.exists`. */
    predicate Exists(p: string)
    {
      p in directories || p in files
    }

    /** `new File(p).mkdirs()`: the directory and its missing ancestors, unless a file is in the way. */
    function MkDirs(p: string): (r: Disk)
      ensures r.files == files && directories <= r.directories
      ensures !Blocked(files, p) ==> p in r.directories && Ancestry(p) <= r.directories
      ensures Blocked(files, p) ==> r == this
      ensures r.directories - directories <= Ancestry(p)
    {
      if Blocked(files, p) then this else Disk(directories + Ancestry(p), files)
    }

    /** `new FileOutputStream(p)` opens exactly when the parent of `p` is a directory and `p` itself is not. */
    predicate CanWrite(p: string)
    {
      ParentPath(p) in directories && p !in directories
    }

    /** One `write` on the opened stream: the file at `p` holds `data`, nothing else changes. */
    function Write(p: string, data: seq<byte>): (r: Disk)
      requires CanWrite(p)
      ensures r.directories == directories && p in r.files && r.files[p] == data
      ensures forall q :: q in r.files && q != p ==> q in files && r.files[q] == files[q]
      ensures forall q :: q in files ==> q in r.files
    {
      Disk(directories, files[p := data])
    }
  }
}
