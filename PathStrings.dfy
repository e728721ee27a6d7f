/**
 * Path strings as the Java code handles them: the separator is fixed to '/',
 * `String.split` is modelled exactly (split at every separator, drop the
 * trailing empty pieces, the empty string splits into one empty piece), and
 * `java.io.File.getName` is the text after the last separator.
 */
module PathStrings {

  const Sep: char := '/'

  /** Index of the first separator in `s`, or `|s|` when there is none. */
  function FirstSep(s: string): (i: nat)
    ensures i <= |s|
    ensures i < |s| ==> s[i] == Sep
  {
    if s == [] then 0
    else if s[0] == Sep then 0
    else 1 + FirstSep(s[1..])
  }

  /** Every piece between separators, trailing empty pieces included. */
  function SplitAll(s: string): (r: seq<string>)
    ensures |r| >= 1
    decreases |s|
  {
    var i := FirstSep(s);
    if i == |s| then [s] else [s[..i]] + SplitAll(s[i + 1..])
  }

  function DropTrailingEmpty(xs: seq<string>): (r: seq<string>)
    ensures |r| <= |xs|
  {
    if xs == [] then []
    else if xs[|xs| - 1] == "" then DropTrailingEmpty(xs[..|xs| - 1])
    else xs
  }

  /** `s.split("/")` in Java: a pattern that never matches leaves `[s]`. */
  function Split(s: string): seq<string>
  {
    if s == "" then [""] else DropTrailingEmpty(SplitAll(s))
  }

  function Last(xs: seq<string>): string
    requires xs != []
  {
    xs[|xs| - 1]
  }

  /** `java.io.File.getName`: the text after the last separator. */
  function BaseName(s: string): (r: string)
    ensures |r| <= |s| && r == s[|s| - |r|..]
    ensures |r| < |s| ==> s[|s| - |r| - 1] == Sep
    ensures Sep !in r
  {
    if s == [] then []
    else if s[|s| - 1] == Sep then []
    else BaseName(s[..|s| - 1]) + [s[|s| - 1]]
  }

  /** One trailing separator dropped (the file system root keeps it). */
  function JavaFilePath(s: string): (r: string)
    ensures |s| > 1 && s[|s| - 1] == Sep ==> r + [Sep] == s
    ensures !(|s| > 1 && s[|s| - 1] == Sep) ==> r == s
  {
    if |s| > 1 && s[|s| - 1] == Sep then s[..|s| - 1] else s
  }

  /** No separator directly follows another. */
  ghost predicate NoRepeatedSep(s: string)
  {
    forall i, j :: 0 <= i < j < |s| && j == i + 1 ==> !(s[i] == Sep && s[j] == Sep)
  }

  /** Every run of separators in `s` shortened to a single separator. */
  function Collapse(s: string): (r: string)
    ensures |r| <= |s| && (r == "") == (s == "")
    ensures s != "" ==> r[0] == s[0] && r[|r| - 1] == s[|s| - 1]
    ensures NoRepeatedSep(r)
    decreases |s|
  {
    if |s| <= 1 then s
    else if s[|s| - 1] == Sep && s[|s| - 2] == Sep then Collapse(s[..|s| - 1])
    else Collapse(s[..|s| - 1]) + [s[|s| - 1]]
  }

  /**
   * The path `java.io.File` and `Paths.get` make of the string `s` on a Unix
   * file system: repeated separators count as one, and a trailing separator
   * is dropped unless the path is the root.
   */
  function JavaPath(s: string): (r: string)
    ensures (r == "") == (s == "")
    ensures |r| > 1 ==> r[|r| - 1] != Sep
    ensures NoRepeatedSep(r)
  {
    var c := Collapse(s);
    if |c| > 1 && c[|c| - 1] == Sep then
      assert c[|c| - 2] != Sep;
      c[..|c| - 1]
    else c
  }

  /** A string without repeated separators is left as it is by `Collapse`. */
  lemma {:induction false} CollapseOfCollapsed(s: string)
    requires NoRepeatedSep(s)
    ensures Collapse(s) == s
    decreases |s|
  {
    if |s| > 1 {
      var p := s[..|s| - 1];
      assert !(s[|s| - 2] == Sep && s[|s| - 1] == Sep);
      assert forall i :: 0 <= i < |p| ==> p[i] == s[i];
      CollapseOfCollapsed(p);
      assert s == p + [s[|s| - 1]];
    }
  }

  /** Reading a path a second time changes nothing. */
  lemma {:induction false} JavaPathIdempotent(s: string)
    ensures JavaPath(JavaPath(s)) == JavaPath(s)
  {
    CollapseOfCollapsed(JavaPath(s));
  }

  /** Appending a separator-free string to a path appends it to the collapsed path. */
  lemma {:induction false} CollapseAppendName(a: string, name: string)
    requires a != "" && ProperName(name)
    ensures Collapse(a + name) == Collapse(a) + name
    decreases |name|
  {
    var s := a + name;
    var init := name[..|name| - 1];
    var last := name[|name| - 1];
    assert last in name;
    assert |s| > 1 && s[|s| - 1] == last && s[..|s| - 1] == a + init;
    assert Collapse(s) == Collapse(a + init) + [last];
    assert name == init + [last];
    if init != "" {
      assert Sep !in init by {
        assert forall x :: x in init ==> x in name;
      }
      CollapseAppendName(a, init);
    } else {
      assert a + init == a;
    }
  }

  /**
   * A proper name joined to a path ending in a separator: the result is the
   * collapsed path followed by the name, and the folder is that collapsed path
   * without its trailing separator.
   */
  lemma {:induction false} JavaPathOfJoin(folder: string, name: string)
    requires folder != "" && folder[|folder| - 1] == Sep && ProperName(name)
    ensures Collapse(folder) != "" && Collapse(folder)[|Collapse(folder)| - 1] == Sep
    ensures JavaPath(folder + name) == Collapse(folder) + name
    ensures JavaPath(folder) == JavaFilePath(Collapse(folder))
  {
    CollapseAppendName(folder, name);
    assert name[|name| - 1] in name;
  }

  /** One more separator in front of a path that starts with one leaves the collapsed path unchanged. */
  lemma {:induction false} CollapseLeadingSep(p: string)
    requires p != "" && p[0] == Sep
    ensures Collapse([Sep] + p) == Collapse(p)
    decreases |p|
  {
    var s := [Sep] + p;
    if |p| > 1 {
      assert s[..|s| - 1] == [Sep] + p[..|p| - 1];
      assert s[|s| - 2] == p[|p| - 2] && s[|s| - 1] == p[|p| - 1];
      CollapseLeadingSep(p[..|p| - 1]);
    }
  }

  /** Joined to the root "/", a path that starts with a separator reads as the path itself. */
  lemma {:induction false} JavaPathBelowFileSystemRoot(p: string)
    requires p != "" && p[0] == Sep
    ensures JavaPath([Sep] + p) == JavaPath(p)
  {
    CollapseLeadingSep(p);
  }

  /**
   * Under the restore root "/", the string "//a/b.txt" names the file
   * "/a/b.txt"; a folder string with its trailing separator, "/r/a/", names
   * the directory "/r/a".
   */
  lemma JavaPathExamples()
    ensures JavaPath("//a/b.txt") == "/a/b.txt"
    ensures JavaPath("/r/a/") == "/r/a"
  {
    JavaPathBelowFileSystemRoot("/a/b.txt");
    assert [Sep] + "/a/b.txt" == "//a/b.txt";
    CollapseOfCollapsed("/a/b.txt");
    CollapseOfCollapsed("/r/a/");
  }

  /** The directory that holds the entry at `s` (the root "/" for a top-level entry). */
  function ParentPath(s: string): (r: string)
    ensures |BaseName(s)| < |s| - 1 ==> r + [Sep] + BaseName(s) == s
  {
    var n := |s| - |BaseName(s)|;
    if n > 1 then s[..n - 1] else [Sep]
  }

  // ---------------------------------------------------------------------------
  // Lemmas about split

  lemma {:induction false} DropTrailingEmptyCons(a: string, xs: seq<string>)
    ensures DropTrailingEmpty([a] + xs) ==
      if DropTrailingEmpty(xs) == [] then (if a == "" then [] else [a])
      else [a] + DropTrailingEmpty(xs)
  {
    if xs == [] {
      assert [a] + xs == [a];
      assert [a][..0] == [];
    } else if xs[|xs| - 1] == "" {
      assert ([a] + xs)[..|xs|] == [a] + xs[..|xs| - 1];
      DropTrailingEmptyCons(a, xs[..|xs| - 1]);
    }
  }

  /**
   * The step the recursive tree walks take: when `s` splits into more than one
   * piece, its first piece ends at the first separator, and splitting what
   * follows that separator yields the remaining pieces.
   */
  lemma {:induction false} SplitStep(s: string)
    requires |Split(s)| > 1
    ensures FirstSep(s) < |s|
    ensures Split(s)[0] == s[..FirstSep(s)]
    ensures Split(s[FirstSep(s) + 1..]) == Split(s)[1..]
  {
    var i := FirstSep(s);
    SplitHasSep(s);
    var rest := s[i + 1..];
    var tail := DropTrailingEmpty(SplitAll(rest));
    DropTrailingEmptyCons(s[..i], SplitAll(rest));
    assert Split(s) == DropTrailingEmpty([s[..i]] + SplitAll(rest));
    assert tail != [] && Split(s) == [s[..i]] + tail;
    SplitOfEmpty();
    assert rest != "";
  }

  lemma {:induction false} SplitHasSep(s: string)
    requires |Split(s)| > 1
    ensures s != "" && FirstSep(s) < |s|
    ensures SplitAll(s) == [s[..FirstSep(s)]] + SplitAll(s[FirstSep(s) + 1..])
  {
    SplitWithoutSep(s);
  }

  /** A string without separator splits into at most one piece. */
  lemma {:induction false} SplitWithoutSep(s: string)
    ensures FirstSep(s) == |s| ==> |Split(s)| <= 1
  {
    if s != "" && FirstSep(s) == |s| {
      assert SplitAll(s) == [s];
    }
  }

  lemma {:induction false} SplitOfEmpty()
    ensures DropTrailingEmpty(SplitAll("")) == []
  {
    assert SplitAll("") == [""];
  }

  /** A split never has more pieces than the string has separators plus one. */
  lemma {:induction false} SplitAllLength(s: string)
    ensures |SplitAll(s)| <= |s| + 1
    decreases |s|
  {
    var i := FirstSep(s);
    if i < |s| {
      SplitAllLength(s[i + 1..]);
    }
  }

  /** Dropping the trailing empty pieces leaves a prefix that does not end in an empty piece. */
  lemma {:induction false} DropTrailingEmptyPrefix(xs: seq<string>)
    ensures DropTrailingEmpty(xs) == xs[..|DropTrailingEmpty(xs)|]
    ensures DropTrailingEmpty(xs) != [] ==> Last(DropTrailingEmpty(xs)) != ""
  {
    if xs != [] && xs[|xs| - 1] == "" {
      var ys := xs[..|xs| - 1];
      DropTrailingEmptyPrefix(ys);
      assert ys[..|DropTrailingEmpty(ys)|] == xs[..|DropTrailingEmpty(ys)|];
    }
  }

  /** No piece of `SplitAll` holds a separator. */
  lemma {:induction false} SplitAllPieces(s: string)
    ensures forall i :: 0 <= i < |SplitAll(s)| ==> Sep !in SplitAll(s)[i]
    decreases |s|
  {
    var i := FirstSep(s);
    BeforeFirstSep(s);
    assert Sep !in s[..i];
    if i < |s| {
      SplitAllPieces(s[i + 1..]);
      SplitAllAt(s, i);
    }
  }

  /**
   * What `split` yields: pieces free of separators; the empty string gives one
   * empty piece, any other string no empty piece at the end.
   */
  lemma {:induction false} SplitPieces(s: string)
    ensures s == "" ==> Split(s) == [""]
    ensures forall i :: 0 <= i < |Split(s)| ==> Sep !in Split(s)[i]
    ensures s != "" && Split(s) != [] ==> Last(Split(s)) != ""
  {
    if s != "" {
      SplitAllPieces(s);
      DropTrailingEmptyPrefix(SplitAll(s));
      var r := Split(s);
      forall i | 0 <= i < |r|
        ensures Sep !in r[i]
      {
        assert r[i] == SplitAll(s)[i];
      }
    }
  }

  /** The last piece of the split is the base name. */
  lemma {:induction false} LastOfSplitAll(s: string)
    ensures Last(SplitAll(s)) == BaseName(s)
    decreases |s|
  {
    var i := FirstSep(s);
    if i == |s| {
      assert SplitAll(s) == [s];
      BeforeFirstSep(s);
      NoSepBaseName(s);
    } else {
      var rest := SplitAll(s[i + 1..]);
      SplitAllAt(s, i);
      assert Last([s[..i]] + rest) == Last(rest);
      LastOfSplitAll(s[i + 1..]);
      BaseNameAfterSep(s, i);
    }
  }

  lemma {:induction false} NoSepBaseName(s: string)
    requires forall j :: 0 <= j < |s| ==> s[j] != Sep
    ensures BaseName(s) == s
  {
    if s != [] {
      NoSepBaseName(s[..|s| - 1]);
    }
  }

  /** Cutting a prefix that ends in a separator keeps the base name. */
  lemma {:induction false} BaseNameAfterSep(s: string, k: nat)
    requires k < |s| && s[k] == Sep
    ensures BaseName(s[k + 1..]) == BaseName(s)
    decreases |s|
  {
    var t := s[k + 1..];
    if |s| - 1 == k {
      assert t == [];
    } else if s[|s| - 1] == Sep {
      assert t[|t| - 1] == Sep;
    } else {
      var u := s[..|s| - 1];
      BaseNameAfterSep(u, k);
      assert u[k + 1..] == t[..|t| - 1];
      assert t != [] && t[|t| - 1] == s[|s| - 1];
      BaseNameSnoc(s);
      BaseNameSnoc(t);
    }
  }

  lemma {:induction false} BaseNameSnoc(s: string)
    requires s != [] && s[|s| - 1] != Sep
    ensures BaseName(s) == BaseName(s[..|s| - 1]) + [s[|s| - 1]]
  {
  }

  /** A proper name after a separator is the base name and the last piece of the path. */
  lemma {:induction false} NameAfterSep(a: string, name: string)
    requires a != "" && a[|a| - 1] == Sep
    ensures ProperName(name) ==> BaseName(a + name) == name && Split(a + name) != [] && Last(Split(a + name)) == name
  {
    if !ProperName(name) {
      return;
    }
    var s := a + name;
    forall j | 0 <= j < |name|
      ensures name[j] != Sep
    {
      assert name[j] in name;
    }
    NoSepBaseName(name);
    assert s[|a| - 1] == Sep && s[|a|..] == name;
    BaseNameAfterSep(s, |a| - 1);
    assert s[|s| - 1] == name[|name| - 1];
    SplitOfRelative(s);
  }

  /**
   * A relative path that is not empty and does not end in a separator splits
   * into all its pieces, the last of which is its base name.
   */
  lemma {:induction false} SplitOfRelative(r: string)
    requires r != "" && r[|r| - 1] != Sep
    ensures Split(r) == SplitAll(r) && Split(r) != []
    ensures Last(Split(r)) == BaseName(r) && BaseName(r) != ""
  {
    LastOfSplitAll(r);
  }

  /** A name that is one piece of a path: not empty and free of separators. */
  predicate ProperName(n: string)
  {
    n != "" && Sep !in n
  }

  /** No separator comes before the first one. */
  lemma {:induction false} BeforeFirstSep(s: string)
    ensures forall j :: 0 <= j < FirstSep(s) ==> s[j] != Sep
  {
    if s != [] && s[0] != Sep {
      BeforeFirstSep(s[1..]);
    }
  }

  /** The three facts that determine the first separator pin it down. */
  lemma {:induction false} FirstSepUnique(s: string, j: nat)
    requires j <= |s| && (j < |s| ==> s[j] == Sep)
    requires forall k :: 0 <= k < j ==> s[k] != Sep
    ensures FirstSep(s) == j
  {
    if j > 0 {
      assert s[0] != Sep;
      FirstSepUnique(s[1..], j - 1);
    }
  }

  /** A proper name splits into itself. */
  lemma {:induction false} SplitOfName(b: string)
    requires ProperName(b)
    ensures SplitAll(b) == [b] && Split(b) == [b]
  {
    FirstSepUnique(b, |b|);
  }

  /** Appending a separator and a proper name appends one piece. */
  lemma {:induction false} SplitAllAppend(a: string, b: string)
    requires ProperName(b)
    ensures SplitAll(a + [Sep] + b) == SplitAll(a) + [b]
    decreases |a|
  {
    var i := FirstSep(a);
    if i == |a| {
      SplitAllAppendLast(a, b);
    } else {
      SplitAllAppend(a[i + 1..], b);
      SplitAllAppendStep(a, b, i);
    }
  }

  lemma {:induction false} DropConcat(x: string, y: string, k: nat)
    requires k <= |x|
    ensures (x + y)[k..] == x[k..] + y
  {
  }

  /** The base case of `SplitAllAppend`: `a` holds no separator. */
  lemma {:induction false} SplitAllAppendLast(a: string, b: string)
    requires ProperName(b) && FirstSep(a) == |a|
    ensures SplitAll(a + [Sep] + b) == SplitAll(a) + [b]
  {
    var s := a + [Sep] + b;
    BeforeFirstSep(a);
    FirstSepUnique(s, |a|);
    assert s[..|a|] == a && s[|a| + 1..] == b;
    SplitOfName(b);
  }

  /** The step of `SplitAllAppend`: the first piece of `a` stays the first piece. */
  lemma {:induction false} SplitAllAppendStep(a: string, b: string, i: nat)
    requires ProperName(b) && i == FirstSep(a) < |a|
    requires SplitAll(a[i + 1..] + [Sep] + b) == SplitAll(a[i + 1..]) + [b]
    ensures SplitAll(a + [Sep] + b) == SplitAll(a) + [b]
  {
    var rest := a[i + 1..];
    assert a + [Sep] + b == a + ([Sep] + b);
    assert rest + [Sep] + b == rest + ([Sep] + b);
    SplitAllPrefix(a, [Sep] + b, i);
    SplitAllAt(a, i);
    ConcatAssoc([a[..i]], SplitAll(rest), [b]);
  }

  /** Text appended after the first separator leaves the first piece alone. */
  lemma {:induction false} SplitAllPrefix(a: string, tail: string, i: nat)
    requires i == FirstSep(a) < |a|
    ensures SplitAll(a + tail) == [a[..i]] + SplitAll(a[i + 1..] + tail)
  {
    var s := a + tail;
    FirstSepConcat(a, tail);
    assert s[..i] == a[..i];
    assert s[i + 1..] == a[i + 1..] + tail;
    SplitAllAt(s, i);
  }

  lemma {:induction false} ConcatAssoc(x: seq<string>, y: seq<string>, z: seq<string>)
    ensures x + (y + z) == (x + y) + z
  {
  }

  /** The first separator of a concatenation. */
  lemma {:induction false} FirstSepConcat(x: string, y: string)
    ensures FirstSep(x + y) == if FirstSep(x) < |x| then FirstSep(x) else |x| + FirstSep(y)
  {
    if x == [] {
      assert x + y == y;
    } else {
      assert (x + y)[0] == x[0];
      if x[0] != Sep {
        assert (x + y)[1..] == x[1..] + y;
        FirstSepConcat(x[1..], y);
      }
    }
  }

  /** One unfolding of `SplitAll` at a separator. */
  lemma {:induction false} SplitAllAt(s: string, i: nat)
    requires i == FirstSep(s) < |s|
    ensures SplitAll(s) == [s[..i]] + SplitAll(s[i + 1..])
  {
  }

  /**
   * Joining a relative path that does not end in a separator and a proper
   * name with a separator adds the name as its last piece.
   */
  lemma {:induction false} SplitAppend(a: string, b: string)
    requires a != "" && a[|a| - 1] != Sep && ProperName(b)
    ensures Split(a + [Sep] + b) == Split(a) + [b]
  {
    SplitOfRelative(a);
    SplitAllAppend(a, b);
  }
}
