/**
 * `ReadmeGenerator.GenerateReadmeFilesAsync`: writes, into every immediate
 * subdirectory of a decompiled project, an index file made of an ATX heading with
 * the directory's name (GFM section 4.2), a `## Content` heading and one
 * `- [name](name)` link per file, in sorted order.
 *
 * The file system is an input: each subdirectory is given with the paths of its
 * files, and the written index files are returned. `Array.Sort`'s culture-sensitive
 * comparer is the parameter `le`, any total preorder on strings.
 */
module ReadmeGenerator {
  import opened Paths

  /** A directory as `Directory.GetFiles` sees it. */
  datatype DirectoryListing = DirectoryListing(path: string, files: seq<string>)

  /** A text file written to disk. */
  datatype WrittenFile = WrittenFile(path: string, text: string)

  /** The index is named so that it sorts first once the directory holds more than 1000 files. */
  const ManyFiles: nat := 1000

  ghost predicate IsTotalPreorder(le: (string, string) -> bool)
  {
    && (forall a, b :: le(a, b) || le(b, a))
    && (forall a, b, c :: le(a, b) && le(b, c) ==> le(a, c))
  }

  ghost predicate Sorted(s: seq<string>, le: (string, string) -> bool)
  {
    forall p, q :: 0 <= p < q < |s| ==> le(s[p], s[q])
  }

  /** `Array.Sort(files)`: sorts the array in place (an insertion sort by adjacent swaps). */
  method SortPaths(a: array<string>, le: (string, string) -> bool)
    requires IsTotalPreorder(le)
    modifies a
    ensures Sorted(a[..], le)
    ensures multiset(a[..]) == multiset(old(a[..]))
  {
    var i := 0;
    while i < a.Length
      invariant 0 <= i <= a.Length
      invariant forall p, q :: 0 <= p < q < i ==> le(a[p], a[q])
      invariant multiset(a[..]) == multiset(old(a[..]))
    {
      var j := i;
      while j > 0 && !le(a[j - 1], a[j])
        invariant 0 <= j <= i
        invariant forall p, q :: 0 <= p < q <= i && p != j && q != j ==> le(a[p], a[q])
        invariant forall q :: j < q <= i ==> le(a[j], a[q])
        invariant multiset(a[..]) == multiset(old(a[..]))
      {
        a[j - 1], a[j] := a[j], a[j - 1];
        j := j - 1;
      }
      i := i + 1;
    }
  }

  /** The name of the index file for a directory holding `fileCount` files. */
  function ReadmeName(fileCount: nat): (name: string)
    ensures fileCount > ManyFiles <==> name == "0README.md"
    ensures fileCount <= ManyFiles <==> name == "README.md"
  {
    if fileCount > ManyFiles then "0README.md" else "README.md"
  }

  /** The index line of one file: a link whose text and target are both the file name. */
  function LinkLine(path: string): string
  {
    var name := GetFileName(path);
    "- [" + name + "](" + name + ")"
  }

  /** `f` applied to every element, in order. */
  function MapLines(f: string -> string, paths: seq<string>): (lines: seq<string>)
    ensures |lines| == |paths|
    ensures forall k :: 0 <= k < |paths| ==> lines[k] == f(paths[k])
  {
    if |paths| == 0 then [] else MapLines(f, paths[..|paths| - 1]) + [f(paths[|paths| - 1])]
  }

  function LinkLines(paths: seq<string>): (lines: seq<string>)
  {
    MapLines(LinkLine, paths)
  }

  /** The lines of the index of directory `directoryName` listing `paths` in that order. */
  function IndexLines(directoryName: string, paths: seq<string>): seq<string>
  {
    ["# " + directoryName, "## Content"] + LinkLines(paths)
  }

  /** `StringBuilder.AppendLine`: every line followed by the newline. */
  function Terminated(lines: seq<string>, newLine: string): string
  {
    if |lines| == 0 then ""
    else Terminated(lines[..|lines| - 1], newLine) + lines[|lines| - 1] + newLine
  }

  /** The text of the index: the two heading lines, then the link lines. */
  function IndexText(directoryName: string, paths: seq<string>, newLine: string): string
  {
    "# " + directoryName + newLine + "## Content" + newLine + Terminated(LinkLines(paths), newLine)
  }

  /** The `StringBuilder` loop: heading, `## Content`, then one link line per path. */
  method BuildIndexText(directoryName: string, paths: seq<string>, newLine: string) returns (text: string)
    ensures text == IndexText(directoryName, paths, newLine)
  {
    var heading := "# " + directoryName + newLine + "## Content" + newLine;
    text := heading;
    var k := 0;
    while k < |paths|
      invariant 0 <= k <= |paths|
      invariant text == heading + Terminated(LinkLines(paths[..k]), newLine)
    {
      var line := LinkLine(paths[k]);
      LinkLinesStep(paths, k, newLine);
      text := text + line + newLine;
      k := k + 1;
    }
    assert paths[..k] == paths;
  }

  ghost predicate IsSortedListing(listing: seq<string>, files: seq<string>, le: (string, string) -> bool)
  {
    Sorted(listing, le) && multiset(listing) == multiset(files)
  }

  /** The body run for one subdirectory: sort its files, build the text, pick the name. */
  method GenerateReadme(dir: DirectoryListing, le: (string, string) -> bool, newLine: string)
    returns (readme: WrittenFile, listing: seq<string>)
    requires IsTotalPreorder(le)
    ensures IsSortedListing(listing, dir.files, le)
    ensures readme.path == Combine(dir.path, ReadmeName(|dir.files|))
    ensures readme.text == IndexText(GetFileName(dir.path), listing, newLine)
  {
    var directoryName := GetFileName(dir.path);
    var files := new string[|dir.files|](k requires 0 <= k < |dir.files| => dir.files[k]);
    assert files[..] == dir.files;
    SortPaths(files, le);
    listing := files[..];
    var text := BuildIndexText(directoryName, listing, newLine);
    readme := WrittenFile(Combine(dir.path, ReadmeName(files.Length)), text);
  }

  /**
   * `GenerateReadmeFilesAsync(path)`, given `Directory.GetDirectories(path)`: one index
   * per immediate subdirectory and none for `path` itself. The source handles the
   * subdirectories in parallel; here they are handled one after the other, and the
   * sorted listing of each is returned beside its index.
   */
  method GenerateReadmeFiles(subdirectories: seq<DirectoryListing>, le: (string, string) -> bool,
                             newLine: string)
    returns (written: seq<WrittenFile>, listings: seq<seq<string>>)
    requires IsTotalPreorder(le)
    ensures |written| == |subdirectories| && |listings| == |subdirectories|
    ensures forall i :: 0 <= i < |written| ==> IsIndex(written[i], subdirectories[i], listings[i], le, newLine)
  {
    written, listings := [], [];
    var i := 0;
    while i < |subdirectories|
      invariant 0 <= i <= |subdirectories|
      invariant |written| == i && |listings| == i
      invariant forall j :: 0 <= j < i ==> IsIndex(written[j], subdirectories[j], listings[j], le, newLine)
    {
      var readme, listing := GenerateReadme(subdirectories[i], le, newLine);
      assert IsIndex(readme, subdirectories[i], listing, le, newLine);
      written, listings := written + [readme], listings + [listing];
      assert written[i] == readme && listings[i] == listing;
      i := i + 1;
    }
  }

  /** `readme` is the index of `dir`, listing its files in the sorted order `listing`. */
  ghost predicate IsIndex(readme: WrittenFile, dir: DirectoryListing, listing: seq<string>,
                          le: (string, string) -> bool, newLine: string)
  {
    && IsSortedListing(listing, dir.files, le)
    && readme.path == Combine(dir.path, ReadmeName(|dir.files|))
    && readme.text == IndexText(GetFileName(dir.path), listing, newLine)
  }

  // ---------------------------------------------------------------------------
  // Properties of the index text

  lemma {:induction false} TerminatedAppend(lines: seq<string>, more: seq<string>, newLine: string)
    ensures Terminated(lines + more, newLine) == Terminated(lines, newLine) + Terminated(more, newLine)
    decreases |more|
  {
    if |more| == 0 {
      assert lines + more == lines;
    } else {
      var init := more[..|more| - 1];
      TerminatedAppend(lines, init, newLine);
      assert (lines + more)[..|lines + more| - 1] == lines + init;
    }
  }

  /** Appending the line of `paths[k]` extends the terminated text of the first `k` paths. */
  lemma LinkLinesStep(paths: seq<string>, k: nat, newLine: string)
    requires k < |paths|
    ensures Terminated(LinkLines(paths[..k + 1]), newLine)
         == Terminated(LinkLines(paths[..k]), newLine) + LinkLine(paths[k]) + newLine
  {
    assert paths[..k + 1][..k] == paths[..k];
    assert LinkLines(paths[..k + 1]) == LinkLines(paths[..k]) + [LinkLine(paths[k])];
    TerminatedSnoc(LinkLines(paths[..k]), LinkLine(paths[k]), newLine);
  }

  lemma TerminatedSnoc(lines: seq<string>, line: string, newLine: string)
    ensures Terminated(lines + [line], newLine) == Terminated(lines, newLine) + line + newLine
  {
    assert (lines + [line])[..|lines|] == lines;
  }

  lemma MapLinesAppend(f: string -> string, a: seq<string>, b: seq<string>)
    ensures MapLines(f, a + b) == MapLines(f, a) + MapLines(f, b)
  {
    var whole, parts := MapLines(f, a + b), MapLines(f, a) + MapLines(f, b);
    forall k | 0 <= k < |whole| ensures whole[k] == parts[k] {
      if k < |a| {
        assert (a + b)[k] == a[k];
      } else {
        assert (a + b)[k] == b[k - |a|];
      }
    }
  }

  /** Mapping two permutations of each other gives permutations of each other. */
  lemma {:induction false} MapLinesPermutation(f: string -> string, listing: seq<string>, files: seq<string>)
    requires multiset(listing) == multiset(files)
    ensures multiset(MapLines(f, listing)) == multiset(MapLines(f, files))
    decreases |listing|
  {
    if |listing| > 0 {
      var x := listing[0];
      assert x in multiset(files);
      var i :| 0 <= i < |files| && files[i] == x;
      var before, after := files[..i], files[i + 1..];
      var rest := before + after;
      assert files == before + [x] + after;
      assert listing == [x] + listing[1..];
      assert multiset(listing[1..]) == multiset(rest) by {
        assert multiset(listing) == multiset{x} + multiset(listing[1..]);
        assert multiset(files) == multiset(before) + multiset{x} + multiset(after);
        assert multiset(listing[1..]) == multiset(listing) - multiset{x};
        assert multiset(rest) == multiset(before) + multiset(after);
        assert multiset(rest) == multiset(files) - multiset{x};
      }
      MapLinesPermutation(f, listing[1..], rest);
      assert MapLines(f, [x]) == [f(x)] by { assert [x][..0] == []; }
      MapLinesAppend(f, [x], listing[1..]);
      MapLinesAppend(f, before + [x], after);
      MapLinesAppend(f, before, [x]);
      MapLinesAppend(f, before, after);
    } else {
      assert files == [];
    }
  }

  lemma TerminatedSingle(line: string, newLine: string)
    ensures Terminated([line], newLine) == line + newLine
  {
    assert [line][..0] == [];
  }

  /**
   * The index text is the lines `# <directory name>`, `## Content` and one
   * `- [name](name)` line per listed path, in the listing's order, each followed by
   * the newline: files + 2 lines in all.
   */
  lemma IndexTextIsLines(directoryName: string, paths: seq<string>, newLine: string)
    ensures IndexText(directoryName, paths, newLine) == Terminated(IndexLines(directoryName, paths), newLine)
    ensures |IndexLines(directoryName, paths)| == |paths| + 2
    ensures IndexLines(directoryName, paths)[0] == "# " + directoryName
    ensures IndexLines(directoryName, paths)[1] == "## Content"
    ensures forall k :: 0 <= k < |paths| ==> IndexLines(directoryName, paths)[k + 2] == LinkLine(paths[k])
  {
    var head := ["# " + directoryName, "## Content"];
    TerminatedAppend(head, LinkLines(paths), newLine);
    TerminatedAppend(["# " + directoryName], ["## Content"], newLine);
    assert head == ["# " + directoryName] + ["## Content"];
    TerminatedSingle("# " + directoryName, newLine);
    TerminatedSingle("## Content", newLine);
  }

  /** Each link line names the file's final path component, the same in brackets and parentheses. */
  lemma LinkLineNamesFile(dir: string, name: string)
    requires |name| > 0 && Separator !in name
    ensures LinkLine(Combine(dir, name)) == "- [" + name + "](" + name + ")"
  {
    FileNameOfCombine(dir, name);
  }

  /**
   * Sorting does not change which files are listed: the link lines of the sorted
   * listing are those of the directory's files, each as often as the file occurs.
   */
  lemma EveryFileListedOnce(listing: seq<string>, files: seq<string>)
    requires multiset(listing) == multiset(files)
    ensures multiset(LinkLines(listing)) == multiset(LinkLines(files))
  {
    MapLinesPermutation(LinkLine, listing, files);
  }
}
