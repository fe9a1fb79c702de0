/** `System.IO.Path.Combine` and `Path.GetFileName` on a system whose separator is '/'. */
module Paths {

  const Separator: char := '/'

  /**
   * `Path.Combine(a, b)`: an empty part yields the other, a rooted `b` replaces `a`,
   * and a separator is inserted only when `a` does not already end with one.
   */
  function Combine(a: string, b: string): (r: string)
    ensures |b| > 0 && b[0] != Separator ==> |b| <= |r| && r[|r| - |b|..] == b
    ensures |b| > 0 && b[0] != Separator ==> |r| == |b| || r[|r| - |b| - 1] == Separator
  {
    if |b| == 0 then a
    else if |a| == 0 then b
    else if b[0] == Separator then b
    else if a[|a| - 1] == Separator then a + b
    else a + [Separator] + b
  }

  /**
   * `Path.GetFileName(path)`: the text after the last separator, or the whole
   * path when it has none.
   */
  function GetFileName(path: string): string
  {
    if |path| == 0 then ""
    else if path[|path| - 1] == Separator then ""
    else GetFileName(path[..|path| - 1]) + [path[|path| - 1]]
  }

  /** The file name is the longest separator-free suffix of the path. */
  lemma {:induction false} FileNameIsFinalComponent(path: string)
    ensures |GetFileName(path)| <= |path|
    ensures GetFileName(path) == path[|path| - |GetFileName(path)|..]
    ensures Separator !in GetFileName(path)
    ensures |GetFileName(path)| < |path| ==> path[|path| - |GetFileName(path)| - 1] == Separator
  {
    if |path| > 0 && path[|path| - 1] != Separator {
      var init := path[..|path| - 1];
      FileNameIsFinalComponent(init);
      var r := GetFileName(init);
      assert path[|path| - |r| - 1..] == path[|path| - |r| - 1..|path| - 1] + [path[|path| - 1]];
    }
  }

  /** The file name of `prefix + name` is `name` when `prefix` is empty or ends in a separator. */
  lemma {:induction false} FileNameAfterSeparator(prefix: string, name: string)
    requires Separator !in name
    requires |prefix| == 0 || prefix[|prefix| - 1] == Separator
    ensures GetFileName(prefix + name) == name
  {
    if |name| == 0 {
      assert prefix + name == prefix;
    } else {
      var p := prefix + name;
      assert p[..|p| - 1] == prefix + name[..|name| - 1];
      FileNameAfterSeparator(prefix, name[..|name| - 1]);
      assert name == name[..|name| - 1] + [name[|name| - 1]];
    }
  }

  /** A name without separators, combined onto a directory, is that path's file name. */
  lemma FileNameOfCombine(dir: string, name: string)
    requires |name| > 0 && Separator !in name
    ensures GetFileName(Combine(dir, name)) == name
  {
    var p := Combine(dir, name);
    var prefix := p[..|p| - |name|];
    assert p == prefix + name;
    FileNameAfterSeparator(prefix, name);
  }
}
