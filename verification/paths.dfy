/** Absolute filesystem paths as sequences of segments, with the three pieces of
    path arithmetic the command relies on: a directory's parent, its name, and
    combining a directory with a child name. The empty sequence is the
    filesystem root, whose parent is null. */
module Paths {
  import opened Options

  type Path = seq<string>

  /** `DirectoryInfo.Parent`: the enclosing directory, or nothing for the root. */
  function Parent(p: Path): (r: Option<Path>)
    ensures r.None? <==> |p| == 0
    ensures r.Some? ==> r.value < p && |r.value| + 1 == |p|
  {
    if |p| == 0 then None else Some(p[..|p| - 1])
  }

  /** `DirectoryInfo.Name` / `FileInfo.Name`: the last segment. */
  function Name(p: Path): string
    requires |p| > 0
  {
    p[|p| - 1]
  }

  /** `Path.Combine(dir, name)` for a plain (unrooted, separator-free) name. */
  function Combine(dir: Path, name: string): (r: Path)
    ensures |r| == |dir| + 1
  {
    dir + [name]
  }

  predicate IsChildOf(p: Path, dir: Path) {
    Parent(p) == Some(dir)
  }

  /** Combining and splitting are inverse: a child is its parent combined
      with its own name, and a combined path has the directory as parent and
      the name as name. */
  lemma CombineSplitRoundTrip(dir: Path, name: string, p: Path)
    requires |p| > 0
    ensures IsChildOf(Combine(dir, name), dir) && Name(Combine(dir, name)) == name
    ensures Combine(Parent(p).value, Name(p)) == p
  {
    assert Combine(dir, name)[..|dir|] == dir;
  }

  /** Two children of one directory are the same path exactly when their
      names agree. */
  lemma ChildrenEqualIffNamesEqual(dir: Path, a: Path, b: Path)
    requires IsChildOf(a, dir) && IsChildOf(b, dir)
    ensures a == b <==> Name(a) == Name(b)
  {
    if Name(a) == Name(b) {
      CombineSplitRoundTrip(dir, Name(a), a);
      CombineSplitRoundTrip(dir, Name(b), b);
    }
  }
}
