/** Key resolution for one change notification (`MultiDirCommand.OnChanged`):
    which immediate child directory of the watched source root a changed path
    belongs to, or nothing when the notification is to be discarded. */
module KeyResolver {
  import opened Options
  import opened Paths
  import opened FileSystem

  /** The upward walk: replace the directory by its parent until its parent is
      the root. It ends because the directory lies strictly below the root, so
      the walk reaches the root's child before it could run out of parents. */
  function WalkUp(root: Path, dir: Path): (top: Path)
    requires root < dir
    ensures IsChildOf(top, root)
    ensures top <= dir
    decreases |dir|
  {
    var up := dir[..|dir| - 1];
    if up == root then dir
    else
      assert root <= up;
      var top := WalkUp(root, up);
      assert top <= dir by { assert up <= dir; }
      top
  }

  /** The directory a notification denotes: a directory stands for itself, a
      file for the directory that contains it. */
  function EventDirectory(path: Path, attr: Attr): (dir: Path)
    requires |path| > 0
    ensures dir <= path
    ensures attr.isDirectory ==> dir == path
    ensures !attr.isDirectory ==> IsChildOf(path, dir)
  {
    if attr.isDirectory then path else path[..|path| - 1]
  }

  /** `OnChanged` for a changed path strictly below the watched source root.
      The handler reads attributes twice: the changed entry's from `fs`, the
      filesystem when `File.GetAttributes` runs, and the top-level
      directory's from `later`, the filesystem when its `Attributes` getter
      refreshes. Entries can change in between. Each lookup of a missing entry
      raises `FileNotFoundException`, which the handler swallows, so it yields
      nothing too. */
  function Resolve(fs: Fs, later: Fs, source: Path, path: Path): (key: Option<Path>)
    requires source < path
    ensures key.Some? ==> IsChildOf(key.value, source) && key.value <= path
    ensures key.Some? ==> path in fs && !fs[path].hidden
    ensures key.Some? ==> key.value in later && !later[key.value].hidden
  {
    match GetAttributes(fs, path)
    case FileNotFound => None
    case Found(attr) =>
      if attr.hidden then None
      else
        var dir := EventDirectory(path, attr);
        if source == dir then None
        else
          assert source <= dir;
          var top := WalkUp(source, dir);
          match GetAttributes(later, top)
          case FileNotFound => None
          case Found(topAttr) => if topAttr.hidden then None else Some(top)
  }

  /** The top-level child of `root` on the way to `path`: its first
      `|root| + 1` segments. */
  function TopLevel(root: Path, path: Path): (top: Path)
    requires root < path
    ensures IsChildOf(top, root) && top <= path
  {
    var top := path[..|root| + 1];
    assert top[..|root|] == root;
    top
  }

  /** A closed-form statement of when a notification is attributed: the entry
      exists and is visible at the first lookup, it is not a file sitting
      directly in the root, and the top-level child it lies in exists and is
      visible at the second lookup. */
  predicate Attributable(fs: Fs, later: Fs, source: Path, path: Path)
    requires source < path
  {
    && path in fs
    && !fs[path].hidden
    && (fs[path].isDirectory || |path| > |source| + 1)
    && TopLevel(source, path) in later
    && !later[TopLevel(source, path)].hidden
  }

  /** The walk reaches exactly the top-level child on the way to `dir`. */
  lemma {:induction false} WalkUpIsTopLevel(root: Path, dir: Path)
    requires root < dir
    ensures WalkUp(root, dir) == TopLevel(root, dir)
    decreases |dir|
  {
    var up := dir[..|dir| - 1];
    if up != root {
      assert root <= up;
      WalkUpIsTopLevel(root, up);
      assert TopLevel(root, up) == TopLevel(root, dir);
    }
  }

  /** Resolution agrees with the closed form in both directions: it yields the
      top-level child exactly when the notification is attributable, and
      nothing otherwise. */
  lemma ResolveCharacterization(fs: Fs, later: Fs, source: Path, path: Path)
    requires source < path
    ensures Resolve(fs, later, source, path) ==
              (if Attributable(fs, later, source, path) then Some(TopLevel(source, path)) else None)
  {
    if path in fs && !fs[path].hidden {
      var dir := EventDirectory(path, fs[path]);
      if source != dir {
        assert source <= dir;
        WalkUpIsTopLevel(source, dir);
        assert TopLevel(source, dir) == TopLevel(source, path);
      }
    }
  }

  /** A path that no longer exists is discarded, not attributed to a parent,
      and the handler raises nothing. */
  lemma MissingEntryDiscarded(fs: Fs, later: Fs, source: Path, path: Path)
    requires source < path && path !in fs
    ensures Resolve(fs, later, source, path) == None
  {
  }

  /** A hidden changed entry is discarded. */
  lemma HiddenEntryDiscarded(fs: Fs, later: Fs, source: Path, path: Path)
    requires source < path && path in fs && fs[path].hidden
    ensures Resolve(fs, later, source, path) == None
  {
  }

  /** A file directly in the root is discarded: its directory is the root. */
  lemma FileInRootDiscarded(fs: Fs, later: Fs, source: Path, path: Path)
    requires IsChildOf(path, source) && path in fs && !fs[path].isDirectory
    ensures Resolve(fs, later, source, path) == None
  {
  }

  /** A top-level directory visible at both lookups is its own key. */
  lemma TopLevelDirectoryIsOwnKey(fs: Fs, later: Fs, source: Path, path: Path)
    requires IsChildOf(path, source) && path in fs
    requires fs[path].isDirectory && !fs[path].hidden
    requires path in later && !later[path].hidden
    ensures Resolve(fs, later, source, path) == Some(path)
  {
  }

  /** A file anywhere below a top-level child is attributed to that child,
      however deep it lies, provided both are visible. */
  lemma NestedFileAttributedToTopLevel(fs: Fs, later: Fs, source: Path, top: Path, path: Path)
    requires IsChildOf(top, source) && top < path
    requires path in fs && !fs[path].isDirectory && !fs[path].hidden
    requires top in later && !later[top].hidden
    ensures Resolve(fs, later, source, path) == Some(top)
  {
    ResolveCharacterization(fs, later, source, path);
    assert TopLevel(source, path) == top;
  }

  /** When the top-level child reached by the walk is hidden, or has vanished,
      by the time its attributes are read, the notification is discarded
      whatever the changed entry was. This holds even when the changed entry is
      that top-level directory itself and it was visible at the first lookup. */
  lemma HiddenOrMissingTopLevelDiscarded(fs: Fs, later: Fs, source: Path, path: Path)
    requires source < path
    requires TopLevel(source, path) !in later || later[TopLevel(source, path)].hidden
    ensures Resolve(fs, later, source, path) == None
  {
    ResolveCharacterization(fs, later, source, path);
  }
}
