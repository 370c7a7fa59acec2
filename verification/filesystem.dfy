/** The filesystem as the command observes it: a finite map from paths to the
    two attribute flags it ever inspects. A path with no entry is one that does
    not exist (never existed, or was deleted before the handler looked). */
module FileSystem {
  import opened Paths

  /** The `FileAttributes.Directory` and `FileAttributes.Hidden` flags. */
  datatype Attr = Attr(isDirectory: bool, hidden: bool)

  type Fs = map<Path, Attr>

  /** The outcome of `File.GetAttributes` / `FileSystemInfo.Attributes`. */
  datatype Lookup = Found(attr: Attr) | FileNotFound

  function GetAttributes(fs: Fs, p: Path): Lookup
  {
    if p in fs then Found(fs[p]) else FileNotFound
  }
}
