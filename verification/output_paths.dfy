/** Where archives go: the output directory chosen at start-up and the
    archive file written for a key when its throttled signal fires. */
module OutputPaths {
  import opened Options
  import opened Paths

  const ZipsFolder: string := "Zips"
  const ZipExtension: string := ".zip"

  /** Without an `-o` option the output directory is the sibling `Zips` of the
      source. A source that is a filesystem root has a null parent, and the
      command fails there instead (nothing is produced). */
  function DefaultOutput(source: Path): (output: Option<Path>)
    ensures output.None? <==> |source| == 0
    ensures output.Some? ==> Parent(output.value) == Parent(source)
    ensures output.Some? ==> Name(output.value) == ZipsFolder
  {
    match Parent(source)
    case None => None
    case Some(parent) => Some(Combine(parent, ZipsFolder))
  }

  /** The output directory: the `-o` option when given, the default otherwise. */
  function OutputDirectory(source: Path, option: Option<Path>): (output: Option<Path>)
    ensures option.Some? ==> output == option
    ensures option.None? ==> (output.None? <==> |source| == 0)
    ensures option.None? && output.Some? ==>
              Parent(output.value) == Parent(source) && Name(output.value) == ZipsFolder
  {
    if option.Some? then option else DefaultOutput(source)
  }

  /** The archive target for a key: `<key name>.zip` inside the output
      directory. */
  function ArchiveTarget(output: Path, key: Path): (target: Path)
    requires |key| > 0
    ensures IsChildOf(target, output)
    ensures Name(target) == Name(key) + ZipExtension
  {
    Combine(output, Name(key) + ZipExtension)
  }

  /** Recovers a key's name from an archive file name, if it is one. */
  function ArchiveKeyName(fileName: string): (name: Option<string>)
    ensures name.Some? ==> name.value + ZipExtension == fileName
  {
    if |fileName| >= |ZipExtension| && fileName[|fileName| - |ZipExtension|..] == ZipExtension
    then
      var stem := fileName[..|fileName| - |ZipExtension|];
      assert stem + ZipExtension == fileName;
      Some(stem)
    else None
  }

  /** The archive's file name always gives back the key's name. */
  lemma ArchiveNameRoundTrip(output: Path, key: Path)
    requires |key| > 0
    ensures ArchiveKeyName(Name(ArchiveTarget(output, key))) == Some(Name(key))
  {
    var fileName := Name(key) + ZipExtension;
    CombineSplitRoundTrip(output, fileName, key);
    assert fileName[|fileName| - |ZipExtension|..] == ZipExtension;
    assert fileName[..|fileName| - |ZipExtension|] == Name(key);
  }

  /** Distinct top-level children of one source never share an archive, so no
      key's archive overwrites another's. */
  lemma ArchiveTargetsDistinct(output: Path, source: Path, a: Path, b: Path)
    requires IsChildOf(a, source) && IsChildOf(b, source) && a != b
    ensures ArchiveTarget(output, a) != ArchiveTarget(output, b)
  {
    ChildrenEqualIffNamesEqual(source, a, b);
    if ArchiveTarget(output, a) == ArchiveTarget(output, b) {
      ArchiveNameRoundTrip(output, a);
      ArchiveNameRoundTrip(output, b);
    }
  }

  /** The default output directory coincides with the source exactly when the
      source itself is named `Zips`; then the start-up clean-up of the output
      directory removes the source tree. */
  lemma DefaultOutputIsSourceIff(source: Path)
    requires |source| > 0
    ensures DefaultOutput(source) == Some(source) <==> Name(source) == ZipsFolder
  {
    CombineSplitRoundTrip(Parent(source).value, ZipsFolder, source);
  }

  /** The default output directory never lies strictly inside the source tree:
      it is the source itself or a sibling of it. */
  lemma DefaultOutputNotBelowSource(source: Path)
    requires |source| > 0
    ensures !(source < DefaultOutput(source).value)
  {
  }
}
