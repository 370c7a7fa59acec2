# Zipper `multi` command — a Dafny model of key resolution and the per-key registry

Zipper's `multi` command watches a source directory and keeps one zip archive
per top-level child directory in an output directory. This project models the
sequential core of `Commands/MultiDirCommand.cs`:

- **Key resolution** (`OnChanged`). A change notification names a path. The
  handler reads that path's attributes, turns a file into its containing
  directory, discards the notification when that directory is the source
  itself, walks upward until the parent is the source, and discards the
  notification when the top-level directory it reaches is hidden. A path that
  no longer exists makes `File.GetAttributes` throw `FileNotFoundException`.
  The handler swallows that exception, so the notification is discarded. It
  is not attributed to a parent.
- **The per-key registry** (`ChildChanged`). This is an insert-if-absent map
  from key to subject. A subject and its subscription are created only the
  first time a key is seen. Every call then delivers one signal, carrying the
  key, to that key's subject.
- **The start-up scan** (`Run`). Before watching, the command calls
  `ChildChanged` for every non-hidden child directory of the source.
- **Output paths**. Without `-o`, the output directory is the sibling `Zips`
  of the source. The archive for a key is `<key name>.zip` inside the output
  directory.

Paths are sequences of segments, and the empty sequence is the filesystem
root, whose parent is null. The filesystem is a finite map from path to the
two flags the command reads: `Directory` and `Hidden`. A path with no entry
does not exist. Each notification carries two filesystem states, because
entries can change between the event and the handler and while the handler
runs. The first is the filesystem when `File.GetAttributes` reads the changed
entry (line 107). The second is the filesystem when the top-level directory's
`Attributes` getter refreshes (line 123). Each subject
is represented by the sequence of signals delivered to it. The throttled
pipeline behind a subject is opaque, so subscriptions are only counted.

Modules: `Options` (optional values), `Paths` (parent, name, combine),
`FileSystem` (attributes and lookups), `KeyResolver` (`OnChanged`),
`SignalRegistry` (`ChildChanged`), `OutputPaths` (lines 34 and 140), and
`MultiDir` (the handler wired to the registry, and the start-up scan).

Paths compare as sequences of case-sensitive segments, just as the source
compares `FullName` strings ordinally. Equal paths below therefore mean equal
path strings. On a case-insensitive filesystem two different strings can name
the same directory or file; see "## Left out".

Two consequences of the code are proved rather than assumed.
- `OutputPaths.DefaultOutputIsSourceIff`: the default output path equals the
  source path exactly when the source's last segment is `Zips`. In that case
  the start-up clean-up of the output directory (`Output.Delete(true)`) deletes
  the source tree.
- `MultiDir.ArchiveWritesNeverSignal`: with the default output, writing an
  archive never signals a key. The archive is either outside the watched tree,
  or it is a file directly in the source, which resolution discards.

## Model

| member | source | states |
|---|---|---|
| KeyResolver.Resolve | Commands/MultiDirCommand.cs:100-132 | a resolved key is an immediate child of the source and a prefix of the changed path, the changed entry exists and is visible at the first lookup, and the key exists and is visible at the second |
| KeyResolver.WalkUp | Commands/MultiDirCommand.cs:118-121 | for a directory strictly below the root, the upward walk terminates at a directory whose parent is exactly the root and which is a prefix of the starting directory |
| KeyResolver.EventDirectory | Commands/MultiDirCommand.cs:111-113 | a directory stands for itself, and a file stands for the directory whose child it is |
| KeyResolver.WalkUpIsTopLevel | Commands/MultiDirCommand.cs:118-121 | the walk reaches exactly the first `|root|+1` segments of the directory, the unique top-level child on its way |
| KeyResolver.ResolveCharacterization | Commands/MultiDirCommand.cs:104-126 | resolution yields the top-level child if and only if the entry exists and is visible at the first lookup, is not a file directly in the root, and the top-level child exists and is visible at the second lookup; otherwise it yields nothing |
| KeyResolver.MissingEntryDiscarded | Commands/MultiDirCommand.cs:104-131 | a path with no filesystem entry yields nothing and raises nothing |
| KeyResolver.HiddenEntryDiscarded | Commands/MultiDirCommand.cs:107-109 | a hidden changed entry yields nothing |
| KeyResolver.FileInRootDiscarded | Commands/MultiDirCommand.cs:111-116 | a file directly in the source yields nothing, because its directory is the source |
| KeyResolver.TopLevelDirectoryIsOwnKey | Commands/MultiDirCommand.cs:111-126 | a top-level directory visible at both lookups resolves to itself |
| KeyResolver.NestedFileAttributedToTopLevel | Commands/MultiDirCommand.cs:111-126 | a file visible at the first lookup, at any depth below a top-level child visible at the second, resolves to that child |
| KeyResolver.HiddenOrMissingTopLevelDiscarded | Commands/MultiDirCommand.cs:118-131 | when the top-level child reached is hidden or has vanished by the second lookup, the notification yields nothing, even if it is the changed entry itself and was visible at the first |
| SignalRegistry.ChildChanged | Commands/MultiDirCommand.cs:83-98 | afterwards the key is registered; other keys' entries are unchanged; a subscription is added if and only if the key was absent; the key's subject receives exactly one more signal, carrying the key |
| SignalRegistry.ChildChangedPreservesValid | Commands/MultiDirCommand.cs:87-97 | one subscription per subject, and every subject has received at least one signal, each carrying its own key; both are kept by every call |
| SignalRegistry.ChildChangedDeliversOnce | Commands/MultiDirCommand.cs:97 | a call adds exactly one signal to the called key's subject and none to any other key's subject |
| SignalRegistry.SignalAllPreservesValid | Commands/MultiDirCommand.cs:83-98 | any sequence of calls keeps the registry invariant |
| SignalRegistry.SignalAllKeys | Commands/MultiDirCommand.cs:87-95 | keys are never removed: afterwards the registry holds the old keys plus exactly the keys signalled |
| SignalRegistry.SignalAllCounts | Commands/MultiDirCommand.cs:97 | each key's subject gains one signal per occurrence of the key among the calls |
| SignalRegistry.FromEmpty | Commands/MultiDirCommand.cs:43-49 | starting from empty collections, the subscription count equals the number of distinct keys signalled, and each subject's signal count equals the number of calls for its key |
| OutputPaths.DefaultOutput | Commands/MultiDirCommand.cs:32-35 | the default output is a sibling of the source named `Zips`; for a source with a null parent there is none |
| OutputPaths.OutputDirectory | Commands/MultiDirCommand.cs:24-35 | an explicit `-o` directory is used as given; without it the output is the sibling `Zips` of the source, and there is none when the source has no parent |
| OutputPaths.ArchiveTarget | Commands/MultiDirCommand.cs:140 | the archive lies directly in the output directory, and its name is the key's name plus `.zip` |
| OutputPaths.ArchiveNameRoundTrip | Commands/MultiDirCommand.cs:136-140 | stripping `.zip` from the archive's file name gives back the key's name |
| OutputPaths.ArchiveTargetsDistinct | Commands/MultiDirCommand.cs:140 | distinct top-level children of one source never share an archive path (as segment sequences) |
| OutputPaths.DefaultOutputIsSourceIff | Commands/MultiDirCommand.cs:34-41 | the default output path equals the source path if and only if the source's last segment is exactly `Zips` |
| OutputPaths.DefaultOutputNotBelowSource | Commands/MultiDirCommand.cs:34 | the default output never lies strictly inside the source tree |
| MultiDir.OnChanged | Commands/MultiDirCommand.cs:100-132 | a discarded notification leaves the registry unchanged; otherwise the resolved key is added to the key set if absent and gains exactly one signal, and no other key gains any; the registry invariant is kept, and keys stay top-level children of the source |
| MultiDir.ProcessEventsSignalsResolvedKeys | Commands/MultiDirCommand.cs:83-132 | handling a run of notifications is the same as calling `ChildChanged` on just the keys they resolve to, in order |
| MultiDir.VisibleDirectoriesAreVisibleEntries | Commands/MultiDirCommand.cs:47-48 | the directories the scan signals are exactly the listed non-hidden ones |
| MultiDir.InitialScan | Commands/MultiDirCommand.cs:47-49 | the start-up loop over the source's child directories registers exactly the non-hidden ones, keeps the registry valid and its keys top-level children of the source, and gives each one signal per time it is listed |
| MultiDir.LifetimeKeys | Commands/MultiDirCommand.cs:43-71 | after the start-up scan and any run of notifications, the registry is valid and holds exactly the scanned visible directories plus the keys the notifications resolved to, all top-level children of the source |
| MultiDir.LifetimeCounts | Commands/MultiDirCommand.cs:43-71 | after the start-up scan and any run of notifications, each subject has one signal per start-up listing of its directory plus one per notification that resolved to it |
| MultiDir.RegisteredKeysDistinctArchives | Commands/MultiDirCommand.cs:134-140 | two distinct registered keys never get the same archive path (as segment sequences) |
| MultiDir.ArchiveWritesNeverSignal | Commands/MultiDirCommand.cs:140-146 | with the default output, an archive file written for a key either lies outside the watched tree or resolves to nothing |

## Left out

- `SubscribeWithoutOverlap` (Extensions/IObservableExtensions.cs): its behaviour comes from Rx `Sample`, `SkipWhile` and `Delay`, from timing, and from an unsynchronised `isRunning` flag shared across threads. None of that is modelled, and no idealised scheduler is put in its place.
- `Throttle(TimeSpan.FromSeconds(1))`: a time-based operator. A subject's pipeline is opaque and subscriptions are only counted.
- Debounce and non-overlap live entirely in those two operators and are not modelled.
- `FileSystemWatcher` setup, event wiring and the console wait loop (lines 52-75): operating-system I/O. The watcher's promise that it reports only paths strictly below the source is a precondition of `KeyResolver.Resolve` and `MultiDir.OnChanged`.
- Deleting and recreating the output directory (lines 37-41), and deleting and writing the archive with `FastZip` (lines 142-146): filesystem I/O and a foreign library. Only the paths are modelled.
- The "Zipping" console line in `OnThrottled`: output only.
- Concurrency: notifications arrive on watcher threads, and the check-then-add at lines 87-90 is not atomic. The model runs handlers one after another.
- `Program.cs`: command dispatch through an unseen library.
- `IEnumerableExtensions.ForEach`: a plain loop, modelled inside `MultiDir.InitialScan`.
- `SubjectDictionary` and `SubscriptionCollection` internals are not part of this model. They appear only as a map and a counter.
- KeyResolver.Resolve: .NET reports a path whose parent directory has also vanished with `DirectoryNotFoundException`, which the `catch` at line 128 does not catch. The model treats every missing entry as `FileNotFoundException`, so it discards those notifications instead of raising.
- KeyResolver.Resolve: `File.GetAttributes` can also throw `UnauthorizedAccessException`, `PathTooLongException` or another `IOException`. The `catch` at line 128 does not catch these. The model has no outcome for them: every lookup either finds the entry or reports it missing.
- KeyResolver.Resolve: paths are compared as segment sequences. The source compares `FullName` strings, so a source given with a trailing separator never equals a parent's `FullName`, and the walk would run past the source. That case is not modelled.
- KeyResolver.Resolve: a top-level directory that has vanished by the second lookup (line 123) is treated as a failed lookup and discarded. The `Attributes` getter refreshes lazily and does not raise when the entry is missing. It returns `(FileAttributes)(-1)`, which includes `Hidden`, so line 124 returns.
- MultiDir.RegisteredKeysDistinctArchives: paths compare as case-sensitive segments, so this distinctness, `OutputPaths.ArchiveTargetsDistinct` and the `Zips` equivalence of `OutputPaths.DefaultOutputIsSourceIff` hold only on a case-sensitive filesystem. On a case-insensitive one, a case-only rename such as `src/A` to `src/a` leaves both keys registered, because keys are never removed (lines 87-90), and both write the same archive file (line 140). Likewise a source named `zips` is the same directory as the default output, and the clean-up at lines 37-39 deletes it. Case folding is not modelled.
