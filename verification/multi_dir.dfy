/** The `multi` command's sequential core: the start-up scan of the source's
    children, and change notifications resolved to keys and fed into the
    registry. */
module MultiDir {
  import opened Options
  import opened Paths
  import opened FileSystem
  import opened KeyResolver
  import opened SignalRegistry
  import opened OutputPaths

  /** A change notification together with the filesystem as the handler finds
      it: `fs` when it reads the changed entry's attributes, `later` when it
      reads the top-level directory's. Entries may change between the event
      and either read, and between the two reads. */
  datatype Event = Event(fs: Fs, later: Fs, path: Path)

  /** A directory returned by the start-up enumeration, with its attributes. */
  datatype DirEntry = DirEntry(path: Path, attr: Attr)

  /** The watcher only reports paths strictly below the source. */
  predicate Watched(source: Path, events: seq<Event>) {
    forall i | 0 <= i < |events| :: source < events[i].path
  }

  /** Every registered key is a top-level child of the source. */
  ghost predicate KeysUnder(reg: Registry, source: Path) {
    forall k | k in reg.subjects :: IsChildOf(k, source)
  }

  /** The notification handler: resolve, and when a key results, signal it. */
  function OnChanged(reg: Registry, source: Path, ev: Event): (reg': Registry)
    requires source < ev.path
    ensures Resolve(ev.fs, ev.later, source, ev.path).None? ==> reg' == reg
    ensures reg'.subjects.Keys == reg.subjects.Keys +
              (if Resolve(ev.fs, ev.later, source, ev.path).Some? then {Resolve(ev.fs, ev.later, source, ev.path).value} else {})
    ensures Valid(reg) ==> Valid(reg')
    ensures KeysUnder(reg, source) ==> KeysUnder(reg', source)
    ensures forall k :: |Delivered(reg', k)| == |Delivered(reg, k)| + (if Resolve(ev.fs, ev.later, source, ev.path) == Some(k) then 1 else 0)
  {
    match Resolve(ev.fs, ev.later, source, ev.path)
    case None => reg
    case Some(key) =>
      assert Valid(reg) ==> Valid(ChildChanged(reg, key)) by {
        if Valid(reg) {
          ChildChangedPreservesValid(reg, key);
        }
      }
      assert forall k :: |Delivered(ChildChanged(reg, key), k)| == |Delivered(reg, k)| + (if key == k then 1 else 0) by {
        forall k ensures |Delivered(ChildChanged(reg, key), k)| == |Delivered(reg, k)| + (if key == k then 1 else 0) {
          ChildChangedDeliversOnce(reg, key, k);
        }
      }
      ChildChanged(reg, key)
  }

  /** The keys a sequence of notifications resolves to, in order, discarded
      notifications dropped. */
  function ResolvedKeys(source: Path, events: seq<Event>): (keys: seq<Key>)
    requires Watched(source, events)
    ensures forall i | 0 <= i < |keys| :: IsChildOf(keys[i], source)
    decreases |events|
  {
    if |events| == 0 then []
    else
      var init := events[..|events| - 1];
      var ev := events[|events| - 1];
      assert Watched(source, init);
      match Resolve(ev.fs, ev.later, source, ev.path)
      case None => ResolvedKeys(source, init)
      case Some(key) => ResolvedKeys(source, init) + [key]
  }

  /** The handler applied to each notification in turn. */
  function ProcessEvents(reg: Registry, source: Path, events: seq<Event>): Registry
    requires Watched(source, events)
    decreases |events|
  {
    if |events| == 0 then reg
    else
      var init := events[..|events| - 1];
      assert Watched(source, init);
      OnChanged(ProcessEvents(reg, source, init), source, events[|events| - 1])
  }

  /** Handling notifications is the same as signalling, in order, just the keys
      they resolve to: a discarded notification leaves no trace. */
  lemma {:induction false} ProcessEventsSignalsResolvedKeys(reg: Registry, source: Path, events: seq<Event>)
    requires Watched(source, events)
    ensures ProcessEvents(reg, source, events) == SignalAll(reg, ResolvedKeys(source, events))
    decreases |events|
  {
    if |events| > 0 {
      var init := events[..|events| - 1];
      assert Watched(source, init);
      ProcessEventsSignalsResolvedKeys(reg, source, init);
      var keys := ResolvedKeys(source, init);
      var ev := events[|events| - 1];
      match Resolve(ev.fs, ev.later, source, ev.path)
      case None =>
      case Some(key) =>
        assert (keys + [key])[..|keys + [key]| - 1] == keys;
    }
  }

  /** The directories the start-up scan signals: those not hidden, in
      enumeration order. */
  function VisibleDirectories(entries: seq<DirEntry>): seq<Key>
    decreases |entries|
  {
    if |entries| == 0 then []
    else
      var init := entries[..|entries| - 1];
      var e := entries[|entries| - 1];
      if e.attr.hidden then VisibleDirectories(init) else VisibleDirectories(init) + [e.path]
  }

  /** The scan's directories are exactly the listed non-hidden ones. */
  lemma {:induction false} VisibleDirectoriesAreVisibleEntries(entries: seq<DirEntry>)
    ensures (set d | d in VisibleDirectories(entries)) == (set e | e in entries && !e.attr.hidden :: e.path)
    decreases |entries|
  {
    if |entries| > 0 {
      var init := entries[..|entries| - 1];
      var e := entries[|entries| - 1];
      assert entries == init + [e];
      VisibleDirectoriesAreVisibleEntries(init);
      assert (set x | x in entries && !x.attr.hidden :: x.path) ==
             (set x | x in init && !x.attr.hidden :: x.path) + (if e.attr.hidden then {} else {e.path});
    }
  }

  /** The loop step of `InitialScan`: one more listed entry adds its path to
      the scanned directories exactly when it is not hidden. */
  lemma VisibleDirectoriesStep(entries: seq<DirEntry>, i: nat)
    requires i < |entries|
    ensures VisibleDirectories(entries[..i + 1]) ==
              VisibleDirectories(entries[..i]) + (if entries[i].attr.hidden then [] else [entries[i].path])
  {
    assert entries[..i + 1][..i] == entries[..i];
  }

  /** Signalling the visible directories of a listing registers exactly those
      directories, keeps the registry valid, and gives each one signal per
      time it is listed. */
  lemma SignalVisibleDirectories(reg: Registry, entries: seq<DirEntry>)
    requires Valid(reg)
    ensures var reg' := SignalAll(reg, VisibleDirectories(entries));
            && Valid(reg')
            && reg'.subjects.Keys == reg.subjects.Keys + (set e | e in entries && !e.attr.hidden :: e.path)
            && forall k :: |Delivered(reg', k)| == |Delivered(reg, k)| + multiset(VisibleDirectories(entries))[k]
  {
    var dirs := VisibleDirectories(entries);
    SignalAllPreservesValid(reg, dirs);
    SignalAllKeys(reg, dirs);
    VisibleDirectoriesAreVisibleEntries(entries);
    forall k
      ensures |Delivered(SignalAll(reg, dirs), k)| == |Delivered(reg, k)| + multiset(dirs)[k]
    {
      SignalAllCounts(reg, dirs, k);
    }
  }

  /** The start-up scan: `ChildChanged` for every non-hidden child directory
      of the source, in enumeration order. */
  method InitialScan(reg: Registry, source: Path, entries: seq<DirEntry>) returns (reg': Registry)
    requires Valid(reg)
    requires forall e | e in entries :: IsChildOf(e.path, source)
    ensures Valid(reg')
    ensures KeysUnder(reg, source) ==> KeysUnder(reg', source)
    ensures reg'.subjects.Keys == reg.subjects.Keys + set e | e in entries && !e.attr.hidden :: e.path
    ensures forall k :: |Delivered(reg', k)| == |Delivered(reg, k)| + multiset(VisibleDirectories(entries))[k]
  {
    reg' := reg;
    var i := 0;
    while i < |entries|
      invariant 0 <= i <= |entries|
      invariant reg' == SignalAll(reg, VisibleDirectories(entries[..i]))
    {
      VisibleDirectoriesStep(entries, i);
      var e := entries[i];
      ghost var before := VisibleDirectories(entries[..i]);
      if !e.attr.hidden {
        SignalAllSnoc(reg, before, e.path);
        reg' := ChildChanged(reg', e.path);
        assert VisibleDirectories(entries[..i + 1]) == before + [e.path];
      } else {
        assert VisibleDirectories(entries[..i + 1]) == before;
      }
      i := i + 1;
    }
    assert entries[..i] == entries;
    SignalVisibleDirectories(reg, entries);
    VisibleDirectoriesAreVisibleEntries(entries);
  }

  /** The registry over the command's whole life: the start-up scan from
      empty collections, then the watcher's notifications. */
  function Lifetime(source: Path, entries: seq<DirEntry>, events: seq<Event>): Registry
    requires Watched(source, events)
  {
    ProcessEvents(SignalAll(Empty, VisibleDirectories(entries)), source, events)
  }

  /** Over the command's life the registry stays valid and holds exactly the
      scanned directories and the keys notifications resolved to, all of them
      top-level children of the source. */
  lemma LifetimeKeys(source: Path, entries: seq<DirEntry>, events: seq<Event>)
    requires forall e | e in entries :: IsChildOf(e.path, source)
    requires Watched(source, events)
    ensures Valid(Lifetime(source, entries, events))
    ensures KeysUnder(Lifetime(source, entries, events), source)
    ensures Lifetime(source, entries, events).subjects.Keys ==
              (set e | e in entries && !e.attr.hidden :: e.path) + (set k | k in ResolvedKeys(source, events))
  {
    var keys := ResolvedKeys(source, events);
    var scanned := SignalAll(Empty, VisibleDirectories(entries));
    SignalVisibleDirectories(Empty, entries);
    ProcessEventsSignalsResolvedKeys(scanned, source, events);
    SignalAllPreservesValid(scanned, keys);
    SignalAllKeys(scanned, keys);
    var reg := SignalAll(scanned, keys);
    forall k | k in reg.subjects
      ensures IsChildOf(k, source)
    {
      if k !in scanned.subjects {
        assert k in keys;
      }
    }
  }

  /** Over the command's life each subject has received one signal per listing
      of its directory at start-up plus one per notification that resolved to
      it. */
  lemma LifetimeCounts(source: Path, entries: seq<DirEntry>, events: seq<Event>, k: Key)
    requires Watched(source, events)
    ensures |Delivered(Lifetime(source, entries, events), k)| ==
              multiset(VisibleDirectories(entries))[k] + multiset(ResolvedKeys(source, events))[k]
  {
    var dirs := VisibleDirectories(entries);
    var keys := ResolvedKeys(source, events);
    var scanned := SignalAll(Empty, dirs);
    ProcessEventsSignalsResolvedKeys(scanned, source, events);
    SignalAllCounts(Empty, dirs, k);
    SignalAllCounts(scanned, keys, k);
  }

  /** Keys registered for one source never share an archive in one output
      directory. */
  lemma RegisteredKeysDistinctArchives(reg: Registry, source: Path, output: Path, a: Key, b: Key)
    requires KeysUnder(reg, source)
    requires a in reg.subjects && b in reg.subjects && a != b
    ensures ArchiveTarget(output, a) != ArchiveTarget(output, b)
  {
    ArchiveTargetsDistinct(output, source, a, b);
  }

  /** Writing an archive into the default output directory never signals a
      key: the archive lies outside the watched tree, or, when the source is
      itself named `Zips`, it is a file directly in the source and discarded. */
  lemma ArchiveWritesNeverSignal(fs: Fs, later: Fs, source: Path, key: Key)
    requires |source| > 0 && IsChildOf(key, source)
    requires var target := ArchiveTarget(DefaultOutput(source).value, key);
             target in fs && !fs[target].isDirectory
    ensures var target := ArchiveTarget(DefaultOutput(source).value, key);
            !(source < target) || Resolve(fs, later, source, target) == None
  {
    var output := DefaultOutput(source).value;
    var target := ArchiveTarget(output, key);
    DefaultOutputNotBelowSource(source);
    if source < target {
      assert output == source;
      FileInRootDiscarded(fs, later, source, target);
    }
  }
}
