/** The backup archive and its metadata descriptor.

    The top-level `backup.zip` holds one member `{i}.zip` per configured
    path (the zip of that path) and one `__meta__.json` member holding the
    metadata. Zip and JSON encoding are library calls and are not modelled:
    an archive is a map from member name to payload, and the metadata is a
    value. Python dictionaries keep insertion order, so the paths mapping is
    an ordered sequence of entries. */
module Archive {
  import opened Common
  import opened PosixPath
  import opened Numerals

  const META_FILENAME: string := "__meta__.json"

  /** One `paths_mapping` value: the configured path and the directory
      its member is extracted into on restore. */
  datatype PathMetaData = PathMetaData(path: Path, extractPath: Path)

  /** One `paths_mapping` item: member name and its path metadata. */
  datatype MappingEntry = MappingEntry(memberName: string, meta: PathMetaData)

  /** The metadata file's `paths_mapping`, in insertion order. The creation
      timestamp is not modelled. */
  datatype BackMetaData = BackMetaData(pathsMapping: seq<MappingEntry>)

  /** A member of the top-level archive: the zip made of one local path
      (the whole directory tree, or the single file under its base name),
      or the metadata file. */
  datatype Member =
    | PathZip(source: Path, ofDirectory: bool)
    | MetaJson(meta: BackMetaData)

  type Archive = map<string, Member>

  /** `f'{i}.zip'`: the member name for the path at index `i`. */
  function MemberName(i: nat): string {
    NatToString(i) + ".zip"
  }

  lemma MemberNameInjective(i: nat, j: nat)
    requires MemberName(i) == MemberName(j)
    ensures i == j
  {
    var a, b := MemberName(i), MemberName(j);
    assert NatToString(i) == a[..|a| - 4];
    assert NatToString(j) == b[..|b| - 4];
  }

  lemma MemberNameIsNotMeta(i: nat)
    ensures MemberName(i) != META_FILENAME
  {
    assert IsDigit(MemberName(i)[0]);
  }

  /** The directory a member is extracted into: the path itself for a
      directory, its dirname for a file. */
  function ExtractPath(path: Path, isDir: bool): Path {
    if isDir then path else Dirname(path)
  }

  /** The `paths_mapping` written for the configured paths, where `dirs`
      answers `os.path.isdir`. */
  function PathsMapping(paths: seq<Path>, dirs: set<Path>): seq<MappingEntry> {
    seq(|paths|, i requires 0 <= i < |paths| =>
      MappingEntry(MemberName(i), PathMetaData(paths[i], ExtractPath(paths[i], paths[i] in dirs))))
  }

  /** The mapping has exactly one entry per configured path: entry `i` has
      the key `{i}.zip`, records path `i`, and no key repeats (so the
      dictionary does not merge entries). */
  lemma MappingOnePerPath(paths: seq<Path>, dirs: set<Path>)
    ensures |PathsMapping(paths, dirs)| == |paths|
    ensures forall i :: 0 <= i < |paths| ==>
      PathsMapping(paths, dirs)[i].memberName == MemberName(i) &&
      PathsMapping(paths, dirs)[i].meta.path == paths[i]
    ensures forall i, j :: 0 <= i < j < |paths| ==>
      PathsMapping(paths, dirs)[i].memberName != PathsMapping(paths, dirs)[j].memberName
  {
    forall i, j | 0 <= i < j < |paths|
      ensures PathsMapping(paths, dirs)[i].memberName != PathsMapping(paths, dirs)[j].memberName
    {
      if MemberName(i) == MemberName(j) {
        MemberNameInjective(i, j);
      }
    }
  }

  /** A file `d/n` is extracted into `d`; a directory into itself. */
  lemma ExtractPathOfFile(d: Path, n: string)
    requires SlashFree(n)
    requires d != [] && d[|d| - 1] != '/'
    ensures ExtractPath(d + "/" + n, false) == d
    ensures ExtractPath(d + "/" + n, true) == d + "/" + n
  {
    DirnameOfFile(d, n);
  }

  /** The per-path members: `{i}.zip` holds the zip of path `i`. */
  function Members(paths: seq<Path>, dirs: set<Path>): Archive
    decreases |paths|
  {
    if paths == [] then map[]
    else
      var n := |paths| - 1;
      Members(paths[..n], dirs)[MemberName(n) := PathZip(paths[n], paths[n] in dirs)]
  }

  /** Member `{i}.zip` holds the zip of path `i`, and there are no other
      members: no later path overwrites an earlier one's member. */
  lemma {:induction false} MembersContents(paths: seq<Path>, dirs: set<Path>)
    ensures forall i :: 0 <= i < |paths| ==>
      MemberName(i) in Members(paths, dirs) && Members(paths, dirs)[MemberName(i)] == PathZip(paths[i], paths[i] in dirs)
    ensures forall k :: k in Members(paths, dirs) ==> exists i :: 0 <= i < |paths| && k == MemberName(i)
    decreases |paths|
  {
    if paths != [] {
      var n := |paths| - 1;
      var before := Members(paths[..n], dirs);
      var all := Members(paths, dirs);
      MembersContents(paths[..n], dirs);
      assert all == before[MemberName(n) := PathZip(paths[n], paths[n] in dirs)];
      forall i | 0 <= i < |paths|
        ensures MemberName(i) in all && all[MemberName(i)] == PathZip(paths[i], paths[i] in dirs)
      {
        if i < n {
          assert paths[..n][i] == paths[i];
          if MemberName(i) == MemberName(n) {
            MemberNameInjective(i, n);
          }
        }
      }
      forall k | k in all
        ensures exists i :: 0 <= i < |paths| && k == MemberName(i)
      {
        if k != MemberName(n) {
          assert k in before;
          var i :| 0 <= i < n && k == MemberName(i);
        }
      }
    }
  }

  /** The top-level archive `backup()` builds: the per-path members plus
      the metadata file. */
  function BuildArchive(paths: seq<Path>, dirs: set<Path>): Archive {
    Members(paths, dirs)[META_FILENAME := MetaJson(BackMetaData(PathsMapping(paths, dirs)))]
  }

  /** The archive holds the metadata under `__meta__.json` and each path's
      zip under its own name, and nothing else. */
  lemma BuildArchiveContents(paths: seq<Path>, dirs: set<Path>)
    ensures META_FILENAME in BuildArchive(paths, dirs)
    ensures BuildArchive(paths, dirs)[META_FILENAME] == MetaJson(BackMetaData(PathsMapping(paths, dirs)))
    ensures forall i :: 0 <= i < |paths| ==>
      MemberName(i) in BuildArchive(paths, dirs) &&
      BuildArchive(paths, dirs)[MemberName(i)] == PathZip(paths[i], paths[i] in dirs)
    ensures forall k :: k in BuildArchive(paths, dirs) ==>
      k == META_FILENAME || exists i :: 0 <= i < |paths| && k == MemberName(i)
  {
    MembersContents(paths, dirs);
    forall i | 0 <= i < |paths| ensures MemberName(i) != META_FILENAME {
      MemberNameIsNotMeta(i);
    }
  }

  /** One `extractall` call of restore: the member unpacked into `target`. */
  datatype Extraction = Extraction(target: Path, member: Member)

  /** The extractions made and, when restore stopped early, the member it
      could not open. */
  datatype ReplayResult = ReplayResult(done: seq<Extraction>, failedAt: Option<string>)

  /** A member restore can unzip: present in the archive and a zip. */
  predicate Extractable(archive: Archive, name: string) {
    name in archive && archive[name].PathZip?
  }

  /** The extraction restore makes for one mapping entry. */
  function ExtractionOf(entry: MappingEntry, archive: Archive, rootDir: Path): Extraction
    requires Extractable(archive, entry.memberName)
  {
    Extraction(Join(rootDir, entry.meta.extractPath), archive[entry.memberName])
  }

  /** The restore loop over `paths_mapping`: each member in mapping order is
      unzipped into `root_dir/extract_path`; the first member that cannot
      be opened raises and aborts the remaining ones. */
  function Replay(mapping: seq<MappingEntry>, archive: Archive, rootDir: Path): (r: ReplayResult)
    ensures |r.done| <= |mapping|
    ensures r.failedAt.None? ==> |r.done| == |mapping|
    ensures forall k :: 0 <= k < |r.done| ==>
      Extractable(archive, mapping[k].memberName) &&
      r.done[k] == ExtractionOf(mapping[k], archive, rootDir)
    ensures r.failedAt.Some? ==>
      |r.done| < |mapping| &&
      r.failedAt.value == mapping[|r.done|].memberName &&
      !Extractable(archive, r.failedAt.value)
    decreases |mapping|
  {
    if mapping == [] then ReplayResult([], None)
    else
      var n := |mapping| - 1;
      var before := Replay(mapping[..n], archive, rootDir);
      if before.failedAt.Some? then before
      else if Extractable(archive, mapping[n].memberName) then
        ReplayResult(before.done + [ExtractionOf(mapping[n], archive, rootDir)], None)
      else ReplayResult(before.done, Some(mapping[n].memberName))
  }

  /** Restoring the archive that backup builds extracts every configured
      path, in configuration order, into `root_dir` joined with its extract
      path, and fails on none of them. */
  lemma RestoreReplaysBackup(paths: seq<Path>, dirs: set<Path>, rootDir: Path)
    ensures Replay(PathsMapping(paths, dirs), BuildArchive(paths, dirs), rootDir).failedAt.None?
    ensures |Replay(PathsMapping(paths, dirs), BuildArchive(paths, dirs), rootDir).done| == |paths|
    ensures forall i :: 0 <= i < |paths| ==>
      Replay(PathsMapping(paths, dirs), BuildArchive(paths, dirs), rootDir).done[i] ==
      Extraction(Join(rootDir, ExtractPath(paths[i], paths[i] in dirs)), PathZip(paths[i], paths[i] in dirs))
  {
    var m := PathsMapping(paths, dirs);
    var a := BuildArchive(paths, dirs);
    BuildArchiveContents(paths, dirs);
    var r := Replay(m, a, rootDir);
    assert forall i :: 0 <= i < |paths| ==> Extractable(a, m[i].memberName);
  }

  /** Where an extraction puts the path its member was made from: a
      directory's zip unpacks the tree into the target itself; a file's zip
      holds the file under its base name, so it lands at the target joined
      with that name. */
  function RestoredAt(e: Extraction): Path {
    match e.member
    case PathZip(source, ofDirectory) =>
      if ofDirectory then e.target else Join(e.target, Basename(source))
    case MetaJson(_) => e.target
  }

  /** Restoring the archive that backup builds puts every directory, and
      every file named by a plain path, back at `root_dir` joined with its
      configured path. */
  lemma RestoreReplaysInPlace(paths: seq<Path>, dirs: set<Path>, rootDir: Path)
    ensures |Replay(PathsMapping(paths, dirs), BuildArchive(paths, dirs), rootDir).done| == |paths|
    ensures forall i :: 0 <= i < |paths| && (paths[i] in dirs || PlainPath(paths[i])) ==>
      RestoredAt(Replay(PathsMapping(paths, dirs), BuildArchive(paths, dirs), rootDir).done[i]) ==
      Join(rootDir, paths[i])
  {
    var r := Replay(PathsMapping(paths, dirs), BuildArchive(paths, dirs), rootDir);
    RestoreReplaysBackup(paths, dirs, rootDir);
    forall i | 0 <= i < |paths| && (paths[i] in dirs || PlainPath(paths[i]))
      ensures RestoredAt(r.done[i]) == Join(rootDir, paths[i])
    {
      if paths[i] !in dirs {
        PlainPathUnderRoot(rootDir, paths[i]);
      }
    }
  }
}
