/** The backup manager: validation of the configured paths, the rotation
    that swaps a new `backup.zip` in for the old one on the remote, and
    restore.

    `Backup` returns what the Python method does with its errors: a
    validation error is raised to the caller (`ValidationFailed`); any error
    in the remote phase is logged and the method returns normally
    (`Logged`, naming the call that raised); otherwise it finishes. */
module Manager {
  import opened Common
  import opened PosixPath
  import opened Archive
  import opened LocalFs
  import opened Backend

  const BACKUP_DEFAULT_FILENAME: string := "backup"
  const OLD_BACKUP_DEFAULT_FILENAME: string := "_old_backup"
  const BACKUP_ZIP: string := BACKUP_DEFAULT_FILENAME + ".zip"
  const OLD_BACKUP_ZIP: string := OLD_BACKUP_DEFAULT_FILENAME + ".zip"

  /** What one run is configured with; the backend is the manager's. */
  datatype BackupConfiguration = BackupConfiguration(
    rootCloudDir: Path,
    pathsToBackup: seq<Path>,
    tmpDirPath: Path,
    rootDir: Path)

  /** `f'{root_cloud_dir}/backup.zip'`, where backup looks for the old
      backup and where the upload lands. */
  function CanonicalPath(root: Path): Path {
    root + "/" + BACKUP_ZIP
  }

  /** Where the old backup sits while the new one is uploaded. */
  function AsidePath(root: Path): Path {
    root + "/" + OLD_BACKUP_ZIP
  }

  /** `os.path.join(root_cloud_dir, 'backup.zip')`, where restore looks. */
  function RestorePath(root: Path): Path {
    Join(root, BACKUP_ZIP)
  }

  /** `f'{tmp_dir_path}/backup.zip'`, the local top-level archive. */
  function LocalArchivePath(tmp: Path): Path {
    tmp + "/" + BACKUP_ZIP
  }

  /** The archive backup writes and the one restore downloads both lie in
      the temporary directory, so `rmtree(tmp)` removes them, however
      `tmp` is spelled. */
  lemma ArchivesUnderTmp(tmp: Path)
    requires tmp != []
    ensures Under(LocalArchivePath(tmp), tmp)
    ensures Under(Join(tmp, BACKUP_ZIP), tmp)
  {
    assert BACKUP_ZIP[0] == 'b';
    JoinRelative(tmp, BACKUP_ZIP);
    assert JoinPrefix(tmp) + BACKUP_ZIP == Join(tmp, BACKUP_ZIP);
    assert LocalArchivePath(tmp) == tmp + ("/" + BACKUP_ZIP);
  }

  /** The uploaded archive keeps the name `backup.zip`. */
  lemma ArchiveName(tmp: Path)
    ensures Basename(LocalArchivePath(tmp)) == BACKUP_ZIP
  {
    ConstantNames();
    BasenameAfterSeparator(tmp + "/", BACKUP_ZIP);
  }

  /** The paths validation reports, in configuration order, each with
      backslashes rewritten to '/'. */
  function MissingPaths(paths: seq<Path>, present: set<Path>): seq<Path>
    decreases |paths|
  {
    if paths == [] then []
    else
      var n := |paths| - 1;
      MissingPaths(paths[..n], present) + (if paths[n] in present then [] else [ForwardSlashes(paths[n])])
  }

  /** Validation reports every configured path that does not exist and
      nothing else; it reports nothing exactly when all paths exist. */
  lemma {:induction false} MissingPathsExact(paths: seq<Path>, present: set<Path>)
    ensures |MissingPaths(paths, present)| <= |paths|
    ensures MissingPaths(paths, present) == [] <==> forall i :: 0 <= i < |paths| ==> paths[i] in present
    ensures forall i :: 0 <= i < |paths| && paths[i] !in present ==>
      ForwardSlashes(paths[i]) in MissingPaths(paths, present)
    ensures forall x :: x in MissingPaths(paths, present) ==>
      exists i :: 0 <= i < |paths| && paths[i] !in present && x == ForwardSlashes(paths[i])
    decreases |paths|
  {
    if paths != [] {
      var n := |paths| - 1;
      var init := paths[..n];
      var last := if paths[n] in present then [] else [ForwardSlashes(paths[n])];
      MissingPathsExact(init, present);
      var rest := MissingPaths(init, present);
      assert MissingPaths(paths, present) == rest + last;
      assert forall i :: 0 <= i < n ==> init[i] == paths[i];
      forall x | x in rest + last
        ensures exists i :: 0 <= i < |paths| && paths[i] !in present && x == ForwardSlashes(paths[i])
      {
        if x in rest {
          var i :| 0 <= i < n && init[i] !in present && x == ForwardSlashes(init[i]);
          assert paths[i] == init[i];
        } else {
          assert paths[n] !in present && x == ForwardSlashes(paths[n]);
        }
      }
      forall i | 0 <= i < |paths| && paths[i] !in present
        ensures ForwardSlashes(paths[i]) in rest + last
      {
        if i < n {
          assert init[i] == paths[i];
        }
      }
    }
  }

  /** The remote call that raised when the remote phase of a backup
      failed. */
  datatype RemoteStep = CreateFolder | LookUp | RenameAside | Upload | RenameBack | RemoveOld

  datatype BackupOutcome =
    | ValidationFailed(missing: seq<Path>)
    | Logged(failedAt: RemoteStep)
    | Finished

  predicate NoRenameFailed(r: BackupOutcome) {
    r != Logged(RenameAside) && r != Logged(RenameBack)
  }

  /** The run got past the lookup of the old backup. */
  predicate LookedUp(r: BackupOutcome) {
    r.Finished? || (r.Logged? && r.failedAt !in {CreateFolder, LookUp})
  }

  /** The run got as far as calling `upload_file`. */
  predicate ReachedUpload(r: BackupOutcome) {
    r.Finished? || r == Logged(Upload) || r == Logged(RenameBack) || r == Logged(RemoveOld)
  }

  /** The upload returned normally. */
  predicate Uploaded(r: BackupOutcome) {
    r.Finished? || r == Logged(RemoveOld)
  }

  /** Outcomes that need an old backup to have been found. */
  predicate Coherent(found: Option<Id>, r: BackupOutcome) {
    r == Logged(RenameAside) || r == Logged(RenameBack) || r == Logged(RemoveOld) ==> found.Some?
  }

  /** The folders after `create_folder_if_not_exists(root)` returned:
      `root` is a folder, an existing one keeps its id, and no other folder
      appears or changes. */
  predicate FolderEnsured(before: map<Path, Id>, after: map<Path, Id>, root: Path) {
    root in after && after == before[root := after[root]] &&
    (root in before ==> after[root] == before[root])
  }

  /** The remote files once the old backup `found` was renamed aside. */
  function Aside(files: map<Id, StoredFile>, found: Option<Id>): map<Id, StoredFile> {
    if found.Some? && found.value in files
    then files[found.value := files[found.value].(name := OLD_BACKUP_ZIP)]
    else files
  }

  /** The remote files after a backup run that started from `files`, found
      the old backup `found` and, if the upload returned, created the file
      `nid` holding `newArchive`. */
  function RemoteAfter(files: map<Id, StoredFile>, found: Option<Id>, nid: Id, root: Path,
                       newArchive: Archive, r: BackupOutcome): map<Id, StoredFile>
  {
    var uploaded := StoredFile(root, BACKUP_ZIP, newArchive);
    match r
    case Finished =>
      (if found.Some? then files - {found.value} else files)[nid := uploaded]
    case Logged(RemoveOld) => Aside(files, found)[nid := uploaded]
    case Logged(RenameBack) => Aside(files, found)
    case _ => files
  }

  /** The remote files after the upload step, started from `files` with
      the old backup `found` already renamed aside. */
  function SwapAfter(files: map<Id, StoredFile>, found: Option<Id>, nid: Id, root: Path,
                     newArchive: Archive, r: BackupOutcome): map<Id, StoredFile>
  {
    var uploaded := StoredFile(root, BACKUP_ZIP, newArchive);
    match r
    case Finished =>
      (if found.Some? then files - {found.value} else files)[nid := uploaded]
    case Logged(RemoveOld) => files[nid := uploaded]
    case Logged(Upload) =>
      if found.Some? && found.value in files
      then files[found.value := files[found.value].(name := BACKUP_ZIP)]
      else files
    case _ => files
  }

  /** The backend calls a backup run makes from the upload on. */
  function SwapCalls(root: Path, tmp: Path, found: Option<Id>, r: BackupOutcome): seq<Call>
    requires Coherent(found, r)
  {
    var upload := UploadCall(LocalArchivePath(tmp), root, Uploaded(r));
    match r
    case Logged(Upload) =>
      [upload] + (if found.Some? then [RenameCall(found.value, BACKUP_ZIP, true)] else [])
    case Logged(RenameBack) => [upload, RenameCall(found.value, BACKUP_ZIP, false)]
    case Logged(RemoveOld) => [upload, RemoveCall(found.value, false)]
    case Finished => [upload] + (if found.Some? then [RemoveCall(found.value, true)] else [])
    case _ => []
  }

  /** The backend calls a backup run makes. */
  function RotationCalls(root: Path, tmp: Path, found: Option<Id>, r: BackupOutcome): seq<Call>
    requires Coherent(found, r)
  {
    var C := CanonicalPath(root);
    var head := [CreateFolderCall(root, true), GetFileCall(C, true)];
    var aside := if found.Some? then [RenameCall(found.value, OLD_BACKUP_ZIP, true)] else [];
    match r
    case ValidationFailed(_) => []
    case Logged(CreateFolder) => [CreateFolderCall(root, false)]
    case Logged(LookUp) => [CreateFolderCall(root, true), GetFileCall(C, false)]
    case Logged(RenameAside) => head + [RenameCall(found.value, OLD_BACKUP_ZIP, false)]
    case _ => head + aside + SwapCalls(root, tmp, found, r)
  }

  /** A run that reached the upload step made the calls of the steps
      before it, then those of the upload step. */
  lemma RotationThroughSwap(root: Path, tmp: Path, found: Option<Id>, r: BackupOutcome)
    requires ReachedUpload(r) && Coherent(found, r)
    ensures RotationCalls(root, tmp, found, r) ==
      [CreateFolderCall(root, true), GetFileCall(CanonicalPath(root), true)] +
      (if found.Some? then [RenameCall(found.value, OLD_BACKUP_ZIP, true)] else []) +
      SwapCalls(root, tmp, found, r)
  {
  }

  /** The remote files of a run that reached the upload step are those the
      upload step leaves, started from the files with the old backup,
      named `backup.zip`, renamed aside. */
  lemma RemoteThroughSwap(files: map<Id, StoredFile>, found: Option<Id>, nid: Id, root: Path,
                          newArchive: Archive, r: BackupOutcome)
    requires ReachedUpload(r)
    requires found.Some? ==> found.value in files && files[found.value].name == BACKUP_ZIP
    ensures RemoteAfter(files, found, nid, root, newArchive, r) ==
      SwapAfter(Aside(files, found), found, nid, root, newArchive, r)
  {
    if found.Some? {
      var id := found.value;
      if r == Logged(Upload) {
        assert files[id].(name := OLD_BACKUP_ZIP).(name := BACKUP_ZIP) == files[id];
        assert Aside(files, found)[id := files[id]] == files;
      } else if r == Finished {
        assert Aside(files, found) - {id} == files - {id};
      }
    }
  }

  /** The order of a backup run's calls: nothing is renamed or removed
      unless an old backup was found, and then only that file; the upload
      comes after the old backup has been renamed aside; the old backup is
      removed only after an upload that returned normally. */
  lemma RotationCallsOrder(root: Path, tmp: Path, found: Option<Id>, r: BackupOutcome)
    requires Coherent(found, r)
    ensures var calls := RotationCalls(root, tmp, found, r);
      (r.ValidationFailed? <==> calls == []) &&
      (found.None? ==> forall c :: c in calls ==> !c.RenameCall? && !c.RemoveCall?) &&
      (forall c :: c in calls && (c.RenameCall? || c.RemoveCall?) ==> found == Some(c.id))
    ensures var calls := RotationCalls(root, tmp, found, r);
      forall k :: 0 <= k < |calls| && calls[k].RemoveCall? ==>
        exists j :: 0 <= j < k && calls[j] == UploadCall(LocalArchivePath(tmp), root, true)
    ensures var calls := RotationCalls(root, tmp, found, r);
      forall k :: 0 <= k < |calls| && calls[k].UploadCall? ==>
        calls[k].filePath == LocalArchivePath(tmp) && calls[k].directoryPath == root &&
        (found.Some? ==> exists j :: 0 <= j < k && calls[j] == RenameCall(found.value, OLD_BACKUP_ZIP, true))
  {
    var calls := RotationCalls(root, tmp, found, r);
    if ReachedUpload(r) {
      var aside := if found.Some? then [RenameCall(found.value, OLD_BACKUP_ZIP, true)] else [];
      assert calls[2 + |aside|] == UploadCall(LocalArchivePath(tmp), root, Uploaded(r));
      assert found.Some? ==> calls[2] == RenameCall(found.value, OLD_BACKUP_ZIP, true);
    }
  }

  /** `a` is the content of the one and only file at `p`. */
  ghost predicate HoldsSolely(files: map<Id, StoredFile>, p: Path, a: Archive) {
    exists id :: id in files && IdsAt(files, p) == {id} && files[id].content == a
  }

  predicate NamesSlashFree(files: map<Id, StoredFile>) {
    forall id :: id in files ==> SlashFree(files[id].name)
  }

  lemma ConstantNames()
    ensures SlashFree(BACKUP_ZIP) && SlashFree(OLD_BACKUP_ZIP)
    ensures BACKUP_ZIP != OLD_BACKUP_ZIP
  {
    assert BACKUP_ZIP == "backup.zip";
    assert OLD_BACKUP_ZIP == "_old_backup.zip";
  }

  /** A file found at the canonical path is named `backup.zip` and lives
      in the root cloud folder. */
  lemma FoundAtCanonical(f: StoredFile, root: Path)
    requires SlashFree(f.name) && PathOf(f) == CanonicalPath(root)
    ensures f.dir == root && f.name == BACKUP_ZIP
  {
    ConstantNames();
    SplitUnique(f.dir, f.name, root, BACKUP_ZIP);
  }

  /** Renaming a file aside takes it off the canonical path. */
  lemma AsideLeavesCanonical(dir: Path, root: Path)
    ensures dir + "/" + OLD_BACKUP_ZIP != CanonicalPath(root)
    ensures AsidePath(root) != CanonicalPath(root)
  {
    ConstantNames();
    var s, c := dir + "/" + OLD_BACKUP_ZIP, CanonicalPath(root);
    assert s[|s| - 11] == '_';
    assert |s| == |c| ==> c[|c| - 11] == '/';
    assert |AsidePath(root)| != |c|;
  }

  /** If the upload returned normally, the canonical path holds exactly the
      new archive (besides any copies the lookup did not see), the old
      backup renamed aside is gone on success and waits under
      `_old_backup.zip` when removing it failed, and no other file changes. */
  lemma {:induction false} UploadedRotation(files: map<Id, StoredFile>, found: Option<Id>, nid: Id,
                                            root: Path, newArchive: Archive, r: BackupOutcome)
    requires NamesSlashFree(files)
    requires Uploaded(r) && Coherent(found, r)
    requires found.Some? ==> found.value in IdsAt(files, CanonicalPath(root))
    requires found.None? ==> IdsAt(files, CanonicalPath(root)) == {}
    requires nid !in files
    ensures var after := RemoteAfter(files, found, nid, root, newArchive, r);
      nid in after && after[nid].content == newArchive &&
      IdsAt(after, CanonicalPath(root)) ==
        IdsAt(files, CanonicalPath(root)) - (if found.Some? then {found.value} else {}) + {nid}
    ensures r.Finished? && found.Some? ==>
      found.value !in RemoteAfter(files, found, nid, root, newArchive, r)
    ensures r.Finished? ==>
      IdsAt(RemoteAfter(files, found, nid, root, newArchive, r), AsidePath(root)) == IdsAt(files, AsidePath(root))
    ensures r == Logged(RemoveOld) ==>
      found.value in IdsAt(RemoteAfter(files, found, nid, root, newArchive, r), AsidePath(root))
    ensures forall id :: id in files && found != Some(id) ==>
      id in RemoteAfter(files, found, nid, root, newArchive, r) &&
      RemoteAfter(files, found, nid, root, newArchive, r)[id] == files[id]
  {
    var C := CanonicalPath(root);
    var after := RemoteAfter(files, found, nid, root, newArchive, r);
    AsideLeavesCanonical(root, root);
    assert PathOf(StoredFile(root, BACKUP_ZIP, newArchive)) == C;
    if found.Some? {
      var oid := found.value;
      FoundAtCanonical(files[oid], root);
      AsideLeavesCanonical(files[oid].dir, root);
      assert PathOf(files[oid].(name := OLD_BACKUP_ZIP)) == AsidePath(root);
    }
    assert IdsAt(after, C) == IdsAt(files, C) - (if found.Some? then {found.value} else {}) + {nid};
  }

  /** If the upload raised and the old backup could be renamed back, the
      remote is exactly as before the run; if renaming it back raised, the
      old backup is left under `_old_backup.zip` and nothing is at the
      canonical path any more. */
  lemma {:induction false} FailedUploadRotation(files: map<Id, StoredFile>, found: Option<Id>, nid: Id,
                                                root: Path, newArchive: Archive)
    requires NamesSlashFree(files)
    requires found.Some? ==> found.value in IdsAt(files, CanonicalPath(root))
    ensures RemoteAfter(files, found, nid, root, newArchive, Logged(Upload)) == files
    ensures found.Some? ==>
      var aside := Aside(files, found);
      aside[found.value := aside[found.value].(name := BACKUP_ZIP)] == files
    ensures found.Some? ==>
      var after := RemoteAfter(files, found, nid, root, newArchive, Logged(RenameBack));
      found.value in IdsAt(after, AsidePath(root)) &&
      after[found.value].content == files[found.value].content &&
      IdsAt(after, CanonicalPath(root)) == IdsAt(files, CanonicalPath(root)) - {found.value}
  {
    if found.Some? {
      var oid := found.value;
      FoundAtCanonical(files[oid], root);
      AsideLeavesCanonical(files[oid].dir, root);
      assert files[oid].(name := OLD_BACKUP_ZIP).(name := BACKUP_ZIP) == files[oid];
      assert files[oid := files[oid]] == files;
      var after := RemoteAfter(files, found, nid, root, newArchive, Logged(RenameBack));
      assert PathOf(after[oid]) == AsidePath(root);
      assert IdsAt(after, CanonicalPath(root)) == IdsAt(files, CanonicalPath(root)) - {oid};
    }
  }

  /** The rotation's guarantee: if the remote held exactly one backup at
      the canonical path and no rename raised, then after the run the
      canonical path holds exactly one file, with either the old or the new
      archive. */
  lemma {:induction false} RotationKeepsOneBackup(files: map<Id, StoredFile>, found: Option<Id>, nid: Id,
                                                  root: Path, newArchive: Archive, r: BackupOutcome,
                                                  oldArchive: Archive)
    requires NamesSlashFree(files)
    requires Coherent(found, r) && NoRenameFailed(r)
    requires found.Some? ==> found.value in IdsAt(files, CanonicalPath(root))
    requires LookedUp(r) && found.None? ==> IdsAt(files, CanonicalPath(root)) == {}
    requires Uploaded(r) ==> nid !in files
    requires HoldsSolely(files, CanonicalPath(root), oldArchive)
    ensures HoldsSolely(RemoteAfter(files, found, nid, root, newArchive, r), CanonicalPath(root), oldArchive) ||
            HoldsSolely(RemoteAfter(files, found, nid, root, newArchive, r), CanonicalPath(root), newArchive)
  {
    var C := CanonicalPath(root);
    var after := RemoteAfter(files, found, nid, root, newArchive, r);
    if Uploaded(r) {
      var oid :| oid in files && IdsAt(files, C) == {oid} && files[oid].content == oldArchive;
      UploadedRotation(files, found, nid, root, newArchive, r);
      assert found == Some(oid);
      assert IdsAt(after, C) == {nid};
    } else {
      FailedUploadRotation(files, found, nid, root, newArchive);
      assert after == files;
    }
  }

  /** Restore looks where backup uploads, provided the root cloud folder
      is named without a trailing '/'. */
  lemma RestoreLooksAtCanonical(root: Path)
    requires root != [] && root[|root| - 1] != '/'
    ensures RestorePath(root) == CanonicalPath(root)
  {
    assert BACKUP_ZIP[0] == 'b';
  }

  /** A file restore finds is named `backup.zip`, so the download lands on
      the local path restore then opens. */
  lemma FoundAtRestorePath(f: StoredFile, root: Path)
    requires SlashFree(f.name) && PathOf(f) == RestorePath(root)
    ensures f.name == BACKUP_ZIP
  {
    ConstantNames();
    assert BACKUP_ZIP[0] == 'b';
    if root == [] || root[|root| - 1] == '/' {
      BasenameAfterSeparator(root, BACKUP_ZIP);
    } else {
      BasenameAfterSeparator(root + "/", BACKUP_ZIP);
    }
    assert PathOf(f) == (f.dir + "/") + f.name;
    BasenameAfterSeparator(f.dir + "/", f.name);
  }

  /** Backup followed by restore: after a successful run, restore finds
      only the new archive, and replaying it extracts every configured
      path, in configuration order, into `root_dir` joined with its
      extract path. */
  lemma {:induction false} BackupThenRestore(files: map<Id, StoredFile>, found: Option<Id>, nid: Id,
                                             config: BackupConfiguration, dirs: set<Path>)
    requires NamesSlashFree(files)
    requires config.rootCloudDir != [] && config.rootCloudDir[|config.rootCloudDir| - 1] != '/'
    requires IdsAt(files, CanonicalPath(config.rootCloudDir)) == (if found.Some? then {found.value} else {})
    requires nid !in files
    ensures var a := BuildArchive(config.pathsToBackup, dirs);
      var after := RemoteAfter(files, found, nid, config.rootCloudDir, a, Finished);
      IdsAt(after, RestorePath(config.rootCloudDir)) == {nid} &&
      after[nid].content == a &&
      META_FILENAME in a && a[META_FILENAME] == MetaJson(BackMetaData(PathsMapping(config.pathsToBackup, dirs)))
    ensures var paths := config.pathsToBackup;
      var r := Replay(PathsMapping(paths, dirs), BuildArchive(paths, dirs), config.rootDir);
      r.failedAt.None? && |r.done| == |paths| &&
      forall i :: 0 <= i < |paths| ==>
        r.done[i] == Extraction(Join(config.rootDir, ExtractPath(paths[i], paths[i] in dirs)),
                                PathZip(paths[i], paths[i] in dirs))
    ensures var paths := config.pathsToBackup;
      var r := Replay(PathsMapping(paths, dirs), BuildArchive(paths, dirs), config.rootDir);
      forall i :: 0 <= i < |paths| && (paths[i] in dirs || PlainPath(paths[i])) ==>
        RestoredAt(r.done[i]) == Join(config.rootDir, paths[i])
  {
    var paths, root := config.pathsToBackup, config.rootCloudDir;
    var a := BuildArchive(paths, dirs);
    var after := RemoteAfter(files, found, nid, root, a, Finished);
    assert IdsAt(after, RestorePath(root)) == {nid} && after[nid].content == a by {
      RestoreLooksAtCanonical(root);
      UploadedRotation(files, found, nid, root, a, Finished);
    }
    assert META_FILENAME in a && a[META_FILENAME] == MetaJson(BackMetaData(PathsMapping(paths, dirs))) by {
      BuildArchiveContents(paths, dirs);
    }
    RestoreReplaysBackup(paths, dirs, config.rootDir);
    RestoreReplaysInPlace(paths, dirs, config.rootDir);
  }

  datatype RestoreStep = LookUpFailed | DownloadFailed | MetaMissing | MemberUnreadable(memberName: string)

  datatype RestoreOutcome =
    | NothingToRestore
    | Restored(paths: seq<Path>)
    | RestoreFailed(step: RestoreStep)

  class BackupManager {
    const config: BackupConfiguration
    const backend: BackupBackend
    const disk: LocalDisk

    ghost predicate Valid()
      reads this, backend
    {
      backend.Valid() && backend.disk == disk
    }

    constructor (config: BackupConfiguration, backend: BackupBackend)
      requires backend.Valid()
      ensures Valid()
      ensures this.config == config && this.backend == backend
    {
      this.config := config;
      this.backend := backend;
      this.disk := backend.disk;
    }

    /** The archive a backup run builds from the configured paths. */
    function NewArchive(): Archive {
      BuildArchive(config.pathsToBackup, disk.dirs)
    }

    /** `_validate_before_backup`: every configured path that does not
        exist, not only the first. */
    method ValidateBeforeBackup() returns (missing: seq<Path>)
      ensures missing == MissingPaths(config.pathsToBackup, disk.present)
    {
      var paths := config.pathsToBackup;
      missing := [];
      for i := 0 to |paths|
        invariant missing == MissingPaths(paths[..i], disk.present)
      {
        assert paths[..i + 1][..i] == paths[..i];
        if paths[i] !in disk.present {
          missing := missing + [ForwardSlashes(paths[i])];
        }
      }
      assert paths[..|paths|] == paths;
    }

    /** `backup`: validate, build the archive in the temporary directory,
        then rotate it onto the remote. `found` is the old backup the
        lookup returned and `uploaded` the id of the new remote file. */
    method Backup() returns (r: BackupOutcome, ghost found: Option<Id>, ghost uploaded: Id)
      requires Valid()
      modifies backend, disk
      ensures Valid()
      ensures r.ValidationFailed? <==> exists i :: 0 <= i < |config.pathsToBackup| && config.pathsToBackup[i] !in disk.present
      ensures r.ValidationFailed? ==>
        r.missing == MissingPaths(config.pathsToBackup, disk.present) &&
        unchanged(backend) && unchanged(disk)
      ensures Coherent(found, r)
      ensures backend.calls == old(backend.calls) + RotationCalls(config.rootCloudDir, config.tmpDirPath, found, r)
      ensures found.Some? ==> found.value in IdsAt(old(backend.files), CanonicalPath(config.rootCloudDir))
      ensures LookedUp(r) && found.None? ==> IdsAt(old(backend.files), CanonicalPath(config.rootCloudDir)) == {}
      ensures Uploaded(r) ==> uploaded !in old(backend.files)
      ensures backend.files ==
        RemoteAfter(old(backend.files), found, uploaded, config.rootCloudDir, NewArchive(), r)
      ensures r.ValidationFailed? || r == Logged(CreateFolder) ==> backend.folders == old(backend.folders)
      ensures !r.ValidationFailed? && r != Logged(CreateFolder) ==>
        FolderEnsured(old(backend.folders), backend.folders, config.rootCloudDir)
      ensures !r.ValidationFailed? ==>
        (LocalArchivePath(config.tmpDirPath) in disk.files <==> !ReachedUpload(r)) &&
        (LocalArchivePath(config.tmpDirPath) in disk.files ==>
          disk.files[LocalArchivePath(config.tmpDirPath)] == NewArchive())
      ensures !r.ValidationFailed? ==>
        forall p :: p != LocalArchivePath(config.tmpDirPath) ==>
          (p in disk.files <==> p in old(disk.files) && !Under(p, config.tmpDirPath)) &&
          (p in disk.files ==> disk.files[p] == old(disk.files)[p])
      ensures disk.extracted == old(disk.extracted)
    {
      found, uploaded := None, 0;
      var missing := ValidateBeforeBackup();
      MissingPathsExact(config.pathsToBackup, disk.present);
      if |missing| > 0 {
        return ValidationFailed(missing), found, uploaded;
      }
      // recreate the temporary directory and build the archive in it
      disk.RemoveTree(config.tmpDirPath);
      var local := LocalArchivePath(config.tmpDirPath);
      disk.Write(local, NewArchive());
      r, found, uploaded := Rotate(local);
    }

    /** The remote phase of `backup`, once the archive is at `local`:
        make sure the root folder exists, rename the old backup aside,
        upload the new one and delete the old one; if the upload raises,
        rename the old backup back. The local archive is deleted once the
        upload has been attempted. */
    method Rotate(local: Path) returns (r: BackupOutcome, ghost found: Option<Id>, ghost uploaded: Id)
      requires Valid() && local == LocalArchivePath(config.tmpDirPath) && local in disk.files
      modifies backend, disk
      ensures Valid()
      ensures r.Logged? || r.Finished?
      ensures Coherent(found, r)
      ensures backend.calls == old(backend.calls) + RotationCalls(config.rootCloudDir, config.tmpDirPath, found, r)
      ensures found.Some? ==> found.value in IdsAt(old(backend.files), CanonicalPath(config.rootCloudDir))
      ensures LookedUp(r) && found.None? ==> IdsAt(old(backend.files), CanonicalPath(config.rootCloudDir)) == {}
      ensures Uploaded(r) ==> uploaded !in old(backend.files)
      ensures backend.files ==
        RemoteAfter(old(backend.files), found, uploaded, config.rootCloudDir, old(disk.files)[local], r)
      ensures if r == Logged(CreateFolder) then backend.folders == old(backend.folders)
              else FolderEnsured(old(backend.folders), backend.folders, config.rootCloudDir)
      ensures disk.files == if ReachedUpload(r) then old(disk.files) - {local} else old(disk.files)
      ensures disk.extracted == old(disk.extracted)
    {
      found, uploaded := None, 0;
      var root := config.rootCloudDir;
      var failed, oldFile := LookUpOld();
      if failed.Some? {
        return Logged(failed.value), found, uploaded;
      }
      ghost var files0 := backend.files;
      found := if oldFile.Some? then Some(oldFile.value.id) else None;
      var ok := PutAside(oldFile);
      if !ok {
        return Logged(RenameAside), found, uploaded;
      }
      r, uploaded := SwapIn(local, oldFile);
      RotationThroughSwap(root, config.tmpDirPath, found, r);
      if found.Some? {
        FoundAtCanonical(files0[found.value], root);
      }
      RemoteThroughSwap(files0, found, uploaded, root, old(disk.files)[local], r);
    }

    /** The rename step of `backup`: rename the old backup `oldFile`, if
        there is one, to `_old_backup.zip`. */
    method PutAside(oldFile: Option<BackupFile>) returns (ok: bool)
      requires Valid()
      modifies backend
      ensures Valid() && backend.folders == old(backend.folders)
      ensures oldFile.None? ==> ok
      ensures backend.calls == old(backend.calls) +
        (if oldFile.Some? then [RenameCall(oldFile.value.id, OLD_BACKUP_ZIP, ok)] else [])
      ensures backend.files ==
        if ok && oldFile.Some? then Aside(old(backend.files), Some(oldFile.value.id)) else old(backend.files)
    {
      ok := true;
      if oldFile.Some? {
        assert SlashFree(OLD_BACKUP_ZIP) by { ConstantNames(); }
        ok := backend.RenameFile(oldFile.value, OLD_BACKUP_ZIP);
      }
    }

    /** The first two remote steps of `backup`: make sure the root folder
        exists, then look up the old backup at the canonical path. */
    method LookUpOld() returns (failed: Option<RemoteStep>, oldFile: Option<BackupFile>)
      requires Valid()
      modifies backend
      ensures Valid() && backend.files == old(backend.files)
      ensures failed == None || failed == Some(CreateFolder) || failed == Some(LookUp)
      ensures backend.calls == old(backend.calls) +
        match failed
        case Some(CreateFolder) => [CreateFolderCall(config.rootCloudDir, false)]
        case Some(_) => [CreateFolderCall(config.rootCloudDir, true), GetFileCall(CanonicalPath(config.rootCloudDir), false)]
        case None => [CreateFolderCall(config.rootCloudDir, true), GetFileCall(CanonicalPath(config.rootCloudDir), true)]
      ensures if failed == Some(CreateFolder) then backend.folders == old(backend.folders)
              else FolderEnsured(old(backend.folders), backend.folders, config.rootCloudDir)
      ensures failed.Some? ==> oldFile.None?
      ensures failed.None? && oldFile.None? ==> IdsAt(backend.files, CanonicalPath(config.rootCloudDir)) == {}
      ensures oldFile.Some? ==>
        oldFile.value.id in IdsAt(backend.files, CanonicalPath(config.rootCloudDir))
    {
      var ok, folder := backend.CreateFolderIfNotExists(config.rootCloudDir);
      if !ok {
        return Some(CreateFolder), None;
      }
      assert backend.folders == old(backend.folders)[config.rootCloudDir := backend.folders[config.rootCloudDir]];
      ok, oldFile := backend.GetFileByPath(CanonicalPath(config.rootCloudDir));
      failed := if ok then None else Some(LookUp);
    }

    /** The upload step of `backup` and what follows it: upload the local
        archive into the root folder and delete the local copy; on success
        delete the old backup `oldFile`, already renamed aside; if the
        upload raised, rename it back to `backup.zip`. */
    method SwapIn(local: Path, oldFile: Option<BackupFile>) returns (r: BackupOutcome, ghost uploaded: Id)
      requires Valid() && local == LocalArchivePath(config.tmpDirPath) && local in disk.files
      requires config.rootCloudDir in backend.folders
      requires oldFile.Some? ==> oldFile.value.id in backend.files
      modifies backend, disk
      ensures Valid() && backend.folders == old(backend.folders)
      ensures ReachedUpload(r)
      ensures Coherent(if oldFile.Some? then Some(oldFile.value.id) else None, r)
      ensures backend.calls == old(backend.calls) +
        SwapCalls(config.rootCloudDir, config.tmpDirPath, if oldFile.Some? then Some(oldFile.value.id) else None, r)
      ensures Uploaded(r) ==> uploaded !in old(backend.files)
      ensures backend.files == SwapAfter(old(backend.files), if oldFile.Some? then Some(oldFile.value.id) else None,
                                         uploaded, config.rootCloudDir, old(disk.files)[local], r)
      ensures disk.files == old(disk.files) - {local}
      ensures disk.extracted == old(disk.extracted)
    {
      var root := config.rootCloudDir;
      ghost var found := if oldFile.Some? then Some(oldFile.value.id) else None;
      ghost var files0, calls0 := backend.files, backend.calls;
      ghost var stored := StoredFile(root, BACKUP_ZIP, disk.files[local]);
      var ok;
      ok, uploaded := PushArchive(local);
      if !ok {
        r := RollBack(local, oldFile);
        ghost var tail := if oldFile.Some? then [RenameCall(oldFile.value.id, BACKUP_ZIP, r == Logged(Upload))] else [];
        assert SwapCalls(root, config.tmpDirPath, found, r) == [UploadCall(local, root, false)] + tail;
        assert backend.calls == calls0 + ([UploadCall(local, root, false)] + tail);
        return r, uploaded;
      }
      r := Settle(local, oldFile);
      ghost var tail := if oldFile.Some? then [RemoveCall(oldFile.value.id, r == Finished)] else [];
      assert SwapCalls(root, config.tmpDirPath, found, r) == [UploadCall(local, root, true)] + tail;
      assert backend.calls == calls0 + ([UploadCall(local, root, true)] + tail);
      if r == Finished && oldFile.Some? {
        assert backend.files == (files0 - {oldFile.value.id})[uploaded := stored];
      }
    }

    /** `upload_file(local, root)`: on success the remote gains a new file
        `uploaded`, named `backup.zip`, holding the local archive. */
    method PushArchive(local: Path) returns (ok: bool, ghost uploaded: Id)
      requires Valid() && local == LocalArchivePath(config.tmpDirPath) && local in disk.files
      requires config.rootCloudDir in backend.folders
      modifies backend
      ensures Valid() && backend.folders == old(backend.folders)
      ensures backend.calls == old(backend.calls) + [UploadCall(local, config.rootCloudDir, ok)]
      ensures ok ==> uploaded !in old(backend.files)
      ensures ok ==>
        backend.files == old(backend.files)[uploaded := StoredFile(config.rootCloudDir, BACKUP_ZIP, disk.files[local])]
      ensures !ok ==> backend.files == old(backend.files)
    {
      var newFile;
      uploaded := 0;
      ok, newFile := backend.UploadFile(local, config.rootCloudDir);
      if ok {
        uploaded := newFile.value.id;
        ArchiveName(config.tmpDirPath);
      }
    }

    /** What follows an upload that returned: the `finally` clause deletes
        the local archive, then the old backup `oldFile` is deleted. */
    method Settle(local: Path, oldFile: Option<BackupFile>) returns (r: BackupOutcome)
      requires Valid()
      modifies backend, disk
      ensures Valid() && backend.folders == old(backend.folders)
      ensures r == Finished || (r == Logged(RemoveOld) && oldFile.Some?)
      ensures backend.calls == old(backend.calls) +
        (if oldFile.Some? then [RemoveCall(oldFile.value.id, r == Finished)] else [])
      ensures backend.files ==
        if r == Finished && oldFile.Some? then old(backend.files) - {oldFile.value.id} else old(backend.files)
      ensures disk.files == old(disk.files) - {local}
      ensures disk.extracted == old(disk.extracted)
    {
      disk.Remove(local);
      r := DropOld(oldFile);
    }

    /** The tail of the upload step once `upload_file` returned: delete the
        old backup `oldFile`, if there is one. */
    method DropOld(oldFile: Option<BackupFile>) returns (r: BackupOutcome)
      requires Valid()
      modifies backend
      ensures Valid() && backend.folders == old(backend.folders)
      ensures r == Finished || (r == Logged(RemoveOld) && oldFile.Some?)
      ensures backend.calls == old(backend.calls) +
        (if oldFile.Some? then [RemoveCall(oldFile.value.id, r == Finished)] else [])
      ensures backend.files ==
        if r == Finished && oldFile.Some? then old(backend.files) - {oldFile.value.id} else old(backend.files)
    {
      r := Finished;
      if oldFile.Some? {
        var ok := backend.RemoveFile(oldFile.value);
        if !ok {
          r := Logged(RemoveOld);
        }
      }
    }

    /** The `except` branch of the upload step, after `upload_file` raised:
        rename the old backup `oldFile` back to `backup.zip` if there is
        one, then, as the `finally` clause does, delete the local archive. */
    method RollBack(local: Path, oldFile: Option<BackupFile>) returns (r: BackupOutcome)
      requires Valid() && local == LocalArchivePath(config.tmpDirPath)
      requires oldFile.Some? ==> oldFile.value.id in backend.files
      modifies backend, disk
      ensures Valid() && backend.folders == old(backend.folders)
      ensures r == Logged(Upload) || (r == Logged(RenameBack) && oldFile.Some?)
      ensures backend.calls == old(backend.calls) +
        (if oldFile.Some? then [RenameCall(oldFile.value.id, BACKUP_ZIP, r == Logged(Upload))] else [])
      ensures backend.files ==
        if r == Logged(Upload) && oldFile.Some?
        then old(backend.files)[oldFile.value.id := old(backend.files)[oldFile.value.id].(name := BACKUP_ZIP)]
        else old(backend.files)
      ensures disk.files == old(disk.files) - {local}
      ensures disk.extracted == old(disk.extracted)
    {
      var back := true;
      if oldFile.Some? {
        assert SlashFree(BACKUP_ZIP) by { ConstantNames(); }
        back := backend.RenameFile(oldFile.value, BACKUP_ZIP);
      }
      disk.Remove(local);
      r := if back then Logged(Upload) else Logged(RenameBack);
    }

    /** `restore`: look up `backup.zip`, download it into the temporary
        directory, read its metadata and extract every member of the paths
        mapping, in mapping order, into `root_dir` joined with its extract
        path. Every error is raised to the caller. */
    method Restore() returns (r: RestoreOutcome, ghost found: Option<Id>)
      requires Valid()
      modifies backend, disk
      ensures Valid()
      ensures backend.files == old(backend.files) && backend.folders == old(backend.folders)
      ensures backend.calls ==
        old(backend.calls) + [GetFileCall(RestorePath(config.rootCloudDir), r != RestoreFailed(LookUpFailed))] +
        (if found.Some? then [DownloadCall(found.value, config.tmpDirPath, r != RestoreFailed(DownloadFailed))] else [])
      ensures found.Some? ==> found.value in IdsAt(backend.files, RestorePath(config.rootCloudDir))
      ensures r.NothingToRestore? <==> found.None? && r != RestoreFailed(LookUpFailed)
      ensures r.NothingToRestore? ==>
        IdsAt(backend.files, RestorePath(config.rootCloudDir)) == {} && unchanged(disk)
      ensures r.Restored? || (r.RestoreFailed? && r.step.MemberUnreadable?) ==>
        found.Some? &&
        var a := backend.files[found.value].content;
        META_FILENAME in a && a[META_FILENAME].MetaJson? &&
        var rep := Replay(a[META_FILENAME].meta.pathsMapping, a, config.rootDir);
        disk.extracted == old(disk.extracted) + rep.done &&
        (r.Restored? <==> rep.failedAt.None?) &&
        (r.RestoreFailed? ==> rep.failedAt == Some(r.step.memberName))
      ensures r.Restored? ==>
        var m := backend.files[found.value].content[META_FILENAME].meta.pathsMapping;
        |r.paths| == |m| && forall i :: 0 <= i < |m| ==> r.paths[i] == m[i].meta.path
      ensures !r.Restored? && !(r.RestoreFailed? && r.step.MemberUnreadable?) ==>
        disk.extracted == old(disk.extracted)
      ensures r == RestoreFailed(LookUpFailed) || r == RestoreFailed(DownloadFailed) ==>
        disk.files == old(disk.files)
      ensures r.Restored? || r == RestoreFailed(MetaMissing) || (r.RestoreFailed? && r.step.MemberUnreadable?) ==>
        found.Some? &&
        var downloaded := old(disk.files)[Join(config.tmpDirPath, BACKUP_ZIP) := backend.files[found.value].content];
        disk.files == if r.Restored? then WithoutTree(downloaded, config.tmpDirPath) else downloaded
      ensures r.Restored? && config.tmpDirPath != [] ==> Join(config.tmpDirPath, BACKUP_ZIP) !in disk.files
    {
      found := None;
      var ok, file := backend.GetFileByPath(RestorePath(config.rootCloudDir));
      if !ok {
        return RestoreFailed(LookUpFailed), found;
      }
      if file.None? {
        return NothingToRestore, found;
      }
      var f := file.value;
      found := Some(f.id);
      FoundAtRestorePath(backend.files[f.id], config.rootCloudDir);
      ok := backend.DownloadFile(f, config.tmpDirPath);
      if !ok {
        return RestoreFailed(DownloadFailed), found;
      }
      var archive := disk.files[Join(config.tmpDirPath, BACKUP_ZIP)];
      if META_FILENAME !in archive || !archive[META_FILENAME].MetaJson? {
        return RestoreFailed(MetaMissing), found;
      }
      var mapping := archive[META_FILENAME].meta.pathsMapping;
      var failedAt := ExtractAll(mapping, archive);
      if failedAt.Some? {
        return RestoreFailed(MemberUnreadable(failedAt.value)), found;
      }
      disk.RemoveTree(config.tmpDirPath);
      assert config.tmpDirPath != [] ==> Join(config.tmpDirPath, BACKUP_ZIP) !in disk.files by {
        if config.tmpDirPath != [] {
          ArchivesUnderTmp(config.tmpDirPath);
        }
      }
      r := Restored(seq(|mapping|, i requires 0 <= i < |mapping| => mapping[i].meta.path));
    }

    /** Restore's loop over the paths mapping: each member, in mapping
        order, is unzipped into `root_dir` joined with its extract path;
        the first member that cannot be opened raises and ends the loop. */
    method ExtractAll(mapping: seq<MappingEntry>, archive: Archive) returns (failedAt: Option<string>)
      modifies disk
      ensures failedAt == Replay(mapping, archive, config.rootDir).failedAt
      ensures disk.extracted == old(disk.extracted) + Replay(mapping, archive, config.rootDir).done
      ensures disk.files == old(disk.files)
    {
      for i := 0 to |mapping|
        invariant Replay(mapping[..i], archive, config.rootDir).failedAt.None?
        invariant disk.extracted == old(disk.extracted) + Replay(mapping[..i], archive, config.rootDir).done
        invariant disk.files == old(disk.files)
      {
        assert mapping[..i + 1][..i] == mapping[..i];
        var entry := mapping[i];
        if !Extractable(archive, entry.memberName) {
          ReplayStopsAtFailure(mapping, i + 1, archive, config.rootDir);
          return Some(entry.memberName);
        }
        disk.Extract(Join(config.rootDir, entry.meta.extractPath), archive[entry.memberName]);
      }
      assert mapping[..|mapping|] == mapping;
      failedAt := None;
    }
  }

  /** Once replaying a prefix has failed, the rest of the mapping is never
      looked at. */
  lemma {:induction false} ReplayStopsAtFailure(mapping: seq<MappingEntry>, n: nat, archive: Archive, rootDir: Path)
    requires n <= |mapping|
    requires Replay(mapping[..n], archive, rootDir).failedAt.Some?
    ensures Replay(mapping, archive, rootDir) == Replay(mapping[..n], archive, rootDir)
    decreases |mapping| - n
  {
    if n < |mapping| {
      ReplayStopsAtFailure(mapping, n + 1, archive, rootDir);
      assert mapping[..n + 1][..n] == mapping[..n];
    } else {
      assert mapping[..n] == mapping;
    }
  }
}
