# backup — a verified model of the backup manager

This project models the core of `backup`, a small tool that zips a configured
list of local paths into one archive and keeps a single copy of it in a cloud
storage folder:

- **Backup** (`BackupManager.backup`). Every configured path must exist;
  validation reports all the missing ones. The tool builds `backup.zip`,
  which holds one member `{i}.zip` per path plus a `__meta__.json`
  descriptor. It then rotates the archive onto the remote:
  - create the root folder if it is absent;
  - look up the old `backup.zip`;
  - rename the old one to `_old_backup.zip`;
  - upload the new one and delete the local copy;
  - on success, delete the old backup;
  - if the upload raised, rename the old backup back.
  Any error in the remote phase is logged and swallowed.
- **Restore** (`BackupManager.restore`). Find `backup.zip` and download it.
  Read the descriptor, then unzip each member, in descriptor order, into
  `root_dir` joined with its extract path.
- **Backend contract** (`BackupBackend`). These are the remote operations
  the manager relies on. They are modelled as a class over a map from file
  id to stored file. Every call may raise (a nondeterministic choice), and a
  call that raises changes nothing. A ghost log records each call. The
  constructor's credential retry loop is modelled too.
- **Scheduler** (`process.py`). This covers `parse_time_string` and the
  counter logic of the `auto_backups` loop.

Modules, leaves first:

- `Common` is in `common.dfy`.
- `PosixPath` (`posix_path.dfy`) has the parts of `os.path` that are used.
- `Numerals` (`numerals.dfy`) covers `str(i)` and `int(s)`.
- `Archive` (`archive.dfy`) has the archive, the metadata and the restore
  replay.
- `LocalFs` (`localfs.dfy`) is the local disk.
- `Backend` is in `backend.dfy`.
- `Manager` is in `manager.dfy`.
- `Process` is in `process.dfy`.

The main results:

- `Manager.RotationKeepsOneBackup`: when no rename raises, the canonical
  path still holds exactly one file after a backup run, with the old
  archive or the new one.
- `Manager.BackupThenRestore`: when the canonical path `root/backup.zip`
  held at most the one file the lookup found, and the root cloud folder
  has no trailing '/', a successful backup followed by a restore finds
  only the new archive, opens every member, and puts every
  directory and every plain file path back at `root_dir` joined with
  that path.
- `Manager.MissingPathsExact`: validation reports exactly the missing paths.
- `Backend.LoginAttempts` and `Backend.LoginEnd` describe the login loop
  attempt by attempt.
- `Process.NoBackupAfterFirstSuccess` and `Process.PeriodicBackups` expose a
  defect in the scheduler loop and prove the corrected schedule (see
  "## Findings").

In `backup`, validation and the building of the archive
(backup/manager.py:99-126) come before the `try` block, so an error there
propagates to the caller. Only errors in the remote phase
(backup/manager.py:128-159) are logged and swallowed. The model returns a
validation error as `ValidationFailed` and ends a failed remote phase as
`Logged`. Building itself is assumed to succeed (see "## Left out").

## Model

| member | source | states |
|---|---|---|
| PosixPath.Basename | backup/manager.py:118 | the base name has no '/' and is a suffix of the path |
| PosixPath.ForwardSlashes | backup/manager.py:84 | same length, no backslash left, every backslash becomes '/', every other character is kept |
| PosixPath.DirnameOfFile | backup/manager.py:72 | for a file `d/n`, `dirname` is `d` and `basename` is `n` |
| PosixPath.BareName | backup/manager.py:72 | a bare file name has an empty dirname, and joining that dirname to the base name gives the name back |
| PosixPath.TailStartSlashFree | backup/manager.py:118 | a name without '/' has no directory part: its base name starts at index 0 |
| PosixPath.JoinUnderRoot | backup/manager.py:116-118 | a file `d/n` (with `d` not ending in '/') is zipped under its base name `n` and extracted into `root_dir` joined with `d`, which lands it at `root_dir` joined with `d/n` |
| PosixPath.JoinBareUnderRoot | backup/manager.py:116-118 | a bare file name, zipped under itself and extracted into `root_dir` joined with its empty dirname, lands at `root_dir` joined with the name |
| PosixPath.JoinTopUnderRoot | backup/manager.py:116-118 | a file `/n` directly under '/' has dirname '/' and lands at `root_dir` joined with `/n` |
| PosixPath.PlainPathSplit | backup/manager.py:72 | a plain path below a directory other than '/' is that directory, one '/', and a nonempty slash-free name, and the directory does not end in '/' |
| PosixPath.PlainPathUnderRoot | backup/manager.py:116-118 | for every plain path `p` (no trailing '/', no doubled '/' before the name; a bare name and `/name` included), `join(join(root_dir, dirname(p)), basename(p)) == join(root_dir, p)` |
| PosixPath.SplitUnique | backup/manager.py:131-132 | `d1/n1 == d2/n2` with slash-free names forces `d1 == d2` and `n1 == n2` |
| Numerals.NatToString | backup/manager.py:70 | `str(n)` is a nonempty digit string whose decimal value is `n` |
| Numerals.ParseInt | backup/process.py:19 | `int(s)` succeeds exactly on signed decimal literals, and the sign of the result follows the sign character |
| Numerals.ParseIntToString | backup/process.py:19 | `int(str(i)) == i` for every integer |
| Archive.MemberNameInjective | backup/manager.py:70 | `{i}.zip == {j}.zip` only when `i == j` |
| Archive.MemberNameIsNotMeta | backup/manager.py:54 | no `{i}.zip` member collides with `__meta__.json` |
| Archive.MappingOnePerPath | backup/manager.py:69-74 | the paths mapping has one entry per configured path; entry `i` has key `{i}.zip` and path `i`; no key repeats |
| Archive.ExtractPathOfFile | backup/manager.py:72 | a file `d/n` is extracted into `d`, a directory into itself |
| Archive.MembersContents | backup/manager.py:107-118 | member `{i}.zip` holds the zip of path `i` (directory or single file), and there are no other per-path members |
| Archive.BuildArchiveContents | backup/manager.py:121-125 | the top-level archive holds the descriptor under `__meta__.json`, each path's zip under `{i}.zip`, and nothing else |
| Archive.Replay | backup/manager.py:187-190 | in mapping order, each extraction unzips member `k` into `root_dir/extract_path`; on failure, the first member that cannot be opened is named and nothing after it is extracted |
| Archive.RestoreReplaysInPlace | backup/manager.py:187-190 | replaying the archive backup builds restores one entry per configured path, and each directory and each plain file path lands at `Join(root_dir, path)` |
| Archive.RestoreReplaysBackup | backup/manager.py:187-190 | replaying the archive backup builds fails on no member and extracts path `i` into `Join(root_dir, extract_path_i)`, in configuration order |
| LocalFs.LocalDisk.constructor | backup/manager.py:83 | the disk answers `exists`/`isdir` from fixed sets and starts with the given files and no extractions |
| LocalFs.LocalDisk.Write | backup/manager.py:125 | writing an archive file sets that one path |
| LocalFs.LocalDisk.Remove | backup/manager.py:149 | `os.remove` deletes exactly that path |
| LocalFs.LocalDisk.RemoveTree | backup/manager.py:102 | `rmtree(dir)` removes exactly the files at or below `dir`, whether `dir` is spelled with a trailing '/' or not, and keeps every other file unchanged (`WithoutTree`) |
| LocalFs.LocalDisk.Extract | backup/manager.py:188-190 | `extractall` appends one extraction to the log and leaves the files unchanged |
| Backend.IdsAtSplit | backup/backend.py:56-65 | with slash-free names, a lookup of `d/n` finds exactly the files named `n` in folder `d` |
| Backend.Above | backup/backend.py:79-90 | a fresh id always exists, so uploads and folder creation can always name a new object |
| Backend.BackupBackend.constructor | backup/backend.py:16-23 | a logged-in backend over a valid store, with an empty call log |
| Backend.BackupBackend.GetFileByPath | backup/backend.py:55-65 | returns a file at exactly `path`, or none when none exists; a raise changes nothing |
| Backend.BackupBackend.CreateFolderIfNotExists | backup/backend.py:67-77 | afterwards `path` is a folder; existing folders keep their ids; an existing `path` leaves the folders unchanged |
| Backend.BackupBackend.UploadFile | backup/backend.py:79-90 | on success, a new id holds the local file's content under its base name in that folder; a missing local file or folder raises; a raise changes nothing |
| Backend.BackupBackend.RenameFile | backup/backend.py:92-100 | only the name of that one file changes; a file that is gone raises |
| Backend.BackupBackend.RemoveFile | backup/backend.py:102-109 | the file is deleted and no path finds it again; every other file stays |
| Backend.BackupBackend.DownloadFile | backup/backend.py:111-118 | the content lands at `output_path` joined with the file's current remote name; the remote is unchanged |
| Backend.ReadMissing | backup/backend.py:26-31 | the missing login and password are read from the next answers; it fails exactly when too few answers are left |
| Backend.Authenticate | backup/backend.py:25-38 | the retry loop's outcome is `LoginFrom` of the arguments and the typed answers |
| Backend.LoginStep | backup/backend.py:32-38 | one pass of the loop: an accepted attempt logs in; a rejected one is followed by the loop with both credentials prompted anew |
| Backend.PrependTwice | backup/backend.py:35-38 | attempts already made accumulate in order |
| Backend.TypedAttempts | backup/backend.py:35-38 | once both credentials are prompted, attempt `k` is the pair of answers at `pos + 2k`, and every attempt except a successful last one was rejected |
| Backend.TypedEnd | backup/backend.py:32-34 | once both credentials are prompted, a login succeeds with its last attempt, which is accepted; the input runs out only when fewer than two answers remain |
| Backend.LoginAttempts | backup/backend.py:25-38 | attempt `k` is `AttemptAt(k)`: the given credentials, with missing ones typed first, then fresh typed pairs; every attempt except a successful last one was rejected |
| Backend.LoginEnd | backup/backend.py:25-38 | a login succeeds with the credentials of its last attempt, after the first prompts and two answers per later attempt; the input runs out only when the next attempt's answers are missing |
| Manager.ConstantNames | backup/manager.py:52-53 | `backup.zip` and `_old_backup.zip` are distinct single path components |
| Manager.MissingPathsExact | backup/manager.py:80-94 | validation reports, with '/' separators, every configured path that does not exist and nothing else; it reports nothing exactly when all paths exist |
| Manager.BackupManager.constructor | backup/manager.py:56-61 | the manager uses the configuration's backend and its disk |
| Manager.BackupManager.ValidateBeforeBackup | backup/manager.py:81-84 | the loop collects `MissingPaths` of the configured paths |
| Manager.BackupManager.Backup | backup/manager.py:96-159 | raises (`ValidationFailed` with every missing path, nothing touched) exactly when a path is missing; otherwise the remote ends as `RemoteAfter`, the calls are `RotationCalls`, and the local archive is gone once the upload was attempted; the folders are unchanged when creating the root folder raised, and otherwise gain at most the root folder, with every existing folder keeping its id |
| Manager.BackupManager.Rotate | backup/manager.py:128-159 | the remote phase: an error at any step is logged; the remote files and the call log are as `RemoteAfter` and `RotationCalls` say; the folders are unchanged when creating the root folder raised, and otherwise gain at most the root folder, with every existing folder keeping its id |
| Manager.BackupManager.LookUpOld | backup/manager.py:130-133 | the remote files are unchanged; the root folder exists unless creating it raised, in which case the folders are unchanged; otherwise only the root folder may be added and existing folders keep their ids; the old backup found is at the canonical path, or none is there |
| Manager.BackupManager.SwapIn | backup/manager.py:138-152 | upload; rename the old backup back if the upload raised; delete the local archive either way; delete the old backup after a successful upload; the remote files end as `SwapAfter` and the calls as `SwapCalls`; the folders are unchanged |
| Manager.BackupManager.PutAside | backup/manager.py:134-137 | the old backup, if any, is renamed to `_old_backup.zip` (`Aside`), and nothing else changes; nothing is called when there is none |
| Manager.BackupManager.PushArchive | backup/manager.py:139-140 | on success the remote gains one new file in the root folder, named `backup.zip`, holding the local archive; a raise changes nothing |
| Manager.BackupManager.RollBack | backup/manager.py:141-149 | after a failed upload the old backup, if any, is renamed back to `backup.zip`, and the local archive is deleted |
| Manager.BackupManager.Settle | backup/manager.py:148-152 | after an upload that returned, the local archive is deleted and then the old backup |
| Manager.BackupManager.DropOld | backup/manager.py:151-152 | the old backup, if any, is deleted; a raise changes nothing |
| Manager.ArchivesUnderTmp | backup/manager.py:176-200 | the archive backup writes at `tmp/backup.zip` and the one restore downloads to `join(tmp, "backup.zip")` both lie below `tmp`, so `rmtree(tmp)` removes them, with or without a trailing '/' on `tmp` |
| Manager.ArchiveName | backup/manager.py:124-140 | the uploaded local archive has the base name `backup.zip` |
| Manager.RotationThroughSwap | backup/manager.py:128-152 | a run that reached the upload made the calls of the earlier steps followed by those of the upload step |
| Manager.RemoteThroughSwap | backup/manager.py:128-152 | the remote files of a run that reached the upload are what the upload step leaves from the files with the old backup renamed aside |
| Manager.RotationCallsOrder | backup/manager.py:128-152 | nothing is renamed or removed except the old backup that was found; the upload comes after it was renamed aside; it is removed only after an upload that returned |
| Manager.FoundAtCanonical | backup/manager.py:131-133 | a file found at `root/backup.zip` is named `backup.zip` and lives in `root` |
| Manager.AsideLeavesCanonical | backup/manager.py:135-137 | renaming to `_old_backup.zip` takes a file off the canonical path |
| Manager.UploadedRotation | backup/manager.py:138-152 | after an upload that returned, the canonical path holds the new archive in place of the old one; the old one is gone, or waits under `_old_backup.zip` when removing it raised; no other file changes |
| Manager.FailedUploadRotation | backup/manager.py:141-147 | a failed upload with a successful rollback leaves the remote exactly as before, because renaming the old backup back restores its entry exactly; a failed rollback leaves the old backup under `_old_backup.zip` with its content |
| Manager.RotationKeepsOneBackup | backup/manager.py:128-152 | when the canonical path held exactly one backup and no rename raised, it afterwards holds exactly one file, with the old archive or the new one |
| Manager.RestoreLooksAtCanonical | backup/manager.py:167-168 | restore looks up the path backup uploads to, when the root cloud folder has no trailing '/' |
| Manager.FoundAtRestorePath | backup/manager.py:176-178 | the file restore finds is named `backup.zip`, so the download lands where restore opens it |
| Manager.BackupThenRestore | backup/manager.py:128-190 | when the canonical path held at most the file the lookup found and the root cloud folder has no trailing '/', after a successful backup restore finds only the new archive and reads its descriptor; the replay opens every member, in configuration order; each directory and each plain file path lands at `Join(root_dir, path)` |
| Manager.BackupManager.Restore | backup/manager.py:163-200 | nothing to restore exactly when no `backup.zip` is found; otherwise the archive is downloaded to `tmp/backup.zip`, and the extractions are the `Replay` of its descriptor, stopping at the first unreadable member; the remote is unchanged; the local files are unchanged when the lookup or the download raised, the `tmp` tree, the download included, is gone after a restore that finished, and the download is left behind when a later step failed |
| Manager.BackupManager.ExtractAll | backup/manager.py:187-190 | the loop makes exactly the extractions of `Replay` and stops where it stops |
| Manager.ReplayStopsAtFailure | backup/manager.py:187-190 | once a member fails, the rest of the mapping is never looked at |
| Process.RemoveAll | backup/process.py:17 | `replace('h', '')` leaves no 'h' and does not touch text without one |
| Process.RemoveAllAppend | backup/process.py:17 | removal distributes over concatenation |
| Process.ParseTimeString | backup/process.py:14-23 | raises for a missing 'h' exactly when there is no 'h'; raises for a non-integer exactly when the text without its 'h's is not an integer literal |
| Process.HourMarkAnywhere | backup/process.py:15-19 | an integer with an 'h' anywhere inside it parses to that integer |
| Process.ParseHours | backup/process.py:32 | the documented form `{n}h` parses to `n` |
| Process.ParseTimeStringExamples | backup/process.py:14-23 | `6h` → 6, `1h2` → 12, `6` → missing suffix, `h` and `xh` → not an integer |
| Process.AutoBackups | backup/process.py:36-74 | a parse error ends the command; otherwise the passes are `Run` of the chosen counter policy |
| Process.RunAt | backup/process.py:51-74 | pass `k` starts from the state the first `k` passes leave |
| Process.FirstPassBacksUp | backup/process.py:49-55 | the first pass attempts a backup |
| Process.RetryAfterFailure | backup/process.py:61-71 | a backup that raised is followed by a `RETRY_IN_MINUTES` sleep and an attempt on the very next pass |
| Process.AsWrittenState | backup/process.py:49-74 | as written, the counter never drops below the interval, and a pending failure means the counter is at the interval |
| Process.NoBackupAfterFirstSuccess | backup/process.py:52-74 | as written, no backup is attempted after the first one that succeeded |
| Process.NoFailurePending | backup/process.py:60-74 | when no backup raises, no failure is ever pending |
| Process.PeriodicCounter | backup/process.py:70-74 | with the counter restarted on success, the counter stands at `d` after `d` hourly passes |
| Process.PeriodicBackups | backup/process.py:52-74 | with the counter restarted on success and no failure, the next backup comes exactly `every` passes after one, with none in between |
| Process.DefaultIntervalCounterexample | backup/process.py:32 | with the default `6h` and no failure, pass 6 backs up under the corrected loop and not as written |

## Left out

- Timestamps (`creation_timestamp_utc`, `get_next_planned_backup_communicate`) are not modelled: there is no clock.
- The zip and JSON encodings are not modelled. An archive is a map from member name to payload, and a member zip is described by its source path and kind.
- Logging, `print` and the coloured console messages are left out.
- `time.sleep` is not modelled. Each pass records the number of seconds it would sleep instead.
- `mega_backend.py` is not part of this model. The provider's behaviour is the contract in `Backend`, and `_login` is a fixed set `accepted` of valid credentials.
- The command line (`cli.py`, `read_configuration`) is not part of this model, and neither is the `verbose` flag.
- `input` and `getpass` are the sequence `typed` of answers. Running out of answers stands for the `EOFError` they raise.
- Backend.BackupBackend.constructor: construction is split into two steps. `Authenticate` runs the login loop, and the constructor builds the logged-in object from its session.
- Backend.Authenticate: `_login` is assumed not to hang and to raise for exactly the credentials outside `accepted`. Exceptions of other kinds are not distinguished.
- Numerals.ParseInt: Python's `int` also accepts surrounding whitespace, `_` separators and non-ASCII digits. The model accepts only an optional sign followed by ASCII digits.
- Backend.BackupBackend.RenameFile: requires a name without '/'. The manager only renames to its two constant names.
- A backend call that raises is assumed to leave the remote unchanged. Partial effects of a failing provider call are not modelled.
- Manager.BackupManager.Backup: building the local archive (zipping each path, writing the descriptor, the scratch folder `tmp/tmp`) is assumed to succeed. Only its result, `BuildArchive` stored at `tmp/backup.zip`, is modelled. A build error would propagate to the caller.
- Manager.BackupManager.Backup: a validation error is returned as `ValidationFailed` instead of raised. The model captures neither the exception object nor the log lines.
- Manager.RestoreLooksAtCanonical: requires a root cloud folder without a trailing '/'. Backup uploads to `root/backup.zip` built by string formatting, while restore uses `os.path.join`. The two differ for such a root, and whether the provider normalises the doubled '/' depends on the provider.
- Manager.BackupManager.Restore: the intermediate unzip into `tmp/downloaded_backup` is folded into reading the archive map. A missing or malformed descriptor is the single outcome `MetaMissing`. The success summary that is printed is returned as the list of restored paths.
- Manager.BackupThenRestore, Archive.RestoreReplaysInPlace: landing at `Join(root_dir, path)` is proved for directories and plain file paths only. A file path ending in '/' or with a doubled '/' before its name is left out, because `dirname` and `basename` do not split it back into `path`.
- Manager.BackupThenRestore: requires that the canonical path held at most the one file the lookup found before the run. The backend allows several files named `backup.zip` in one folder, `get_file_by_path` returns one of them, and only that one is rotated, so a later restore may find another. It also requires a root cloud folder without a trailing '/', for the reason given for `Manager.RestoreLooksAtCanonical`.
- Manager.BackupManager.Restore: the descriptor's paths mapping is a sequence of entries. The decoded JSON object in the source cannot repeat a key, but the sequence can. For a descriptor that repeats a member name the contract promises one extraction per entry, whereas Python keeps a single entry per key. Archives that `BuildArchive` produces never repeat a name (`Archive.MappingOnePerPath`).
- `BackupConfiguration`'s default arguments (`tmp_dir_path='./tmp'`, `root_dir=os.curdir`) are not modelled: the model's configuration takes every field explicitly.
- Paths follow POSIX `os.path` (posixpath). On Windows, `os.path` is ntpath: drive letters and '\\' as a separator in `dirname`, `basename` and `join` are not modelled. Only the rewriting of '\\' in validation messages is modelled.
- Local paths are compared as strings. `Under` treats `dir` and `dir/` alike, but other spellings of one directory (`./t`, `t/.`, symbolic links) are not identified.
- Process.AutoBackups: the endless `while True` runs for as many passes as `raised` describes. An exception from `BackupManager(...)` or from logging setup is not modelled.

## Findings

| source | as written | input that shows it | evidently intended | confidence | as-written member | corrected member |
|---|---|---|---|---|---|---|
| backup/process.py:49-74 | `hours_conter` starts at `every_hours`, grows by one per hour and is never reset, so `hours_conter == every_hours` holds only until the first successful backup | `--every 6h` with every backup succeeding: pass 0 backs up, and pass 6 (six hours later) and every later pass do not | restart the counter after a successful backup, so that a backup runs every `every_hours` hours | high; not executed | Process.NoBackupAfterFirstSuccess | Process.PeriodicBackups |
