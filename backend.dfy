/** The backend capability contract: the remote operations the backup
    protocol relies on (find a file by path, create a folder if absent,
    upload, rename, remove, download) and the credential retry loop run when
    a backend is constructed.

    The remote store is a map from file id to the stored file (its folder,
    its name and its content). Ids identify files the way provider handles
    do: a handle keeps working after the file is renamed, although its
    `name` and `path` fields then describe the old name. Every operation may
    fail (raise) for reasons outside the model (network, provider); a
    failure is chosen nondeterministically and leaves the remote unchanged.
    A ghost log records each call and whether it returned normally. */
module Backend {
  import opened Common
  import opened PosixPath
  import opened Archive
  import opened LocalFs

  type Id = nat

  /** A remote folder handle. */
  datatype BackupFolder = BackupFolder(name: string, path: Path, id: Id)

  /** A remote file handle: the folder's attributes plus its parent. */
  datatype BackupFile = BackupFile(name: string, path: Path, id: Id, parentDir: BackupFolder)

  /** A file as stored remotely. */
  datatype StoredFile = StoredFile(dir: Path, name: string, content: Archive)

  function PathOf(f: StoredFile): Path {
    f.dir + "/" + f.name
  }

  /** The ids of the files found at exactly `path`. */
  function IdsAt(files: map<Id, StoredFile>, path: Path): set<Id> {
    set id | id in files && PathOf(files[id]) == path
  }

  /** With single-component names, a lookup of `d/n` finds exactly the
      files named `n` in the folder `d`: no file in another folder, and no
      file under another name, is ever mistaken for it. */
  lemma IdsAtSplit(files: map<Id, StoredFile>, d: Path, n: string)
    requires forall id :: id in files ==> SlashFree(files[id].name)
    requires SlashFree(n)
    ensures forall id :: id in IdsAt(files, d + "/" + n) <==>
      id in files && files[id].dir == d && files[id].name == n
  {
    forall id | id in files && PathOf(files[id]) == d + "/" + n
      ensures files[id].dir == d && files[id].name == n
    {
      SplitUnique(files[id].dir, files[id].name, d, n);
    }
  }

  /** Every file lives in a known folder and its name is a single path
      component. */
  predicate StoreValid(folders: map<Path, Id>, files: map<Id, StoredFile>) {
    forall id :: id in files ==> files[id].dir in folders && SlashFree(files[id].name)
  }

  /** A number larger than every element of `s`: fresh ids exist. */
  ghost function Above(s: set<nat>): (n: nat)
    ensures forall x :: x in s ==> x < n
  {
    if s == {} then 0
    else
      var x :| x in s;
      var m := Above(s - {x});
      assert forall y :: y in s ==> y == x || y in s - {x};
      if x + 1 > m then x + 1 else m
  }

  /** One call of the contract, and whether it returned normally. */
  datatype Call =
    | CreateFolderCall(path: Path, ok: bool)
    | GetFileCall(path: Path, ok: bool)
    | UploadCall(filePath: Path, directoryPath: Path, ok: bool)
    | RenameCall(id: Id, newName: string, ok: bool)
    | RemoveCall(id: Id, ok: bool)
    | DownloadCall(id: Id, outputPath: Path, ok: bool)

  datatype Credentials = Credentials(login: string, password: string)

  /** How the constructor's login loop ended: logged in with `session`
      after `consumed` typed answers, or the input ended while prompting
      (`input` raising `EOFError` out of the constructor). */
  datatype LoginOutcome =
    | LoggedIn(session: Credentials, attempts: seq<Credentials>, consumed: nat)
    | InputClosed(attempts: seq<Credentials>)

  /** How many answers the first attempt prompts for. */
  function Prompted(login: Option<string>, password: Option<string>): nat {
    (if login.None? then 1 else 0) + (if password.None? then 1 else 0)
  }

  /** `attempts` tried before the outcome `o`. */
  function Prepend(attempts: seq<Credentials>, o: LoginOutcome): LoginOutcome {
    match o
    case LoggedIn(session, later, consumed) => LoggedIn(session, attempts + later, consumed)
    case InputClosed(later) => InputClosed(attempts + later)
  }

  lemma PrependTwice(a: seq<Credentials>, b: seq<Credentials>, o: LoginOutcome)
    ensures Prepend(a + b, o) == Prepend(a, Prepend(b, o))
  {
    assert (a + b) + o.attempts == a + (b + o.attempts);
  }

  /** The constructor's `while True` login loop, from the point where the
      login and password are `l` and `p` (`None` when still to be typed) and
      the typed answers from `pos` on are unread. A missing login, then a
      missing password, is prompted for; the provider's `_login` accepts
      exactly the credentials in `accepted`; after a failed attempt both are
      forgotten and prompted for again. */
  function LoginFrom(l: Option<string>, p: Option<string>, typed: seq<string>, pos: nat,
                     accepted: set<Credentials>): LoginOutcome
    requires pos <= |typed|
    decreases 2 * (|typed| - pos) + (if l.Some? && p.Some? then 1 else 0)
  {
    var need := Prompted(l, p);
    if |typed| - pos < need then InputClosed([])
    else
      var next := pos + need;
      var c := Credentials(if l.Some? then l.value else typed[pos],
                           if p.Some? then p.value else typed[next - 1]);
      if c in accepted then LoggedIn(c, [c], next)
      else Prepend([c], LoginFrom(None, None, typed, next, accepted))
  }

  /** One more pass of the loop once both are prompted for: an attempt
      with the next two answers. */
  lemma TypedStep(typed: seq<string>, pos: nat, accepted: set<Credentials>)
    requires pos + 2 <= |typed|
    requires Credentials(typed[pos], typed[pos + 1]) !in accepted
    ensures LoginFrom(None, None, typed, pos, accepted) ==
      Prepend([Credentials(typed[pos], typed[pos + 1])], LoginFrom(None, None, typed, pos + 2, accepted))
  {
  }

  /** Attempt `k` of `attempts` is the pair of answers at `pos + 2k`. */
  predicate PairedFrom(attempts: seq<Credentials>, typed: seq<string>, pos: nat) {
    forall k :: 0 <= k < |attempts| ==>
      pos + 2 * k + 2 <= |typed| &&
      attempts[k] == Credentials(typed[pos + 2 * k], typed[pos + 2 * k + 1])
  }

  /** Every attempt before the outcome `o` was rejected: all of them when
      the input ran out, all but the last when the login succeeded. */
  predicate Rejected(o: LoginOutcome, accepted: set<Credentials>) {
    forall k :: 0 <= k < |o.attempts| && (o.InputClosed? || k < |o.attempts| - 1) ==>
      o.attempts[k] !in accepted
  }

  lemma PairedCons(c: Credentials, rest: seq<Credentials>, typed: seq<string>, pos: nat)
    requires pos + 2 <= |typed| && c == Credentials(typed[pos], typed[pos + 1])
    requires PairedFrom(rest, typed, pos + 2)
    ensures PairedFrom([c] + rest, typed, pos)
  {
    var s := [c] + rest;
    forall k | 0 <= k < |s|
      ensures pos + 2 * k + 2 <= |typed|
      ensures s[k] == Credentials(typed[pos + 2 * k], typed[pos + 2 * k + 1])
    {
      if k > 0 {
        var j := k - 1;
        assert s[k] == rest[j];
        assert (pos + 2) + 2 * j == pos + 2 * k;
      }
    }
  }

  lemma RejectedCons(c: Credentials, o: LoginOutcome, accepted: set<Credentials>)
    requires c !in accepted && Rejected(o, accepted)
    ensures Rejected(Prepend([c], o), accepted)
  {
    var s := Prepend([c], o).attempts;
    forall k | 0 <= k < |s| && (o.InputClosed? || k < |s| - 1)
      ensures s[k] !in accepted
    {
      if k > 0 {
        assert s[k] == o.attempts[k - 1];
      }
    }
  }

  /** Once both are prompted for, attempt `k` from `pos` is the pair of
      answers at `pos + 2k`, and every attempt but a successful last one
      was rejected. */
  lemma {:induction false} TypedAttempts(typed: seq<string>, pos: nat, accepted: set<Credentials>, o: LoginOutcome)
    requires pos <= |typed| && o == LoginFrom(None, None, typed, pos, accepted)
    ensures PairedFrom(o.attempts, typed, pos) && Rejected(o, accepted)
    decreases |typed| - pos
  {
    if |typed| - pos >= 2 {
      var c := Credentials(typed[pos], typed[pos + 1]);
      if c !in accepted {
        var rest := LoginFrom(None, None, typed, pos + 2, accepted);
        TypedAttempts(typed, pos + 2, accepted, rest);
        TypedStep(typed, pos, accepted);
        PairedCons(c, rest.attempts, typed, pos);
        RejectedCons(c, rest, accepted);
      }
    }
  }

  /** How the loop ended, given that the answers of the second attempt
      start at `second`: a login succeeds with its last attempt, which is
      accepted, after two answers per attempt past the first; the input
      runs out only when the next attempt's answers are missing. */
  predicate EndsAt(o: LoginOutcome, accepted: set<Credentials>, typed: seq<string>, second: nat) {
    (o.LoggedIn? ==>
      |o.attempts| > 0 && o.session == o.attempts[|o.attempts| - 1] && o.session in accepted &&
      o.consumed == second + 2 * (|o.attempts| - 1)) &&
    (o.InputClosed? ==> |typed| < second + 2 * |o.attempts|)
  }

  lemma EndsCons(c: Credentials, o: LoginOutcome, accepted: set<Credentials>, typed: seq<string>, second: nat)
    requires EndsAt(o, accepted, typed, second + 2)
    ensures EndsAt(Prepend([c], o), accepted, typed, second)
  {
    var s := Prepend([c], o).attempts;
    assert |s| == |o.attempts| + 1;
    if o.LoggedIn? {
      assert s[|s| - 1] == o.attempts[|o.attempts| - 1];
    }
  }

  /** Once both are prompted for from `pos`, the loop ends as `EndsAt`
      says with the second attempt's answers at `pos + 2`. */
  lemma {:induction false} TypedEnd(typed: seq<string>, pos: nat, accepted: set<Credentials>, o: LoginOutcome)
    requires pos <= |typed| && o == LoginFrom(None, None, typed, pos, accepted)
    ensures EndsAt(o, accepted, typed, pos + 2)
    decreases |typed| - pos
  {
    if |typed| - pos >= 2 {
      var c := Credentials(typed[pos], typed[pos + 1]);
      if c !in accepted {
        var rest := LoginFrom(None, None, typed, pos + 2, accepted);
        TypedEnd(typed, pos + 2, accepted, rest);
        TypedStep(typed, pos, accepted);
        EndsCons(c, rest, accepted, typed, pos + 2);
      }
    }
  }

  /** The credentials of attempt `k` (from 0): first the ones passed in,
      the missing ones typed; after a failure both are typed anew. */
  function AttemptAt(login: Option<string>, password: Option<string>, typed: seq<string>, k: nat): Credentials
    requires Prompted(login, password) + 2 * k <= |typed|
  {
    var first := Prompted(login, password);
    if k == 0 then
      Credentials(if login.Some? then login.value else typed[0],
                  if password.Some? then password.value else typed[first - 1])
    else Credentials(typed[first + 2 * k - 2], typed[first + 2 * k - 1])
  }

  /** The first pass of the loop from the constructor's arguments: a
      rejected first attempt is followed by the loop with both prompted. */
  lemma FirstStep(login: Option<string>, password: Option<string>, typed: seq<string>,
                  accepted: set<Credentials>)
    requires Prompted(login, password) <= |typed|
    requires AttemptAt(login, password, typed, 0) !in accepted
    ensures LoginFrom(login, password, typed, 0, accepted) ==
      Prepend([AttemptAt(login, password, typed, 0)],
              LoginFrom(None, None, typed, Prompted(login, password), accepted))
  {
  }

  /** The first attempt followed by attempts paired from the typed
      answers after the first prompts: attempt `k` is `AttemptAt(k)`. */
  lemma AttemptsAt(login: Option<string>, password: Option<string>, typed: seq<string>,
                   rest: seq<Credentials>)
    requires Prompted(login, password) <= |typed|
    requires PairedFrom(rest, typed, Prompted(login, password))
    ensures var s := [AttemptAt(login, password, typed, 0)] + rest;
      forall k :: 0 <= k < |s| ==>
        Prompted(login, password) + 2 * k <= |typed| &&
        s[k] == AttemptAt(login, password, typed, k)
  {
    var first := Prompted(login, password);
    var s := [AttemptAt(login, password, typed, 0)] + rest;
    forall k | 0 <= k < |s|
      ensures first + 2 * k <= |typed| && s[k] == AttemptAt(login, password, typed, k)
    {
      if k > 0 {
        var j := k - 1;
        assert s[k] == rest[j];
        assert first + 2 * j == first + 2 * k - 2;
      }
    }
  }

  /** The login loop from the constructor's arguments: attempt `k` uses
      `AttemptAt`, and every attempt but a successful last one was
      rejected. */
  lemma LoginAttempts(login: Option<string>, password: Option<string>, typed: seq<string>,
                      accepted: set<Credentials>, r: LoginOutcome)
    requires r == LoginFrom(login, password, typed, 0, accepted)
    ensures forall k :: 0 <= k < |r.attempts| ==>
      Prompted(login, password) + 2 * k <= |typed| &&
      r.attempts[k] == AttemptAt(login, password, typed, k)
    ensures Rejected(r, accepted)
  {
    var first := Prompted(login, password);
    if first <= |typed| {
      var c := AttemptAt(login, password, typed, 0);
      if c !in accepted {
        var rest := LoginFrom(None, None, typed, first, accepted);
        TypedAttempts(typed, first, accepted, rest);
        FirstStep(login, password, typed, accepted);
        AttemptsAt(login, password, typed, rest.attempts);
        RejectedCons(c, rest, accepted);
      }
    }
  }

  /** The login loop from the constructor's arguments ends as `EndsAt`
      says, the second attempt's answers following the first prompts: a
      login succeeds with the credentials of its last attempt, and the
      input runs out only when the next attempt's answers are missing. */
  lemma LoginEnd(login: Option<string>, password: Option<string>, typed: seq<string>,
                 accepted: set<Credentials>, r: LoginOutcome)
    requires r == LoginFrom(login, password, typed, 0, accepted)
    ensures EndsAt(r, accepted, typed, Prompted(login, password))
  {
    var first := Prompted(login, password);
    if first <= |typed| {
      var c := AttemptAt(login, password, typed, 0);
      if c !in accepted {
        var rest := LoginFrom(None, None, typed, first, accepted);
        TypedEnd(typed, first, accepted, rest);
        FirstStep(login, password, typed, accepted);
        EndsCons(c, rest, accepted, typed, first);
      }
    }
  }

  /** One pass of the loop: the attempt with the prompted answers either
      logs in or is followed by the loop with both prompted anew. */
  lemma LoginStep(l: Option<string>, p: Option<string>, typed: seq<string>, pos: nat,
                  accepted: set<Credentials>, c: Credentials, next: nat)
    requires pos <= |typed| && next == pos + Prompted(l, p) && next <= |typed|
    requires c.login == (if l.Some? then l.value else typed[pos])
    requires c.password == (if p.Some? then p.value else typed[next - 1])
    ensures LoginFrom(l, p, typed, pos, accepted) ==
      if c in accepted then LoggedIn(c, [c], next)
      else Prepend([c], LoginFrom(None, None, typed, next, accepted))
  {
  }

  /** The constructor's `while True` login loop, run on the login and
      password passed in and the answers `typed` at the prompts. */
  method Authenticate(login: Option<string>, password: Option<string>,
                      typed: seq<string>, accepted: set<Credentials>)
    returns (r: LoginOutcome)
    ensures r == LoginFrom(login, password, typed, 0, accepted)
  {
    var l, p := login, password;
    var pos: nat := 0;
    var attempts: seq<Credentials> := [];
    while true
      invariant pos <= |typed|
      invariant Prepend(attempts, LoginFrom(l, p, typed, pos, accepted)) ==
        LoginFrom(login, password, typed, 0, accepted)
      decreases 2 * (|typed| - pos) + (if l.Some? && p.Some? then 1 else 0)
    {
      ghost var rest := LoginFrom(l, p, typed, pos, accepted);
      var ok, c, next := ReadMissing(l, p, typed, pos);
      if !ok {
        assert attempts + [] == attempts;
        return InputClosed(attempts);
      }
      LoginStep(l, p, typed, pos, accepted, c, next);
      pos := next;
      if c in accepted {
        return LoggedIn(c, attempts + [c], pos);
      }
      PrependTwice(attempts, [c], LoginFrom(None, None, typed, pos, accepted));
      attempts := attempts + [c];
      l, p := None, None;
    }
  }

  /** The prompts of one attempt: the missing login (`input`), then the
      missing password (`getpass`), read from `typed` at `pos`; `ok` is
      false when the answers run out, where `input` or `getpass` raises
      EOFError. */
  method ReadMissing(l: Option<string>, p: Option<string>, typed: seq<string>, pos: nat)
    returns (ok: bool, c: Credentials, next: nat)
    requires pos <= |typed|
    ensures ok <==> pos + Prompted(l, p) <= |typed|
    ensures ok ==> next == pos + Prompted(l, p)
    ensures ok ==> c.login == (if l.Some? then l.value else typed[pos])
    ensures ok ==> c.password == (if p.Some? then p.value else typed[next - 1])
  {
    next := pos;
    if |typed| - pos < Prompted(l, p) {
      return false, Credentials("", ""), next;
    }
    var login := if l.Some? then l.value else typed[pos];
    if l.None? {
      next := next + 1;
    }
    var password := if p.Some? then p.value else typed[next];
    if p.None? {
      next := next + 1;
    }
    ok, c := true, Credentials(login, password);
  }

  /** A backend whose login has succeeded, over the remote store. */
  class BackupBackend {
    const session: Credentials
    /** The local file system uploads read from and downloads write to. */
    const disk: LocalDisk
    var folders: map<Path, Id>
    var files: map<Id, StoredFile>
    ghost var calls: seq<Call>

    ghost predicate Valid()
      reads this
    {
      StoreValid(folders, files)
    }

    /** The object the constructor returns once `Authenticate` has logged
        in with `session`, connected to a remote holding `folders` and
        `files`. */
    constructor (session: Credentials, disk: LocalDisk,
                 folders: map<Path, Id>, files: map<Id, StoredFile>)
      requires StoreValid(folders, files)
      ensures Valid()
      ensures this.session == session && this.disk == disk
      ensures this.folders == folders && this.files == files && calls == []
    {
      this.session := session;
      this.disk := disk;
      this.folders := folders;
      this.files := files;
      calls := [];
    }

    /** The handle a lookup or an upload hands out for the file `id`. */
    function Handle(id: Id): BackupFile
      reads this
      requires Valid() && id in files
    {
      var s := files[id];
      BackupFile(s.name, PathOf(s), id, BackupFolder(Basename(s.dir), s.dir, folders[s.dir]))
    }

    /** `get_file_by_path`: a file at exactly `path`, or `None` when there
        is none; failures other than "not found" raise. */
    method GetFileByPath(path: Path) returns (ok: bool, file: Option<BackupFile>)
      requires Valid()
      modifies this
      ensures Valid() && folders == old(folders) && files == old(files)
      ensures calls == old(calls) + [GetFileCall(path, ok)]
      ensures !ok ==> file.None?
      ensures ok && file.None? ==> IdsAt(files, path) == {}
      ensures file.Some? ==> file.value.id in IdsAt(files, path) && file.value == Handle(file.value.id)
    {
      ok := *;
      if ok && IdsAt(files, path) != {} {
        var id :| id in IdsAt(files, path);
        file := Some(Handle(id));
      } else {
        file := None;
      }
      calls := calls + [GetFileCall(path, ok)];
    }

    /** `create_folder_if_not_exists`: afterwards `path` is a folder; an
        existing folder is left as it is. */
    method CreateFolderIfNotExists(path: Path) returns (ok: bool, folder: Option<BackupFolder>)
      requires Valid()
      modifies this
      ensures Valid() && files == old(files)
      ensures calls == old(calls) + [CreateFolderCall(path, ok)]
      ensures ok ==> path in folders && folder == Some(BackupFolder(Basename(path), path, folders[path]))
      ensures ok ==> folders.Keys == old(folders).Keys + {path}
      ensures ok ==> forall q :: q in old(folders) ==> folders[q] == old(folders)[q]
      ensures path in old(folders) ==> folders == old(folders)
      ensures !ok ==> folder.None? && folders == old(folders)
    {
      ok := *;
      if ok {
        if path !in folders {
          ghost var bound := Above(folders.Values);
          assert bound !in folders.Values;
          var id :| id !in folders.Values;
          folders := folders[path := id];
        }
        folder := Some(BackupFolder(Basename(path), path, folders[path]));
      } else {
        folder := None;
      }
      calls := calls + [CreateFolderCall(path, ok)];
    }

    /** `upload_file`: a new file named after the local file's base name,
        holding its content, in the existing folder `directoryPath`. A
        missing local file or folder makes it raise. */
    method UploadFile(filePath: Path, directoryPath: Path) returns (ok: bool, file: Option<BackupFile>)
      requires Valid()
      modifies this
      ensures Valid() && folders == old(folders)
      ensures calls == old(calls) + [UploadCall(filePath, directoryPath, ok)]
      ensures filePath !in disk.files || directoryPath !in folders ==> !ok
      ensures ok ==>
        file.Some? && file.value.id !in old(files) &&
        files == old(files)[file.value.id := StoredFile(directoryPath, Basename(filePath), disk.files[filePath])] &&
        file.value == Handle(file.value.id)
      ensures !ok ==> file.None? && files == old(files)
    {
      ok := *;
      if filePath !in disk.files || directoryPath !in folders {
        ok := false;
      }
      if ok {
        ghost var bound := Above(files.Keys);
        assert bound !in files;
        var id :| id !in files;
        files := files[id := StoredFile(directoryPath, Basename(filePath), disk.files[filePath])];
        file := Some(Handle(id));
      } else {
        file := None;
      }
      calls := calls + [UploadCall(filePath, directoryPath, ok)];
    }

    /** `rename_file`: only the name of the file changes, not its folder or
        content. Renaming a file that no longer exists raises. */
    method RenameFile(file: BackupFile, newName: string) returns (ok: bool)
      requires Valid() && SlashFree(newName)
      modifies this
      ensures Valid() && folders == old(folders)
      ensures calls == old(calls) + [RenameCall(file.id, newName, ok)]
      ensures file.id !in old(files) ==> !ok
      ensures ok ==> files == old(files)[file.id := old(files)[file.id].(name := newName)]
      ensures !ok ==> files == old(files)
    {
      ok := *;
      if file.id !in files {
        ok := false;
      }
      if ok {
        files := files[file.id := files[file.id].(name := newName)];
      }
      calls := calls + [RenameCall(file.id, newName, ok)];
    }

    /** `remove_file`: deletes the file for good; no path finds it again. */
    method RemoveFile(file: BackupFile) returns (ok: bool)
      requires Valid()
      modifies this
      ensures Valid() && folders == old(folders)
      ensures calls == old(calls) + [RemoveCall(file.id, ok)]
      ensures file.id !in old(files) ==> !ok
      ensures ok ==> files == old(files) - {file.id}
      ensures ok ==> forall p :: IdsAt(files, p) == IdsAt(old(files), p) - {file.id}
      ensures !ok ==> files == old(files)
    {
      ok := *;
      if file.id !in files {
        ok := false;
      }
      if ok {
        files := files - {file.id};
      }
      calls := calls + [RemoveCall(file.id, ok)];
    }

    /** `download_file`: writes the file's content into `outputPath` under
        its current remote name. */
    method DownloadFile(file: BackupFile, outputPath: Path) returns (ok: bool)
      requires Valid()
      modifies this, disk
      ensures Valid() && folders == old(folders) && files == old(files)
      ensures calls == old(calls) + [DownloadCall(file.id, outputPath, ok)]
      ensures disk.extracted == old(disk.extracted)
      ensures file.id !in files ==> !ok
      ensures ok ==>
        disk.files == old(disk.files)[Join(outputPath, files[file.id].name) := files[file.id].content]
      ensures !ok ==> disk.files == old(disk.files)
    {
      ok := *;
      if file.id !in files {
        ok := false;
      }
      if ok {
        disk.Write(Join(outputPath, files[file.id].name), files[file.id].content);
      }
      calls := calls + [DownloadCall(file.id, outputPath, ok)];
    }
  }
}
