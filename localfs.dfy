/** The local file system as the backup manager sees it: an
    `os.path.exists` / `os.path.isdir` oracle for the configured paths, the
    archive files the manager itself writes and deletes under its temporary
    directory, and the log of `extractall` calls restore makes. */
module LocalFs {
  import opened PosixPath
  import opened Archive

  /** `p` is `dir` itself or lies below it, whether or not `dir` is
      spelled with a trailing '/'. */
  predicate Under(p: Path, dir: Path) {
    p == dir || (dir != [] && JoinPrefix(dir) <= p)
  }

  /** The files left after `shutil.rmtree(dir)`. */
  function WithoutTree(files: map<Path, Archive>, dir: Path): map<Path, Archive> {
    map p | p in files && !Under(p, dir) :: files[p]
  }

  class LocalDisk {
    /** Paths for which `os.path.exists` holds. */
    const present: set<Path>
    /** Paths for which `os.path.isdir` holds. */
    const dirs: set<Path>
    /** Archive files written by the manager and by downloads. */
    var files: map<Path, Archive>
    /** Every `extractall` into the file system, in order. */
    var extracted: seq<Extraction>

    constructor (present: set<Path>, dirs: set<Path>, files: map<Path, Archive>)
      requires dirs <= present
      ensures this.present == present && this.dirs == dirs
      ensures this.files == files && extracted == []
    {
      this.present := present;
      this.dirs := dirs;
      this.files := files;
      extracted := [];
    }

    /** Writes (or overwrites) the archive file at `p`. */
    method Write(p: Path, a: Archive)
      modifies this
      ensures files == old(files)[p := a] && extracted == old(extracted)
    {
      files := files[p := a];
    }

    /** `os.remove(p)`. */
    method Remove(p: Path)
      modifies this
      ensures files == old(files) - {p} && extracted == old(extracted)
    {
      files := files - {p};
    }

    /** `shutil.rmtree(dir, ignore_errors=True)`. */
    method RemoveTree(dir: Path)
      modifies this
      ensures files == WithoutTree(old(files), dir) && extracted == old(extracted)
    {
      files := WithoutTree(files, dir);
    }

    /** `ZipFile(member).extractall(target)`. */
    method Extract(target: Path, member: Member)
      modifies this
      ensures files == old(files)
      ensures extracted == old(extracted) + [Extraction(target, member)]
    {
      extracted := extracted + [Extraction(target, member)];
    }
  }
}
