/** The parts of POSIX path handling (Python's posixpath) that the backup
    manager relies on: basename, dirname, join, and the rewriting of
    backslashes that validation applies to the paths it reports. */
module PosixPath {

  type Path = string

  predicate SlashFree(s: string) {
    forall i :: 0 <= i < |s| ==> s[i] != '/'
  }

  predicate AllSlashes(s: string) {
    forall i :: 0 <= i < |s| ==> s[i] == '/'
  }

  /** The index just after the last '/', or 0 when there is none
      (`p.rfind('/') + 1`). */
  function TailStart(p: Path): (k: nat)
    ensures k <= |p|
    ensures forall j :: k <= j < |p| ==> p[j] != '/'
    ensures k > 0 ==> p[k - 1] == '/'
  {
    if p == [] then 0
    else if p[|p| - 1] == '/' then |p|
    else
      TailStart(p[..|p| - 1])
  }

  /** `os.path.basename`: everything after the last '/'. */
  function Basename(p: Path): (b: string)
    ensures SlashFree(b)
    ensures |b| <= |p| && b == p[|p| - |b|..]
  {
    p[TailStart(p)..]
  }

  /** Removes trailing '/' characters (`str.rstrip('/')`). */
  function RStripSlashes(s: string): (r: string)
    ensures r <= s
    ensures r == [] || r[|r| - 1] != '/'
    ensures AllSlashes(s[|r|..])
  {
    if s != [] && s[|s| - 1] == '/' then
      var r := RStripSlashes(s[..|s| - 1]);
      assert s[|r|..] == s[..|s| - 1][|r|..] + ['/'];
      r
    else s
  }

  /** `os.path.dirname`: the text up to the last '/', with trailing '/'
      removed unless it consists of slashes only. */
  function Dirname(p: Path): (d: Path)
    ensures d <= p
  {
    var head := p[..TailStart(p)];
    if head != [] && !AllSlashes(head) then RStripSlashes(head) else head
  }

  /** `os.path.join(a, b)` for two components. */
  function Join(a: Path, b: Path): Path {
    if |b| > 0 && b[0] == '/' then b
    else if a == [] || a[|a| - 1] == '/' then a + b
    else a + "/" + b
  }

  /** `p.replace('\\', '/')`. */
  function ForwardSlashes(p: Path): (r: Path)
    ensures |r| == |p|
    ensures '\\' !in r
    ensures forall i :: 0 <= i < |p| && p[i] != '\\' ==> r[i] == p[i]
    ensures forall i :: 0 <= i < |p| && p[i] == '\\' ==> r[i] == '/'
  {
    seq(|p|, i requires 0 <= i < |p| => if p[i] == '\\' then '/' else p[i])
  }

  /** The basename of `x + m` is `m` when `m` has no '/' and `x` is empty
      or ends in '/'. */
  lemma BasenameAfterSeparator(x: Path, m: string)
    requires SlashFree(m)
    requires x == [] || x[|x| - 1] == '/'
    ensures Basename(x + m) == m
  {
    var p := x + m;
    assert forall j :: |x| <= j < |p| ==> p[j] == m[j - |x|];
    if x != [] {
      assert p[|x| - 1] == '/';
    }
    assert TailStart(p) == |x|;
  }

  /** Equal strings of the form `d + "/" + n` with slash-free `n` agree on
      both the directory part and the name. */
  lemma SplitUnique(d1: Path, n1: string, d2: Path, n2: string)
    requires SlashFree(n1) && SlashFree(n2)
    requires d1 + "/" + n1 == d2 + "/" + n2
    ensures d1 == d2 && n1 == n2
  {
    BasenameAfterSeparator(d1 + "/", n1);
    BasenameAfterSeparator(d2 + "/", n2);
    assert d1 + "/" + n1 == (d1 + "/") + n1;
    assert d2 + "/" + n2 == (d2 + "/") + n2;
    var s := d1 + "/" + n1;
    assert d1 == s[..|d1|] == d2;
  }

  /** A file path `d/n` has dirname `d` and basename `n`, provided `d` is
      not empty and does not itself end in '/'. */
  lemma {:induction false} DirnameOfFile(d: Path, n: string)
    requires SlashFree(n)
    requires d != [] && d[|d| - 1] != '/'
    ensures Dirname(d + "/" + n) == d
    ensures Basename(d + "/" + n) == n
  {
    var p := d + "/" + n;
    assert p == (d + "/") + n;
    BasenameAfterSeparator(d + "/", n);
    var k := TailStart(p);
    assert k == |d| + 1 by {
      assert |Basename(p)| == |n|;
    }
    var head := p[..k];
    assert head == d + "/";
    assert !AllSlashes(head) by {
      assert head[|d| - 1] == d[|d| - 1];
    }
    assert RStripSlashes(d) == d;
    assert head[..|head| - 1] == d;
  }

  /** A path without '/' has no directory part. */
  lemma {:induction false} TailStartSlashFree(n: string)
    requires SlashFree(n)
    ensures TailStart(n) == 0
    decreases |n|
  {
    if n != [] {
      TailStartSlashFree(n[..|n| - 1]);
    }
  }

  /** A bare file name has an empty dirname, and joining it to the empty
      directory gives the name back. */
  lemma BareName(n: string)
    requires SlashFree(n)
    ensures Dirname(n) == []
    ensures Join(Dirname(n), Basename(n)) == n
  {
    TailStartSlashFree(n);
    assert n[..0] == [];
    assert n[0..] == n;
  }

  /** A path naming a file the way the configuration does: it does not end
      in '/', and its directory part, if any, is '/' itself or does not end
      in '/'. */
  predicate PlainPath(p: Path) {
    p != [] && p[|p| - 1] != '/' &&
    var k := TailStart(p);
    k <= 1 || p[k - 2] != '/'
  }

  /** A plain path below a directory other than '/' is that directory and
      a name joined by one '/'. */
  lemma PlainPathSplit(p: Path)
    requires PlainPath(p) && TailStart(p) > 1
    ensures var k := TailStart(p);
      p == p[..k - 1] + "/" + p[k..] &&
      p[..k - 1] != [] && p[k - 2] != '/' && SlashFree(p[k..]) && p[k..] != []
  {
    var k := TailStart(p);
    assert p == p[..k - 1] + [p[k - 1]] + p[k..];
  }

  /** What `Join(a, b)` puts in front of a relative `b`. */
  function JoinPrefix(a: Path): Path {
    if a == [] || a[|a| - 1] == '/' then a else a + "/"
  }

  lemma JoinRelative(a: Path, b: Path)
    requires b == [] || b[0] != '/'
    ensures Join(a, b) == JoinPrefix(a) + b
  {
  }

  /** Unpacking a file's zip into `root` joined with the file's dirname
      puts the file, under its base name, at `root` joined with the file's
      path. */
  lemma JoinUnderRoot(root: Path, d: Path, n: string)
    requires SlashFree(n) && n != []
    requires d != [] && d[|d| - 1] != '/'
    ensures Join(Join(root, Dirname(d + "/" + n)), Basename(d + "/" + n)) == Join(root, d + "/" + n)
  {
    var p := d + "/" + n;
    DirnameOfFile(d, n);
    assert p[0] == d[0];
    assert n[0] != '/';
    if d[0] == '/' {
      assert Join(root, d) == d;
      JoinRelative(d, n);
      assert Join(root, p) == p;
    } else {
      JoinRelative(root, d);
      var x := JoinPrefix(root) + d;
      assert x[|x| - 1] == d[|d| - 1];
      JoinRelative(x, n);
      JoinRelative(root, p);
      assert x + "/" + n == JoinPrefix(root) + p;
    }
  }

  /** The same for a bare file name, whose dirname is empty. */
  lemma JoinBareUnderRoot(root: Path, n: string)
    requires SlashFree(n) && n != []
    ensures Join(Join(root, Dirname(n)), Basename(n)) == Join(root, n)
  {
    BareName(n);
    TailStartSlashFree(n);
    assert Basename(n) == n;
    assert n[0] != '/';
    JoinRelative(root, []);
    assert Join(root, []) == JoinPrefix(root);
    var x := JoinPrefix(root);
    assert x == [] || x[|x| - 1] == '/';
    JoinRelative(x, n);
    JoinRelative(root, n);
  }

  /** The same for a file directly under '/', whose dirname is '/'. */
  lemma JoinTopUnderRoot(root: Path, n: string)
    requires SlashFree(n) && n != []
    ensures Join(Join(root, Dirname("/" + n)), Basename("/" + n)) == Join(root, "/" + n)
  {
    var p := "/" + n;
    assert p[0] == '/' && forall j :: 1 <= j < |p| ==> p[j] == n[j - 1];
    assert TailStart(p) == 1;
    assert p[..1] == "/";
    assert AllSlashes("/");
    assert Dirname(p) == "/";
    BasenameAfterSeparator("/", n);
  }

  /** Every plain path lands back at `root` joined with itself. */
  lemma PlainPathUnderRoot(root: Path, p: Path)
    requires PlainPath(p)
    ensures Join(Join(root, Dirname(p)), Basename(p)) == Join(root, p)
  {
    var k := TailStart(p);
    if k == 0 {
      assert SlashFree(p);
      JoinBareUnderRoot(root, p);
    } else if k == 1 {
      var n := p[1..];
      assert p == "/" + n;
      JoinTopUnderRoot(root, n);
    } else {
      var d, n := p[..k - 1], p[k..];
      PlainPathSplit(p);
      assert d + "/" + n == p;
      JoinUnderRoot(root, d, n);
    }
  }
}
