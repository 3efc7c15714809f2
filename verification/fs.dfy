/** The filesystem as the script sees it: which paths are directories and which are other
    files, and the three calls that change it (`os.mkdir` behind an `os.path.exists`
    guard, `os.makedirs`, and `check_folder`). */
module Fs {
  import opened Common

  /** An absolute path, as its components below the root; `[]` is the root. */
  type Path = seq<string>

  /** A path as the script passes it around: absolute, or relative to the working directory. */
  datatype PathArg = Abs(parts: seq<string>) | Rel(parts: seq<string>)

  /** Where a path argument points, given the working directory. */
  function Locate(cwd: Path, p: PathArg): Path
  {
    if p.Abs? then p.parts else cwd + p.parts
  }

  /** `os.path.join(p, name)` for a name that is one relative component. */
  function Child(p: PathArg, name: string): PathArg
  {
    if p.Abs? then Abs(p.parts + [name]) else Rel(p.parts + [name])
  }

  /** The directories and the non-directory files that exist. */
  datatype Disk = Disk(dirs: set<Path>, files: set<Path>)

  /** A well-formed tree: the root is a directory, nothing is both, and the parent of every
      entry is a directory. */
  ghost predicate Valid(d: Disk)
  {
    && [] in d.dirs
    && d.dirs !! d.files
    && (forall p :: p in d.dirs && p != [] ==> p[..|p| - 1] in d.dirs)
    && (forall p :: p in d.files && p != [] ==> p[..|p| - 1] in d.dirs)
  }

  /** `os.path.exists`. */
  predicate Exists(d: Disk, p: Path)
  {
    p in d.dirs || p in d.files
  }

  /** A directory or file that exists stays so while directories are only added. */
  lemma ExistsKept(d: Disk, e: Disk, p: Path)
    requires Exists(d, p) && d.dirs <= e.dirs && d.files == e.files
    ensures Exists(e, p)
  {
  }

  /** `if not os.path.exists(p): os.mkdir(p)`: an existing entry (directory or not) is left
      alone; otherwise `p` becomes a directory when its parent is one, and the call fails
      (None) when it is not. Nothing else changes. */
  function MkDirIfMissing(d: Disk, p: Path): (r: Option<Disk>)
    ensures Exists(d, p) ==> r == Some(d)
    ensures !Exists(d, p) && p != [] && p[..|p| - 1] in d.dirs ==> r == Some(Disk(d.dirs + {p}, d.files))
    ensures !Exists(d, p) && !(p != [] && p[..|p| - 1] in d.dirs) ==> r.None?
  {
    if Exists(d, p) then Some(d)
    else if p != [] && p[..|p| - 1] in d.dirs then Some(Disk(d.dirs + {p}, d.files))
    else None
  }

  /** Creating a folder when missing is idempotent: a second call finds it and changes nothing. */
  lemma {:induction false} MkDirIfMissingIdempotent(d: Disk, p: Path)
    requires MkDirIfMissing(d, p).Some?
    ensures MkDirIfMissing(MkDirIfMissing(d, p).value, p) == MkDirIfMissing(d, p)
    ensures Exists(MkDirIfMissing(d, p).value, p)
  {
  }

  /** A successful creation keeps the tree well formed. */
  lemma MkDirIfMissingValid(d: Disk, p: Path)
    requires Valid(d) && MkDirIfMissing(d, p).Some?
    ensures Valid(MkDirIfMissing(d, p).value)
  {
  }

  /** Every ancestor of `p`, and `p` itself. */
  function Prefixes(p: Path): set<Path>
  {
    set k | 0 <= k <= |p| :: p[..k]
  }

  /** Some ancestor of `p` (or `p` itself) exists and is not a directory. */
  predicate BlockedByFile(d: Disk, p: Path)
  {
    exists k :: 0 <= k <= |p| && p[..k] in d.files
  }

  /** `os.makedirs(p)` without `exist_ok`: creates `p` and every missing ancestor, and
      fails when `p` already exists (even as a directory) or when one of its ancestors
      exists as a non-directory. */
  function MakeDirs(d: Disk, p: Path): (r: Option<Disk>)
    ensures r.Some? <==> !Exists(d, p) && !BlockedByFile(d, p)
    ensures r.Some? ==> r.value == Disk(d.dirs + Prefixes(p), d.files)
  {
    if Exists(d, p) || BlockedByFile(d, p) then None else Some(Disk(d.dirs + Prefixes(p), d.files))
  }

  /** Why `check_folder` ended the run. */
  datatype FolderError =
    | InvalidDownloadFolder  // the path exists and is not a directory
    | CannotCreateFolder     // `os.makedirs` failed

  /** What `check_folder` leaves behind: the disk, the working directory, and an error
      when it ended the run. */
  datatype Checked = Checked(disk: Disk, cwd: Path, error: Option<FolderError>)

  /** `check_folder(p)`: an existing directory is reused, an existing non-directory is
      fatal, a missing path is created with its ancestors; on success the working directory
      becomes the folder (`os.chdir`). */
  function CheckFolder(d: Disk, cwd: Path, p: PathArg): (c: Checked)
  {
    var q := Locate(cwd, p);
    if q in d.dirs then Checked(d, q, None)
    else if q in d.files then Checked(d, cwd, Some(InvalidDownloadFolder))
    else match MakeDirs(d, q)
      case None => Checked(d, cwd, Some(CannotCreateFolder))
      case Some(d') => Checked(d', q, None)
  }

  /** The three-way decision of `check_folder`, and what it leaves unchanged: a directory is
      reused without any change, a non-directory ends the run without any change, and a
      missing path is created (with its missing ancestors, and nothing else) unless an
      ancestor is a non-directory. On success the working directory is the folder and
      the folder is a directory; nothing is ever removed, and non-directory entries never change. */
  lemma {:induction false} CheckFolderOutcome(d: Disk, cwd: Path, p: PathArg)
    ensures var c := CheckFolder(d, cwd, p); var q := Locate(cwd, p);
      && c.disk.files == d.files
      && d.dirs <= c.disk.dirs
      && c.disk.dirs <= d.dirs + Prefixes(q)
      && (q in d.dirs ==> c == Checked(d, q, None))
      && (q in d.files && q !in d.dirs ==> c == Checked(d, cwd, Some(InvalidDownloadFolder)))
      && (!Exists(d, q) ==> (c.error.None? <==> !BlockedByFile(d, q)))
      && (c.error.None? ==> c.cwd == q && q in c.disk.dirs)
      && (c.error.Some? ==> c.disk == d && c.cwd == cwd)
  {
    var q := Locate(cwd, p);
    if !Exists(d, q) && !BlockedByFile(d, q) {
      assert q == q[..|q|];
    }
  }

  /** Checking the same folder twice does no more than checking it once. */
  lemma CheckFolderIdempotent(d: Disk, cwd: Path, p: Path)
    requires CheckFolder(d, cwd, Abs(p)).error.None?
    ensures var c := CheckFolder(d, cwd, Abs(p)); CheckFolder(c.disk, c.cwd, Abs(p)) == c
  {
    CheckFolderOutcome(d, cwd, Abs(p));
  }

  /** A successful `check_folder` keeps the tree well formed. */
  lemma {:induction false} CheckFolderValid(d: Disk, cwd: Path, p: PathArg)
    requires Valid(d) && CheckFolder(d, cwd, p).error.None?
    ensures Valid(CheckFolder(d, cwd, p).disk)
  {
    var q := Locate(cwd, p);
    var d' := CheckFolder(d, cwd, p).disk;
    if !Exists(d, q) {
      assert d'.dirs == d.dirs + Prefixes(q);
      forall r | r in d'.dirs && r != [] ensures r[..|r| - 1] in d'.dirs {
        if r in Prefixes(q) {
          var k :| 0 <= k <= |q| && r == q[..k];
          assert r[..|r| - 1] == q[..k - 1];
        }
      }
      forall r | r in d'.dirs ensures r !in d'.files {
        if r in Prefixes(q) {
          var k :| 0 <= k <= |q| && r == q[..k];
        }
      }
    }
  }
}
