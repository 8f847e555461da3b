/** The filesystem the store lives on, as a value: regular files (content and
    modification time) and directories, keyed by absolute path. Also the errors
    the store raises and the OS calls it makes (`mkdir`, `os.makedirs`, `open(.., 'w')`). */
module FileSystem {
  import opened Paths

  /** Every failure the store reports. The first seven are the PramaanaError
      messages of the store; OsFailure stands for an OSError raised by the
      operating system call itself (writing over a directory, a file where a
      directory is needed). */
  datatype Error =
    | AlreadyExists(refPath: string)
    | NotFound(refPath: string)
    | WatchDirNotFound(dir: Path)
    | WatchDirEmpty(dir: Path)
    | AttachmentNotFound(path: Path)
    | InvalidAttachmentMode(mode: string)
    | FetchFailed(reason: string)
    | OsFailure(path: Path)

  datatype Result<T> = Ok(value: T) | Err(error: Error)

  /** The outcome of an operation that returns nothing or raises. */
  datatype Status = Success | Failure(error: Error)

  datatype FileEntry = FileEntry(content: string, mtime: int)

  datatype Fs = Fs(files: map<Path, FileEntry>, dirs: set<Path>)

  /** The root "/" is always a directory and is not listed in `dirs`. */
  predicate IsDir(fs: Fs, p: Path)
  {
    p == [] || p in fs.dirs
  }

  /** `Path.exists()` */
  predicate Exists(fs: Fs, p: Path)
  {
    p == [] || p in fs.files || p in fs.dirs
  }

  /** A well-formed tree: nothing is both a file and a directory, and every
      entry other than the root sits in a directory. */
  ghost predicate Wf(fs: Fs)
  {
    && fs.files.Keys !! fs.dirs
    && (forall p :: p in fs.files ==> p != [] && IsDir(fs, Parent(p)))
    && (forall p :: p in fs.dirs ==> p != [] && IsDir(fs, Parent(p)))
  }

  /** `p` and all its ancestors except the root. */
  function Ancestors(p: Path): set<Path>
  {
    set k | 1 <= k <= |p| :: p[..k]
  }

  /** `Path.mkdir(parents=True)` on a missing path and `os.makedirs(p,
      exist_ok=True)`: every missing directory on the way to `p` is created;
      the call fails, creating nothing, when one of them is a regular file. */
  function MakeDirs(fs: Fs, p: Path): (r: Result<Fs>)
    ensures r.Ok? <==> forall q :: q in Ancestors(p) ==> q !in fs.files
    ensures r.Ok? ==> r.value.files == fs.files && r.value.dirs == fs.dirs + Ancestors(p)
    ensures r.Ok? ==> IsDir(r.value, p) && fs.dirs <= r.value.dirs
    ensures r.Err? ==> r.error == OsFailure(p)
  {
    if exists k | 1 <= k <= |p| :: p[..k] in fs.files then Err(OsFailure(p))
    else
      assert |p| > 0 ==> p[..|p|] == p;
      Ok(Fs(fs.files, fs.dirs + Ancestors(p)))
  }

  /** Making directories keeps the tree well formed. */
  lemma {:induction false} MakeDirsWf(fs: Fs, p: Path)
    requires MakeDirs(fs, p).Ok?
    ensures Wf(fs) ==> Wf(MakeDirs(fs, p).value)
  {
    var fs' := MakeDirs(fs, p).value;
    if !Wf(fs) { return; }
    forall q | q in fs'.dirs ensures q != [] && IsDir(fs', Parent(q)) {
      if q !in fs.dirs {
        var k :| 1 <= k <= |p| && q == p[..k];
        assert Parent(q) == p[..k - 1];
        if k > 1 {
          assert p[..k - 1] in Ancestors(p);
        }
      }
    }
  }

  /** `open(p, 'w').write(text)` at time `now`: replaces the whole file, or
      creates it; fails when `p` is a directory or its parent is not one. */
  function WriteFile(fs: Fs, p: Path, text: string, now: int): (r: Result<Fs>)
    ensures r.Ok? <==> p != [] && p !in fs.dirs && IsDir(fs, Parent(p))
    ensures r.Ok? ==> r.value.files == fs.files[p := FileEntry(text, now)] && r.value.dirs == fs.dirs
    ensures r.Ok? && Wf(fs) ==> Wf(r.value)
    ensures r.Err? ==> r.error == OsFailure(p)
  {
    if p == [] || p in fs.dirs || !IsDir(fs, Parent(p)) then Err(OsFailure(p))
    else Ok(Fs(fs.files[p := FileEntry(text, now)], fs.dirs))
  }

  /** The name of the metadata file of every reference: `reference.<storage_format>`. */
  function MetaName(fmt: string): string
  {
    "reference." + fmt
  }

  /** The glob pattern `*.<fmt>` on a file name. */
  predicate MatchesFormat(fmt: string, name: string)
  {
    |name| >= |fmt| + 1 && name[|name| - |fmt| - 1..] == "." + fmt
  }

  lemma MetaNameMatches(fmt: string)
    ensures MatchesFormat(fmt, MetaName(fmt))
  {
    var n := MetaName(fmt);
    assert n[|n| - |fmt| - 1..] == "." + fmt;
  }

  /** What `d.rglob("*.<fmt>")` enumerates: the regular files at any depth
      below `d` whose name matches. */
  function FilesUnder(fs: Fs, fmt: string, d: Path): set<Path>
  {
    set p | p in fs.files && d < p && MatchesFormat(fmt, Basename(p))
  }

  /** What `d.glob('*')` enumerates among regular files: those directly in `d`. */
  function FilesIn(fs: Fs, d: Path): set<Path>
  {
    set p | p in fs.files && p != [] && Parent(p) == d
  }

  /** `q` is a file of `d` with the greatest modification time there. */
  ghost predicate IsLatest(fs: Fs, d: Path, q: Path)
  {
    && q in FilesIn(fs, d)
    && forall p :: p in FilesIn(fs, d) ==> fs.files[p].mtime <= fs.files[q].mtime
  }
}
