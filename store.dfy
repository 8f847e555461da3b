/** The store object (`Pramaana`): its root directory, its configuration and
    the filesystem it works on, with the operations that change the
    filesystem step by step (`new`, `edit`, `_handle_attachment`,
    `_process_exports`) and the ones that only read it (`find`, the watch
    directory lookup). Each operation is proved against the functions and
    predicates of StoreSpec. */
module Store {
  import opened Text
  import opened Paths
  import opened FileSystem
  import opened StoreSpec
  import opened StoreLaws

  class Pramaana {
    /** `config_dir` */
    const root: Path
    /** `self.config` */
    const cfg: Config
    /** The regular files of the filesystem. */
    var files: map<Path, FileEntry>
    /** The directories of the filesystem, "/" excepted. */
    var dirs: set<Path>

    function Disk(): Fs
      reads this
    {
      Fs(files, dirs)
    }

    ghost predicate Valid()
      reads this
    {
      Wf(Disk()) && root != [] && root in dirs
    }

    /** `Pramaana(config_dir)`: creates the root directory when it is missing. */
    constructor (root: Path, cfg: Config, disk: Fs)
      requires Wf(disk) && root != []
      requires MakeDirs(disk, root).Ok?
      ensures Valid()
      ensures this.root == root && this.cfg == cfg
      ensures Disk() == MakeDirs(disk, root).value
    {
      MakeDirsWf(disk, root);
      var made := MakeDirs(disk, root).value;
      this.root := root;
      this.cfg := cfg;
      files := made.files;
      dirs := made.dirs;
    }

    /** `os.makedirs(p, exist_ok=True)` / `p.mkdir(parents=True)` */
    method MakeDirectories(p: Path) returns (st: Status)
      requires Valid()
      modifies this
      ensures Valid()
      ensures MakeDirs(old(Disk()), p).Ok? ==> st == Success && Disk() == MakeDirs(old(Disk()), p).value
      ensures MakeDirs(old(Disk()), p).Err? ==> st == Failure(OsFailure(p)) && Disk() == old(Disk())
    {
      var r := MakeDirs(Disk(), p);
      if r.Err? {
        return Failure(r.error);
      }
      MakeDirsWf(Disk(), p);
      dirs := r.value.dirs;
      return Success;
    }

    /** `open(p, 'w').write(text)` */
    method Write(p: Path, text: string, now: int) returns (st: Status)
      requires Valid()
      modifies this
      ensures Valid()
      ensures WriteFile(old(Disk()), p, text, now).Ok? ==> st == Success && Disk() == WriteFile(old(Disk()), p, text, now).value
      ensures WriteFile(old(Disk()), p, text, now).Err? ==> st == Failure(OsFailure(p)) && Disk() == old(Disk())
    {
      var r := WriteFile(Disk(), p, text, now);
      if r.Err? {
        return Failure(r.error);
      }
      files := r.value.files;
      return Success;
    }

    /** The newest file of the watch directory (`sorted(watch_dir.glob('*'),
        key=mtime, reverse=True)[0]`), or the error raised when the directory
        is missing or holds no file. */
    method LatestInWatchDir() returns (r: Result<Path>)
      requires Valid()
      ensures !Exists(Disk(), cfg.watchDir) ==> r == Err(WatchDirNotFound(cfg.watchDir))
      ensures Exists(Disk(), cfg.watchDir) && FilesIn(Disk(), cfg.watchDir) == {} ==> r == Err(WatchDirEmpty(cfg.watchDir))
      ensures Exists(Disk(), cfg.watchDir) && FilesIn(Disk(), cfg.watchDir) != {} ==>
                r.Ok? && IsLatest(Disk(), cfg.watchDir, r.value)
    {
      if !Exists(Disk(), cfg.watchDir) {
        return Err(WatchDirNotFound(cfg.watchDir));
      }
      var candidates := FilesIn(Disk(), cfg.watchDir);
      if candidates == {} {
        return Err(WatchDirEmpty(cfg.watchDir));
      }
      var best :| best in candidates;
      var pending := candidates - {best};
      while pending != {}
        invariant pending <= candidates && best in candidates
        invariant forall q :: q in candidates && q !in pending ==> files[q].mtime <= files[best].mtime
        decreases pending
      {
        var q :| q in pending;
        if files[q].mtime > files[best].mtime {
          best := q;
        }
        pending := pending - {q};
      }
      return Ok(best);
    }

    /** `shutil.copy2(src, ref_dir / src.name)`: content and modification
        time are copied; copying a file onto itself fails. */
    method Copy2(src: Path, refDir: Path) returns (st: Status)
      requires Valid() && src != [] && src in files
      modifies this
      ensures Valid()
      ensures (Disk(), st) == Place(old(Disk()), "cp", src, refDir)
    {
      PlaceCp(Disk(), src, refDir);
      var dest := refDir + [Basename(src)];
      assert Parent(dest) == refDir;
      if dest in dirs || !IsDir(Disk(), refDir) || dest == src {
        return Failure(OsFailure(dest));
      }
      AddFileWf(Disk(), dest, files[src]);
      files := files[dest := files[src]];
      return Success;
    }

    /** `shutil.move(src, ref_dir / src.name)` for a regular file: renamed
        over any file already there. */
    method Move(src: Path, refDir: Path) returns (st: Status)
      requires Valid() && src != [] && src in files
      modifies this
      ensures Valid()
      ensures (Disk(), st) == Place(old(Disk()), "mv", src, refDir)
    {
      PlaceMv(Disk(), src, refDir);
      var dest := refDir + [Basename(src)];
      assert Parent(dest) == refDir;
      if dest in dirs || !IsDir(Disk(), refDir) {
        return Failure(OsFailure(dest));
      }
      var entry := files[src];
      RemoveFileWf(Disk(), src);
      AddFileWf(Fs(files - {src}, dirs), dest, entry);
      files := (files - {src})[dest := entry];
      return Success;
    }

    /** `os.link(src, ref_dir / src.name)`: fails when the destination exists. */
    method Link(src: Path, refDir: Path) returns (st: Status)
      requires Valid() && src != [] && src in files
      modifies this
      ensures Valid()
      ensures (Disk(), st) == Place(old(Disk()), "ln", src, refDir)
    {
      PlaceLn(Disk(), src, refDir);
      var dest := refDir + [Basename(src)];
      assert Parent(dest) == refDir;
      if dest in dirs || !IsDir(Disk(), refDir) || dest in files {
        return Failure(OsFailure(dest));
      }
      AddFileWf(Disk(), dest, files[src]);
      files := files[dest := files[src]];
      return Success;
    }

    /** `_handle_attachment(ref_dir, attachment)`. `src` is the file that was
        resolved. */
    method HandleAttachment(refDir: Path, attachment: Option<Attachment>) returns (st: Status, src: Path)
      requires Valid()
      modifies this
      ensures Valid()
      ensures attachment.None? ==> st == Success && Disk() == old(Disk())
      ensures attachment.Some? ==>
                && AttachChoice(old(Disk()), cfg, attachment.value, src)
                && (Disk(), st) == Attach(old(Disk()), cfg, refDir, attachment.value, src)
    {
      src := [];
      if attachment.None? {
        return Success, src;
      }
      var a := attachment.value;
      if a.Latest? {
        var latest := LatestInWatchDir();
        if latest.Err? {
          forall q | q in FilesIn(Disk(), cfg.watchDir) ensures IsDir(Disk(), cfg.watchDir) {
          }
          return Failure(latest.error), src;
        }
        src := latest.value;
      } else {
        src := a.path;
      }
      if !Exists(Disk(), src) {
        return Failure(AttachmentNotFound(src)), src;
      }
      st := PlaceAttachment(cfg.attachmentMode, src, refDir);
    }

    /** The last step of `_handle_attachment`: copy, move or link `src` into
        `refDir` under its own name, as the configured mode says. */
    method PlaceAttachment(mode: string, src: Path, refDir: Path) returns (st: Status)
      requires Valid()
      modifies this
      ensures Valid()
      ensures (Disk(), st) == Place(old(Disk()), mode, src, refDir)
    {
      if !ValidMode(mode) {
        return Failure(InvalidAttachmentMode(mode));
      }
      if src == [] || src !in files {
        return Failure(OsFailure(src));
      }
      if mode == "cp" {
        st := Copy2(src, refDir);
      } else if mode == "mv" {
        st := Move(src, refDir);
      } else {
        st := Link(src, refDir);
      }
    }

    /** One source of one export: `source_dir.rglob("*.<fmt>")`, reading
        each file found; a source that is not a directory yields nothing. */
    method ReadAllUnder(source: string) returns (refs: seq<string>, walk: seq<Path>)
      requires Valid()
      ensures SourceWalk(Disk(), root, cfg.storageFormat, source, walk)
      ensures refs == Contents(Disk(), walk)
    {
      refs, walk := [], [];
      var d := RefDir(root, source);
      if !IsDir(Disk(), d) {
        return;
      }
      var found := FilesUnder(Disk(), cfg.storageFormat, d);
      var pending := found;
      while pending != {}
        invariant pending <= found
        invariant forall p :: p in walk <==> p in found && p !in pending
        invariant forall i, j :: 0 <= i < j < |walk| ==> walk[i] != walk[j]
        invariant refs == Contents(Disk(), walk)
        decreases pending
      {
        var f :| f in pending;
        walk := walk + [f];
        refs := refs + [files[f].content];
        pending := pending - {f};
      }
    }

    /** The collection loop of one export: `all_refs` over all its sources,
        in source order. */
    method CollectRefs(sources: seq<string>) returns (refs: seq<string>, walks: seq<seq<Path>>)
      requires Valid()
      ensures ExportWalk(Disk(), root, cfg.storageFormat, sources, walks)
      ensures refs == Gather(Disk(), walks)
    {
      refs, walks := [], [];
      ghost var fs := Disk();
      for j := 0 to |sources|
        invariant ExportWalk(fs, root, cfg.storageFormat, sources[..j], walks)
        invariant refs == Gather(fs, walks)
      {
        var d := RefDir(root, sources[j]);
        var found: seq<string> := [];
        var walk: seq<Path> := [];
        if Exists(Disk(), d) {
          found, walk := ReadAllUnder(sources[j]);
        }
        ExportWalkStep(fs, root, cfg.storageFormat, sources, j, walks, walk);
        GatherAppend(fs, walks, walk);
        refs := refs + found;
        walks := walks + [walk];
      }
      assert sources[..|sources|] == sources;
    }

    /** The writing step of one export. */
    method WriteExport(exp: Export, refs: seq<string>, now: int) returns (st: Status)
      requires Valid()
      modifies this
      ensures Valid()
      ensures (Disk(), st) == ExportOne(old(Disk()), exp, refs, now)
    {
      if refs == [] {
        return Success;
      }
      var dest := exp.destination;
      if dest == [] {
        return Failure(OsFailure(dest));
      }
      st := MakeDirectories(Parent(dest));
      if st.Failure? {
        return;
      }
      st := Write(dest, Join("\n", refs), now);
    }

    /** `_process_exports`: every configured export, in order. */
    method ProcessExports(now: int) returns (st: Status, walks: seq<seq<seq<Path>>>)
      requires Valid()
      modifies this
      ensures Valid()
      ensures ExportsRun(old(Disk()), root, cfg, now, walks, Disk(), st)
    {
      walks := [];
      var i := 0;
      while i < |cfg.exports|
        invariant 0 <= i <= |cfg.exports| && |walks| == i
        invariant Valid()
        invariant WalksFit(old(Disk()), root, cfg.storageFormat, now, cfg.exports[..i], walks)
        invariant (Disk(), Success) == RunExports(old(Disk()), now, cfg.exports[..i], walks)
      {
        var exp := cfg.exports[i];
        var refs, w := CollectRefs(exp.sources);
        ghost var cur := Disk();
        st := WriteExport(exp, refs, now);
        RunExportsStep(old(Disk()), root, cfg.storageFormat, now, cfg.exports, i, walks, w, cur, Disk(), st);
        walks := walks + [w];
        if st.Failure? {
          return;
        }
        i := i + 1;
      }
      st := Success;
    }

    /** The first part of `new`: refuse an existing path, make the
        directory, obtain the content, write the metadata file. */
    method CreateEntry(refPath: string, sourceUrl: Option<string>, bibtex: Option<string>,
                       fetch: string -> Result<string>, editor: string -> string, now: int)
      returns (st: Status)
      requires Valid()
      modifies this
      ensures Valid()
      ensures (Disk(), st) == NewPrefix(old(Disk()), root, cfg.storageFormat, refPath, sourceUrl, bibtex, fetch, editor, now)
    {
      var refDir := RefDir(root, refPath);
      if Exists(Disk(), refDir) {
        return Failure(AlreadyExists(refPath));
      }
      st := MakeDirectories(refDir);
      if st.Failure? {
        return;
      }
      var content := ChooseContent(sourceUrl, bibtex, fetch, editor, EditorTemplate);
      if content.Err? {
        return Failure(content.error);
      }
      assert Parent(refDir + [MetaName(cfg.storageFormat)]) == refDir;
      st := Write(refDir + [MetaName(cfg.storageFormat)], content.value, now);
    }

    /** The first part of `edit`: refuse a missing path, read the current
        metadata ("" when there is none), obtain the content, overwrite. */
    method RewriteEntry(refPath: string, sourceUrl: Option<string>, bibtex: Option<string>,
                        fetch: string -> Result<string>, editor: string -> string, now: int)
      returns (st: Status)
      requires Valid()
      modifies this
      ensures Valid()
      ensures (Disk(), st) == EditPrefix(old(Disk()), root, cfg.storageFormat, refPath, sourceUrl, bibtex, fetch, editor, now)
    {
      var refDir := RefDir(root, refPath);
      if !Exists(Disk(), refDir) {
        return Failure(NotFound(refPath));
      }
      var meta := refDir + [MetaName(cfg.storageFormat)];
      if meta in dirs {
        return Failure(OsFailure(meta));
      }
      var existing := "";
      if meta in files {
        existing := files[meta].content;
      }
      var content := ChooseContent(sourceUrl, bibtex, fetch, editor, existing);
      if content.Err? {
        return Failure(content.error);
      }
      st := Write(meta, content.value, now);
    }

    /** What `new` and `edit` share after writing the metadata: the
        attachment when `handle`, then the exports. */
    method Complete(st1: Status, refDir: Path, handle: bool, attachment: Option<Attachment>, now: int)
      returns (st: Status, ghost src: Path, ghost attached: Fs, walks: seq<seq<seq<Path>>>)
      requires Valid()
      requires handle ==> attachment.Some?
      modifies this
      ensures Valid()
      ensures Finish(old(Disk()), st1, root, cfg, refDir, handle,
                     if attachment.Some? then attachment.value else Latest,
                     src, attached, walks, now, Disk(), st)
    {
      src, walks := [], [];
      if st1.Failure? {
        st, attached := st1, Disk();
        return;
      }
      if handle {
        st, src := HandleAttachment(refDir, attachment);
        if st.Failure? {
          attached := Disk();
          return;
        }
      }
      attached := Disk();
      st, walks := ProcessExports(now);
    }

    /** `new(ref_path, source_url, attachment, bibtex)`. The translation
        server and the editor are the functions `fetch` and `editor`; `now`
        is the clock. Any requested attachment, `Latest` included, is handled. */
    method New(refPath: string, sourceUrl: Option<string>, attachment: Option<Attachment>,
               bibtex: Option<string>, fetch: string -> Result<string>,
               editor: string -> string, now: int)
      returns (st: Status, ghost written: Fs, ghost src: Path, ghost attached: Fs,
               walks: seq<seq<seq<Path>>>)
      requires Valid()
      modifies this
      ensures Valid()
      ensures written == NewPrefix(old(Disk()), root, cfg.storageFormat, refPath, sourceUrl, bibtex, fetch, editor, now).0
      ensures Finish(written,
                     NewPrefix(old(Disk()), root, cfg.storageFormat, refPath, sourceUrl, bibtex, fetch, editor, now).1,
                     root, cfg, RefDir(root, refPath),
                     attachment.Some?, if attachment.Some? then attachment.value else Latest,
                     src, attached, walks, now, Disk(), st)
    {
      var st1 := CreateEntry(refPath, sourceUrl, bibtex, fetch, editor, now);
      written := Disk();
      st, src, attached, walks := Complete(st1, RefDir(root, refPath), attachment.Some?, attachment, now);
    }

    /** `edit(ref_path, source_url, attachment, bibtex)`: `Latest`, the empty
        string, is skipped, because the test is on truthiness. */
    method Edit(refPath: string, sourceUrl: Option<string>, attachment: Option<Attachment>,
                bibtex: Option<string>, fetch: string -> Result<string>,
                editor: string -> string, now: int)
      returns (st: Status, ghost written: Fs, ghost src: Path, ghost attached: Fs,
               walks: seq<seq<seq<Path>>>)
      requires Valid()
      modifies this
      ensures Valid()
      ensures written == EditPrefix(old(Disk()), root, cfg.storageFormat, refPath, sourceUrl, bibtex, fetch, editor, now).0
      ensures Finish(written,
                     EditPrefix(old(Disk()), root, cfg.storageFormat, refPath, sourceUrl, bibtex, fetch, editor, now).1,
                     root, cfg, RefDir(root, refPath),
                     attachment.Some? && attachment.value.Given?, if attachment.Some? then attachment.value else Latest,
                     src, attached, walks, now, Disk(), st)
    {
      var st1 := RewriteEntry(refPath, sourceUrl, bibtex, fetch, editor, now);
      written := Disk();
      st, src, attached, walks := Complete(st1, RefDir(root, refPath), attachment.Some? && attachment.value.Given?, attachment, now);
    }

    /** `find(query)`: every `*.<fmt>` file under the root whose lower-cased
        text contains the lower-cased query, once each. */
    method Find(query: string) returns (results: seq<Hit>)
      requires Valid()
      ensures forall h :: h in results ==> IsHit(Disk(), root, cfg.storageFormat, query, h)
      ensures forall f :: Matches(Disk(), root, cfg.storageFormat, query, f) ==>
                exists h :: h in results && h.file == f
      ensures forall i, j :: 0 <= i < j < |results| ==> results[i].file != results[j].file
    {
      results := [];
      var q := Lower(query);
      var found := FilesUnder(Disk(), cfg.storageFormat, root);
      var pending := found;
      while pending != {}
        invariant pending <= found
        invariant forall h :: h in results ==> IsHit(Disk(), root, cfg.storageFormat, query, h) && h.file !in pending
        invariant forall f :: f in found && f !in pending && Matches(Disk(), root, cfg.storageFormat, query, f) ==>
                    exists h :: h in results && h.file == f
        invariant forall i, j :: 0 <= i < j < |results| ==> results[i].file != results[j].file
        decreases pending
      {
        var f :| f in pending;
        var content := files[f].content;
        if Contains(Lower(content), q) {
          results := results + [Hit(Parent(f)[|root|..], content, f)];
        }
        pending := pending - {f};
      }
    }
  }
}
