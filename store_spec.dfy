/** The reference store's operations as functions of the filesystem they act
    on: creating and editing a reference, placing an attachment, and
    rebuilding the configured exports. Where the store enumerates a directory
    (`glob`, `rglob`) the order is not specified, so the functions here take
    the enumeration as an argument and the predicates below say which
    enumerations are possible. */
module StoreSpec {
  import opened Text
  import opened Paths
  import opened FileSystem

  datatype Option<T> = None | Some(value: T)

  /** Python truthiness of an optional string: present and not empty. */
  predicate Truthy(o: Option<string>)
  {
    o.Some? && o.value != ""
  }

  /** One entry of the `exports` list: source directories relative to the
      store root, and the file the combined references are written to. */
  datatype Export = Export(sources: seq<string>, destination: Path)

  /** The configuration fields the store reads. `attachmentMode` is kept as
      the configured text: only "cp", "mv" and "ln" are accepted, and only
      when an attachment is placed. */
  datatype Config = Config(storageFormat: string, attachmentMode: string, watchDir: Path, exports: seq<Export>)

  /** The configuration written on first use. */
  function DefaultConfig(home: Path): Config
  {
    Config("bib", "cp", home + ["Downloads"], [])
  }

  /** The text the editor opens with when a reference is created by hand. */
  const EditorTemplate: string := "@article{key,\n  title = {Enter title},\n  author = {Author Name},\n  year = {2024}\n}"

  /** `<config_dir>/<ref_path>/reference.<storage_format>` */
  function MetaFile(root: Path, fmt: string, refPath: string): Path
  {
    RefDir(root, refPath) + [MetaName(fmt)]
  }

  /** Where new metadata comes from: the translation server when a URL is
      given, else the BibTeX text when given, else the editor, started on `draft`. */
  function ChooseContent(sourceUrl: Option<string>, bibtex: Option<string>,
                         fetch: string -> Result<string>, editor: string -> string,
                         draft: string): Result<string>
  {
    if Truthy(sourceUrl) then fetch(sourceUrl.value)
    else if Truthy(bibtex) then Ok(bibtex.value)
    else Ok(editor(draft))
  }

  /** `new` up to the attachment: refuse an existing path, create the
      directory, obtain the content, write the metadata file. */
  function NewPrefix(fs: Fs, root: Path, fmt: string, refPath: string,
                     sourceUrl: Option<string>, bibtex: Option<string>,
                     fetch: string -> Result<string>, editor: string -> string,
                     now: int): (r: (Fs, Status))
    requires Wf(fs)
    ensures Exists(fs, RefDir(root, refPath)) ==> r == (fs, Failure(AlreadyExists(refPath)))
    ensures !Exists(fs, RefDir(root, refPath)) && MakeDirs(fs, RefDir(root, refPath)).Ok? ==>
              IsDir(r.0, RefDir(root, refPath))
    ensures r.1.Success? <==>
              && !Exists(fs, RefDir(root, refPath))
              && MakeDirs(fs, RefDir(root, refPath)).Ok?
              && ChooseContent(sourceUrl, bibtex, fetch, editor, EditorTemplate).Ok?
    ensures r.1.Success? ==>
              r.0.files == fs.files[MetaFile(root, fmt, refPath) :=
                FileEntry(ChooseContent(sourceUrl, bibtex, fetch, editor, EditorTemplate).value, now)]
    ensures r.1.Failure? ==> r.0.files == fs.files
    ensures !Exists(fs, RefDir(root, refPath)) && MakeDirs(fs, RefDir(root, refPath)).Err? ==>
              r == (fs, Failure(OsFailure(RefDir(root, refPath))))
    ensures !Exists(fs, RefDir(root, refPath)) && MakeDirs(fs, RefDir(root, refPath)).Ok? ==>
              r.0.dirs == fs.dirs + Ancestors(RefDir(root, refPath))
    ensures !Exists(fs, RefDir(root, refPath)) && MakeDirs(fs, RefDir(root, refPath)).Ok?
            && ChooseContent(sourceUrl, bibtex, fetch, editor, EditorTemplate).Err? ==>
              r.1 == Failure(ChooseContent(sourceUrl, bibtex, fetch, editor, EditorTemplate).error)
    ensures fs.dirs <= r.0.dirs
    ensures Wf(r.0)
  {
    var dir := RefDir(root, refPath);
    if Exists(fs, dir) then (fs, Failure(AlreadyExists(refPath)))
    else match MakeDirs(fs, dir)
      case Err(e) => (fs, Failure(e))
      case Ok(fs1) =>
        MakeDirsWf(fs, dir);
        match ChooseContent(sourceUrl, bibtex, fetch, editor, EditorTemplate)
        case Err(e) => (fs1, Failure(e))
        case Ok(text) =>
          assert Parent(dir + [MetaName(fmt)]) == dir;
          match WriteFile(fs1, dir + [MetaName(fmt)], text, now)
          case Err(e) => (fs1, Failure(e))
          case Ok(fs2) => (fs2, Success)
  }

  /** `edit` up to the attachment: refuse a missing path, read the current
      metadata ("" when there is none), obtain the content, overwrite the file. */
  function EditPrefix(fs: Fs, root: Path, fmt: string, refPath: string,
                      sourceUrl: Option<string>, bibtex: Option<string>,
                      fetch: string -> Result<string>, editor: string -> string,
                      now: int): (r: (Fs, Status))
    ensures !Exists(fs, RefDir(root, refPath)) ==> r == (fs, Failure(NotFound(refPath)))
    ensures r.1.Failure? ==> r.0 == fs
    ensures r.1.Success? ==>
              var meta := MetaFile(root, fmt, refPath);
              var draft := if meta in fs.files then fs.files[meta].content else "";
              && ChooseContent(sourceUrl, bibtex, fetch, editor, draft).Ok?
              && r.0 == Fs(fs.files[meta := FileEntry(ChooseContent(sourceUrl, bibtex, fetch, editor, draft).value, now)], fs.dirs)
    ensures r.1.Success? <==>
              && Exists(fs, RefDir(root, refPath))
              && IsDir(fs, RefDir(root, refPath))
              && MetaFile(root, fmt, refPath) !in fs.dirs
              && ChooseContent(sourceUrl, bibtex, fetch, editor,
                   if MetaFile(root, fmt, refPath) in fs.files then fs.files[MetaFile(root, fmt, refPath)].content else "").Ok?
    ensures Wf(fs) ==> Wf(r.0)
  {
    var dir := RefDir(root, refPath);
    var meta := dir + [MetaName(fmt)];
    if !Exists(fs, dir) then (fs, Failure(NotFound(refPath)))
    else if meta in fs.dirs then (fs, Failure(OsFailure(meta)))
    else
      var draft := if meta in fs.files then fs.files[meta].content else "";
      match ChooseContent(sourceUrl, bibtex, fetch, editor, draft)
      case Err(e) => (fs, Failure(e))
      case Ok(text) =>
        match WriteFile(fs, meta, text, now)
        case Err(e) => (fs, Failure(e))
        case Ok(fs2) => (fs2, Success)
  }

  /** The transfer modes the store accepts. */
  predicate ValidMode(mode: string)
  {
    mode == "cp" || mode == "mv" || mode == "ln"
  }

  /** Putting the resolved attachment `src` into `refDir` under its own name,
      by copy, move or hard link. It succeeds exactly when the mode is known,
      `src` is a regular file, the destination is not a directory and
      `refDir` is one, and neither the copy is onto the source itself nor the
      link onto an existing file. */
  function Place(fs: Fs, mode: string, src: Path, refDir: Path): (r: (Fs, Status))
    ensures !ValidMode(mode) ==> r == (fs, Failure(InvalidAttachmentMode(mode)))
    ensures r.1.Success? <==>
              && ValidMode(mode) && src != [] && src in fs.files
              && var dest := refDir + [Basename(src)];
              && dest !in fs.dirs && IsDir(fs, refDir)
              && (mode == "cp" ==> dest != src)
              && (mode == "ln" ==> dest !in fs.files)
    ensures r.1.Failure? ==> r.0 == fs
    ensures r.1.Success? ==>
              && src in fs.files && src != []
              && var dest := refDir + [Basename(src)];
              && dest in r.0.files && r.0.files[dest] == fs.files[src]
              && r.0.dirs == fs.dirs
              && (mode == "mv" && src != dest ==> src !in r.0.files)
              && (mode != "mv" ==> src in r.0.files && r.0.files[src] == fs.files[src])
  {
    if !ValidMode(mode) then (fs, Failure(InvalidAttachmentMode(mode)))
    else if src == [] || src !in fs.files then (fs, Failure(OsFailure(src)))
    else
      var dest := refDir + [Basename(src)];
      var entry := fs.files[src];
      if dest in fs.dirs || !IsDir(fs, refDir) then (fs, Failure(OsFailure(dest)))
      else if mode == "cp" then
        if dest == src then (fs, Failure(OsFailure(dest)))
        else (Fs(fs.files[dest := entry], fs.dirs), Success)
      else if mode == "mv" then (Fs((fs.files - {src})[dest := entry], fs.dirs), Success)
      else if dest in fs.files then (fs, Failure(OsFailure(dest)))
      else (Fs(fs.files[dest := entry], fs.dirs), Success)
  }

  /** `Place` for one mode, with the failing path named. */
  lemma PlaceCp(fs: Fs, src: Path, refDir: Path)
    requires src != [] && src in fs.files
    ensures var dest := refDir + [Basename(src)];
      Place(fs, "cp", src, refDir) ==
        if dest in fs.dirs || !IsDir(fs, refDir) || dest == src then (fs, Failure(OsFailure(dest)))
        else (Fs(fs.files[dest := fs.files[src]], fs.dirs), Success)
  {
  }

  lemma PlaceMv(fs: Fs, src: Path, refDir: Path)
    requires src != [] && src in fs.files
    ensures var dest := refDir + [Basename(src)];
      Place(fs, "mv", src, refDir) ==
        if dest in fs.dirs || !IsDir(fs, refDir) then (fs, Failure(OsFailure(dest)))
        else (Fs((fs.files - {src})[dest := fs.files[src]], fs.dirs), Success)
  {
  }

  lemma PlaceLn(fs: Fs, src: Path, refDir: Path)
    requires src != [] && src in fs.files
    ensures var dest := refDir + [Basename(src)];
      Place(fs, "ln", src, refDir) ==
        if dest in fs.dirs || !IsDir(fs, refDir) || dest in fs.files then (fs, Failure(OsFailure(dest)))
        else (Fs(fs.files[dest := fs.files[src]], fs.dirs), Success)
  {
  }

  /** A requested attachment: `Latest` is the empty string ("the newest file
      of the watch directory"), `Given(p)` any other path. */
  datatype Attachment = Latest | Given(path: Path)

  /** The file the attachment step works on: the given path, or `listed`, the
      file the watch directory's listing put first. */
  function Source(a: Attachment, listed: Path): Path
  {
    if a.Latest? then listed else a.path
  }

  /** `_handle_attachment(refDir, a)` for a requested attachment `a`. */
  function Attach(fs: Fs, cfg: Config, refDir: Path, a: Attachment, listed: Path): (r: (Fs, Status))
    ensures a.Latest? && !Exists(fs, cfg.watchDir) ==> r == (fs, Failure(WatchDirNotFound(cfg.watchDir)))
    ensures a.Latest? && Exists(fs, cfg.watchDir) && FilesIn(fs, cfg.watchDir) == {} ==>
              r == (fs, Failure(WatchDirEmpty(cfg.watchDir)))
    ensures a.Given? && !Exists(fs, a.path) ==> r == (fs, Failure(AttachmentNotFound(a.path)))
    ensures a.Given? && Exists(fs, a.path) ==> r == Place(fs, cfg.attachmentMode, a.path, refDir)
    ensures a.Latest? && Exists(fs, cfg.watchDir) && FilesIn(fs, cfg.watchDir) != {} ==>
              r == if Exists(fs, listed) then Place(fs, cfg.attachmentMode, listed, refDir)
                   else (fs, Failure(AttachmentNotFound(listed)))
    ensures r.1.Failure? ==> r.0 == fs
    ensures r.1.Success? ==> r.0.dirs == fs.dirs
  {
    if a.Latest? && !Exists(fs, cfg.watchDir) then (fs, Failure(WatchDirNotFound(cfg.watchDir)))
    else if a.Latest? && FilesIn(fs, cfg.watchDir) == {} then (fs, Failure(WatchDirEmpty(cfg.watchDir)))
    else
      var s := Source(a, listed);
      if !Exists(fs, s) then (fs, Failure(AttachmentNotFound(s)))
      else Place(fs, cfg.attachmentMode, s, refDir)
  }

  lemma AddFileWf(fs: Fs, dest: Path, e: FileEntry)
    requires Wf(fs) && dest != [] && dest !in fs.dirs && IsDir(fs, Parent(dest))
    ensures Wf(Fs(fs.files[dest := e], fs.dirs))
  {
  }

  lemma RemoveFileWf(fs: Fs, src: Path)
    requires Wf(fs)
    ensures Wf(Fs(fs.files - {src}, fs.dirs))
  {
  }

  /** Placing an attachment touches no file other than its source and its
      destination. */
  lemma {:induction false} PlaceTouchesNothingElse(fs: Fs, mode: string, src: Path, refDir: Path, q: Path)
    requires Place(fs, mode, src, refDir).1.Success?
    requires src != [] && q != src && q != refDir + [Basename(src)]
    ensures q in Place(fs, mode, src, refDir).0.files <==> q in fs.files
    ensures q in fs.files ==> Place(fs, mode, src, refDir).0.files[q] == fs.files[q]
  {
  }

  /** Placing an attachment keeps the tree well formed. */
  lemma {:induction false} PlaceWf(fs: Fs, mode: string, src: Path, refDir: Path)
    requires Wf(fs)
    ensures Wf(Place(fs, mode, src, refDir).0)
  {
    if ValidMode(mode) && src != [] && src in fs.files {
      var dest := refDir + [Basename(src)];
      assert Parent(dest) == refDir;
      if dest !in fs.dirs && IsDir(fs, refDir) {
        var entry := fs.files[src];
        if mode == "mv" {
          RemoveFileWf(fs, src);
          var fs1 := Fs(fs.files - {src}, fs.dirs);
          AddFileWf(fs1, dest, entry);
          assert (fs.files - {src})[dest := entry] == fs1.files[dest := entry];
        } else {
          AddFileWf(fs, dest, entry);
        }
      }
    }
  }

  lemma {:induction false} AttachWf(fs: Fs, cfg: Config, refDir: Path, a: Attachment, listed: Path)
    requires Wf(fs)
    ensures Wf(Attach(fs, cfg, refDir, a, listed).0)
  {
    PlaceWf(fs, cfg.attachmentMode, Source(a, listed), refDir);
  }

  /** Which file the watch directory's listing may put first: one with the
      greatest modification time. */
  ghost predicate AttachChoice(fs: Fs, cfg: Config, a: Attachment, listed: Path)
  {
    a.Latest? && FilesIn(fs, cfg.watchDir) != {} ==> IsLatest(fs, cfg.watchDir, listed)
  }

  function ContentOf(fs: Fs, p: Path): string
  {
    if p in fs.files then fs.files[p].content else ""
  }

  /** The contents of the files of one walk, in walk order. */
  function Contents(fs: Fs, walk: seq<Path>): (r: seq<string>)
    ensures |r| == |walk|
    ensures forall i :: 0 <= i < |walk| ==> r[i] == ContentOf(fs, walk[i])
  {
    seq(|walk|, i requires 0 <= i < |walk| => ContentOf(fs, walk[i]))
  }

  /** `all_refs` of one export: the contents found under each source, source after source. */
  function Gather(fs: Fs, walks: seq<seq<Path>>): seq<string>
    decreases |walks|
  {
    if walks == [] then [] else Contents(fs, walks[0]) + Gather(fs, walks[1..])
  }

  /** `w` is a possible order of `(root / source).rglob("*.<fmt>")`, guarded by
      `exists()`: every matching file below the source directory exactly once,
      or nothing when the source is not a directory. */
  ghost predicate SourceWalk(fs: Fs, root: Path, fmt: string, source: string, w: seq<Path>)
  {
    var d := RefDir(root, source);
    if IsDir(fs, d) then
      && (forall i, j :: 0 <= i < j < |w| ==> w[i] != w[j])
      && (forall p :: p in w <==> p in FilesUnder(fs, fmt, d))
    else w == []
  }

  ghost predicate ExportWalk(fs: Fs, root: Path, fmt: string, sources: seq<string>, walks: seq<seq<Path>>)
  {
    && |walks| == |sources|
    && forall j :: 0 <= j < |sources| ==> SourceWalk(fs, root, fmt, sources[j], walks[j])
  }

  /** The body of the export loop for one export, given its collected `refs`:
      nothing is written when nothing was collected; otherwise the parent
      directories of the destination are made and the destination is
      overwritten with the entries joined by single newlines. */
  function ExportOne(fs: Fs, exp: Export, refs: seq<string>, now: int): (r: (Fs, Status))
    ensures refs == [] ==> r == (fs, Success)
    ensures refs != [] ==>
              (r.1.Success? <==>
                 && exp.destination != []
                 && MakeDirs(fs, Parent(exp.destination)).Ok?
                 && exp.destination !in fs.dirs)
    ensures refs != [] && exp.destination == [] ==> r == (fs, Failure(OsFailure([])))
    ensures refs != [] && exp.destination != [] && MakeDirs(fs, Parent(exp.destination)).Err? ==>
              r == (fs, Failure(OsFailure(Parent(exp.destination))))
    ensures refs != [] && exp.destination != [] && MakeDirs(fs, Parent(exp.destination)).Ok?
            && exp.destination in fs.dirs ==>
              r == (MakeDirs(fs, Parent(exp.destination)).value, Failure(OsFailure(exp.destination)))
    ensures r.1.Success? && refs != [] ==>
              && exp.destination != []
              && r.0.files == fs.files[exp.destination := FileEntry(Join("\n", refs), now)]
              && r.0.dirs == fs.dirs + Ancestors(Parent(exp.destination))
    ensures fs.dirs <= r.0.dirs
    ensures r.1.Failure? ==> r.0.files == fs.files
    ensures r.1.Failure? && exp.destination != [] ==>
              r.0.dirs <= fs.dirs + Ancestors(Parent(exp.destination))
    ensures Wf(fs) ==> Wf(r.0)
  {
    var dest := exp.destination;
    if refs == [] then (fs, Success)
    else if dest == [] then (fs, Failure(OsFailure(dest)))
    else match MakeDirs(fs, Parent(dest))
      case Err(e) => (fs, Failure(e))
      case Ok(fs1) =>
        MakeDirsWf(fs, Parent(dest));
        assert dest !in Ancestors(Parent(dest));
        match WriteFile(fs1, dest, Join("\n", refs), now)
        case Err(e) => (fs1, Failure(e))
        case Ok(fs2) => (fs2, Success)
  }

  /** `_process_exports` over `exps`, given the walk each export used: the
      exports run in order, each on the filesystem the previous ones left, and
      the first failure stops the rest. */
  function RunExports(fs: Fs, now: int, exps: seq<Export>, walks: seq<seq<seq<Path>>>): (r: (Fs, Status))
    requires |walks| == |exps|
    ensures fs.dirs <= r.0.dirs
    ensures Wf(fs) ==> Wf(r.0)
    decreases |exps|
  {
    if exps == [] then (fs, Success)
    else
      var n := |exps| - 1;
      var prev := RunExports(fs, now, exps[..n], walks[..n]);
      if prev.1.Failure? then prev
      else ExportOne(prev.0, exps[n], Gather(prev.0, walks[n]), now)
  }

  /** Each export's walk is a possible enumeration of the filesystem as the
      exports before it left it. */
  ghost predicate WalksFit(fs: Fs, root: Path, fmt: string, now: int,
                           exps: seq<Export>, walks: seq<seq<seq<Path>>>)
    requires |walks| == |exps|
    decreases |exps|
  {
    exps == [] ||
    (var n := |exps| - 1;
     && WalksFit(fs, root, fmt, now, exps[..n], walks[..n])
     && var prev := RunExports(fs, now, exps[..n], walks[..n]);
     prev.1.Success? ==> ExportWalk(prev.0, root, fmt, exps[n].sources, walks[n]))
  }

  /** Everything `_process_exports` may do to `fs`: `fs'` and `st` come from
      running the first `|walks|` exports with those walks, stopping early
      only on a failure. */
  ghost predicate ExportsRun(fs: Fs, root: Path, cfg: Config, now: int,
                             walks: seq<seq<seq<Path>>>, fs': Fs, st: Status)
  {
    && |walks| <= |cfg.exports|
    && WalksFit(fs, root, cfg.storageFormat, now, cfg.exports[..|walks|], walks)
    && (fs', st) == RunExports(fs, now, cfg.exports[..|walks|], walks)
    && (st.Success? ==> |walks| == |cfg.exports|)
  }

  /** What `new` and `edit` do after their first part left `(fs1, st1)`:
      when that succeeded, place the attachment if `handle` (`p` being the
      attachment path), then process the exports. */
  ghost predicate Finish(fs1: Fs, st1: Status, root: Path, cfg: Config, refDir: Path,
                         handle: bool, a: Attachment, src: Path, attached: Fs,
                         walks: seq<seq<seq<Path>>>, now: int, fs': Fs, st: Status)
  {
    if st1.Failure? then fs' == fs1 && st == st1 && attached == fs1 && walks == []
    else
      var placed := if handle then Attach(fs1, cfg, refDir, a, src) else (fs1, Success);
      && attached == placed.0
      && (handle ==> AttachChoice(fs1, cfg, a, src))
      && if placed.1.Failure? then fs' == placed.0 && st == placed.1 && walks == []
         else ExportsRun(placed.0, root, cfg, now, walks, fs', st)
  }

  /** A hit of `find(query)`: a `*.<fmt>` file anywhere under the root whose
      lower-cased text contains the lower-cased query, with its directory
      relative to the root and its full text. */
  datatype Hit = Hit(path: Path, content: string, file: Path)

  ghost predicate IsHit(fs: Fs, root: Path, fmt: string, query: string, h: Hit)
  {
    && h.file in FilesUnder(fs, fmt, root)
    && Contains(Lower(fs.files[h.file].content), Lower(query))
    && h.content == fs.files[h.file].content
    && h.path == Parent(h.file)[|root|..]
  }

  /** The file `find` looks at answers the query exactly when it is a hit. */
  ghost predicate Matches(fs: Fs, root: Path, fmt: string, query: string, f: Path)
  {
    f in FilesUnder(fs, fmt, root) && Contains(Lower(fs.files[f].content), Lower(query))
  }
}
