/** What the store's operations promise, stated over the functions of
    StoreSpec: creation never overwrites and never rolls back, editing is a
    wholesale and repeatable overwrite, every created reference can be found,
    and an export holds exactly the `*.<fmt>` files of its existing sources. */
module StoreLaws {
  import opened Text
  import opened Paths
  import opened FileSystem
  import opened StoreSpec

  // ---------------------------------------------------------------------
  // The tree

  /** In a well-formed tree every ancestor of a directory is a directory. */
  lemma {:induction false} AncestorsOfDirAreDirs(fs: Fs, d: Path, k: nat)
    requires Wf(fs) && IsDir(fs, d) && k <= |d|
    ensures IsDir(fs, d[..k])
    decreases |d| - k
  {
    if k == |d| {
      assert d[..k] == d;
    } else {
      AncestorsOfDirAreDirs(fs, Parent(d), k);
      assert Parent(d)[..k] == d[..k];
    }
  }

  /** Whatever exists has every ancestor existing too. */
  lemma {:induction false} PrefixOfExisting(fs: Fs, p: Path, q: Path)
    requires Wf(fs) && Exists(fs, p) && q <= p
    ensures Exists(fs, q)
  {
    if q != p {
      assert q == Parent(p)[..|q|];
      AncestorsOfDirAreDirs(fs, Parent(p), |q|);
    }
  }

  // ---------------------------------------------------------------------
  // new

  /** `new` refuses a path that is only the parent of another reference:
      once "a/b" exists, "a" exists too. */
  lemma {:induction false} NestedReferenceBlocksNew(fs: Fs, root: Path, fmt: string, a: string, b: string,
                                                    sourceUrl: Option<string>, bibtex: Option<string>,
                                                    fetch: string -> Result<string>, editor: string -> string,
                                                    now: int)
    requires Wf(fs)
    requires Exists(fs, RefDir(root, a + "/" + b))
    ensures NewPrefix(fs, root, fmt, a, sourceUrl, bibtex, fetch, editor, now) == (fs, Failure(AlreadyExists(a)))
  {
    RefDirNested(root, a, b);
    PrefixOfExisting(fs, RefDir(root, a + "/" + b), RefDir(root, a));
  }

  /** A whole `new` on an existing path raises and changes nothing: no
      attachment is placed and no export is run. */
  lemma {:induction false} NewOnExistingChangesNothing(fs: Fs, root: Path, cfg: Config, refPath: string,
                                                       sourceUrl: Option<string>, bibtex: Option<string>,
                                                       fetch: string -> Result<string>, editor: string -> string,
                                                       now: int, handle: bool, a: Attachment, src: Path, attached: Fs,
                                                       walks: seq<seq<seq<Path>>>, fs': Fs, st: Status)
    requires Wf(fs) && Exists(fs, RefDir(root, refPath))
    requires var first := NewPrefix(fs, root, cfg.storageFormat, refPath, sourceUrl, bibtex, fetch, editor, now);
             Finish(first.0, first.1, root, cfg, RefDir(root, refPath), handle, a, src, attached, walks, now, fs', st)
    ensures fs' == fs && st == Failure(AlreadyExists(refPath)) && walks == []
  {
    var first := NewPrefix(fs, root, cfg.storageFormat, refPath, sourceUrl, bibtex, fetch, editor, now);
    assert first == (fs, Failure(AlreadyExists(refPath)));
  }

  /** If placing the attachment fails after `new` wrote the metadata, the
      directory and the metadata file stay as written. */
  lemma {:induction false} FailedAttachmentKeepsEntry(fs: Fs, root: Path, cfg: Config, refPath: string,
                                                      sourceUrl: Option<string>, bibtex: Option<string>,
                                                      fetch: string -> Result<string>, editor: string -> string,
                                                      now: int, a: Attachment, src: Path, attached: Fs,
                                                      walks: seq<seq<seq<Path>>>, fs': Fs, st: Status)
    requires Wf(fs)
    requires var first := NewPrefix(fs, root, cfg.storageFormat, refPath, sourceUrl, bibtex, fetch, editor, now);
             && first.1.Success?
             && Finish(first.0, first.1, root, cfg, RefDir(root, refPath), true, a, src, attached, walks, now, fs', st)
             && st.Failure? && walks == []
    ensures IsDir(fs', RefDir(root, refPath))
    ensures fs'.files[MetaFile(root, cfg.storageFormat, refPath)].content
            == ChooseContent(sourceUrl, bibtex, fetch, editor, EditorTemplate).value
  {
  }

  /** Given BibTeX text and no URL, the first part of `new` (up to the
      attachment) on a fresh path writes exactly that text into the new
      metadata file. */
  lemma {:induction false} NewStoresBibtex(fs: Fs, root: Path, fmt: string, refPath: string,
                                           sourceUrl: Option<string>, bibtex: Option<string>,
                                           fetch: string -> Result<string>, editor: string -> string,
                                           now: int)
    requires Wf(fs)
    requires !Exists(fs, RefDir(root, refPath)) && MakeDirs(fs, RefDir(root, refPath)).Ok?
    requires !Truthy(sourceUrl) && Truthy(bibtex)
    ensures var r := NewPrefix(fs, root, fmt, refPath, sourceUrl, bibtex, fetch, editor, now);
            && r.1 == Success
            && MetaFile(root, fmt, refPath) in r.0.files
            && r.0.files[MetaFile(root, fmt, refPath)].content == bibtex.value
  {
  }

  /** `_process_exports` and the attachment step never remove a directory,
      and keep the tree well formed. */
  lemma {:induction false} FinishGrowsDirs(fs1: Fs, st1: Status, root: Path, cfg: Config, refDir: Path,
                                           handle: bool, a: Attachment, src: Path, attached: Fs,
                                           walks: seq<seq<seq<Path>>>, now: int, fs': Fs, st: Status)
    requires Finish(fs1, st1, root, cfg, refDir, handle, a, src, attached, walks, now, fs', st)
    ensures fs1.dirs <= fs'.dirs
    ensures Wf(fs1) ==> Wf(fs')
  {
    if st1.Success? {
      if handle && Wf(fs1) {
        AttachWf(fs1, cfg, refDir, a, src);
      }
      assert fs1.dirs <= attached.dirs;
      assert Wf(fs1) ==> Wf(attached);
    }
  }

  /** `new` does not roll back: once it has created the directory, whatever
      happens next (a failed fetch, a missing attachment, a failed export),
      a second `new` on the same path is refused. */
  lemma {:induction false} RetriedNewFails(fs: Fs, root: Path, cfg: Config, refPath: string,
                                           sourceUrl: Option<string>, bibtex: Option<string>,
                                           fetch: string -> Result<string>, editor: string -> string,
                                           now: int, handle: bool, a: Attachment, src: Path, attached: Fs,
                                           walks: seq<seq<seq<Path>>>, fs': Fs, st: Status,
                                           sourceUrl2: Option<string>, bibtex2: Option<string>,
                                           fetch2: string -> Result<string>, editor2: string -> string,
                                           now2: int)
    requires Wf(fs)
    requires !Exists(fs, RefDir(root, refPath)) && MakeDirs(fs, RefDir(root, refPath)).Ok?
    requires var first := NewPrefix(fs, root, cfg.storageFormat, refPath, sourceUrl, bibtex, fetch, editor, now);
             Finish(first.0, first.1, root, cfg, RefDir(root, refPath), handle, a, src, attached, walks, now, fs', st)
    ensures Wf(fs')
    ensures NewPrefix(fs', root, cfg.storageFormat, refPath, sourceUrl2, bibtex2, fetch2, editor2, now2)
            == (fs', Failure(AlreadyExists(refPath)))
  {
    var first := NewPrefix(fs, root, cfg.storageFormat, refPath, sourceUrl, bibtex, fetch, editor, now);
    FinishGrowsDirs(first.0, first.1, root, cfg, RefDir(root, refPath), handle, a, src, attached, walks, now, fs', st);
    assert IsDir(first.0, RefDir(root, refPath));
  }

  // ---------------------------------------------------------------------
  // edit

  /** A whole `edit` on a missing path raises and changes nothing. */
  lemma {:induction false} EditOnMissingChangesNothing(fs: Fs, root: Path, cfg: Config, refPath: string,
                                                       sourceUrl: Option<string>, bibtex: Option<string>,
                                                       fetch: string -> Result<string>, editor: string -> string,
                                                       now: int, handle: bool, a: Attachment, src: Path, attached: Fs,
                                                       walks: seq<seq<seq<Path>>>, fs': Fs, st: Status)
    requires !Exists(fs, RefDir(root, refPath))
    requires var first := EditPrefix(fs, root, cfg.storageFormat, refPath, sourceUrl, bibtex, fetch, editor, now);
             Finish(first.0, first.1, root, cfg, RefDir(root, refPath), handle, a, src, attached, walks, now, fs', st)
    ensures fs' == fs && st == Failure(NotFound(refPath)) && walks == []
  {
    var first := EditPrefix(fs, root, cfg.storageFormat, refPath, sourceUrl, bibtex, fetch, editor, now);
    assert first == (fs, Failure(NotFound(refPath)));
  }

  /** With a URL or BibTeX text the new content does not depend on the old. */
  lemma {:induction false} ContentIgnoresDraft(sourceUrl: Option<string>, bibtex: Option<string>,
                                               fetch: string -> Result<string>, editor: string -> string,
                                               d1: string, d2: string)
    requires Truthy(sourceUrl) || Truthy(bibtex)
    ensures ChooseContent(sourceUrl, bibtex, fetch, editor, d1) == ChooseContent(sourceUrl, bibtex, fetch, editor, d2)
  {
  }

  /** The first part of `edit` (up to the attachment), run twice with a URL
      or BibTeX text, leaves the store as running it once: the metadata is
      overwritten wholesale, never merged. */
  lemma {:induction false} EditIdempotent(fs: Fs, root: Path, fmt: string, refPath: string,
                                          sourceUrl: Option<string>, bibtex: Option<string>,
                                          fetch: string -> Result<string>, editor: string -> string,
                                          now: int)
    requires Truthy(sourceUrl) || Truthy(bibtex)
    ensures var once := EditPrefix(fs, root, fmt, refPath, sourceUrl, bibtex, fetch, editor, now);
            EditPrefix(once.0, root, fmt, refPath, sourceUrl, bibtex, fetch, editor, now) == once
  {
    var once := EditPrefix(fs, root, fmt, refPath, sourceUrl, bibtex, fetch, editor, now);
    var meta := MetaFile(root, fmt, refPath);
    if once.1.Success? {
      var draft := if meta in fs.files then fs.files[meta].content else "";
      var draft' := if meta in once.0.files then once.0.files[meta].content else "";
      ContentIgnoresDraft(sourceUrl, bibtex, fetch, editor, draft, draft');
      var text := ChooseContent(sourceUrl, bibtex, fetch, editor, draft).value;
      assert once.0.files[meta := FileEntry(text, now)] == once.0.files;
    }
  }

  /** Two whole `edit`s with the same URL or BibTeX text, the first of them
      successful in its first part: the second first part succeeds too, and
      under the conditions of `FinishKeepsMetadata` for both, the metadata
      text after both equals the text after the first. The attachment and
      export steps themselves need not repeat: a moved attachment is gone
      the second time, and an export may collect its own earlier output. */
  lemma {:induction false} EditTwiceKeepsText(fs: Fs, root: Path, cfg: Config, refPath: string,
                                              sourceUrl: Option<string>, bibtex: Option<string>,
                                              fetch: string -> Result<string>, editor: string -> string,
                                              now: int, handle: bool, a: Attachment, src: Path, attached: Fs,
                                              walks: seq<seq<seq<Path>>>, fs1: Fs, st1: Status,
                                              now2: int, handle2: bool, a2: Attachment, src2: Path, attached2: Fs,
                                              walks2: seq<seq<seq<Path>>>, fs2: Fs, st2: Status)
    requires Wf(fs) && (Truthy(sourceUrl) || Truthy(bibtex))
    requires var e := EditPrefix(fs, root, cfg.storageFormat, refPath, sourceUrl, bibtex, fetch, editor, now);
             && e.1.Success?
             && Finish(e.0, e.1, root, cfg, RefDir(root, refPath), handle, a, src, attached, walks, now, fs1, st1)
    requires var e := EditPrefix(fs1, root, cfg.storageFormat, refPath, sourceUrl, bibtex, fetch, editor, now2);
             Finish(e.0, e.1, root, cfg, RefDir(root, refPath), handle2, a2, src2, attached2, walks2, now2, fs2, st2)
    requires handle && Source(a, src) != [] ==> Basename(Source(a, src)) != MetaName(cfg.storageFormat)
    requires handle2 && Source(a2, src2) != [] ==> Basename(Source(a2, src2)) != MetaName(cfg.storageFormat)
    requires forall k :: 0 <= k < |cfg.exports| ==>
               cfg.exports[k].destination != MetaFile(root, cfg.storageFormat, refPath)
    ensures EditPrefix(fs1, root, cfg.storageFormat, refPath, sourceUrl, bibtex, fetch, editor, now2).1.Success?
    ensures var meta := MetaFile(root, cfg.storageFormat, refPath);
            && meta in fs1.files && meta in fs2.files
            && fs2.files[meta].content == fs1.files[meta].content
  {
    var fmt := cfg.storageFormat;
    var meta := MetaFile(root, fmt, refPath);
    var dir := RefDir(root, refPath);
    var e1 := EditPrefix(fs, root, fmt, refPath, sourceUrl, bibtex, fetch, editor, now);
    var draft := if meta in fs.files then fs.files[meta].content else "";
    var text := ChooseContent(sourceUrl, bibtex, fetch, editor, draft).value;
    assert meta in e1.0.files && e1.0.files[meta] == FileEntry(text, now);
    FinishKeepsMetadata(e1.0, e1.1, root, cfg, refPath, handle, a, src, attached, walks, now, fs1, st1);
    FinishGrowsDirs(e1.0, e1.1, root, cfg, dir, handle, a, src, attached, walks, now, fs1, st1);
    assert IsDir(fs1, dir);
    assert meta !in fs1.dirs;
    ContentIgnoresDraft(sourceUrl, bibtex, fetch, editor, draft, fs1.files[meta].content);
    var e2 := EditPrefix(fs1, root, fmt, refPath, sourceUrl, bibtex, fetch, editor, now2);
    assert e2.1.Success?;
    assert e2.0.files[meta] == FileEntry(text, now2);
    FinishKeepsMetadata(e2.0, e2.1, root, cfg, refPath, handle2, a2, src2, attached2, walks2, now2, fs2, st2);
  }

  /** Without a URL or BibTeX text, `edit` opens the editor on the current
      metadata, or on "" when the metadata file is missing, and stores what
      the editor returns. */
  lemma {:induction false} EditStartsFromCurrentText(fs: Fs, root: Path, fmt: string, refPath: string,
                                                     sourceUrl: Option<string>, bibtex: Option<string>,
                                                     fetch: string -> Result<string>, editor: string -> string,
                                                     now: int)
    requires IsDir(fs, RefDir(root, refPath)) && MetaFile(root, fmt, refPath) !in fs.dirs
    requires !Truthy(sourceUrl) && !Truthy(bibtex)
    ensures var r := EditPrefix(fs, root, fmt, refPath, sourceUrl, bibtex, fetch, editor, now);
            var meta := MetaFile(root, fmt, refPath);
            && r.1 == Success
            && r.0.files[meta].content == editor(if meta in fs.files then fs.files[meta].content else "")
  {
  }

  // ---------------------------------------------------------------------
  // find

  /** `find` ignores case on both sides: a `*.<fmt>` file containing the
      query in any mix of cases is a match. */
  lemma {:induction false} FindIgnoresCase(fs: Fs, root: Path, fmt: string, query: string, f: Path,
                                           pre: string, hit: string, post: string)
    requires f in FilesUnder(fs, fmt, root)
    requires fs.files[f].content == pre + hit + post
    requires Lower(hit) == Lower(query)
    ensures Matches(fs, root, fmt, query, f)
  {
    ContainsIgnoringCase(pre, hit, post, query);
  }

  /** A reference made by the first part of `new` is found by any query its
      text contains, and the hit names it by its path relative to the root. */
  lemma {:induction false} NewThenFound(fs: Fs, root: Path, fmt: string, refPath: string,
                                        sourceUrl: Option<string>, bibtex: Option<string>,
                                        fetch: string -> Result<string>, editor: string -> string,
                                        now: int, query: string)
    requires Wf(fs)
    requires NewPrefix(fs, root, fmt, refPath, sourceUrl, bibtex, fetch, editor, now).1.Success?
    requires Contains(Lower(ChooseContent(sourceUrl, bibtex, fetch, editor, EditorTemplate).value), Lower(query))
    ensures var r := NewPrefix(fs, root, fmt, refPath, sourceUrl, bibtex, fetch, editor, now);
            var text := ChooseContent(sourceUrl, bibtex, fetch, editor, EditorTemplate).value;
            IsHit(r.0, root, fmt, query, Hit(Components(refPath), text, MetaFile(root, fmt, refPath)))
  {
    var meta := MetaFile(root, fmt, refPath);
    MetaNameMatches(fmt);
    assert Basename(meta) == MetaName(fmt);
    assert Parent(meta) == RefDir(root, refPath);
    assert root < meta by {
      assert meta[..|root|] == root;
    }
  }

  /** The attachment and export steps that follow a successful first part
      leave the metadata file as that part wrote it, unless the attachment
      step places a file named `reference.<fmt>` or an export has the
      metadata file as destination. */
  lemma {:induction false} FinishKeepsMetadata(fs1: Fs, st1: Status, root: Path, cfg: Config, refPath: string,
                                               handle: bool, a: Attachment, src: Path, attached: Fs,
                                               walks: seq<seq<seq<Path>>>, now: int, fs': Fs, st: Status)
    requires st1.Success? && MetaFile(root, cfg.storageFormat, refPath) in fs1.files
    requires Finish(fs1, st1, root, cfg, RefDir(root, refPath), handle, a, src, attached, walks, now, fs', st)
    requires handle && Source(a, src) != [] ==> Basename(Source(a, src)) != MetaName(cfg.storageFormat)
    requires forall k :: 0 <= k < |cfg.exports| ==>
               cfg.exports[k].destination != MetaFile(root, cfg.storageFormat, refPath)
    ensures var meta := MetaFile(root, cfg.storageFormat, refPath);
            meta in fs'.files && fs'.files[meta] == fs1.files[meta]
  {
    var meta := MetaFile(root, cfg.storageFormat, refPath);
    var refDir := RefDir(root, refPath);
    if handle {
      var s := Source(a, src);
      var placed := Attach(fs1, cfg, refDir, a, src);
      if placed.1.Success? {
        assert Basename(meta) == MetaName(cfg.storageFormat);
        assert placed == Place(fs1, cfg.attachmentMode, s, refDir);
        AttachedUnderBasename(fs1, cfg, refDir, a, src);
        assert meta != refDir + [Basename(s)];
        PlaceTouchesNothingElse(fs1, cfg.attachmentMode, s, refDir, meta);
      }
    }
    assert meta in attached.files && attached.files[meta] == fs1.files[meta];
    if !handle || Attach(fs1, cfg, refDir, a, src).1.Success? {
      var exps := cfg.exports[..|walks|];
      forall k | 0 <= k < |exps| ensures exps[k].destination != meta {
        assert exps[k] == cfg.exports[k];
      }
      RunExportsKeepsOthers(attached, now, exps, walks, meta);
    }
  }

  /** The whole of `new`, when its first part succeeded: under the
      conditions of `FinishKeepsMetadata`, the metadata file still holds the
      text written, with its time. */
  lemma {:induction false} NewKeepsMetadata(fs: Fs, root: Path, cfg: Config, refPath: string,
                                            sourceUrl: Option<string>, bibtex: Option<string>,
                                            fetch: string -> Result<string>, editor: string -> string,
                                            now: int, handle: bool, a: Attachment, src: Path, attached: Fs,
                                            walks: seq<seq<seq<Path>>>, fs': Fs, st: Status)
    requires Wf(fs)
    requires var first := NewPrefix(fs, root, cfg.storageFormat, refPath, sourceUrl, bibtex, fetch, editor, now);
             && first.1.Success?
             && Finish(first.0, first.1, root, cfg, RefDir(root, refPath), handle, a, src, attached, walks, now, fs', st)
    requires handle && Source(a, src) != [] ==> Basename(Source(a, src)) != MetaName(cfg.storageFormat)
    requires forall k :: 0 <= k < |cfg.exports| ==>
               cfg.exports[k].destination != MetaFile(root, cfg.storageFormat, refPath)
    ensures var meta := MetaFile(root, cfg.storageFormat, refPath);
            && meta in fs'.files
            && fs'.files[meta] == FileEntry(ChooseContent(sourceUrl, bibtex, fetch, editor, EditorTemplate).value, now)
  {
    var first := NewPrefix(fs, root, cfg.storageFormat, refPath, sourceUrl, bibtex, fetch, editor, now);
    assert MetaFile(root, cfg.storageFormat, refPath) in first.0.files;
    FinishKeepsMetadata(first.0, first.1, root, cfg, refPath, handle, a, src, attached, walks, now, fs', st);
  }

  /** Under the same conditions, a reference made by the whole of `new` is a
      hit for any query its text contains, whatever the later steps did. */
  lemma {:induction false} WholeNewThenFound(fs: Fs, root: Path, cfg: Config, refPath: string,
                                             sourceUrl: Option<string>, bibtex: Option<string>,
                                             fetch: string -> Result<string>, editor: string -> string,
                                             now: int, handle: bool, a: Attachment, src: Path, attached: Fs,
                                             walks: seq<seq<seq<Path>>>, fs': Fs, st: Status, query: string)
    requires Wf(fs)
    requires var first := NewPrefix(fs, root, cfg.storageFormat, refPath, sourceUrl, bibtex, fetch, editor, now);
             && first.1.Success?
             && Finish(first.0, first.1, root, cfg, RefDir(root, refPath), handle, a, src, attached, walks, now, fs', st)
    requires handle && Source(a, src) != [] ==> Basename(Source(a, src)) != MetaName(cfg.storageFormat)
    requires forall k :: 0 <= k < |cfg.exports| ==>
               cfg.exports[k].destination != MetaFile(root, cfg.storageFormat, refPath)
    requires Contains(Lower(ChooseContent(sourceUrl, bibtex, fetch, editor, EditorTemplate).value), Lower(query))
    ensures var text := ChooseContent(sourceUrl, bibtex, fetch, editor, EditorTemplate).value;
            IsHit(fs', root, cfg.storageFormat, query,
                  Hit(Components(refPath), text, MetaFile(root, cfg.storageFormat, refPath)))
  {
    NewKeepsMetadata(fs, root, cfg, refPath, sourceUrl, bibtex, fetch, editor, now, handle, a, src, attached, walks, fs', st);
    var meta := MetaFile(root, cfg.storageFormat, refPath);
    MetaNameMatches(cfg.storageFormat);
    assert Basename(meta) == MetaName(cfg.storageFormat);
    assert Parent(meta) == RefDir(root, refPath);
    assert root < meta by {
      assert meta[..|root|] == root;
    }
  }

  /** The flip side: with `cp`, a watch-directory or given file named
      `reference.<fmt>` is copied over the metadata file `new` has just
      written. */
  lemma {:induction false} AttachmentCanReplaceMetadata(fs: Fs, root: Path, cfg: Config, refPath: string, f: Path)
    requires cfg.attachmentMode == "cp"
    requires f != [] && f in fs.files && Basename(f) == MetaName(cfg.storageFormat)
    requires f != MetaFile(root, cfg.storageFormat, refPath) && IsDir(fs, RefDir(root, refPath))
    requires MetaFile(root, cfg.storageFormat, refPath) !in fs.dirs
    ensures var r := Attach(fs, cfg, RefDir(root, refPath), Given(f), []);
            && r.1 == Success
            && r.0.files[MetaFile(root, cfg.storageFormat, refPath)] == fs.files[f]
  {
    var meta := MetaFile(root, cfg.storageFormat, refPath);
    assert RefDir(root, refPath) + [Basename(f)] == meta;
    assert Exists(fs, f);
  }

  // ---------------------------------------------------------------------
  // the attachment step

  /** An attachment that was placed sits in the reference directory under
      its own base name, with the content and time of the file it came from. */
  lemma {:induction false} AttachedUnderBasename(fs: Fs, cfg: Config, refDir: Path, a: Attachment, listed: Path)
    requires Attach(fs, cfg, refDir, a, listed).1.Success?
    ensures var s := Source(a, listed);
            var r := Attach(fs, cfg, refDir, a, listed).0;
            && s != [] && s in fs.files
            && refDir + [Basename(s)] in r.files
            && r.files[refDir + [Basename(s)]] == fs.files[s]
            && (cfg.attachmentMode != "mv" ==> s in r.files)
  {
  }

  /** A given regular file is placed whenever the mode is known, the
      reference directory exists and nothing has its name there yet. */
  lemma {:induction false} GivenFileIsPlaced(fs: Fs, cfg: Config, refDir: Path, f: Path, listed: Path)
    requires Wf(fs) && ValidMode(cfg.attachmentMode)
    requires f != [] && f in fs.files && IsDir(fs, refDir)
    requires !Exists(fs, refDir + [Basename(f)])
    ensures var r := Attach(fs, cfg, refDir, Given(f), listed);
            && r.1 == Success
            && r.0.files[refDir + [Basename(f)]] == fs.files[f]
  {
    assert Exists(fs, f);
  }

  /** With the empty attachment string and a non-empty watch directory, the
      newest file there is placed under the same conditions. */
  lemma {:induction false} NewestFileIsPlaced(fs: Fs, cfg: Config, refDir: Path, listed: Path)
    requires Wf(fs) && ValidMode(cfg.attachmentMode)
    requires FilesIn(fs, cfg.watchDir) != {} && AttachChoice(fs, cfg, Latest, listed)
    requires IsDir(fs, refDir) && !Exists(fs, refDir + [Basename(listed)])
    ensures var r := Attach(fs, cfg, refDir, Latest, listed);
            && r.1 == Success
            && r.0.files[refDir + [Basename(listed)]] == fs.files[listed]
    ensures forall q :: q in FilesIn(fs, cfg.watchDir) ==> fs.files[q].mtime <= fs.files[listed].mtime
  {
    assert listed in FilesIn(fs, cfg.watchDir);
    assert Exists(fs, cfg.watchDir);
    assert Exists(fs, listed);
  }

  /** A mode other than "cp", "mv" or "ln" changes nothing. */
  lemma {:induction false} InvalidModeChangesNothing(fs: Fs, cfg: Config, refDir: Path, a: Attachment, listed: Path)
    requires cfg.attachmentMode != "cp" && cfg.attachmentMode != "mv" && cfg.attachmentMode != "ln"
    ensures Attach(fs, cfg, refDir, a, listed).0 == fs
    ensures Attach(fs, cfg, refDir, a, listed).1.Failure?
  {
  }

  /** When one file of the watch directory is strictly newer than all the
      others, it is the one the empty attachment path picks. */
  lemma {:induction false} NewestIsPicked(fs: Fs, cfg: Config, f: Path, listed: Path)
    requires f in FilesIn(fs, cfg.watchDir)
    requires forall q :: q in FilesIn(fs, cfg.watchDir) && q != f ==> fs.files[q].mtime < fs.files[f].mtime
    requires AttachChoice(fs, cfg, Latest, listed)
    ensures listed == f
  {
    assert IsLatest(fs, cfg.watchDir, listed);
  }

  // ---------------------------------------------------------------------
  // exports

  /** Appending one source's walk appends its contents to the collected entries. */
  lemma {:induction false} GatherAppend(fs: Fs, walks: seq<seq<Path>>, w: seq<Path>)
    ensures Gather(fs, walks + [w]) == Gather(fs, walks) + Contents(fs, w)
    decreases |walks|
  {
    if walks == [] {
      assert walks + [w] == [w];
      assert [w][1..] == [];
    } else {
      assert (walks + [w])[1..] == walks[1..] + [w];
      GatherAppend(fs, walks[1..], w);
    }
  }

  /** How many `*.<fmt>` files the existing sources hold, overlaps counted once per source. */
  function FoundCount(fs: Fs, root: Path, fmt: string, sources: seq<string>): nat
    decreases |sources|
  {
    if sources == [] then 0
    else
      var d := RefDir(root, sources[0]);
      (if IsDir(fs, d) then |FilesUnder(fs, fmt, d)| else 0) + FoundCount(fs, root, fmt, sources[1..])
  }

  /** A sequence without repetitions has as many elements as its set. */
  lemma {:induction false} DistinctCount(w: seq<Path>, s: set<Path>)
    requires forall i, j :: 0 <= i < j < |w| ==> w[i] != w[j]
    requires forall p :: p in w <==> p in s
    ensures |w| == |s|
    decreases |w|
  {
    if w != [] {
      var rest := w[1..];
      forall p ensures p in rest <==> p in s - {w[0]} {
        if p in rest {
          var i :| 0 <= i < |rest| && rest[i] == p;
          assert w[i + 1] == p;
        }
        if p in s - {w[0]} {
          var i :| 0 <= i < |w| && w[i] == p;
          assert i != 0;
          assert rest[i - 1] == p;
        }
      }
      DistinctCount(rest, s - {w[0]});
    } else {
      assert forall p :: p !in s;
      assert s == {};
    }
  }

  /** Each export collects one entry per `*.<fmt>` file of each existing
      source, and nothing from a missing source. */
  lemma {:induction false} GatherCount(fs: Fs, root: Path, fmt: string, sources: seq<string>, walks: seq<seq<Path>>)
    requires ExportWalk(fs, root, fmt, sources, walks)
    ensures |Gather(fs, walks)| == FoundCount(fs, root, fmt, sources)
    decreases |sources|
  {
    if sources != [] {
      assert SourceWalk(fs, root, fmt, sources[0], walks[0]);
      var d := RefDir(root, sources[0]);
      if IsDir(fs, d) {
        DistinctCount(walks[0], FilesUnder(fs, fmt, d));
      }
      assert ExportWalk(fs, root, fmt, sources[1..], walks[1..]) by {
        forall j | 0 <= j < |sources| - 1
          ensures SourceWalk(fs, root, fmt, sources[1..][j], walks[1..][j])
        {
          assert SourceWalk(fs, root, fmt, sources[j + 1], walks[j + 1]);
        }
      }
      GatherCount(fs, root, fmt, sources[1..], walks[1..]);
    }
  }

  /** An entry is collected exactly when it is the text of some file of
      some walk. */
  lemma {:induction false} GatherMembers(fs: Fs, walks: seq<seq<Path>>, x: string)
    ensures x in Gather(fs, walks) <==>
            exists j, i :: 0 <= j < |walks| && 0 <= i < |walks[j]| && x == ContentOf(fs, walks[j][i])
    decreases |walks|
  {
    if walks != [] {
      GatherMembers(fs, walks[1..], x);
      if x in Gather(fs, walks[1..]) {
        var j, i :| 0 <= j < |walks[1..]| && 0 <= i < |walks[1..][j]| && x == ContentOf(fs, walks[1..][j][i]);
        assert x == ContentOf(fs, walks[j + 1][i]);
      }
      if exists j, i :: 0 <= j < |walks| && 0 <= i < |walks[j]| && x == ContentOf(fs, walks[j][i]) {
        var j, i :| 0 <= j < |walks| && 0 <= i < |walks[j]| && x == ContentOf(fs, walks[j][i]);
        if j == 0 {
          assert Contents(fs, walks[0])[i] == x;
        } else {
          assert x == ContentOf(fs, walks[1..][j - 1][i]);
        }
      }
    }
  }

  /** The entries of an export are exactly the texts of the `*.<fmt>` files
      below its existing source directories. */
  lemma {:induction false} GatherIsSourceContents(fs: Fs, root: Path, fmt: string, sources: seq<string>,
                                                  walks: seq<seq<Path>>, x: string)
    requires ExportWalk(fs, root, fmt, sources, walks)
    ensures x in Gather(fs, walks) <==>
            exists j, f :: 0 <= j < |sources| && IsDir(fs, RefDir(root, sources[j])) &&
                           f in FilesUnder(fs, fmt, RefDir(root, sources[j])) && x == fs.files[f].content
  {
    GatherMembers(fs, walks, x);
    if x in Gather(fs, walks) {
      var j, i :| 0 <= j < |walks| && 0 <= i < |walks[j]| && x == ContentOf(fs, walks[j][i]);
      assert SourceWalk(fs, root, fmt, sources[j], walks[j]);
      assert walks[j][i] in walks[j];
    }
    if exists j, f :: 0 <= j < |sources| && IsDir(fs, RefDir(root, sources[j])) &&
                      f in FilesUnder(fs, fmt, RefDir(root, sources[j])) && x == fs.files[f].content {
      var j, f :| 0 <= j < |sources| && IsDir(fs, RefDir(root, sources[j])) &&
                  f in FilesUnder(fs, fmt, RefDir(root, sources[j])) && x == fs.files[f].content;
      assert SourceWalk(fs, root, fmt, sources[j], walks[j]);
      var i :| 0 <= i < |walks[j]| && walks[j][i] == f;
      assert x == ContentOf(fs, walks[j][i]);
    }
  }

  /** An export whose destination can be created is written, and holds
      every collected entry verbatim, in collection order, each followed by
      one newline except the last. */
  lemma {:induction false} ExportHoldsEveryEntry(fs: Fs, exp: Export, refs: seq<string>, now: int, k: nat)
    requires refs != [] && k < |refs|
    requires exp.destination != [] && exp.destination !in fs.dirs
    requires MakeDirs(fs, Parent(exp.destination)).Ok?
    ensures ExportOne(fs, exp, refs, now).1.Success?
    ensures var text := ExportOne(fs, exp, refs, now).0.files[exp.destination].content;
            && OccursAt(text, refs[k], Offset("\n", refs, k))
            && (k + 1 < |refs| ==> OccursAt(text, "\n", Offset("\n", refs, k) + |refs[k]|))
  {
    JoinAt("\n", refs, k);
  }

  /** One more source walked extends the export's walk. */
  lemma {:induction false} ExportWalkStep(fs: Fs, root: Path, fmt: string, sources: seq<string>, j: nat,
                                          walks: seq<seq<Path>>, w: seq<Path>)
    requires j < |sources|
    requires ExportWalk(fs, root, fmt, sources[..j], walks)
    requires SourceWalk(fs, root, fmt, sources[j], w)
    ensures ExportWalk(fs, root, fmt, sources[..j + 1], walks + [w])
  {
    var next := sources[..j + 1];
    forall k | 0 <= k < |next| ensures SourceWalk(fs, root, fmt, next[k], (walks + [w])[k]) {
      if k < j {
        assert next[k] == sources[..j][k];
      }
    }
  }

  /** One more export run extends the run of the exports before it. */
  lemma {:induction false} RunExportsStep(fs: Fs, root: Path, fmt: string, now: int,
                                          exps: seq<Export>, i: nat, walks: seq<seq<seq<Path>>>,
                                          w: seq<seq<Path>>, cur: Fs, next: Fs, st: Status)
    requires i < |exps| && |walks| == i
    requires WalksFit(fs, root, fmt, now, exps[..i], walks)
    requires RunExports(fs, now, exps[..i], walks) == (cur, Success)
    requires ExportWalk(cur, root, fmt, exps[i].sources, w)
    requires (next, st) == ExportOne(cur, exps[i], Gather(cur, w), now)
    ensures WalksFit(fs, root, fmt, now, exps[..i + 1], walks + [w])
    ensures RunExports(fs, now, exps[..i + 1], walks + [w]) == (next, st)
  {
    assert exps[..i + 1][..i] == exps[..i];
    assert (walks + [w])[..i] == walks;
  }

  /** One export leaves every file other than its destination as it was. */
  lemma {:induction false} ExportOneKeepsOthers(fs: Fs, exp: Export, refs: seq<string>, now: int, p: Path)
    requires p in fs.files && exp.destination != p
    ensures var r := ExportOne(fs, exp, refs, now).0;
            p in r.files && r.files[p] == fs.files[p]
  {
  }

  /** Running exports leaves every file that is no export's destination as
      it was. */
  lemma {:induction false} RunExportsKeepsOthers(fs: Fs, now: int, exps: seq<Export>,
                                                 walks: seq<seq<seq<Path>>>, p: Path)
    requires |walks| == |exps| && p in fs.files
    requires forall k :: 0 <= k < |exps| ==> exps[k].destination != p
    ensures var r := RunExports(fs, now, exps, walks).0;
            p in r.files && r.files[p] == fs.files[p]
    decreases |exps|
  {
    if exps != [] {
      var n := |exps| - 1;
      var front := exps[..n];
      forall k | 0 <= k < n ensures front[k].destination != p {
        assert front[k] == exps[k];
      }
      RunExportsKeepsOthers(fs, now, front, walks[..n], p);
      var prev := RunExports(fs, now, front, walks[..n]);
      if prev.1.Success? {
        ExportOneKeepsOthers(prev.0, exps[n], Gather(prev.0, walks[n]), now, p);
      }
    }
  }

  /** With no exports configured, processing exports changes nothing. */
  lemma {:induction false} NoExportsNoChange(fs: Fs, root: Path, cfg: Config, now: int,
                                             walks: seq<seq<seq<Path>>>, fs': Fs, st: Status)
    requires cfg.exports == []
    requires ExportsRun(fs, root, cfg, now, walks, fs', st)
    ensures fs' == fs && st == Success && walks == []
  {
    assert cfg.exports[..|walks|] == [];
  }

  /** Under the configuration written on first start, attachments are
      copied, which is a known mode, and no export runs. */
  lemma {:induction false} DefaultConfigRunsNoExports(home: Path, fs: Fs, root: Path, now: int,
                                                      walks: seq<seq<seq<Path>>>, fs': Fs, st: Status)
    requires ExportsRun(fs, root, DefaultConfig(home), now, walks, fs', st)
    ensures ValidMode(DefaultConfig(home).attachmentMode)
    ensures fs' == fs && st == Success && walks == []
  {
    NoExportsNoChange(fs, root, DefaultConfig(home), now, walks, fs', st);
  }
}
