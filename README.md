# pramaana reference store, modelled in Dafny

pramaana keeps bibliographic references as a directory tree under a root
directory (`config_dir`, by default `~/.pramaana`). Each reference is a
directory named by its reference path (`papers/smith2020`) holding a metadata
file `reference.<storage_format>` (BibTeX by default) and, optionally,
attachments. The `Pramaana` class creates references (`new`), overwrites
them (`edit`), copies, moves or hard-links attachments into them (from a
given path, or the newest file of a watch directory), searches every
`*.<storage_format>` file below the root, attachments and export files kept
there included (`find`), and after every change rebuilds the configured exports: one file
per export, made of every `*.<storage_format>` file found below its source
directories,
joined by newlines. Importing from Zotero names each imported reference
after its first author and year.

This project models that core:

- `text.dfy` (module `Text`): Python's `in` on strings, `s.split(sep)[0]`,
  `str.lower` and `sep.join`.
- `paths.dfy` (module `Paths`): paths as component sequences and
  `config_dir / ref_path`.
- `filesystem.dfy` (module `FileSystem`): the filesystem as a value (regular
  files with content and modification time, directories), the store's
  errors, and the OS calls `mkdir(parents=True)` / `os.makedirs(exist_ok=True)`
  and `open(.., 'w').write`.
- `store_spec.dfy` (module `StoreSpec`): each operation as a function of the
  filesystem. Where the store enumerates a directory (`glob`, `rglob`) the
  order is not specified, so the functions take the enumeration as an
  argument and predicates (`SourceWalk`, `ExportWalk`, `WalksFit`,
  `AttachChoice`) say which enumerations are possible.
- `store.dfy` (module `Store`): the class `Pramaana`, whose `files` and
  `dirs` fields are the filesystem it changes step by step. Every method is
  proved to do what the matching function of `StoreSpec` says.
- `store_laws.dfy` (module `StoreLaws`): what the operations promise, as
  lemmas over those functions.
- `import_naming.dfy` (module `ImportNaming`): the directory name given to
  an imported BibTeX entry.

Conventions: `Path` is a sequence of components, and `[]` is "/". A requested
attachment is an `Attachment`: `Latest` for the empty string `''` ("use the
newest file of the watch directory"), `Given(p)` for any other path. The translation server is a function `fetch` from URL to text
or error. The editor is a function `editor` from starting text to final
text. The clock is an integer `now`. Python's truthiness test on an optional
string is `Truthy`. Any `OSError` raised by the operating system is
`OsFailure(path)`.

## Model

| member | source | states |
|---|---|---|
| Paths.RefDir | src/pramaana/core.py:47-49 | The reference directory is the root followed by the components of the reference path: empty and "." components dropped, no validation. |
| Paths.RefDirNested | src/pramaana/core.py:47-49 | The directory of "a/b" is the directory of "a" followed by the components of "b". So "a" names an ancestor of "a/b". |
| Paths.ComponentsJoin | src/pramaana/core.py:49 | Joining two path strings with "/" concatenates their components. |
| Paths.ComponentsAreProper | src/pramaana/core.py:49 | No component of a parsed path is empty, ".", or holds a slash. |
| FileSystem.MakeDirs | src/pramaana/core.py:141 | Creating a directory with its parents succeeds iff no ancestor is a regular file. On success it adds exactly the ancestors as directories and leaves files alone. On failure it changes nothing. |
| FileSystem.MakeDirsWf | src/pramaana/core.py:141 | Making directories keeps the tree well formed. |
| FileSystem.WriteFile | src/pramaana/core.py:159-161 | Writing succeeds iff the path is not a directory and its parent is one. The file then holds exactly the text, and nothing else changes. |
| StoreSpec.NewPrefix | src/pramaana/core.py:136-161 | On an existing path: `AlreadyExists`, nothing changed. Otherwise it succeeds iff the directories can be made and content is obtained. If the directories cannot be made: `OsFailure` of the reference directory, nothing changed. Once they are made, the directories are exactly the old ones plus the reference's ancestors, even when obtaining content then fails with that error. Success adds exactly a metadata file holding the content; a failure adds no file. |
| StoreSpec.EditPrefix | src/pramaana/core.py:195-224 | On a missing path: `NotFound`, nothing changed. Any failure changes nothing. On success the metadata file is replaced wholesale by content chosen from the URL, the BibTeX text, or the editor started on the current text ("" when the file is missing). |
| StoreSpec.Place | src/pramaana/core.py:122-131 | An unknown mode fails with `InvalidAttachmentMode` and changes nothing. It succeeds iff the mode is known, the source is a regular file, `ref_dir` is a directory and `ref_dir/<basename>` is not, `cp` is not onto the source itself, and `ln` finds no file at the destination. On success the destination holds the source's content and time, and directories are unchanged. `mv` removes the source; `cp` and `ln` keep it. Any failure changes nothing. |
| StoreSpec.PlaceTouchesNothingElse | src/pramaana/core.py:122-131 | Placing an attachment adds, removes or changes no file other than its source and its destination. |
| StoreSpec.Attach | src/pramaana/core.py:102-131 | With `Latest`: `WatchDirNotFound` when the watch directory is missing, `WatchDirEmpty` when it holds no file. A resolved path that does not exist gives `AttachmentNotFound`. An existing given path, or the listed watch-directory file, is placed exactly as `Place` says for the configured mode. Every failure changes nothing. |
| StoreSpec.PlaceWf | src/pramaana/core.py:124-129 | Copying, moving or linking keeps the tree well formed. |
| StoreSpec.ExportOne | src/pramaana/core.py:186-189 | Nothing collected: nothing written. Otherwise it succeeds iff the destination is not "/", its parents can be made, and it is not a directory. On success the parents exist and the destination holds exactly the entries joined by "\n". Failing to make the parents is `OsFailure` of the parent, changing nothing; a destination that is a directory is `OsFailure` of it, after the parents were made. A failure writes no file and adds no directory but the destination's ancestors. |
| StoreSpec.RunExports | src/pramaana/core.py:172-189 | Running the exports in order never removes a directory and keeps the tree well formed. |
| Text.BeforeFirst | src/pramaana/core.py:274 | `s.split(sep)[0]`: a prefix of `s` with no occurrence of `sep` before its end, ending where the first occurrence starts (or at the end of `s`). |
| Text.BeforeFirstUnique | src/pramaana/core.py:274 | Those three facts determine the result. |
| Text.BeforeFirstHasNoSep | src/pramaana/core.py:274 | The first field never contains the separator. |
| Text.LowerIsLower | src/pramaana/core.py:236 | Lower-casing leaves no upper-case letter, changes no other character, and is idempotent. |
| Text.ContainsIgnoringCase | src/pramaana/core.py:236-243 | Text containing the query in any mix of cases matches after both sides are lower-cased. |
| Text.JoinLength | src/pramaana/core.py:189 | A joined string is as long as its parts plus one separator between each pair. |
| Text.JoinAt | src/pramaana/core.py:189 | A joined string holds each part verbatim at its offset, followed by the separator unless it is the last part. |
| Store.Pramaana.MakeDirectories | src/pramaana/core.py:141 | The new filesystem is `MakeDirs` of the old, or the old one with `OsFailure`. |
| Store.Pramaana.Write | src/pramaana/core.py:160-161 | The new filesystem is `WriteFile` of the old, or the old one with `OsFailure`. |
| Store.Pramaana.LatestInWatchDir | src/pramaana/core.py:106-115 | Missing watch directory: `WatchDirNotFound`. No file in it: `WatchDirEmpty`. Otherwise a file of the watch directory with the greatest modification time. |
| Store.Pramaana.Copy2 | src/pramaana/core.py:124-125 | Does exactly what `Place` says for `cp`. |
| Store.Pramaana.Move | src/pramaana/core.py:126-127 | Does exactly what `Place` says for `mv`. |
| Store.Pramaana.Link | src/pramaana/core.py:128-129 | Does exactly what `Place` says for `ln`. |
| Store.Pramaana.PlaceAttachment | src/pramaana/core.py:122-131 | Does exactly what `Place` says for the configured mode. |
| Store.Pramaana.HandleAttachment | src/pramaana/core.py:94-131 | `None` changes nothing. Any other value resolves the source as `AttachChoice` allows (the given path, or a newest watch-directory file for `Latest`). It then does what `Attach` says. |
| Store.Pramaana.ReadAllUnder | src/pramaana/core.py:179-183 | Walks every `*.<fmt>` file below an existing source directory exactly once, and nothing below a missing one. Returns their contents in walk order. |
| Store.Pramaana.CollectRefs | src/pramaana/core.py:176-183 | The collected entries are the source walks' contents, source after source (`Gather` of an `ExportWalk`). |
| Store.Pramaana.WriteExport | src/pramaana/core.py:185-189 | Does exactly what `ExportOne` says. |
| Store.Pramaana.ProcessExports | src/pramaana/core.py:170-189 | Runs the exports in order, each on the filesystem the earlier ones left, with possible walks, stopping at the first failure (`ExportsRun`). |
| Store.Pramaana.CreateEntry | src/pramaana/core.py:136-161 | Does exactly what `NewPrefix` says. |
| Store.Pramaana.RewriteEntry | src/pramaana/core.py:195-224 | Does exactly what `EditPrefix` says. |
| Store.Pramaana.Complete | src/pramaana/core.py:163-168 | After a successful first part: the attachment step (when asked), then the exports, as `Finish` says. After a failed one: nothing. |
| Store.Pramaana.New | src/pramaana/core.py:133-168 | `NewPrefix`, then `Finish`, with the attachment handled for every non-`None` value, `Latest` included. |
| Store.Pramaana.Edit | src/pramaana/core.py:192-231 | `EditPrefix`, then `Finish`, with the attachment handled only for a truthy value: `Given`. `Latest` is skipped. |
| Store.Pramaana.Find | src/pramaana/core.py:233-251 | Every result is a hit: a `*.<fmt>` file under the root whose lower-cased text contains the lower-cased query. It carries its full text and its directory relative to the root. Every such file is returned, and none twice. |
| StoreLaws.AncestorsOfDirAreDirs | src/pramaana/core.py:141 | In a well-formed tree every ancestor of a directory is a directory. |
| StoreLaws.PrefixOfExisting | src/pramaana/core.py:138 | Whatever exists has all its ancestors existing. |
| StoreLaws.NestedReferenceBlocksNew | src/pramaana/core.py:136-139 | Once "a/b" exists, `new` on "a" raises `AlreadyExists` and changes nothing. |
| StoreLaws.NewOnExistingChangesNothing | src/pramaana/core.py:138-139 | A whole `new` on an existing path changes nothing: no attachment, no export. |
| StoreLaws.NewStoresBibtex | src/pramaana/core.py:147-161 | Given BibTeX text and no URL, the first part of `new` (up to the attachment) on a fresh path succeeds, and the metadata file holds exactly that text. |
| StoreLaws.FinishKeepsMetadata | src/pramaana/core.py:163-168 | After a successful first part of `new` or `edit`, the attachment and export steps leave the metadata file as written. The conditions are that no attachment named `reference.<fmt>` is placed and no export has the file as destination. |
| StoreLaws.NewKeepsMetadata | src/pramaana/core.py:133-168 | For the whole of `new` after a successful first part: the metadata file still holds the text written, with its time, whatever fails later. The conditions are that no attachment named `reference.<fmt>` is placed and no export has the file as destination. |
| StoreLaws.AttachmentCanReplaceMetadata | src/pramaana/core.py:117-125 | Without that condition the text does not survive: with `cp`, an attachment named `reference.<fmt>` is copied over the metadata file. |
| StoreLaws.FinishGrowsDirs | src/pramaana/core.py:163-168 | The attachment and export steps never remove a directory and keep the tree well formed. |
| StoreLaws.RetriedNewFails | src/pramaana/core.py:141-168 | No rollback: once `new` has made the directory, whatever fails later, a second `new` on the same path raises `AlreadyExists`. |
| StoreLaws.FailedAttachmentKeepsEntry | src/pramaana/core.py:141-165 | When the attachment step fails after `new` wrote the metadata, the directory and the metadata file remain. |
| StoreLaws.EditOnMissingChangesNothing | src/pramaana/core.py:197-198 | A whole `edit` on a missing path raises `NotFound` and changes nothing. |
| StoreLaws.ContentIgnoresDraft | src/pramaana/core.py:208-212 | With a URL or BibTeX text, the new content does not depend on the current one. |
| StoreLaws.EditIdempotent | src/pramaana/core.py:201-224 | Running the first part of `edit` (up to the attachment) twice with the same URL or BibTeX text equals running it once: an overwrite, never a merge. For a URL this holds because `fetch` answers the same URL the same way each time. |
| StoreLaws.EditTwiceKeepsText | src/pramaana/core.py:192-231 | Two whole `edit`s with the same URL or BibTeX text: when the first part of the first succeeds, that of the second succeeds too. Under the conditions of `FinishKeepsMetadata` for both, the metadata text after the second equals the text after the first. |
| StoreLaws.EditStartsFromCurrentText | src/pramaana/core.py:201-224 | Without URL or BibTeX, the editor starts on the current metadata, or on "" when the file is missing. What it returns is stored. |
| StoreLaws.FindIgnoresCase | src/pramaana/core.py:236-243 | A `*.<fmt>` file holding the query in any mix of cases is a match. |
| StoreLaws.NewThenFound | src/pramaana/core.py:159-161 | After the first part of `new`, the reference is a hit for any query its text contains. The hit names it by its reference path's components and carries the text written. |
| StoreLaws.WholeNewThenFound | src/pramaana/core.py:133-168 | The same after the whole of `new`, under the conditions of `NewKeepsMetadata`. |
| StoreLaws.AttachedUnderBasename | src/pramaana/core.py:122-131 | A placed attachment sits at `ref_dir/<basename of source>` with the source's content and time. Outside `mv` the source remains. |
| StoreLaws.InvalidModeChangesNothing | src/pramaana/core.py:130-131 | A mode other than cp, mv or ln raises and changes nothing. |
| StoreLaws.GivenFileIsPlaced | src/pramaana/core.py:117-131 | A given regular file is placed, under its own name with its content and time, whenever the mode is known, `ref_dir` exists and nothing has that name in it. |
| StoreLaws.NewestFileIsPlaced | src/pramaana/core.py:104-131 | With `Latest` and a non-empty watch directory, a newest file there is placed under the same conditions. |
| StoreLaws.NewestIsPicked | src/pramaana/core.py:111-115 | When one watch-directory file is strictly newer than the rest, `Latest` picks it. |
| StoreLaws.GatherAppend | src/pramaana/core.py:178-183 | Walking one more source appends its contents after the earlier sources'. |
| StoreLaws.DistinctCount | src/pramaana/core.py:181 | A walk visiting each file once is as long as the set of files. |
| StoreLaws.GatherCount | src/pramaana/core.py:178-183 | An export collects one entry per `*.<fmt>` file of each existing source, and none from a missing source. |
| StoreLaws.GatherMembers | src/pramaana/core.py:178-183 | An entry is collected iff it is the text of some walked file. |
| StoreLaws.GatherIsSourceContents | src/pramaana/core.py:178-183 | An entry is collected iff it is the text of a `*.<fmt>` file below an existing source directory. |
| StoreLaws.ExportHoldsEveryEntry | src/pramaana/core.py:186-189 | An export whose destination can be created (not "/", parents can be made, not a directory) is written, and holds every entry verbatim, in collection order, each followed by one newline except the last. |
| StoreLaws.ExportWalkStep | src/pramaana/core.py:178-183 | A possible walk of one more source extends a possible walk of the sources before it. |
| StoreLaws.RunExportsStep | src/pramaana/core.py:172-189 | Running one more export extends the run of the exports before it. |
| StoreLaws.ExportOneKeepsOthers | src/pramaana/core.py:186-189 | One export changes no file but its destination. |
| StoreLaws.RunExportsKeepsOthers | src/pramaana/core.py:172-189 | Processing exports changes no file that is not some export's destination. |
| StoreLaws.NoExportsNoChange | src/pramaana/core.py:172 | With no exports configured, processing exports changes nothing. |
| StoreLaws.DefaultConfigRunsNoExports | src/pramaana/core.py:13-18 | Under the default configuration the attachment mode is a known one and processing exports changes nothing. |
| ImportNaming.FirstAuthorShape | src/pramaana/core.py:274 | The first author is a prefix of the author field with no comma and no " and ". It is the whole field when the field has neither. |
| ImportNaming.LowerKeepsCommas | src/pramaana/core.py:275 | Lower-casing neither adds nor removes a comma. |
| ImportNaming.NameFromAuthorAndYear | src/pramaana/core.py:273-275 | With author and year the name is `imported/<stem>_<year>`. The stem is the lower-cased first author up to its first comma: no comma, no upper-case letter, no longer than the author field. |
| ImportNaming.NameWithoutAuthorOrYear | src/pramaana/core.py:276-281 | Without author or year, the path of an entry whose ID is one path component is, lexically, `<root>/imported/<ID>`, and that of one without an ID `<root>/imported/unknown`. An ID of ".." counts as one component, so this is about the path as written, not where the OS puts it. |
| ImportNaming.ImportedPrefix | src/pramaana/core.py:275-277 | "imported/<rest>" resolves to the `imported` directory followed by the components of `rest`. |
| ImportNaming.ImportedUnderImported | src/pramaana/core.py:273-281 | The path of every imported reference is lexically `<root>/imported` followed by the components of its stem. A ".." in the author or ID escapes `imported` once the OS resolves the path. |

## Left out

- `_fetch_from_url` (HTTP calls to the Zotero translation server) is the parameter `fetch`. Its failure is one error, `FetchFailed`, or any error `fetch` returns.
- The interactive editor (temporary file, `$EDITOR`, `subprocess.call`) is the parameter `editor`. The model does not say what the user types.
- Loading and saving `config.json`, and writing the default configuration on first use: the configuration is a constructor argument. `DefaultConfig` records the default values written then.
- `os.path.expanduser` on the watch directory, the attachment path and export destinations: every path is taken as already absolute and expanded.
- Store.Pramaana.constructor: a root that exists as a regular file raises in the source (writing `config.json` fails). The constructor requires that the root can be made a directory instead of modelling that error.
- Paths.RefDir: an absolute reference path replaces the root under pathlib's `/`. The model appends its components below the root. A ".." component is kept as a name, not resolved. The source validates neither, and path traversal is outside the model.
- ImportNaming.ImportedUnderImported: it states the path as written. An ID or first author with a ".." component (say "../x") leads out of `<root>/imported` once the OS resolves the path, and "../../x" leads out of the store. Where the directory ends up on disk is not modelled.
- ImportNaming.NameWithoutAuthorOrYear: likewise lexical; the ID ".." gives `<root>/imported/..`, which is the root itself.
- The order of `glob` and `rglob` is not modelled. Every order is allowed (`SourceWalk`, `AttachChoice`). Properties about export contents hold for every order.
- Directories inside the watch directory: `glob('*')` also lists them, but the model keeps no directory modification times. Only regular files are candidates for the newest entry. Likewise `rglob("*.<fmt>")` matching a directory is not modelled.
- Symbolic links, permissions and cross-device moves are not modelled. A hard link is modelled as a copy of the entry. Later writes through one name do not show through the other.
- StoreSpec.Place: when `ref_dir/<basename>` is an existing directory, `shutil.copy2` and `shutil.move` would put the file inside it. The model reports `OsFailure` instead. A source that is a directory (possible for an explicit path) is also `OsFailure`, not a recursive move.
- StoreSpec.ExportOne: export destinations are absolute paths. A bare relative file name, for which `os.makedirs('')` raises, is not modelled.
- StoreLaws.EditIdempotent: `fetch` is a function, so the same URL is taken to give the same text on every call. The translation server may answer differently over time, and then editing twice from a URL need not equal editing once.
- StoreSpec.ContentOf: reading a file gives back exactly what was stored. The source reads in text mode, which turns "\r\n" and "\r" into "\n" and raises `UnicodeDecodeError` on bytes the locale cannot decode; writes leave "\r" as written. Neither newline translation nor decode errors are modelled. So `Find`, `ExportOne`, `NewThenFound` and the draft `EditPrefix` hands to the editor carry the stored text verbatim, where the source would carry it with newlines translated or raise.
- Store.Pramaana.New: an attachment named `reference.<fmt>`, or an export whose destination is the metadata file, replaces the text `new` just wrote. The model does this too (`AttachmentCanReplaceMetadata`). The promise that the metadata holds exactly the text given is proved for the first part of `new` and, without those two cases, for the whole (`NewKeepsMetadata`).
- StoreLaws.EditIdempotent: only the first part of `edit` is idempotent. The whole `edit` is not. With `mv`, the first run moves the attachment away, so the second raises `AttachmentNotFound`. An export whose sources include its own destination collects its earlier output, so the destination grows on each run. `EditTwiceKeepsText` states what does repeat: the metadata text.
- Text.Lower: lower-casing covers ASCII letters only. Python's `str.lower` also folds other scripts. `find` and import naming inherit this.
- `import_zotero` beyond the directory name: walking the Zotero directory for `.bib` files, `bibtexparser.loads` (an entry is a map from field name to text), creating each reference, attaching the files listed in its `file` field, and printing warnings.
- `src/pramaana/cli.py` (argument parsing, printing, exit codes) is not part of this model.
- Console output (`print`) is not modelled.
