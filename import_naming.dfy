/** The directory name `import_zotero` gives each BibTeX entry it imports:
    `imported/<first author's surname, lower-cased>_<year>` when the entry has
    both an author and a year, otherwise `imported/<citation key>` or
    `imported/unknown`. */
module ImportNaming {
  import opened Text
  import opened Paths

  /** `author.split(' and ')[0].split(',')[0]`: the first name of the
      author list, up to its first comma. */
  function FirstAuthor(author: string): string
  {
    BeforeFirst(BeforeFirst(author, " and "), ",")
  }

  /** The first author is a prefix of the author field that holds neither a
      comma nor the name separator " and ", and it is the whole field when
      the field has neither. */
  lemma {:induction false} FirstAuthorShape(author: string)
    ensures FirstAuthor(author) <= author
    ensures !Contains(FirstAuthor(author), ",")
    ensures !Contains(FirstAuthor(author), " and ")
    ensures !Contains(author, ",") && !Contains(author, " and ") ==> FirstAuthor(author) == author
  {
    var names := BeforeFirst(author, " and ");
    var first := BeforeFirst(names, ",");
    BeforeFirstHasNoSep(names, ",");
    BeforeFirstHasNoSep(author, " and ");
    if Contains(first, " and ") {
      var i :| 0 <= i <= |first| - 5 && OccursAt(first, " and ", i);
      assert first[i..i + 5] == names[i..i + 5];
      ContainsWitness(names, " and ", i);
    }
    if !Contains(author, ",") && !Contains(author, " and ") {
      BeforeFirstAbsent(author, " and ");
      BeforeFirstAbsent(author, ",");
    }
  }

  /** What follows "imported/" in the name of an imported entry; `entry`
      maps BibTeX field names (and "ID", the citation key) to their text. */
  function ImportStem(entry: map<string, string>): string
  {
    if "author" in entry && "year" in entry then
      Lower(FirstAuthor(entry["author"])) + "_" + entry["year"]
    else if "ID" in entry then entry["ID"]
    else "unknown"
  }

  /** The name of the directory an imported entry is stored under. */
  function ImportDirName(entry: map<string, string>): string
  {
    "imported/" + ImportStem(entry)
  }

  /** Lower-casing neither adds nor removes a comma. */
  lemma {:induction false} LowerKeepsCommas(s: string)
    ensures Contains(Lower(s), ",") <==> Contains(s, ",")
  {
    var l := Lower(s);
    forall i | 0 <= i < |s| ensures OccursAt(l, ",", i) <==> OccursAt(s, ",", i) {
      assert l[i..i + 1] == [l[i]];
      assert s[i..i + 1] == [s[i]];
    }
    if Contains(l, ",") {
      var i :| 0 <= i <= |l| - 1 && OccursAt(l, ",", i);
      ContainsWitness(s, ",", i);
    }
    if Contains(s, ",") {
      var i :| 0 <= i <= |s| - 1 && OccursAt(s, ",", i);
      ContainsWitness(l, ",", i);
    }
  }

  /** With author and year, the name is the lower-cased first author up to
      its first comma, an underscore and the year; that part holds no comma
      and no upper-case letter and is no longer than the author field. */
  lemma {:induction false} NameFromAuthorAndYear(entry: map<string, string>)
    requires "author" in entry && "year" in entry
    ensures var stem := Lower(FirstAuthor(entry["author"]));
            && ImportDirName(entry) == "imported/" + stem + "_" + entry["year"]
            && |stem| <= |entry["author"]|
            && !Contains(stem, ",")
            && forall i :: 0 <= i < |stem| ==> !IsUpper(stem[i])
  {
    var first := FirstAuthor(entry["author"]);
    FirstAuthorShape(entry["author"]);
    LowerIsLower(first);
    LowerKeepsCommas(first);
  }

  /** A path string "imported/<rest>" resolves to the `imported` directory
      followed by the components of `rest`. */
  lemma {:induction false} ImportedPrefix(root: Path, rest: string)
    ensures RefDir(root, "imported/" + rest) == root + ["imported"] + Components(rest)
  {
    assert "imported/" + rest == "imported" + "/" + rest;
    ComponentsJoin("imported", rest);
    ImportedIsOneComponent();
  }

  /** "imported" is a single path component. */
  lemma {:induction false} ImportedIsOneComponent()
    ensures Components("imported") == ["imported"]
  {
    ComponentsOfProper("imported");
  }

  /** The path of every imported reference starts, lexically, with the
      store's `imported` directory, whatever its stem holds; a ".." among the
      stem's components leads out of it once the path is resolved. */
  lemma {:induction false} ImportedUnderImported(root: Path, entry: map<string, string>)
    ensures RefDir(root, ImportDirName(entry)) == root + ["imported"] + Components(ImportStem(entry))
  {
    ImportedPrefix(root, ImportStem(entry));
  }

  /** Without author or year, the path of an entry whose citation key is one
      path component is, lexically, `<root>/imported/<key>`, and that of an
      entry without a key `<root>/imported/unknown`. A key ".." is such a
      component, and its path resolves to the root itself. */
  lemma {:induction false} NameWithoutAuthorOrYear(root: Path, entry: map<string, string>)
    requires !("author" in entry && "year" in entry)
    ensures "ID" in entry && ProperComponent(entry["ID"]) ==>
              RefDir(root, ImportDirName(entry)) == root + ["imported", entry["ID"]]
    ensures "ID" !in entry ==> RefDir(root, ImportDirName(entry)) == root + ["imported", "unknown"]
  {
    if "ID" in entry && ProperComponent(entry["ID"]) {
      var id := entry["ID"];
      assert ImportDirName(entry) == "imported/" + id;
      ImportedPrefix(root, id);
      ComponentsOfProper(id);
      assert root + ["imported"] + [id] == root + ["imported", id];
    }
    if "ID" !in entry {
      assert ImportDirName(entry) == "imported/" + "unknown";
      ImportedPrefix(root, "unknown");
      ComponentsOfProper("unknown");
      assert root + ["imported"] + ["unknown"] == root + ["imported", "unknown"];
    }
  }
}
