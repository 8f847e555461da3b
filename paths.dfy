/** Paths as sequences of components, and the resolution of a reference path
    (a slash-separated string) to the directory under the store root that holds
    the reference (`config_dir / ref_path`). */
module Paths {
  import opened Text

  /** An absolute path, component by component; `[]` is the filesystem root "/". */
  type Path = seq<string>

  function Parent(p: Path): Path
    requires p != []
  {
    p[..|p| - 1]
  }

  function Basename(p: Path): string
    requires p != []
  {
    p[|p| - 1]
  }

  /** A component as pathlib keeps it: never empty, never ".", never holding a slash. */
  predicate ProperComponent(x: string)
  {
    x != "" && x != "." && '/' !in x
  }

  /** pathlib drops empty components (from "a//b" or a trailing slash) and ".". */
  function Keep(x: string): seq<string>
  {
    if x == "" || x == "." then [] else [x]
  }

  lemma {:induction false} NoSlashBeforeFirstSlash(s: string)
    ensures '/' !in BeforeFirst(s, "/")
    ensures |BeforeFirst(s, "/")| == |s| ==> '/' !in s
  {
    var h := BeforeFirst(s, "/");
    forall i | 0 <= i < |h| ensures h[i] != '/' {
      assert !OccursAt(s, "/", i);
      assert s[i..i + 1] == [s[i]];
    }
  }

  /** The components of a relative path string, as `PurePosixPath(s).parts`. */
  function Components(s: string): seq<string>
    decreases |s|
  {
    var head := BeforeFirst(s, "/");
    if |head| == |s| then Keep(s)
    else Keep(head) + Components(s[|head| + 1..])
  }

  /** Every component is proper: no empty component, no ".", no slash. */
  lemma {:induction false} ComponentsAreProper(s: string)
    ensures forall k :: 0 <= k < |Components(s)| ==> ProperComponent(Components(s)[k])
    decreases |s|
  {
    var head := BeforeFirst(s, "/");
    NoSlashBeforeFirstSlash(s);
    if |head| < |s| {
      ComponentsAreProper(s[|head| + 1..]);
    }
  }

  /** A single proper component parses to itself. */
  lemma {:induction false} ComponentsOfProper(x: string)
    requires ProperComponent(x)
    ensures Components(x) == [x]
  {
    forall i | 0 <= i <= |x| - 1 ensures !OccursAt(x, "/", i) {
      assert x[i] != '/';
      assert x[i..i + 1] == [x[i]];
    }
    BeforeFirstAbsent(x, "/");
  }

  /** Appending "/" and more text does not move the first slash of a string
      that already has one, and puts it right after a string that has none. */
  lemma {:induction false} FirstSlashOfJoin(a: string, b: string)
    ensures BeforeFirst(a + "/" + b, "/") == BeforeFirst(a, "/")
  {
    var s := a + "/" + b;
    var h := BeforeFirst(a, "/");
    forall i | 0 <= i < |a| ensures OccursAt(s, "/", i) <==> OccursAt(a, "/", i) {
      assert s[i..i + 1] == a[i..i + 1];
    }
    if |h| == |a| {
      assert s[|a|..|a| + 1] == "/";
    } else {
      assert s[|h|..|h| + 1] == a[|h|..|h| + 1];
    }
    BeforeFirstUnique(s, "/", h);
  }

  /** One step of Components: the part before the first slash, then the rest. */
  lemma {:induction false} ComponentsStep(s: string, h: string)
    requires h == BeforeFirst(s, "/")
    ensures |h| == |s| ==> Components(s) == Keep(s)
    ensures |h| < |s| ==> Components(s) == Keep(h) + Components(s[|h| + 1..])
  {
  }

  /** Associativity of concatenation, with both sides named. It stands apart
      so that the solver proves it without the context of `ComponentsJoin`,
      where the same step is too costly. */
  lemma ConcatRegroups<T>(whole: seq<T>, x: seq<T>, y: seq<T>, z: seq<T>, xy: seq<T>)
    requires whole == x + (y + z) && xy == x + y
    ensures whole == xy + z
  {
  }

  /** Joining two relative paths with a slash concatenates their components. */
  lemma {:induction false} ComponentsJoin(a: string, b: string)
    ensures Components(a + "/" + b) == Components(a) + Components(b)
    decreases |a|
  {
    var s := a + "/" + b;
    var h := BeforeFirst(a, "/");
    FirstSlashOfJoin(a, b);
    ComponentsStep(s, h);
    ComponentsStep(a, h);
    if |h| == |a| {
      assert h == a;
      assert s[|h| + 1..] == b;
    } else {
      var rest := a[|h| + 1..];
      assert s[|h| + 1..] == rest + "/" + b;
      ComponentsJoin(rest, b);
      assert Components(s) == Keep(h) + (Components(rest) + Components(b));
      assert Components(a) == Keep(h) + Components(rest);
      ConcatRegroups(Components(s), Keep(h), Components(rest), Components(b), Components(a));
    }
  }

  /** `config_dir / ref_path`: no validation, just the components appended to the root. */
  function RefDir(root: Path, refPath: string): (d: Path)
    ensures root <= d
    ensures forall k :: |root| <= k < |d| ==> ProperComponent(d[k])
  {
    ComponentsAreProper(refPath);
    root + Components(refPath)
  }

  /** A nested reference path resolves beneath the directory of its parent
      reference path, so "a" names an ancestor directory of "a/b". */
  lemma {:induction false} RefDirNested(root: Path, a: string, b: string)
    ensures RefDir(root, a + "/" + b) == RefDir(root, a) + Components(b)
    ensures RefDir(root, a) <= RefDir(root, a + "/" + b)
  {
    ComponentsJoin(a, b);
  }
}
