/** String operations the store relies on: substring search (Python's `in`),
    the text before the first separator (`s.split(sep)[0]`), ASCII lower-casing
    (`str.lower`) and joining with a separator (`sep.join(parts)`). */
module Text {

  /** `needle` occurs in `s` starting at index `i`. */
  predicate OccursAt(s: string, needle: string, i: int)
  {
    0 <= i && i + |needle| <= |s| && s[i..i + |needle|] == needle
  }

  /** Python's `needle in s`. */
  predicate Contains(s: string, needle: string)
  {
    exists i | 0 <= i <= |s| - |needle| :: OccursAt(s, needle, i)
  }

  lemma {:induction false} ContainsWitness(s: string, needle: string, i: int)
    requires OccursAt(s, needle, i)
    ensures Contains(s, needle)
  {
  }

  /** Every string contains itself placed between any prefix and suffix. */
  lemma {:induction false} ContainsInfix(a: string, needle: string, b: string)
    ensures Contains(a + needle + b, needle)
  {
    var s := a + needle + b;
    assert s[|a|..|a| + |needle|] == needle;
    ContainsWitness(s, needle, |a|);
  }

  /** `s.split(sep)[0]`: the text before the first occurrence of `sep`, or all
      of `s` when `sep` does not occur. */
  function BeforeFirst(s: string, sep: string): (r: string)
    requires sep != []
    ensures r <= s
    ensures forall i :: 0 <= i < |r| ==> !OccursAt(s, sep, i)
    ensures |r| < |s| ==> OccursAt(s, sep, |r|)
    decreases |s|
  {
    if |s| < |sep| then s
    else if s[..|sep|] == sep then ""
    else
      var rest := BeforeFirst(s[1..], sep);
      assert forall i {:trigger OccursAt(s, sep, i)} :: 1 <= i ==> (OccursAt(s, sep, i) <==> OccursAt(s[1..], sep, i - 1));
      [s[0]] + rest
  }

  /** The three facts in BeforeFirst's contract pin its result down: any prefix
      of `s` that ends at the first occurrence of `sep` (or at the end of `s`
      when there is none) is that result. */
  lemma {:induction false} BeforeFirstUnique(s: string, sep: string, r: string)
    requires sep != []
    requires r <= s
    requires forall i :: 0 <= i < |r| ==> !OccursAt(s, sep, i)
    requires |r| < |s| ==> OccursAt(s, sep, |r|)
    ensures BeforeFirst(s, sep) == r
  {
    var b := BeforeFirst(s, sep);
    if |b| < |r| {
      assert false;
    } else if |r| < |b| {
      assert false;
    }
  }

  /** A string that does not contain `sep` is its own first field. */
  lemma {:induction false} BeforeFirstAbsent(s: string, sep: string)
    requires sep != []
    requires !Contains(s, sep)
    ensures BeforeFirst(s, sep) == s
  {
    var b := BeforeFirst(s, sep);
    if |b| < |s| {
      ContainsWitness(s, sep, |b|);
    }
  }

  /** The first field never contains the separator. */
  lemma {:induction false} BeforeFirstHasNoSep(s: string, sep: string)
    requires sep != []
    ensures !Contains(BeforeFirst(s, sep), sep)
  {
    var b := BeforeFirst(s, sep);
    if Contains(b, sep) {
      var i :| 0 <= i <= |b| - |sep| && OccursAt(b, sep, i);
      if i < |b| {
        assert b[i..i + |sep|] == s[i..i + |sep|];
        assert OccursAt(s, sep, i);
      } else {
        // sep is non-empty, so an occurrence cannot start at the end of b
        assert false;
      }
    }
  }

  function LowerChar(c: char): char
  {
    if 'A' <= c <= 'Z' then (c as int + 32) as char else c
  }

  predicate IsUpper(c: char)
  {
    'A' <= c <= 'Z'
  }

  /** `s.lower()`, restricted to ASCII letters. */
  function Lower(s: string): (r: string)
    ensures |r| == |s|
    ensures forall i :: 0 <= i < |s| ==> r[i] == LowerChar(s[i])
  {
    seq(|s|, i requires 0 <= i < |s| => LowerChar(s[i]))
  }

  /** Lower-casing leaves no upper-case letter, changes nothing else, and is idempotent. */
  lemma {:induction false} LowerIsLower(s: string)
    ensures forall i :: 0 <= i < |s| ==> !IsUpper(Lower(s)[i])
    ensures forall i :: 0 <= i < |s| && !IsUpper(s[i]) ==> Lower(s)[i] == s[i]
    ensures Lower(Lower(s)) == Lower(s)
  {
    var l := Lower(s);
    assert Lower(l) == l by {
      forall i | 0 <= i < |l| ensures Lower(l)[i] == l[i] {
      }
    }
  }

  /** A query matches regardless of the case of either side: search is case
      insensitive in both the text and the query. */
  lemma {:induction false} ContainsIgnoringCase(pre: string, hit: string, post: string, query: string)
    requires Lower(hit) == Lower(query)
    ensures Contains(Lower(pre + hit + post), Lower(query))
  {
    var s := pre + hit + post;
    assert Lower(s) == Lower(pre) + Lower(hit) + Lower(post);
    ContainsInfix(Lower(pre), Lower(query), Lower(post));
  }

  /** `sep.join(parts)`. */
  function Join(sep: string, parts: seq<string>): string
    decreases |parts|
  {
    if parts == [] then ""
    else if |parts| == 1 then parts[0]
    else parts[0] + sep + Join(sep, parts[1..])
  }

  /** Where the `k`-th part starts inside the joined string. */
  function Offset(sep: string, parts: seq<string>, k: nat): nat
    requires k <= |parts|
    decreases k
  {
    if k == 0 then 0 else |parts[0]| + |sep| + Offset(sep, parts[1..], k - 1)
  }

  function TotalLength(parts: seq<string>): nat
    decreases |parts|
  {
    if parts == [] then 0 else |parts[0]| + TotalLength(parts[1..])
  }

  /** The joined string is exactly as long as its parts and the separators between them. */
  lemma {:induction false} JoinLength(sep: string, parts: seq<string>)
    requires parts != []
    ensures |Join(sep, parts)| == TotalLength(parts) + (|parts| - 1) * |sep|
    decreases |parts|
  {
    if |parts| > 1 {
      JoinLength(sep, parts[1..]);
      assert (|parts| - 1) * |sep| == |sep| + (|parts| - 2) * |sep|;
    }
  }

  /** The joined string holds every part verbatim, in order, each followed by
      exactly one separator except the last. */
  lemma {:induction false} JoinAt(sep: string, parts: seq<string>, k: nat)
    requires k < |parts|
    ensures OccursAt(Join(sep, parts), parts[k], Offset(sep, parts, k))
    ensures k + 1 < |parts| ==> OccursAt(Join(sep, parts), sep, Offset(sep, parts, k) + |parts[k]|)
    decreases k
  {
    var j := Join(sep, parts);
    if |parts| == 1 {
      assert j == parts[0];
      assert j[0..|parts[0]|] == parts[0];
    } else {
      var rest := parts[1..];
      var tail := Join(sep, rest);
      assert j == parts[0] + sep + tail;
      if k == 0 {
        assert j[0..|parts[0]|] == parts[0];
        assert j[|parts[0]|..|parts[0]| + |sep|] == sep;
      } else {
        JoinAt(sep, rest, k - 1);
        JoinShift(parts[0] + sep, tail, Offset(sep, rest, k - 1), parts[k]);
        if k + 1 < |parts| {
          JoinShift(parts[0] + sep, tail, Offset(sep, rest, k - 1) + |parts[k]|, sep);
        }
      }
    }
  }

  lemma {:induction false} JoinShift(head: string, tail: string, o: int, needle: string)
    requires OccursAt(tail, needle, o)
    ensures OccursAt(head + tail, needle, |head| + o)
  {
    assert (head + tail)[|head| + o..|head| + o + |needle|] == tail[o..o + |needle|];
  }
}
