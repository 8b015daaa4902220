/**
 * Path strings and the normalized paths they denote.
 *
 * java.io.File removes repeated and trailing separators from the string it
 * is given, so `"/cms" + "/" + "/2017"` and `"/cms/2017"` name the same file.
 * The model therefore keys the filesystem by sequences of path segments:
 * `Segments` turns a path string into the segments java.io.File would
 * see, and `PathString` turns segments back into the absolute path string
 * File.getPath() / getAbsolutePath() report.
 */
module Paths {

  /** A single path segment: non-empty and free of the separator. */
  predicate IsName(n: string) {
    n != "" && '/' !in n
  }

  /** A normalized absolute path, as a list of segments; `[]` is "/". */
  type Path = seq<string>

  predicate IsPath(p: Path) {
    forall i :: 0 <= i < |p| ==> IsName(p[i])
  }

  /** The parent directory; the root is its own parent. */
  function Parent(p: Path): (q: Path)
    ensures p != [] ==> |q| == |p| - 1 && q + [p[|p| - 1]] == p
  {
    if p == [] then [] else p[..|p| - 1]
  }

  /** `a` is `b` or an ancestor of `b`. */
  predicate IsPrefix(a: Path, b: Path) {
    |a| <= |b| && b[..|a|] == a
  }

  /** `a` is a strict ancestor of `b`. */
  predicate IsProperPrefix(a: Path, b: Path) {
    |a| < |b| && b[..|a|] == a
  }

  /** The segment collected so far, dropped when it is empty. */
  function Piece(cur: string): Path {
    if cur == "" then [] else [cur]
  }

  /** Reads `s` from the left, `cur` being the segment collected so far: a
      separator ends the segment, an empty segment is dropped. */
  function Split(cur: string, s: string): Path
    decreases |s|
  {
    if s == "" then Piece(cur)
    else if s[0] == '/' then Piece(cur) + Split("", s[1..])
    else Split(cur + [s[0]], s[1..])
  }

  /** The segments java.io.File keeps of a path string: the pieces between
      separators, with the empty pieces dropped. */
  function Segments(s: string): Path {
    Split("", s)
  }

  lemma {:induction false} SplitArePath(cur: string, s: string)
    requires '/' !in cur
    ensures IsPath(Split(cur, s))
    decreases |s|
  {
    if s == "" {
    } else if s[0] == '/' {
      SplitArePath("", s[1..]);
      var r := Split("", s[1..]);
      assert forall i :: 0 <= i < |r| ==> IsName(r[i]);
    } else {
      assert '/' !in cur + [s[0]];
      SplitArePath(cur + [s[0]], s[1..]);
    }
  }

  /** Every piece kept is a proper segment. */
  lemma SegmentsArePath(s: string)
    ensures IsPath(Segments(s))
  {
    SplitArePath("", s);
  }

  lemma {:induction false} SplitJoin(cur: string, a: string, b: string)
    ensures Split(cur, a + "/" + b) == Split(cur, a) + Split("", b)
    decreases |a|
  {
    var s := a + "/" + b;
    if a == "" {
      assert s[0] == '/' && s[1..] == b;
    } else {
      assert s[0] == a[0] && s[1..] == a[1..] + "/" + b;
      if a[0] == '/' {
        SplitJoin("", a[1..], b);
      } else {
        SplitJoin(cur + [a[0]], a[1..], b);
      }
    }
  }

  /** Joining two path strings with a separator concatenates their segments;
      in particular duplicated separators change nothing. */
  lemma SegmentsJoin(a: string, b: string)
    ensures Segments(a + "/" + b) == Segments(a) + Segments(b)
  {
    SplitJoin("", a, b);
  }

  /** Appending a string that starts with a separator (or nothing)
      appends its segments. */
  lemma SegmentsAppend(a: string, b: string)
    requires b == "" || b[0] == '/'
    ensures Segments(a + b) == Segments(a) + Segments(b)
  {
    if b == "" {
      assert a + b == a;
    } else {
      assert a + b == a + "/" + b[1..];
      SegmentsJoin(a, b[1..]);
      assert Segments(b) == Segments(b[1..]);
    }
  }

  lemma {:induction false} SplitName(cur: string, n: string)
    requires '/' !in cur && '/' !in n && cur + n != ""
    ensures Split(cur, n) == [cur + n]
    decreases |n|
  {
    if n == "" {
      assert cur + n == cur;
    } else {
      assert n == [n[0]] + n[1..];
      assert '/' !in cur + [n[0]] && '/' !in n[1..];
      assert cur + n == cur + [n[0]] + n[1..];
      SplitName(cur + [n[0]], n[1..]);
    }
  }

  /** A name is a single segment. */
  lemma SegmentsOfName(n: string)
    requires IsName(n)
    ensures Segments(n) == [n]
  {
    assert "" + n == n;
    SplitName("", n);
  }

  /** The string getPath() reports for an absolute path. */
  function PathString(p: Path): (s: string)
    ensures |s| > 0 && s[0] == '/'
    decreases |p|
  {
    if p == [] then "/"
    else if |p| == 1 then "/" + p[0]
    else PathString(p[..|p| - 1]) + "/" + p[|p| - 1]
  }

  /** Reading back the string of a path yields the path. */
  lemma {:induction false} SegmentsOfPathString(p: Path)
    requires IsPath(p)
    ensures Segments(PathString(p)) == p
    decreases |p|
  {
    if p == [] {
      var s := "/";
      assert s[0] == '/' && s[1..] == "";
    } else if |p| == 1 {
      var s := "/" + p[0];
      assert s[0] == '/' && s[1..] == p[0];
      SegmentsOfName(p[0]);
    } else {
      var init := p[..|p| - 1];
      SegmentsJoin(PathString(init), p[|p| - 1]);
      SegmentsOfPathString(init);
      SegmentsOfName(p[|p| - 1]);
      assert init + [p[|p| - 1]] == p;
    }
  }
}
