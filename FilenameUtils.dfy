/**
 * The three file-name helpers of Apache Commons IO that the transformer
 * calls: getName (through getBaseName), getExtension and getBaseName.
 * FilenameUtils treats both '/' and '\' as separators, and a dot counts
 * as the start of an extension only when it lies after the last separator.
 */
module FilenameUtils {
  import opened Paths

  predicate IsSeparator(c: char) {
    c == '/' || c == '\\'
  }

  /** getName: the text after the last separator. */
  function Name(s: string): string
    decreases |s|
  {
    if s == [] then []
    else if IsSeparator(s[|s| - 1]) then []
    else Name(s[..|s| - 1]) + [s[|s| - 1]]
  }

  /** Position of the last '.' in `n`, or -1 when there is none. */
  function LastDot(n: string): (k: int)
    ensures -1 <= k < |n|
    ensures k >= 0 ==> n[k] == '.' && '.' !in n[k + 1..]
    ensures k < 0 ==> '.' !in n
    decreases |n|
  {
    if n == [] then -1
    else if n[|n| - 1] == '.' then |n| - 1
    else
      var k := LastDot(n[..|n| - 1]);
      assert n == n[..|n| - 1] + [n[|n| - 1]];
      k
  }

  /** getExtension: what follows the last dot of the name, else "". */
  function Extension(s: string): string {
    var n := Name(s);
    var k := LastDot(n);
    if k < 0 then "" else n[k + 1..]
  }

  /** getBaseName: the name with its extension (and the dot) removed. */
  function BaseName(s: string): string {
    var n := Name(s);
    var k := LastDot(n);
    if k < 0 then n else n[..k]
  }

  /** The name never contains a separator, and it is a suffix of the path. */
  lemma {:induction false} NameIsLastPart(s: string)
    ensures forall i :: 0 <= i < |Name(s)| ==> !IsSeparator(Name(s)[i])
    ensures |Name(s)| <= |s| && s[|s| - |Name(s)|..] == Name(s)
    ensures |Name(s)| < |s| ==> IsSeparator(s[|s| - |Name(s)| - 1])
    decreases |s|
  {
    if s != [] && !IsSeparator(s[|s| - 1]) {
      var init := s[..|s| - 1];
      NameIsLastPart(init);
      assert s == init + [s[|s| - 1]];
    }
  }

  /** Whatever precedes a separator does not affect the name. */
  lemma {:induction false} NameAfterSeparator(a: string, b: string)
    ensures Name(a + "/" + b) == Name(b)
    decreases |b|
  {
    var s := a + "/" + b;
    if b == [] {
      assert s[|s| - 1] == '/';
    } else {
      assert s[|s| - 1] == b[|b| - 1];
      assert s[..|s| - 1] == a + "/" + b[..|b| - 1];
      NameAfterSeparator(a, b[..|b| - 1]);
    }
  }

  /** The name of an absolute path string is the name of its last segment. */
  lemma NameOfPathString(p: Path)
    requires p != []
    ensures Name(PathString(p)) == Name(p[|p| - 1])
  {
    var x := p[|p| - 1];
    if |p| == 1 {
      assert PathString(p) == "" + "/" + x by {
        assert "" + "/" == "/";
      }
      NameAfterSeparator("", x);
    } else {
      var init := p[..|p| - 1];
      assert PathString(p) == PathString(init) + "/" + x;
      NameAfterSeparator(PathString(init), x);
    }
  }

  /** A base name holds no '/'. */
  lemma BaseNameNoSeparator(s: string)
    ensures '/' !in BaseName(s)
  {
    NameIsLastPart(s);
    var n := Name(s);
    var b := BaseName(s);
    forall k | 0 <= k < |b| ensures b[k] != '/' {
      assert b[k] == n[k];
    }
  }

  /** A string without separators is its own name. */
  lemma {:induction false} PlainName(s: string)
    requires '/' !in s && '\\' !in s
    ensures Name(s) == s
    decreases |s|
  {
    if s != [] {
      PlainName(s[..|s| - 1]);
      assert s[..|s| - 1] + [s[|s| - 1]] == s;
    }
  }

  /** The last dot of `a.b`, when `b` has none, is the one before `b`. */
  lemma {:induction false} LastDotBefore(a: string, b: string)
    requires '.' !in b
    ensures LastDot(a + "." + b) == |a|
    decreases |b|
  {
    var s := a + "." + b;
    if b != [] {
      assert s[..|s| - 1] == a + "." + b[..|b| - 1];
      LastDotBefore(a, b[..|b| - 1]);
    }
  }

  /** The suffix ".xml" is a dot and "xml". */
  lemma DotXml(stem: string)
    ensures stem + ".xml" == stem + "." + "xml"
  {
    var file, alt := stem + ".xml", stem + "." + "xml";
    assert forall k :: 0 <= k < |file| ==> file[k] == alt[k];
  }

  /** `<stem>.xml`, the stem free of separators, is its own name and has
      the extension "xml". */
  lemma PlainXmlName(stem: string)
    requires '/' !in stem && '\\' !in stem
    ensures Name(stem + ".xml") == stem + ".xml" && Extension(stem + ".xml") == "xml"
  {
    var file := stem + ".xml";
    assert forall k :: |stem| <= k < |file| ==> file[k] == ".xml"[k - |stem|];
    PlainName(file);
    DotXml(stem);
    LastDotBefore(stem, "xml");
    assert file[|stem| + 1..] == "xml";
  }

  /** The extension of an absolute path string is that of its last segment. */
  lemma ExtensionOfPathString(p: Path)
    requires p != []
    ensures Extension(PathString(p)) == Extension(p[|p| - 1])
  {
    NameOfPathString(p);
  }

  /** Base name and extension together give back the name. */
  lemma BaseNameAndExtension(s: string)
    ensures Name(s) == if '.' in Name(s) then BaseName(s) + "." + Extension(s) else BaseName(s)
  {
    var n := Name(s);
    var k := LastDot(n);
    if k >= 0 {
      SplitAtDot(n, k);
    }
  }

  lemma SplitAtDot(n: string, k: int)
    requires 0 <= k < |n| && n[k] == '.'
    ensures n == n[..k] + "." + n[k + 1..]
  {
    assert n[..k + 1] == n[..k] + [n[k]];
    assert n == n[..k + 1] + n[k + 1..];
  }

  /** A name ending in an "xml" extension keeps its full name once ".xml" is
      appended and the base name is taken (the destination name built by
      copyAllGeneratedXmlFiles ends in ".xml" for that reason). */
  lemma {:induction false} BaseNameOfAppendedXml(s: string)
    requires Extension(s) == "xml"
    ensures BaseName(s + ".xml") == Name(s)
    ensures Name(s) == BaseName(s) + ".xml"
  {
    var t := s + ".xml";
    var n := Name(s);
    var k := LastDot(n);
    assert k >= 0 && n[k + 1..] == "xml";
    assert n == n[..k] + ".xml";
    // Name(t) == n + ".xml", one character at a time
    assert t[..|t| - 1] == s + ".xm";
    assert t[..|t| - 1][..|t| - 2] == s + ".x";
    assert t[..|t| - 1][..|t| - 2][..|t| - 3] == s + ".";
    assert (s + ".")[..|s|] == s;
    assert Name(s + ".") == n + ".";
    assert Name(s + ".x") == n + ".x";
    assert Name(s + ".xm") == n + ".xm";
    assert Name(t) == n + ".xml";
    var nt := n + ".xml";
    assert nt[|n| + 1..] == "xml";
    assert LastDot(nt) == |n| by {
      assert nt[..|nt| - 1] == n + ".xm";
      assert (n + ".xm")[..|n| + 2] == n + ".x";
      assert (n + ".x")[..|n| + 1] == n + ".";
    }
    assert nt[..|n|] == n;
  }
}
