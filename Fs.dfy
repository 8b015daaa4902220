/**
 * How a Java program sees the process outcome: it runs to the end, it calls
 * System.exit with a status, or a runtime exception escapes every handler.
 */
module Outcomes {
  datatype RuntimeError = NullPointer | IndexOutOfBounds

  datatype Outcome = Completed | Exit(status: int) | Uncaught(error: RuntimeError)
}

/**
 * The local filesystem as the transformer sees it through java.io.File and
 * java.nio.file.Files: a tree of directories and files keyed by normalized
 * absolute paths. Each primitive the core calls (Files.delete, File.mkdir,
 * Files.copy) is a function from the tree to its success and the new tree;
 * the `FileSystem` class applies them in place.
 */
module Fs {
  import opened Paths

  /** A regular file has bytes and a modification time; directories carry
      neither (File.lastModified() of a directory reads 0 in this model). */
  datatype Node = File(content: seq<bv8>, mtime: int) | Dir

  type Entries = map<Path, Node>

  /** The root exists and is a directory, and every other entry sits in a
      directory that exists. */
  predicate WellFormed(m: Entries) {
    && [] in m && m[[]].Dir?
    && (forall p :: p in m ==> IsPath(p))
    && (forall p {:trigger Parent(p)} :: p in m && p != [] ==> Parent(p) in m && m[Parent(p)].Dir?)
  }

  predicate IsDirectory(m: Entries, p: Path) {
    p in m && m[p].Dir?
  }

  predicate IsFile(m: Entries, p: Path) {
    p in m && m[p].File?
  }

  /** File.lastModified(): the time of a file, 0 for a directory or a path
      that does not exist. */
  function LastModified(m: Entries, p: Path): int {
    if IsFile(m, p) then m[p].mtime else 0
  }

  predicate IsChild(p: Path, q: Path) {
    q != [] && Parent(q) == p
  }

  predicate HasChildren(m: Entries, p: Path) {
    exists q :: q in m && IsChild(p, q)
  }

  /** The entries listed by File.list() / listFiles() of `p`. */
  function Children(m: Entries, p: Path): set<Path> {
    set q | q in m && IsChild(p, q)
  }

  /** `p` and everything below it. */
  function Subtree(m: Entries, p: Path): set<Path> {
    set q | q in m && IsPrefix(p, q)
  }

  /** The tree without the entries of `s`. */
  function Without(m: Entries, s: set<Path>): Entries {
    map q | q in m && q !in s :: m[q]
  }

  /** Files.delete: fails on a missing path, on the root and on a directory
      that still has entries. */
  function DeleteResult(m: Entries, p: Path): (Entries, bool) {
    if p in m && p != [] && !HasChildren(m, p) then (m - {p}, true) else (m, false)
  }

  /** File.mkdir: creates one directory when it is missing and its parent
      is an existing directory; reports false otherwise. */
  function MkdirResult(m: Entries, p: Path): (Entries, bool) {
    if p !in m && p != [] && IsDirectory(m, Parent(p)) then (m[p := Dir], true) else (m, false)
  }

  /** Files.copy with REPLACE_EXISTING: copying a path onto itself does
      nothing; a missing source, a destination that is a non-empty directory
      or a destination whose parent is not a directory fail. Otherwise the
      destination is replaced by a file with the source's bytes (keeping its
      time with COPY_ATTRIBUTES, stamped `now` without) or by an empty
      directory when the source is one. */
  function CopyResult(m: Entries, src: Path, dest: Path, copyAttributes: bool, now: int): (Entries, bool) {
    if src !in m then (m, false)
    else if src == dest then (m, true)
    else if IsDirectory(m, dest) && HasChildren(m, dest) then (m, false)
    else if dest == [] || !IsDirectory(m, Parent(dest)) then (m, false)
    else
      var node := match m[src]
        case Dir => Dir
        case File(c, t) => File(c, if copyAttributes then t else now);
      (m[dest := node], true)
  }

  /** Whatever lies strictly below an entry lies inside a directory. */
  lemma {:induction false} AncestorIsDir(m: Entries, p: Path, q: Path)
    requires WellFormed(m) && q in m && IsProperPrefix(p, q)
    ensures IsDirectory(m, p)
    decreases |q|
  {
    var r := Parent(q);
    assert r == q[..|q| - 1];
    if |q| > |p| + 1 {
      assert r[..|p|] == p;
      AncestorIsDir(m, p, r);
    } else {
      assert r == p;
    }
  }

  /** An ancestor as long as the path is the path. */
  lemma PrefixSameLength(p: Path, q: Path)
    ensures IsPrefix(p, q) && |p| == |q| ==> p == q
  {
    assert q[..|q|] == q;
  }

  /** An entry strictly below `p` lies in the branch of one of its
      children. */
  lemma BranchChild(m: Entries, p: Path, q: Path)
    requires WellFormed(m) && q in m && IsProperPrefix(p, q)
    ensures q[..|p| + 1] in Children(m, p) && IsPrefix(q[..|p| + 1], q)
  {
    var e := q[..|p| + 1];
    assert e[..|p|] == p;
    assert q[..|e|] == e;
    if |q| > |e| {
      AncestorIsDir(m, e, q);
    } else {
      assert e == q;
    }
    assert e != [] && Parent(e) == p;
    assert IsChild(p, e);
  }

  /** A file has nothing below it. */
  lemma FileSubtree(m: Entries, p: Path)
    requires WellFormed(m) && IsFile(m, p)
    ensures Subtree(m, p) == {p}
  {
    forall q | q in Subtree(m, p) ensures q == p {
      if q != p {
        AncestorIsDir(m, p, q);
      }
    }
  }

  /** Nothing is below a missing path. */
  lemma MissingSubtree(m: Entries, p: Path)
    requires WellFormed(m) && p !in m
    ensures Subtree(m, p) == {}
  {
    forall q | q in Subtree(m, p) ensures false {
      assert q != p;
      AncestorIsDir(m, p, q);
    }
  }

  /** A proper descendant's subtree is strictly smaller (the measure of the
      recursive walks). */
  lemma SubtreeShrinks(m: Entries, m': Entries, p: Path, c: Path)
    requires p in m && IsProperPrefix(p, c)
    requires forall q :: q in m' && IsPrefix(c, q) ==> q in m
    ensures Subtree(m', c) < Subtree(m, p)
  {
    forall q | q in Subtree(m', c) ensures q in Subtree(m, p) {
      assert q[..|p|] == c[..|p|];
    }
    assert p !in Subtree(m', c);
  }

  lemma DeletePreservesWellFormed(m: Entries, p: Path)
    requires WellFormed(m)
    ensures WellFormed(DeleteResult(m, p).0)
    ensures DeleteResult(m, p).1 <==> p in m && p != [] && !HasChildren(m, p)
  {
  }

  lemma MkdirPreservesWellFormed(m: Entries, p: Path)
    requires WellFormed(m) && IsPath(p)
    ensures WellFormed(MkdirResult(m, p).0)
  {
  }

  /** A successful copy replaces exactly the destination, and only by a
      node whose children (if any) it keeps: a non-empty directory is never
      replaced. */
  lemma CopyPreservesWellFormed(m: Entries, src: Path, dest: Path, copyAttributes: bool, now: int)
    requires WellFormed(m) && IsPath(dest)
    ensures WellFormed(CopyResult(m, src, dest, copyAttributes, now).0)
  {
    var (m', ok) := CopyResult(m, src, dest, copyAttributes, now);
    if ok && src != dest {
      forall q | q in m' && q != [] ensures Parent(q) in m' && m'[Parent(q)].Dir? {
        assert q != dest ==> q in m && (Parent(q) == dest ==> IsChild(dest, q));
      }
    }
  }

  /** The tree the core works on, updated in place. */
  class FileSystem {
    var entries: Entries

    ghost predicate Valid()
      reads this
    {
      WellFormed(entries)
    }

    constructor (init: Entries)
      requires WellFormed(init)
      ensures Valid() && entries == init
    {
      entries := init;
    }

    method Delete(p: Path) returns (ok: bool)
      requires Valid()
      modifies this
      ensures Valid()
      ensures (entries, ok) == DeleteResult(old(entries), p)
    {
      DeletePreservesWellFormed(entries, p);
      entries, ok := DeleteResult(entries, p).0, DeleteResult(entries, p).1;
    }

    method Mkdir(p: Path) returns (ok: bool)
      requires Valid() && IsPath(p)
      modifies this
      ensures Valid()
      ensures (entries, ok) == MkdirResult(old(entries), p)
    {
      MkdirPreservesWellFormed(entries, p);
      entries, ok := MkdirResult(entries, p).0, MkdirResult(entries, p).1;
    }

    method Copy(src: Path, dest: Path, copyAttributes: bool, now: int) returns (ok: bool)
      requires Valid() && IsPath(dest)
      modifies this
      ensures Valid()
      ensures (entries, ok) == CopyResult(old(entries), src, dest, copyAttributes, now)
    {
      CopyPreservesWellFormed(entries, src, dest, copyAttributes, now);
      var r := CopyResult(entries, src, dest, copyAttributes, now);
      entries, ok := r.0, r.1;
    }
  }
}
