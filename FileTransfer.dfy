/**
 * The file operations of the FileTransfer service: copying one generated
 * file, sweeping generated XML files out of the site folder, mirroring the
 * generated images into another folder and deleting an image folder.
 * A System.exit ends the operation with an `Exit` outcome and the tree as it
 * was at that moment.
 */
module FileTransfer {
  import opened Paths
  import opened Fs
  import opened Outcomes

  // ---------------------------------------------------------------- copyFile

  /** copyFile's preparation: when the destination is missing, try once to
      create its parent directory. */
  function PrepareDest(m: Entries, dest: Path): Entries {
    if dest in m then m else MkdirResult(m, Parent(dest)).0
  }

  /** copyFile: when the modification times differ, create the missing
      parent directory (one level) and copy with REPLACE_EXISTING and
      COPY_ATTRIBUTES; an I/O failure exits with status 36. */
  function CopyFileResult(m: Entries, source: Path, dest: Path): (Outcome, Entries) {
    if LastModified(m, source) == LastModified(m, dest) then (Completed, m)
    else
      var (m', ok) := CopyResult(PrepareDest(m, dest), source, dest, true, 0);
      if ok then (Completed, m') else (Exit(36), m')
  }

  /** The destination's parent is a directory once copyFile has tried to
      create it. */
  predicate ParentReady(m: Entries, dest: Path) {
    IsDirectory(m, Parent(dest)) ||
    (dest !in m && Parent(dest) != [] && Parent(dest) !in m && IsDirectory(m, Parent(Parent(dest))))
  }

  method CopyFile(fs: FileSystem, source: Path, dest: Path) returns (o: Outcome)
    requires fs.Valid() && IsPath(dest)
    modifies fs
    ensures fs.Valid()
    ensures (o, fs.entries) == CopyFileResult(old(fs.entries), source, dest)
  {
    if LastModified(fs.entries, source) != LastModified(fs.entries, dest) {
      if dest !in fs.entries {
        var _ := fs.Mkdir(Parent(dest));
      }
      var ok := fs.Copy(source, dest, true, 0);
      if !ok {
        return Exit(36);
      }
    }
    return Completed;
  }

  /** Equal modification times (including two missing files) leave the tree
      alone. */
  lemma CopyFileSkipsUpToDate(m: Entries, source: Path, dest: Path)
    requires LastModified(m, source) == LastModified(m, dest)
    ensures CopyFileResult(m, source, dest) == (Completed, m)
  {
  }

  /** When the times differ, copyFile fails, with status 36, exactly when
      the source is missing, the destination is the root or a non-empty
      directory, or its parent cannot be made. */
  lemma CopyFileFails(m: Entries, source: Path, dest: Path)
    requires WellFormed(m)
    requires LastModified(m, source) != LastModified(m, dest)
    ensures var o := CopyFileResult(m, source, dest).0;
      (o == Completed || o == Exit(36)) &&
      (o == Exit(36) <==>
        source !in m || dest == [] || (IsDirectory(m, dest) && HasChildren(m, dest)) ||
        !ParentReady(m, dest))
  {
    var m1 := PrepareDest(m, dest);
    assert source != dest;
    if dest !in m {
      assert dest != [];
      assert source != Parent(dest) || Parent(dest) in m;
      assert source in m1 <==> source in m;
      assert IsDirectory(m1, Parent(dest)) <==> ParentReady(m, dest);
      assert !IsDirectory(m1, dest);
    }
  }

  /** A completed copy leaves the source's node, time included, at the
      destination. */
  lemma CopyFileCopies(m: Entries, source: Path, dest: Path)
    requires WellFormed(m)
    requires LastModified(m, source) != LastModified(m, dest)
    ensures var (o, m') := CopyFileResult(m, source, dest);
      o == Completed ==>
        source in m && dest in m' && m'[dest] == m[source] &&
        LastModified(m', dest) == LastModified(m, source)
  {
    assert source != dest;
    assert dest !in m && Parent(dest) !in m ==> source != Parent(dest);
  }

  /** Only the destination changes, and at most its parent directory is
      created besides. */
  lemma CopyFileFrame(m: Entries, source: Path, dest: Path)
    ensures var m' := CopyFileResult(m, source, dest).1;
      (forall p :: p in m && p != dest ==> p in m' && m'[p] == m[p]) &&
      (forall p :: p in m' && p !in m ==> p == dest || p == Parent(dest))
  {
  }

  /** Once copyFile has completed, running it again changes nothing: the
      destination now carries the source's time. */
  lemma CopyFileIdempotent(m: Entries, source: Path, dest: Path)
    requires WellFormed(m)
    ensures var (o, m') := CopyFileResult(m, source, dest);
      o == Completed ==> CopyFileResult(m', source, dest) == (Completed, m')
  {
    if LastModified(m, source) != LastModified(m, dest) {
      CopyFileCopies(m, source, dest);
      CopyFileFrame(m, source, dest);
    }
  }

  /** copyFile keeps the tree well formed. */
  lemma CopyFilePreservesWellFormed(m: Entries, source: Path, dest: Path)
    requires WellFormed(m) && IsPath(dest)
    ensures WellFormed(CopyFileResult(m, source, dest).1)
  {
    if LastModified(m, source) != LastModified(m, dest) {
      MkdirPreservesWellFormed(m, Parent(dest));
      CopyPreservesWellFormed(PrepareDest(m, dest), source, dest, true, 0);
    }
  }

  // ------------------------------------------------- deleteXmlFromSiteFolder

  /** getFileName().toString().endsWith(".xml") */
  predicate HasXmlName(p: Path) {
    p != [] && |p[|p| - 1]| >= 4 && p[|p| - 1][|p[|p| - 1]| - 4..] == ".xml"
  }

  /** What Files.find(root, 5, ...) reports: entries at most five levels
      below the root (the root included) whose name ends in ".xml". */
  predicate Found(m: Entries, root: Path, p: Path) {
    p in m && IsPrefix(root, p) && |p| - |root| <= 5 && HasXmlName(p)
  }

  function Candidates(m: Entries, root: Path): set<Path> {
    set p | p in m && Found(m, root, p)
  }

  /** The candidates Files.delete removes: the walk reports a directory
      before its children, so a directory is removed only when it was empty
      to begin with. */
  function SweptSet(m: Entries, s: set<Path>): set<Path> {
    set p | p in s && !HasChildren(m, p)
  }

  /** deleteXmlFromSiteFolder over `root`: a missing root makes Files.find
      fail (exit 37); the root "/" has no file name, so the filter throws a
      NullPointerException; otherwise every reported entry is deleted and a
      failed deletion is ignored. */
  function SweepResult(m: Entries, root: Path): (Outcome, Entries) {
    if root !in m then (Exit(37), m)
    else if root == [] then (Uncaught(NullPointer), m)
    else (Completed, Without(m, SweptSet(m, Candidates(m, root))))
  }

  /** A non-empty finite set of paths has a shortest member. */
  lemma {:induction false} ShortestExists(s: set<Path>)
    requires s != {}
    ensures exists p :: p in s && forall q :: q in s ==> |p| <= |q|
    decreases |s|
  {
    var x :| x in s;
    if s != {x} {
      var rest := s - {x};
      ShortestExists(rest);
      var y :| y in rest && forall q :: q in rest ==> |y| <= |q|;
      if |x| < |y| {
        assert forall q :: q in s ==> |x| <= |q|;
      } else {
        assert forall q :: q in s ==> |y| <= |q|;
      }
    } else {
      assert forall q :: q in s ==> |x| <= |q|;
    }
  }

  /** Removing entries no longer than `p` leaves its children alone. */
  lemma ChildrenOfWithout(m: Entries, s: set<Path>, p: Path)
    requires NoLongerThan(s, p)
    ensures HasChildren(Without(m, s), p) <==> HasChildren(m, p)
  {
    if HasChildren(m, p) {
      var q :| q in m && IsChild(p, q);
      assert |q| == |p| + 1;
      assert q in Without(m, s);
    }
  }

  lemma WithoutPreservesWellFormed(m: Entries, s: set<Path>)
    requires WellFormed(m) && [] !in s
    requires forall p :: p in s ==> !HasChildren(m, p)
    ensures WellFormed(Without(m, s))
  {
    var m' := Without(m, s);
    forall q | q in m' && q != [] ensures Parent(q) in m' {
      assert IsChild(Parent(q), q);
    }
  }

  /** Every member of `s` is at most as long as `p`. */
  ghost predicate NoLongerThan(s: set<Path>, p: Path) {
    forall a :: a in s ==> |a| <= |p|
  }

  /** One deletion of the sweep: the entries removed so far are no longer
      than `p`, so whether `p` still has children is decided by the tree the
      sweep started from. */
  lemma SweepStep(m: Entries, done: set<Path>, p: Path)
    requires p in m && p != [] && p !in done && NoLongerThan(done, p)
    ensures DeleteResult(Without(m, SweptSet(m, done)), p).0 == Without(m, SweptSet(m, done + {p}))
  {
    ChildrenOfWithout(m, SweptSet(m, done), p);
    if !HasChildren(m, p) {
      assert SweptSet(m, done + {p}) == SweptSet(m, done) + {p};
    } else {
      assert SweptSet(m, done + {p}) == SweptSet(m, done);
    }
  }

  /** What the sweep loop keeps: `done` holds the reported entries already
      handled, none longer than those still to do, and the tree is the
      starting tree without the ones Files.delete removed. */
  ghost predicate SweepInvariant(m0: Entries, found: set<Path>, todo: set<Path>, done: set<Path>, m: Entries) {
    todo + done == found && todo !! done &&
    (forall q :: q in found ==> q in m0 && q != []) &&
    (forall b :: b in todo ==> NoLongerThan(done, b)) &&
    m == Without(m0, SweptSet(m0, done))
  }

  /** Handling a shortest entry still to do keeps the sweep invariant. */
  lemma SweepAdvance(m0: Entries, found: set<Path>, todo: set<Path>, done: set<Path>, m: Entries, p: Path)
    requires SweepInvariant(m0, found, todo, done, m)
    requires p in todo && forall q :: q in todo ==> |p| <= |q|
    ensures SweepInvariant(m0, found, todo - {p}, done + {p}, DeleteResult(m, p).0)
  {
    SweepStep(m0, done, p);
  }

  method DeleteXmlFromSiteFolder(fs: FileSystem, root: Path) returns (o: Outcome)
    requires fs.Valid()
    modifies fs
    ensures fs.Valid()
    ensures (o, fs.entries) == SweepResult(old(fs.entries), root)
  {
    if root !in fs.entries {
      return Exit(37);
    }
    if root == [] {
      return Uncaught(NullPointer);
    }
    ghost var m0 := fs.entries;
    var todo := Candidates(fs.entries, root);
    ghost var found := todo;
    ghost var done: set<Path> := {};
    while todo != {}
      invariant fs.Valid()
      invariant SweepInvariant(m0, found, todo, done, fs.entries)
      decreases todo
    {
      ShortestExists(todo);
      var p :| p in todo && forall q :: q in todo ==> |p| <= |q|;
      SweepAdvance(m0, found, todo, done, fs.entries, p);
      var _ := fs.Delete(p);
      todo, done := todo - {p}, done + {p};
    }
    return Completed;
  }

  /** After a completed sweep no file with an ".xml" name is left within
      five levels of the root, and whatever was not reported is untouched. */
  lemma SweepRemovesXmlFiles(m: Entries, root: Path)
    requires WellFormed(m)
    ensures var (o, m') := SweepResult(m, root);
      (o == Completed <==> root in m && root != []) &&
      (o == Completed ==> forall p :: p in m' && Found(m', root, p) ==> IsDirectory(m', p)) &&
      (forall p :: p in m && !Found(m, root, p) ==> p in m' && m'[p] == m[p]) &&
      m'.Keys <= m.Keys
  {
    var (o, m') := SweepResult(m, root);
    if o == Completed {
      forall p | p in m' && Found(m', root, p) ensures IsDirectory(m', p) {
        assert p in Candidates(m, root) && p !in SweptSet(m, Candidates(m, root));
      }
    }
  }

  /** The sweep keeps the tree well formed. */
  lemma SweepPreservesWellFormed(m: Entries, root: Path)
    requires WellFormed(m)
    ensures WellFormed(SweepResult(m, root).1)
  {
    if root in m && root != [] {
      WithoutPreservesWellFormed(m, SweptSet(m, Candidates(m, root)));
    }
  }

  // ----------------------------------------------------- moveGeneratedImages

  /** The node Files.copy with REPLACE_EXISTING alone creates: a fresh
      timestamp for a file, an empty directory for a directory. */
  function CopyNode(n: Node, now: int): Node {
    match n
    case Dir => Dir
    case File(c, _) => File(c, now)
  }

  /** The entry `r` below `dest` holds the copy of its counterpart below
      `src` in the tree `m0`. */
  ghost predicate MirrorOf(m0: Entries, m: Entries, src: Path, dest: Path, r: Path, now: int)
    requires r in m && IsPrefix(dest, r)
  {
    var q := src + r[|dest|..];
    q in m0 && m[r] == CopyNode(m0[q], now)
  }

  /** What a mirroring run may do to the tree: nothing is removed, nothing
      outside `dest` changes, and every entry below `dest` that is new or
      different is the copy of its counterpart below `src`. */
  ghost predicate MoveFrame(m0: Entries, m: Entries, src: Path, dest: Path, now: int) {
    m0.Keys <= m.Keys &&
    (forall r :: r in m && !IsPrefix(dest, r) ==> r in m0 && m[r] == m0[r]) &&
    (forall r :: r in m && IsPrefix(dest, r) && (r in m0 ==> m[r] != m0[r]) ==>
      MirrorOf(m0, m, src, dest, r, now))
  }

  /** What the run leaves at `r` for the entry `q` of the starting tree: a
      file's bytes, stamped by the clock; for a directory, an entry at `r`
      whenever `r` lies inside a directory. File.mkdir creates that one
      level, and an entry already there, even a file, is kept, since
      File.exists() is all the source asks before descending. */
  ghost predicate CopiedTo(m0: Entries, m: Entries, q: Path, r: Path, now: int)
    requires q in m0
  {
    match m0[q]
    case File(c, _) => r in m && m[r] == File(c, now)
    case Dir => r in m || !IsDirectory(m, Parent(r))
  }

  /** Every entry below `src` has its copy at the same place below `dest`. */
  ghost predicate FilesMirrored(m0: Entries, m: Entries, src: Path, dest: Path, now: int) {
    forall q :: q in m0 && IsPrefix(src, q) ==> CopiedTo(m0, m, q, dest + q[|src|..], now)
  }

  /** Two ancestors of one path are ancestors one of the other. */
  lemma PrefixesComparable(a: Path, b: Path, x: Path)
    ensures IsPrefix(a, x) && IsPrefix(b, x) ==> IsPrefix(a, b) || IsPrefix(b, a)
  {
    if IsPrefix(a, x) && IsPrefix(b, x) {
      if |a| <= |b| {
        assert b[..|a|] == x[..|a|];
      } else {
        assert a[..|b|] == x[..|b|];
      }
    }
  }

  /** Two trees that neither contains the other share no entry. */
  lemma Apart(src: Path, dest: Path, x: Path)
    requires !IsPrefix(src, dest) && !IsPrefix(dest, src) && IsPrefix(src, x)
    ensures !IsPrefix(dest, x)
  {
    PrefixesComparable(src, dest, x);
  }

  /** An ancestor of a child path is the path or an ancestor of its parent. */
  lemma PrefixOfChild(a: Path, b: Path, n: string)
    ensures IsPrefix(a + [n], b + [n]) ==> IsPrefix(a, b)
    ensures IsPrefix(b + [n], a) ==> IsPrefix(b, a)
  {
    if IsPrefix(a + [n], b + [n]) {
      assert (b + [n])[..|a|] == b[..|a|];
    }
    if IsPrefix(b + [n], a) {
      assert a[..|b|] == (b + [n])[..|b|];
    }
  }

  /** The children of `src` and `dest` pair up by name, still apart. */
  lemma ApartChildren(src: Path, dest: Path, n: string)
    requires !IsPrefix(src, dest) && !IsPrefix(dest, src)
    ensures !IsPrefix(src + [n], dest + [n]) && !IsPrefix(dest + [n], src + [n])
  {
    PrefixOfChild(src, dest, n);
    PrefixOfChild(dest, src, n);
  }

  /** Mirroring one child `c == src + [n]` into `dest + [n]` keeps the frame
      of mirroring `src` into `dest`. */
  lemma MoveFrameStep(m0: Entries, m1: Entries, m2: Entries, src: Path, dest: Path, n: string, now: int)
    requires !IsPrefix(src, dest) && !IsPrefix(dest, src)
    requires MoveFrame(m0, m1, src, dest, now)
    requires MoveFrame(m1, m2, src + [n], dest + [n], now)
    ensures MoveFrame(m0, m2, src, dest, now)
  {
    var c, d := src + [n], dest + [n];
    forall r | r in m2 && !IsPrefix(dest, r) ensures r in m0 && m2[r] == m0[r] {
      PrefixOfChild(dest, dest, n);
      PrefixOfChild(r, dest, n);
    }
    forall r | r in m2 && IsPrefix(dest, r) && (r in m0 ==> m2[r] != m0[r])
      ensures MirrorOf(m0, m2, src, dest, r, now)
    {
      if r in m1 && m2[r] == m1[r] {
        assert MirrorOf(m0, m1, src, dest, r, now);
      } else {
        assert MirrorOf(m1, m2, c, d, r, now);
        assert r[|dest|] == n;
        assert c + r[|d|..] == src + r[|dest|..];
        Apart(src, dest, src + r[|dest|..]);
      }
    }
  }

  /** Mirroring a child leaves the copies made for its siblings alone and
      adds the copies of its own files. */
  lemma MirroredStep(m0: Entries, m1: Entries, m2: Entries, src: Path, dest: Path,
                     done: set<Path>, c: Path, now: int)
    requires !IsPrefix(src, dest) && !IsPrefix(dest, src)
    requires c !in done && IsChild(src, c) && forall e :: e in done ==> IsChild(src, e)
    requires MoveFrame(m0, m1, src, dest, now)
    requires MoveFrame(m1, m2, c, dest + [c[|c| - 1]], now)
    requires FilesMirrored(m1, m2, c, dest + [c[|c| - 1]], now)
    requires SubtreesMirrored(m0, m1, src, dest, done, now)
    ensures SubtreesMirrored(m0, m2, src, dest, done + {c}, now)
  {
    SiblingsKept(m0, m1, m2, src, dest, done, c, now);
    OwnFilesMirrored(m0, m1, m2, src, dest, c, now);
  }

  lemma SiblingsKept(m0: Entries, m1: Entries, m2: Entries, src: Path, dest: Path,
                     done: set<Path>, c: Path, now: int)
    requires c !in done && IsChild(src, c) && forall e :: e in done ==> IsChild(src, e)
    requires MoveFrame(m1, m2, c, dest + [c[|c| - 1]], now)
    requires SubtreesMirrored(m0, m1, src, dest, done, now)
    ensures SubtreesMirrored(m0, m2, src, dest, done, now)
  {
    var n := c[|c| - 1];
    var d := dest + [n];
    forall q | q in m0 && IsProperPrefix(src, q) && q[..|src| + 1] in done
      ensures CopiedTo(m0, m2, q, dest + q[|src|..], now)
    {
      var r := dest + q[|src|..];
      var e := q[..|src| + 1];
      assert e == src + [e[|src|]] && c == src + [n];
      assert r[|dest|] == e[|src|];
      assert !IsPrefix(d, r);
      if |r| > |dest| + 1 {
        assert Parent(r)[|dest|] == r[|dest|];
      }
      assert !IsPrefix(d, Parent(r));
    }
  }

  lemma OwnFilesMirrored(m0: Entries, m1: Entries, m2: Entries, src: Path, dest: Path,
                         c: Path, now: int)
    requires !IsPrefix(src, dest) && !IsPrefix(dest, src) && IsChild(src, c)
    requires MoveFrame(m0, m1, src, dest, now)
    requires FilesMirrored(m1, m2, c, dest + [c[|c| - 1]], now)
    ensures SubtreesMirrored(m0, m2, src, dest, {c}, now)
  {
    var d := dest + [c[|c| - 1]];
    forall q | q in m0 && IsProperPrefix(src, q) && q[..|src| + 1] == c
      ensures CopiedTo(m0, m2, q, dest + q[|src|..], now)
    {
      Apart(src, dest, q);
      assert q in m1 && m1[q] == m0[q];
      assert IsPrefix(c, q);
      assert d + q[|c|..] == dest + q[|src|..];
    }
  }

  /** The entries below the children in `done` are mirrored. */
  ghost predicate SubtreesMirrored(m0: Entries, m: Entries, src: Path, dest: Path, done: set<Path>, now: int) {
    forall q :: q in m0 && IsProperPrefix(src, q) && q[..|src| + 1] in done ==>
      CopiedTo(m0, m, q, dest + q[|src|..], now)
  }

  /** Once `dest` is there and every child of a directory is mirrored, all
      its entries are. */
  lemma ChildrenMirrored(m0: Entries, m: Entries, src: Path, dest: Path, done: set<Path>, now: int)
    requires WellFormed(m0) && IsDirectory(m0, src) && done == Children(m0, src)
    requires dest in m || !IsDirectory(m, Parent(dest))
    requires SubtreesMirrored(m0, m, src, dest, done, now)
    ensures FilesMirrored(m0, m, src, dest, now)
  {
    forall q | q in m0 && IsPrefix(src, q)
      ensures CopiedTo(m0, m, q, dest + q[|src|..], now)
    {
      PrefixSameLength(src, q);
      if q == src {
        assert dest + q[|src|..] == dest;
      } else {
        BranchChild(m0, src, q);
      }
    }
  }

  /** Copying a file or a missing path is a mirror of it. */
  lemma CopyMirrors(m0: Entries, src: Path, dest: Path, now: int)
    requires WellFormed(m0) && !IsDirectory(m0, src)
    requires !IsPrefix(src, dest) && !IsPrefix(dest, src)
    ensures var (m, ok) := CopyResult(m0, src, dest, false, now);
      MoveFrame(m0, m, src, dest, now) && (ok ==> FilesMirrored(m0, m, src, dest, now))
  {
    var (m, ok) := CopyResult(m0, src, dest, false, now);
    assert src + dest[|dest|..] == src;
    if ok {
      assert src in m0 && m[dest] == CopyNode(m0[src], now);
      forall q | q in m0 && IsPrefix(src, q)
        ensures CopiedTo(m0, m, q, dest + q[|src|..], now)
      {
        FileSubtree(m0, src);
        assert q in Subtree(m0, src);
        assert dest + q[|src|..] == dest;
      }
    }
  }

  /** Doing nothing stays within the frame. */
  lemma MoveFrameRefl(m: Entries, src: Path, dest: Path, now: int)
    ensures MoveFrame(m, m, src, dest, now)
    ensures SubtreesMirrored(m, m, src, dest, {}, now)
  {
  }

  /** Creating the missing `dest` is the mirror of the directory `src`, and
      leaves `src`'s entries as they were. */
  lemma MkdirMirrors(m0: Entries, m1: Entries, src: Path, dest: Path, now: int)
    requires WellFormed(m0) && IsDirectory(m0, src) && IsPath(dest)
    requires !IsPrefix(src, dest) && !IsPrefix(dest, src)
    requires m1 == if dest in m0 then m0 else MkdirResult(m0, dest).0
    ensures MoveFrame(m0, m1, src, dest, now)
    ensures WellFormed(m1) && IsDirectory(m1, src)
    ensures Children(m1, src) == Children(m0, src) && Subtree(m1, src) == Subtree(m0, src)
  {
    assert src + dest[|dest|..] == src;
    assert !IsChild(src, dest);
    PrefixSameLength(src, dest);
    MkdirPreservesWellFormed(m0, dest);
  }

  /** The mkdir of `dest` fails only when its parent is no directory, and
      nothing in the rest of the run changes that parent. */
  lemma DestKept(m0: Entries, m1: Entries, m2: Entries, src: Path, dest: Path, now: int)
    requires dest != []
    requires m1 == if dest in m0 then m0 else MkdirResult(m0, dest).0
    requires MoveFrame(m1, m2, src, dest, now)
    ensures dest in m2 || !IsDirectory(m2, Parent(dest))
  {
    assert !IsPrefix(dest, Parent(dest));
  }

  /** Two runs within the frame make one. */
  lemma MoveFrameTrans(m0: Entries, m1: Entries, m2: Entries, src: Path, dest: Path, now: int)
    requires !IsPrefix(src, dest) && !IsPrefix(dest, src)
    requires MoveFrame(m0, m1, src, dest, now) && MoveFrame(m1, m2, src, dest, now)
    ensures MoveFrame(m0, m2, src, dest, now)
  {
    forall r | r in m2 && IsPrefix(dest, r) && (r in m0 ==> m2[r] != m0[r])
      ensures MirrorOf(m0, m2, src, dest, r, now)
    {
      if !(r in m1 && m2[r] == m1[r]) {
        assert MirrorOf(m1, m2, src, dest, r, now);
        Apart(src, dest, src + r[|dest|..]);
      }
    }
  }

  /** Mirrored files stay mirrored when the sources did not change. */
  lemma MirroredTrans(m0: Entries, m1: Entries, m2: Entries, src: Path, dest: Path,
                      done: set<Path>, now: int)
    requires !IsPrefix(src, dest) && !IsPrefix(dest, src)
    requires MoveFrame(m0, m1, src, dest, now)
    requires SubtreesMirrored(m1, m2, src, dest, done, now)
    ensures SubtreesMirrored(m0, m2, src, dest, done, now)
  {
    forall q | q in m0 && IsProperPrefix(src, q) {
      Apart(src, dest, q);
    }
  }

  /** What the loop over the children of `src` keeps: the children handled
      so far have their files mirrored, within the frame of the whole run. */
  ghost predicate MoveLoop(m0: Entries, m: Entries, src: Path, dest: Path,
                           all: set<Path>, kids: set<Path>, done: set<Path>, now: int) {
    kids + done == all && kids !! done &&
    MoveFrame(m0, m, src, dest, now) && SubtreesMirrored(m0, m, src, dest, done, now)
  }

  /** The recursive call on a child meets its requirements and its measure
      is smaller. */
  lemma MoveCallReady(m0: Entries, m1: Entries, src: Path, dest: Path,
                      all: set<Path>, kids: set<Path>, done: set<Path>, c: Path, now: int)
    requires WellFormed(m0) && IsPath(dest) && src in m0
    requires !IsPrefix(src, dest) && !IsPrefix(dest, src)
    requires all == Children(m0, src) && c in kids
    requires MoveLoop(m0, m1, src, dest, all, kids, done, now)
    ensures c == src + [c[|c| - 1]] && IsPath(dest + [c[|c| - 1]])
    ensures !IsPrefix(c, dest + [c[|c| - 1]]) && !IsPrefix(dest + [c[|c| - 1]], c)
    ensures Subtree(m1, c) < Subtree(m0, src)
  {
    var n := c[|c| - 1];
    assert c == src + [n];
    ApartChildren(src, dest, n);
    forall q | q in m1 && IsPrefix(c, q) ensures q in m0 {
      assert IsPrefix(src, q);
      Apart(src, dest, q);
    }
    SubtreeShrinks(m0, m1, src, c);
    assert IsPath(c);
  }

  /** Mirroring a child completes one more step of the loop. */
  lemma MoveAdvance(m0: Entries, m1: Entries, m2: Entries, src: Path, dest: Path,
                    all: set<Path>, kids: set<Path>, done: set<Path>, c: Path, now: int)
    requires !IsPrefix(src, dest) && !IsPrefix(dest, src)
    requires c in kids && IsChild(src, c) && forall e :: e in all ==> IsChild(src, e)
    requires MoveLoop(m0, m1, src, dest, all, kids, done, now)
    requires MoveFrame(m1, m2, c, dest + [c[|c| - 1]], now)
    requires FilesMirrored(m1, m2, c, dest + [c[|c| - 1]], now)
    ensures MoveLoop(m0, m2, src, dest, all, kids - {c}, done + {c}, now)
  {
    var n := c[|c| - 1];
    assert c == src + [n];
    MoveFrameStep(m0, m1, m2, src, dest, n, now);
    MirroredStep(m0, m1, m2, src, dest, done, c, now);
  }

  /** A child of `src` and the entry of the same name below `dest` are still
      apart, and the child's subtree is the smaller one. */
  lemma ChildCallReady(m: Entries, src: Path, dest: Path, c: Path)
    requires WellFormed(m) && IsPath(dest) && src in m
    requires !IsPrefix(src, dest) && !IsPrefix(dest, src)
    requires c in Children(m, src)
    ensures c == src + [c[|c| - 1]] && IsPath(dest + [c[|c| - 1]])
    ensures !IsPrefix(c, dest + [c[|c| - 1]]) && !IsPrefix(dest + [c[|c| - 1]], c)
    ensures Subtree(m, c) < Subtree(m, src)
  {
    var n := c[|c| - 1];
    assert c == src + [n];
    ApartChildren(src, dest, n);
    SubtreeShrinks(m, m, src, c);
    assert IsPath(c);
  }

  /** Whether moveGeneratedImages(src, dest) runs to the end from the tree
      `m`. Anything but a directory is one Files.copy, whose success does
      not depend on the clock. A directory first has `dest` created when it
      is missing, and then every child must complete into the entry of the
      same name. Each child is judged on the tree right after that mkdir:
      what a sibling does below `dest` never reaches what the child depends
      on (MirrorOkAgree), so the order File.list() returns does not
      matter. */
  ghost predicate MirrorOk(m: Entries, src: Path, dest: Path)
    requires WellFormed(m) && IsPath(dest) && !IsPrefix(src, dest) && !IsPrefix(dest, src)
    decreases Subtree(m, src), 2
  {
    if IsDirectory(m, src) then
      var m1 := if dest in m then m else MkdirResult(m, dest).0;
      MkdirMirrors(m, m1, src, dest, 0);
      ChildrenOk(m1, src, dest, Children(m1, src))
    else CopyResult(m, src, dest, false, 0).1
  }

  /** Every child in `cs` completes into its counterpart below `dest`. */
  ghost predicate ChildrenOk(m: Entries, src: Path, dest: Path, cs: set<Path>)
    requires WellFormed(m) && IsPath(dest) && IsDirectory(m, src)
    requires !IsPrefix(src, dest) && !IsPrefix(dest, src)
    requires cs <= Children(m, src)
    decreases Subtree(m, src), 1
  {
    forall c :: c in cs ==> ChildOk(m, src, dest, c)
  }

  ghost predicate ChildOk(m: Entries, src: Path, dest: Path, c: Path)
    requires WellFormed(m) && IsPath(dest) && IsDirectory(m, src)
    requires !IsPrefix(src, dest) && !IsPrefix(dest, src)
    requires c in Children(m, src)
    decreases Subtree(m, src), 0
  {
    ChildCallReady(m, src, dest, c);
    MirrorOk(m, c, dest + [c[|c| - 1]])
  }

  /** `m` and `m'` hold the same entries at and below `p`. */
  ghost predicate SameBelow(m: Entries, m': Entries, p: Path) {
    forall q :: IsPrefix(p, q) ==> (q in m <==> q in m') && (q in m ==> m[q] == m'[q])
  }

  lemma SameBelowDescends(m: Entries, m': Entries, p: Path, q: Path)
    requires SameBelow(m, m', p) && IsPrefix(p, q)
    ensures SameBelow(m, m', q)
  {
    forall r | IsPrefix(q, r) ensures IsPrefix(p, r) {
      assert r[..|p|] == q[..|p|];
    }
  }

  /** Whether `dest` has entries is read from the entries below it. */
  lemma HasChildrenAgree(m: Entries, m': Entries, p: Path)
    requires SameBelow(m, m', p)
    ensures HasChildren(m, p) == HasChildren(m', p)
  {
    forall q | IsChild(p, q) ensures IsPrefix(p, q) {
      assert q[..|p|] == Parent(q);
    }
  }

  /** The mkdir of `dest` does the same on two trees that agree below
      `src` and `dest` and on the kind of `dest`'s parent. */
  lemma MkdirAgree(m: Entries, m': Entries, src: Path, dest: Path)
    requires !IsPrefix(src, dest)
    requires SameBelow(m, m', src) && SameBelow(m, m', dest)
    requires IsDirectory(m, Parent(dest)) == IsDirectory(m', Parent(dest))
    ensures var m1 := if dest in m then m else MkdirResult(m, dest).0;
      var m1' := if dest in m' then m' else MkdirResult(m', dest).0;
      SameBelow(m1, m1', src) && SameBelow(m1, m1', dest)
  {
    assert IsPrefix(dest, dest);
  }

  /** Whether the run completes depends only on the entries at and below
      `src` and `dest` and on whether the parent of `dest` is a directory. */
  lemma MirrorOkAgree(m: Entries, m': Entries, src: Path, dest: Path)
    requires WellFormed(m) && WellFormed(m') && IsPath(dest)
    requires !IsPrefix(src, dest) && !IsPrefix(dest, src)
    requires SameBelow(m, m', src) && SameBelow(m, m', dest)
    requires IsDirectory(m, Parent(dest)) == IsDirectory(m', Parent(dest))
    ensures MirrorOk(m, src, dest) == MirrorOk(m', src, dest)
    decreases Subtree(m, src), 1
  {
    assert IsPrefix(src, src) && IsPrefix(dest, dest);
    if IsDirectory(m, src) {
      var m1 := if dest in m then m else MkdirResult(m, dest).0;
      var m1' := if dest in m' then m' else MkdirResult(m', dest).0;
      MkdirMirrors(m, m1, src, dest, 0);
      MkdirMirrors(m', m1', src, dest, 0);
      MkdirAgree(m, m', src, dest);
      ChildrenOkAgree(m1, m1', src, dest);
    } else {
      HasChildrenAgree(m, m', dest);
    }
  }

  lemma ChildrenOkAgree(m: Entries, m': Entries, src: Path, dest: Path)
    requires WellFormed(m) && WellFormed(m') && IsPath(dest)
    requires IsDirectory(m, src) && IsDirectory(m', src)
    requires !IsPrefix(src, dest) && !IsPrefix(dest, src)
    requires SameBelow(m, m', src) && SameBelow(m, m', dest)
    ensures Children(m, src) == Children(m', src)
    ensures ChildrenOk(m, src, dest, Children(m, src)) == ChildrenOk(m', src, dest, Children(m', src))
    decreases Subtree(m, src), 0
  {
    forall c | IsChild(src, c) ensures IsPrefix(src, c) {
      assert c[..|src|] == Parent(c);
    }
    forall c | c in Children(m, src) ensures ChildOk(m, src, dest, c) == ChildOk(m', src, dest, c) {
      ChildCallReady(m, src, dest, c);
      ChildCallReady(m', src, dest, c);
      var d := dest + [c[|c| - 1]];
      SameBelowDescends(m, m', src, c);
      SameBelowDescends(m, m', dest, d);
      assert Parent(d) == dest && IsPrefix(dest, dest);
      MirrorOkAgree(m, m', c, d);
    }
  }

  /** Mirroring into a missing `dest` inside a directory always completes. */
  lemma MirrorIntoFresh(m: Entries, src: Path, dest: Path)
    requires WellFormed(m) && IsPath(dest) && !IsPrefix(src, dest) && !IsPrefix(dest, src)
    requires src in m && dest !in m && IsDirectory(m, Parent(dest))
    ensures MirrorOk(m, src, dest)
    decreases Subtree(m, src)
  {
    if IsDirectory(m, src) {
      var m1 := MkdirResult(m, dest).0;
      MkdirMirrors(m, m1, src, dest, 0);
      forall c | c in Children(m1, src) ensures ChildOk(m1, src, dest, c) {
        ChildCallReady(m1, src, dest, c);
        var d := dest + [c[|c| - 1]];
        assert Parent(d) == dest;
        MirrorIntoFresh(m1, c, d);
      }
    }
  }

  /** The counterparts below `dest` of the children still to do are as
      they were, and so is the kind of `dest`. */
  ghost predicate DestsUntouched(m0: Entries, m: Entries, src: Path, dest: Path, kids: set<Path>) {
    IsDirectory(m, dest) == IsDirectory(m0, dest) &&
    forall c :: c in kids && c != [] ==> SameBelow(m0, m, dest + [c[|c| - 1]])
  }

  /** A child still to do completes from the current tree exactly when it
      completes from the tree the loop started with. */
  lemma CallAgrees(m0: Entries, m1: Entries, src: Path, dest: Path,
                   all: set<Path>, kids: set<Path>, done: set<Path>, c: Path, now: int)
    requires WellFormed(m0) && WellFormed(m1) && IsPath(dest) && IsDirectory(m0, src)
    requires !IsPrefix(src, dest) && !IsPrefix(dest, src)
    requires all == Children(m0, src) && c in kids
    requires MoveLoop(m0, m1, src, dest, all, kids, done, now)
    requires DestsUntouched(m0, m1, src, dest, kids)
    ensures c in Children(m0, src)
    ensures (ChildCallReady(m0, src, dest, c);
      MirrorOk(m1, c, dest + [c[|c| - 1]]) == ChildOk(m0, src, dest, c))
  {
    ChildCallReady(m0, src, dest, c);
    var d := dest + [c[|c| - 1]];
    SourceKept(m0, m1, src, dest, c, now);
    assert SameBelow(m0, m1, d);
    assert Parent(d) == dest;
    MirrorOkAgree(m0, m1, c, d);
  }

  /** A run within the frame leaves everything below `src` as it was. */
  lemma SourceKept(m0: Entries, m1: Entries, src: Path, dest: Path, c: Path, now: int)
    requires !IsPrefix(src, dest) && !IsPrefix(dest, src) && IsPrefix(src, c)
    requires MoveFrame(m0, m1, src, dest, now)
    ensures SameBelow(m0, m1, c)
  {
    forall q | IsPrefix(c, q) ensures (q in m0 <==> q in m1) && (q in m0 ==> m0[q] == m1[q]) {
      assert q[..|src|] == c[..|src|];
      Apart(src, dest, q);
    }
  }

  /** Everything below `dest + [n]` continues with `n`. */
  lemma BranchName(dest: Path, n: string, q: Path)
    requires IsPrefix(dest + [n], q)
    ensures q[|dest|] == n
  {
    assert q[|dest|] == q[..|dest| + 1][|dest|];
  }

  /** Mirroring one child touches no other child's counterpart. */
  lemma UntouchedAdvance(m0: Entries, m1: Entries, m2: Entries, src: Path, dest: Path,
                         kids: set<Path>, c: Path, now: int)
    requires c in kids && c != [] && forall e :: e in kids ==> IsChild(src, e)
    requires DestsUntouched(m0, m1, src, dest, kids)
    requires MoveFrame(m1, m2, c, dest + [c[|c| - 1]], now)
    ensures DestsUntouched(m0, m2, src, dest, kids - {c})
  {
    var d := dest + [c[|c| - 1]];
    assert !IsPrefix(d, dest);
    forall e | e in kids - {c} && e != [] ensures SameBelow(m0, m2, dest + [e[|e| - 1]]) {
      var d' := dest + [e[|e| - 1]];
      assert e == Parent(e) + [e[|e| - 1]] && c == Parent(c) + [c[|c| - 1]];
      assert e[|e| - 1] != c[|c| - 1];
      forall q | IsPrefix(d', q) ensures !IsPrefix(d, q) {
        BranchName(dest, e[|e| - 1], q);
      }
    }
  }

  /** moveGeneratedImages: a directory is mirrored child by child after
      `dest` is created when missing; anything else is copied with
      REPLACE_EXISTING, and a failed copy exits with status 390. */
  method MoveGeneratedImages(fs: FileSystem, src: Path, dest: Path, now: int) returns (o: Outcome)
    requires fs.Valid() && IsPath(dest)
    requires !IsPrefix(src, dest) && !IsPrefix(dest, src)
    modifies fs
    ensures fs.Valid()
    ensures o == Completed || o == Exit(390)
    ensures o == Completed <==> MirrorOk(old(fs.entries), src, dest)
    ensures MoveFrame(old(fs.entries), fs.entries, src, dest, now)
    ensures o == Completed ==> FilesMirrored(old(fs.entries), fs.entries, src, dest, now)
    decreases Subtree(fs.entries, src), 2
  {
    if IsDirectory(fs.entries, src) {
      o := MoveDirectory(fs, src, dest, now);
    } else {
      CopyMirrors(fs.entries, src, dest, now);
      var ok := fs.Copy(src, dest, false, now);
      o := if ok then Completed else Exit(390);
    }
  }

  /** The directory branch of moveGeneratedImages: create `dest` when it is
      missing, then mirror the children. */
  method MoveDirectory(fs: FileSystem, src: Path, dest: Path, now: int) returns (o: Outcome)
    requires fs.Valid() && IsPath(dest) && IsDirectory(fs.entries, src)
    requires !IsPrefix(src, dest) && !IsPrefix(dest, src)
    modifies fs
    ensures fs.Valid()
    ensures o == Completed || o == Exit(390)
    ensures o == Completed <==> MirrorOk(old(fs.entries), src, dest)
    ensures MoveFrame(old(fs.entries), fs.entries, src, dest, now)
    ensures o == Completed ==> FilesMirrored(old(fs.entries), fs.entries, src, dest, now)
    decreases Subtree(fs.entries, src), 1
  {
    ghost var m0 := fs.entries;
    if dest !in fs.entries {
      var _ := fs.Mkdir(dest);
    }
    ghost var m1 := fs.entries;
    MkdirMirrors(m0, m1, src, dest, now);
    o := MoveChildren(fs, src, dest, now);
    MoveFrameTrans(m0, m1, fs.entries, src, dest, now);
    if o == Completed {
      DestKept(m0, m1, fs.entries, src, dest, now);
      MirroredTrans(m0, m1, fs.entries, src, dest, Children(m0, src), now);
      ChildrenMirrored(m0, fs.entries, src, dest, Children(m0, src), now);
    }
  }

  /** The loop of moveGeneratedImages over the names File.list() returns. */
  method MoveChildren(fs: FileSystem, src: Path, dest: Path, now: int) returns (o: Outcome)
    requires fs.Valid() && IsPath(dest) && IsDirectory(fs.entries, src)
    requires !IsPrefix(src, dest) && !IsPrefix(dest, src)
    modifies fs
    ensures fs.Valid()
    ensures o == Completed || o == Exit(390)
    ensures o == Completed <==> ChildrenOk(old(fs.entries), src, dest, Children(old(fs.entries), src))
    ensures MoveFrame(old(fs.entries), fs.entries, src, dest, now)
    ensures o == Completed ==>
      SubtreesMirrored(old(fs.entries), fs.entries, src, dest, Children(old(fs.entries), src), now)
    decreases Subtree(fs.entries, src), 0
  {
    ghost var m0 := fs.entries;
    var kids := Children(fs.entries, src);
    ghost var all := kids;
    ghost var done: set<Path> := {};
    o := Completed;
    MoveFrameRefl(m0, src, dest, now);
    while kids != {}
      invariant fs.Valid() && o == Completed
      invariant MoveLoop(m0, fs.entries, src, dest, all, kids, done, now)
      invariant all == Children(m0, src) && ChildrenOk(m0, src, dest, done)
      invariant DestsUntouched(m0, fs.entries, src, dest, kids)
      decreases kids
    {
      var c :| c in kids;
      var n := c[|c| - 1];
      ghost var m1 := fs.entries;
      MoveCallReady(m0, m1, src, dest, all, kids, done, c, now);
      CallAgrees(m0, m1, src, dest, all, kids, done, c, now);
      o := MoveGeneratedImages(fs, c, dest + [n], now);
      MoveFrameStep(m0, m1, fs.entries, src, dest, n, now);
      if o != Completed {
        assert !ChildOk(m0, src, dest, c);
        return;
      }
      MoveAdvance(m0, m1, fs.entries, src, dest, all, kids, done, c, now);
      UntouchedAdvance(m0, m1, fs.entries, src, dest, kids, c, now);
      kids, done := kids - {c}, done + {c};
    }
  }

  // ------------------------------------------------------------ deleteImages

  /** The entries strictly below `p` whose branch is no longer in `kids`. */
  function Cleared(m: Entries, p: Path, kids: set<Path>): set<Path> {
    set q | q in m && IsProperPrefix(p, q) && q[..|p| + 1] !in kids
  }

  /** Removing the subtree of one more child of `p`. */
  lemma ClearStep(m: Entries, p: Path, kids: set<Path>, c: Path)
    requires c in kids && IsChild(p, c)
    ensures var m1 := Without(m, Cleared(m, p, kids));
      Without(m1, Subtree(m1, c) - {[]}) == Without(m, Cleared(m, p, kids - {c}))
  {
    var m1 := Without(m, Cleared(m, p, kids));
    assert c[..|p|] == p;
    forall q | q in m1 && IsPrefix(c, q) ensures q in m {
    }
    assert Cleared(m, p, kids - {c}) == Cleared(m, p, kids) + (set q | q in m && IsPrefix(c, q)) by {
      forall q | q in m && IsPrefix(c, q) ensures IsProperPrefix(p, q) && q[..|p| + 1] == c {
        assert q[..|p|] == c[..|p|];
      }
      forall q | q in m && IsProperPrefix(p, q) && q[..|p| + 1] == c ensures IsPrefix(c, q) {
      }
    }
  }

  /** No branch cleared before the walk starts; all of them after. */
  lemma ClearedBounds(m: Entries, p: Path)
    requires WellFormed(m)
    ensures Cleared(m, p, Children(m, p)) == {}
    ensures Cleared(m, p, {}) == Subtree(m, p) - {p}
  {
    forall q | q in m && IsProperPrefix(p, q) ensures q[..|p| + 1] in Children(m, p) {
      BranchChild(m, p, q);
    }
    forall q | q in Subtree(m, p) - {p} ensures IsProperPrefix(p, q) {
      PrefixSameLength(p, q);
    }
  }

  /** Once everything below `p` is gone, deleting `p` removes the whole
      subtree, the root excepted. */
  lemma DeleteEmptied(m: Entries, p: Path)
    requires WellFormed(m) && p in m
    ensures DeleteResult(Without(m, Subtree(m, p) - {p}), p) ==
      (Without(m, Subtree(m, p) - {[]}), p != [])
  {
    var m1 := Without(m, Subtree(m, p) - {p});
    assert !HasChildren(m1, p);
    if p != [] {
      assert m1 - {p} == Without(m, Subtree(m, p) - {[]});
    } else {
      assert m1 == Without(m, Subtree(m, p) - {[]});
    }
  }

  /** The walk of Files.walkFileTree with a visitor that deletes each file
      and, after its entries, each directory: everything from `p` down goes,
      except that the root itself cannot be deleted, which is the failure. */
  method DeleteTree(fs: FileSystem, p: Path) returns (ok: bool)
    requires fs.Valid() && p in fs.entries
    modifies fs
    ensures fs.Valid()
    ensures ok <==> p != []
    ensures fs.entries == Without(old(fs.entries), Subtree(old(fs.entries), p) - {[]})
    decreases Subtree(fs.entries, p)
  {
    ghost var m0 := fs.entries;
    if fs.entries[p].Dir? {
      var kids := Children(fs.entries, p);
      ClearedBounds(m0, p);
      while kids != {}
        invariant fs.Valid()
        invariant kids <= Children(m0, p)
        invariant fs.entries == Without(m0, Cleared(m0, p, kids))
        decreases kids
      {
        var c :| c in kids;
        assert c[..|p|] == p;
        SubtreeShrinks(m0, fs.entries, p, c);
        ClearStep(m0, p, kids, c);
        ok := DeleteTree(fs, c);
        if !ok {
          return;
        }
        kids := kids - {c};
      }
      DeleteEmptied(m0, p);
    } else {
      FileSubtree(m0, p);
    }
    ok := fs.Delete(p);
  }

  /** deleteImages: a directory `source` and everything below it are
      deleted; when the root cannot be deleted the run exits with status 38;
      anything but a directory is left alone. */
  function DeleteImagesResult(m: Entries, source: Path): (Outcome, Entries) {
    if !IsDirectory(m, source) then (Completed, m)
    else if source == [] then (Exit(38), Without(m, Subtree(m, []) - {[]}))
    else (Completed, Without(m, Subtree(m, source)))
  }

  method DeleteImages(fs: FileSystem, source: Path) returns (o: Outcome)
    requires fs.Valid()
    modifies fs
    ensures fs.Valid()
    ensures (o, fs.entries) == DeleteImagesResult(old(fs.entries), source)
  {
    if IsDirectory(fs.entries, source) {
      var ok := DeleteTree(fs, source);
      o := if ok then Completed else Exit(38);
      assert source != [] ==> Subtree(old(fs.entries), source) - {[]} == Subtree(old(fs.entries), source);
    } else {
      o := Completed;
    }
  }

  /** After deleteImages of a directory nothing below it is left and every
      other entry is kept; deleting from the root leaves the bare root. */
  lemma DeleteImagesEffect(m: Entries, source: Path)
    requires WellFormed(m) && IsDirectory(m, source)
    ensures var (o, m') := DeleteImagesResult(m, source);
      (o == Completed <==> source != []) && (o == Completed || o == Exit(38)) &&
      (forall p :: p in m' <==> p in m && (!IsPrefix(source, p) || p == [])) &&
      (forall p :: p in m' ==> m'[p] == m[p]) &&
      (source == [] ==> m' == map[[] := Dir])
  {
    var m' := DeleteImagesResult(m, source).1;
    if source == [] {
      assert m'.Keys == {[]};
    }
  }
}
