/**
 * The transformer that hands the XML jekyll generated for blog posts over
 * to the CMS export folder.
 *
 * `CopyGeneratedXmlFiles` follows a list of changed repository files: a
 * changed post `_posts/<folder>/<year>-<month>-<day>-<slug>.<ext>` has its
 * generated XML `<htmlPosts><folder>/<date>/<slug>/<slug>.xml` copied to
 * `<xmlRoot><folder>/<date>/<fullName>.xml`, and a deleted post has that
 * copy (and its date directory, once empty) removed. `CopyAllGeneratedXmlFiles`
 * walks the whole generated tree instead and copies every XML file it
 * finds. Both end with the sweep of FileTransfer.deleteXmlFromSiteFolder.
 */
module MarkdownTransformer {
  import opened Paths
  import opened Fs
  import opened Outcomes
  import opened Options
  import opened PostPath
  import opened FilenameUtils
  import opened FileTransfer

  /** DiffEntry.ChangeType of JGit. */
  datatype ChangeType = Add | Modify | Delete | Rename | Copy

  /** One changed file of a commit range, with the paths JGit reports. */
  datatype DiffEntry = DiffEntry(changeType: ChangeType, oldPath: string, newPath: string)

  /** The configured locations: repository.local.htmlposts.path, where
      jekyll writes its output, and repository.local.firstspirit-xml.path,
      where the CMS picks the XML up. */
  datatype Config = Config(htmlPosts: string, xmlRoot: string)

  /** A deleted file is known by its old path, everything else by its new
      one. */
  function ChangedPath(e: DiffEntry): string {
    if e.changeType == Delete then e.oldPath else e.newPath
  }

  /** String.startsWith. */
  predicate StartsWith(s: string, prefix: string) {
    |prefix| <= |s| && s[..|prefix|] == prefix
  }

  // ---------------------------------------------------------------------
  // copyGeneratedXmlFiles

  /** What a changed path asks for: nothing (not a post, or the pattern
      finds no date and slug), a crash (a full name shorter than the ten
      characters substring(0, 10) takes), or the three paths of the copy. */
  datatype Resolution = Ignored | TooShort | Planned(source: Path, dest: Path, dir: Path)

  /** The three format strings of the copy: the generated XML, its copy
      for the CMS and the directory of that copy. */
  function SourceString(cfg: Config, f: Fields, date: string): string {
    var xmlFileName := f.slug + ".xml";
    cfg.htmlPosts + f.folder + "/" + date + "/" + f.slug + "/" + xmlFileName
  }

  function DestString(cfg: Config, f: Fields, date: string): string {
    cfg.xmlRoot + f.folder + "/" + date + "/" + f.FullName() + ".xml"
  }

  function DirString(cfg: Config, f: Fields, date: string): string {
    cfg.xmlRoot + f.folder + "/" + date
  }

  function Resolve(cfg: Config, path: string): Resolution {
    if !StartsWith(path, "_posts") then Ignored
    else match Find(path)
      case None => Ignored
      case Some(found) =>
        var f := found.fields;
        if |f.FullName()| < 10 then TooShort
        else
          var date := f.FullName()[..10];
          Planned(Segments(SourceString(cfg, f, date)), Segments(DestString(cfg, f, date)),
                  Segments(DirString(cfg, f, date)))
  }

  /** The delete branch: Files.delete on the copied XML, then on its date
      directory when that is left empty. Every IOException (a missing file,
      a non-empty or missing directory) is caught, leaving the tree as it
      was at that point. */
  function DeletePostXml(m: Entries, dest: Path, dir: Path): Entries {
    var (m1, ok) := DeleteResult(m, dest);
    if !ok || !IsDirectory(m1, dir) || HasChildren(m1, dir) then m1
    else DeleteResult(m1, dir).0
  }

  /** The handling of one changed file. */
  function EntryResult(m: Entries, cfg: Config, e: DiffEntry): (Outcome, Entries) {
    match Resolve(cfg, ChangedPath(e))
    case Ignored => (Completed, m)
    case TooShort => (Uncaught(IndexOutOfBounds), m)
    case Planned(source, dest, dir) =>
      if e.changeType == Delete then (Completed, DeletePostXml(m, dest, dir))
      else CopyFileResult(m, source, dest)
  }

  /** The entries in order; an exit or an escaping exception ends the
      run there. */
  function BatchResult(m: Entries, cfg: Config, es: seq<DiffEntry>): (Outcome, Entries)
    decreases |es|
  {
    if es == [] then (Completed, m)
    else
      var (o, m1) := EntryResult(m, cfg, es[0]);
      if o != Completed then (o, m1) else BatchResult(m1, cfg, es[1..])
  }

  /** copyGeneratedXmlFiles as a whole: the entries, then the sweep of the
      generated tree. */
  function CopyGeneratedResult(m: Entries, cfg: Config, es: seq<DiffEntry>): (Outcome, Entries) {
    var (o, m1) := BatchResult(m, cfg, es);
    if o != Completed then (o, m1) else SweepResult(m1, Segments(cfg.htmlPosts))
  }

  method ProcessEntry(fs: FileSystem, cfg: Config, e: DiffEntry) returns (o: Outcome)
    requires fs.Valid()
    modifies fs
    ensures fs.Valid()
    ensures (o, fs.entries) == EntryResult(old(fs.entries), cfg, e)
  {
    var filePath := if e.changeType == Delete then e.oldPath else e.newPath;
    var r := Resolve(cfg, filePath);
    match r
    case Ignored =>
      o := Completed;
    case TooShort =>
      o := Uncaught(IndexOutOfBounds);
    case Planned(source, dest, dir) =>
      PostLayout(cfg, filePath);
      if e.changeType == Delete {
        var ok := fs.Delete(dest);
        if ok && IsDirectory(fs.entries, dir) && !HasChildren(fs.entries, dir) {
          ok := fs.Delete(dir);
        }
        o := Completed;
      } else {
        o := CopyFile(fs, source, dest);
      }
  }

  method CopyGeneratedXmlFiles(fs: FileSystem, cfg: Config, entries: seq<DiffEntry>) returns (o: Outcome)
    requires fs.Valid()
    modifies fs
    ensures fs.Valid()
    ensures (o, fs.entries) == CopyGeneratedResult(old(fs.entries), cfg, entries)
  {
    var i := 0;
    while i < |entries|
      invariant 0 <= i <= |entries| && fs.Valid()
      invariant BatchResult(old(fs.entries), cfg, entries) == BatchResult(fs.entries, cfg, entries[i..])
    {
      assert entries[i..][0] == entries[i] && entries[i..][1..] == entries[i + 1..];
      o := ProcessEntry(fs, cfg, entries[i]);
      if o != Completed {
        return;
      }
      i := i + 1;
    }
    o := DeleteXmlFromSiteFolder(fs, Segments(cfg.htmlPosts));
  }

  /** A deleted file is looked up by its old path and every other change by
      its new path: the other path of the entry plays no part. */
  lemma EntryByChangedPath(m: Entries, cfg: Config, e: DiffEntry, other: string)
    ensures e.changeType == Delete ==> EntryResult(m, cfg, e) == EntryResult(m, cfg, e.(newPath := other))
    ensures e.changeType != Delete ==> EntryResult(m, cfg, e) == EntryResult(m, cfg, e.(oldPath := other))
  {
  }

  /** A path outside `_posts`, or one in which the pattern finds nothing,
      neither copies nor deletes anything. */
  lemma EntryIgnored(m: Entries, cfg: Config, e: DiffEntry)
    requires !StartsWith(ChangedPath(e), "_posts") || Find(ChangedPath(e)).None?
    ensures EntryResult(m, cfg, e) == (Completed, m)
  {
  }

  /** Appending the separator and a segment appends that segment. */
  lemma SegmentsStep(a: string, n: string)
    requires IsName(n)
    ensures Segments(a + "/" + n) == Segments(a) + [n]
  {
    SegmentsJoin(a, n);
    SegmentsOfName(n);
  }

  /** A path string built as `<root><folder>/<n1>/…` has the root's
      segments, the folder's and then the names. */
  lemma FolderLayout(root: string, folder: string, n1: string)
    requires folder == "" || folder[0] == '/'
    requires IsName(n1)
    ensures Segments(root + folder + "/" + n1) == Segments(root) + Segments(folder) + [n1]
  {
    SegmentsAppend(root, folder);
    SegmentsStep(root + folder, n1);
  }

  lemma FolderLayout2(root: string, folder: string, n1: string, n2: string)
    requires folder == "" || folder[0] == '/'
    requires IsName(n1) && IsName(n2)
    ensures Segments(root + folder + "/" + n1 + "/" + n2) == Segments(root) + Segments(folder) + [n1, n2]
  {
    FolderLayout(root, folder, n1);
    SegmentsStep(root + folder + "/" + n1, n2);
  }

  lemma FolderLayout3(root: string, folder: string, n1: string, n2: string, n3: string)
    requires folder == "" || folder[0] == '/'
    requires IsName(n1) && IsName(n2) && IsName(n3)
    ensures Segments(root + folder + "/" + n1 + "/" + n2 + "/" + n3) ==
      Segments(root) + Segments(folder) + [n1, n2, n3]
  {
    FolderLayout2(root, folder, n1, n2);
    SegmentsStep(root + folder + "/" + n1 + "/" + n2, n3);
  }

  /** The date and the slug of a match are path segments. */
  lemma FieldNames(f: Fields)
    requires WellShaped(f) && |f.FullName()| >= 10
    ensures IsName(f.FullName()[..10]) && IsName(f.slug)
    ensures IsName(f.slug + ".xml") && IsName(f.FullName() + ".xml")
  {
    FullNameNoSlash(f);
    var full := f.FullName();
    var date := full[..10];
    forall k | 0 <= k < |date| ensures date[k] != '/' {
      assert date[k] == full[k];
    }
    forall k | 0 <= k < |f.slug| ensures f.slug[k] != '/' {
      assert IsSlugChar(f.slug[k]);
    }
  }

  /** Where a changed post's files lie: the generated XML sits in
      `<date>/<slug>/<slug>.xml` below the post's folder in the generated
      tree, and the copy is `<date>/<fullName>.xml` below the same folder in
      the export tree, `date` being the first ten characters of the full
      name. */
  lemma PostLayout(cfg: Config, path: string)
    requires Resolve(cfg, path).Planned?
    ensures var r := Resolve(cfg, path);
            var f := Find(path).value.fields;
            var date := f.FullName()[..10];
            && IsName(date) && IsName(f.slug)
            && r.dir == Segments(cfg.xmlRoot) + Segments(f.folder) + [date]
            && r.dest == r.dir + [f.FullName() + ".xml"]
            && r.source == Segments(cfg.htmlPosts) + Segments(f.folder) + [date, f.slug, f.slug + ".xml"]
            && IsPath(r.source) && IsPath(r.dest) && IsPath(r.dir)
            && r.dest != [] && Parent(r.dest) == r.dir
  {
    var r := Resolve(cfg, path);
    FoundIsWellShaped(path);
    var f := Find(path).value.fields;
    var date := f.FullName()[..10];
    assert r == Planned(Segments(SourceString(cfg, f, date)), Segments(DestString(cfg, f, date)),
                        Segments(DirString(cfg, f, date)));
    FieldNames(f);
    assert r.dir == Segments(cfg.xmlRoot) + Segments(f.folder) + [date] by {
      FolderLayout(cfg.xmlRoot, f.folder, date);
    }
    assert r.dest == r.dir + [f.FullName() + ".xml"] by {
      FolderLayout2(cfg.xmlRoot, f.folder, date, f.FullName() + ".xml");
      assert DestString(cfg, f, date) == cfg.xmlRoot + f.folder + "/" + date + "/" + (f.FullName() + ".xml");
    }
    assert r.source == Segments(cfg.htmlPosts) + Segments(f.folder) + [date, f.slug, f.slug + ".xml"] by {
      FolderLayout3(cfg.htmlPosts, f.folder, date, f.slug, f.slug + ".xml");
    }
    SegmentsArePath(SourceString(cfg, f, date));
    SegmentsArePath(DestString(cfg, f, date));
    SegmentsArePath(DirString(cfg, f, date));
  }

  /** A post directly under `_posts` has an empty folder: its XML is
      `<htmlPosts>/<date>/<slug>/<slug>.xml` and its copy
      `<xmlRoot>/<date>/<fullName>.xml`. */
  lemma TopLevelPlan(cfg: Config, f: Fields, ext: string)
    requires f.folder == "" && WellShaped(f) && |f.FullName()| >= 10
    requires ext == "" || ext[0] == '.'
    requires '/' !in ext
    ensures var date := f.FullName()[..10];
            Resolve(cfg, "_posts/" + f.FullName() + ext) ==
              Planned(Segments(cfg.htmlPosts) + [date, f.slug, f.slug + ".xml"],
                      Segments(cfg.xmlRoot) + [date, f.FullName() + ".xml"],
                      Segments(cfg.xmlRoot) + [date])
  {
    var path := "_posts/" + f.FullName() + ext;
    var r := Resolve(cfg, path);
    assert r.Planned? by {
      TopLevelPost(f, ext);
      assert path[..6] == "_posts";
    }
    PostLayout(cfg, path);
    assert Find(path).value.fields == f by {
      TopLevelPost(f, ext);
    }
    assert Segments("") == [];
  }

  /** With a four-digit year and two-digit month and day, the ten
      characters taken are the date `yyyy-mm-dd`. */
  lemma DateOfFullName(f: Fields)
    requires |f.year| == 4 && |f.month| == 2 && |f.day| == 2
    ensures |f.FullName()| >= 10
    ensures f.FullName()[..10] == f.year + "-" + f.month + "-" + f.day
  {
    var date := f.year + "-" + f.month + "-" + f.day;
    assert f.FullName() == date + ("-" + f.slug);
  }

  /** The post named in the comment of copyGeneratedXmlFiles,
      `_posts/2017-08-01-new-post-for-netlify-test.markdown`. */
  lemma NetlifyPostPlan(cfg: Config)
    ensures Resolve(cfg, "_posts/" + "2017-08-01-new-post-for-netlify-test" + ".markdown") ==
      Planned(
        Segments(cfg.htmlPosts) + ["2017-08-01", "new-post-for-netlify-test", "new-post-for-netlify-test" + ".xml"],
        Segments(cfg.xmlRoot) + ["2017-08-01", "2017-08-01-new-post-for-netlify-test" + ".xml"],
        Segments(cfg.xmlRoot) + ["2017-08-01"])
  {
    var f := Fields("", "2017", "08", "01", "new-post-for-netlify-test");
    NetlifyTestFullName();
    DateOfFullName(f);
    assert "2017" + "-" + "08" + "-" + "01" == "2017-08-01";
    assert WellShaped(f);
    TopLevelPlan(cfg, f, ".markdown");
  }

  /** A changed post whose full name is shorter than the ten characters
      substring(0, 10) takes makes it throw; the exception ends the whole
      run with the tree as it was, whatever entries follow. */
  lemma ShortDateEscapes(m: Entries, cfg: Config, e: DiffEntry, rest: seq<DiffEntry>)
    requires StartsWith(ChangedPath(e), "_posts") && Find(ChangedPath(e)).Some?
    requires |Find(ChangedPath(e)).value.fields.FullName()| < 10
    ensures BatchResult(m, cfg, [e] + rest) == (Uncaught(IndexOutOfBounds), m)
    ensures CopyGeneratedResult(m, cfg, [e] + rest) == (Uncaught(IndexOutOfBounds), m)
  {
    assert Resolve(cfg, ChangedPath(e)) == TooShort;
    assert ([e] + rest)[0] == e;
  }

  /** `_posts/1-1-1-a.md`, with one-digit date groups, is such a post. */
  lemma ShortDateWitness(m: Entries, cfg: Config)
    ensures CopyGeneratedResult(m, cfg, [DiffEntry(Add, "", "_posts/1-1-1-a.md")]) ==
      (Uncaught(IndexOutOfBounds), m)
  {
    var path := "_posts/1-1-1-a.md";
    var f := Fields("", "1", "1", "1", "a");
    assert f.FullName() == "1-1-1-a";
    assert path == "_posts/" + f.FullName() + ".md";
    assert WellShaped(f);
    TopLevelPost(f, ".md");
    assert StartsWith(path, "_posts");
    var e := DiffEntry(Add, "", path);
    ShortDateEscapes(m, cfg, e, []);
    assert [e] + [] == [e];
  }

  /** Deleting a post removes its XML copy when that is there (a directory
      with entries stays), and then the date directory when the copy was
      its last entry; nothing else changes. */
  lemma DeletePostXmlEffect(m: Entries, dest: Path, dir: Path)
    requires WellFormed(m) && dest != [] && Parent(dest) == dir
    ensures var m' := DeletePostXml(m, dest, dir);
            && (dest !in m || HasChildren(m, dest) ==> m' == m)
            && (dest in m && !HasChildren(m, dest) ==>
                  m' == if dir != [] && Children(m, dir) == {dest} then m - {dest, dir} else m - {dest})
  {
    if dest in m && !HasChildren(m, dest) {
      assert DeleteResult(m, dest) == (m - {dest}, true);
      assert IsDirectory(m - {dest}, dir);
      LeftEmpty(m, dest, dir);
    }
  }

  /** Once the copy is deleted its directory is empty exactly when the
      copy was its only entry. */
  lemma LeftEmpty(m: Entries, dest: Path, dir: Path)
    requires dest in m && IsChild(dir, dest)
    ensures HasChildren(m - {dest}, dir) <==> Children(m, dir) != {dest}
  {
    assert dest in Children(m, dir);
    if Children(m, dir) == {dest} {
      assert forall q :: q in m - {dest} && IsChild(dir, q) ==> q in Children(m, dir) && q != dest;
    } else {
      var w :| w in Children(m, dir) && w != dest;
      assert w in m - {dest} && IsChild(dir, w);
    }
  }

  /** The export paths one entry can touch: the copy and the date
      directory of the post it names. */
  function EntryTouched(cfg: Config, e: DiffEntry): set<Path> {
    match Resolve(cfg, ChangedPath(e))
    case Planned(_, dest, dir) => {dest, dir}
    case _ => {}
  }

  /** The export paths a batch can touch. */
  function Touched(cfg: Config, es: seq<DiffEntry>): set<Path>
    decreases |es|
  {
    if es == [] then {} else EntryTouched(cfg, es[0]) + Touched(cfg, es[1..])
  }

  /** One entry changes, adds or removes nothing but the paths its post
      maps to, and leaves the tree well formed; it ends with an exit of
      copyFile, the escaping exception of a short post name, or not at
      all. */
  lemma EntryFrame(m: Entries, cfg: Config, e: DiffEntry)
    requires WellFormed(m)
    ensures var (o, m') := EntryResult(m, cfg, e);
            && WellFormed(m')
            && (o == Completed || o == Exit(36) || o == Uncaught(IndexOutOfBounds))
            && (forall p :: p in m && p !in EntryTouched(cfg, e) ==> p in m' && m'[p] == m[p])
            && (forall p :: p in m' ==> p in m || p in EntryTouched(cfg, e))
  {
    match Resolve(cfg, ChangedPath(e)) {
      case Ignored =>
      case TooShort =>
      case Planned(source, dest, dir) =>
        PostLayout(cfg, ChangedPath(e));
        if e.changeType == Delete {
          DeletePostXmlFrame(m, dest, dir);
        } else {
          CopyPostFrame(m, source, dest, dir);
        }
    }
  }

  /** The delete branch touches only the copy and its directory. */
  lemma DeletePostXmlFrame(m: Entries, dest: Path, dir: Path)
    requires WellFormed(m)
    ensures var m' := DeletePostXml(m, dest, dir);
            && WellFormed(m')
            && (forall p :: p in m && p !in {dest, dir} ==> p in m' && m'[p] == m[p])
            && (forall p :: p in m' ==> p in m)
  {
    DeletePreservesWellFormed(m, dest);
    DeletePreservesWellFormed(DeleteResult(m, dest).0, dir);
  }

  /** The copy branch touches only the copy and its directory, and ends in
      an exit at worst. */
  lemma CopyPostFrame(m: Entries, source: Path, dest: Path, dir: Path)
    requires WellFormed(m) && IsPath(dest) && dest != [] && Parent(dest) == dir
    ensures var (o, m') := CopyFileResult(m, source, dest);
            && WellFormed(m')
            && (o == Completed || o == Exit(36))
            && (forall p :: p in m && p !in {dest, dir} ==> p in m' && m'[p] == m[p])
            && (forall p :: p in m' ==> p in m || p in {dest, dir})
  {
    CopyFileFrame(m, source, dest);
    CopyFilePreservesWellFormed(m, source, dest);
    if LastModified(m, source) != LastModified(m, dest) {
      CopyFileFails(m, source, dest);
    }
  }

  /** A batch changes, adds or removes nothing but the paths its posts map
      to, and leaves the tree well formed; it ends with an exit of
      copyFile, the escaping exception of a short post name, or not at
      all. */
  lemma {:induction false} BatchFrame(m: Entries, cfg: Config, es: seq<DiffEntry>)
    requires WellFormed(m)
    ensures var (o, m') := BatchResult(m, cfg, es);
            && WellFormed(m')
            && (o == Completed || o == Exit(36) || o == Uncaught(IndexOutOfBounds))
            && (forall p :: p in m && p !in Touched(cfg, es) ==> p in m' && m'[p] == m[p])
            && (forall p :: p in m' ==> p in m || p in Touched(cfg, es))
    decreases |es|
  {
    if es != [] {
      var (o, m1) := EntryResult(m, cfg, es[0]);
      EntryFrame(m, cfg, es[0]);
      if o == Completed {
        BatchFrame(m1, cfg, es[1..]);
      }
    }
  }

  /** A batch naming no post only runs the sweep. */
  lemma {:induction false} BatchIgnored(m: Entries, cfg: Config, es: seq<DiffEntry>)
    requires forall i :: 0 <= i < |es| ==> Resolve(cfg, ChangedPath(es[i])) == Ignored
    ensures CopyGeneratedResult(m, cfg, es) == SweepResult(m, Segments(cfg.htmlPosts))
    decreases |es|
  {
    if es != [] {
      assert Resolve(cfg, ChangedPath(es[0])) == Ignored;
      BatchIgnored(m, cfg, es[1..]);
    }
  }

  // ---------------------------------------------------------------------
  // scanDirectory

  ghost predicate Distinct(s: seq<Path>) {
    forall i, j :: 0 <= i < j < |s| ==> s[i] != s[j]
  }

  /** Every collected entry comes after its parent, unless that parent is
      where the scan started. */
  ghost predicate ParentsFirst(s: seq<Path>, p: Path) {
    forall k {:trigger Parent(s[k])} :: 0 <= k < |s| && Parent(s[k]) != p ==> Parent(s[k]) in s[..k]
  }

  /** What scanDirectory adds for `p`: every entry strictly below `p`, each
      once, a directory before what it holds. */
  ghost predicate ScanOrder(m: Entries, p: Path, s: seq<Path>) {
    && (forall q {:trigger q in s} :: q in s <==> q in m && IsProperPrefix(p, q))
    && Distinct(s)
    && ParentsFirst(s, p)
  }

  /** The loop's view: the branches of the children in `done` are
      collected. */
  ghost predicate Scanned(m: Entries, p: Path, done: set<Path>, s: seq<Path>) {
    && (forall q {:trigger q in s} :: q in s <==> q in m && IsProperPrefix(p, q) && q[..|p| + 1] in done)
    && Distinct(s)
    && ParentsFirst(s, p)
  }

  /** listFiles() of a file or a missing path is null: nothing lies below. */
  lemma NothingBelow(m: Entries, p: Path)
    requires WellFormed(m) && !IsDirectory(m, p)
    ensures ScanOrder(m, p, [])
  {
    forall q | q in m && IsProperPrefix(p, q) ensures false {
      AncestorIsDir(m, p, q);
    }
  }

  /** The entries below the child `c` are those whose branch is `c`. */
  lemma BranchOf(p: Path, c: Path, q: Path)
    requires IsChild(p, c)
    ensures IsProperPrefix(c, q) ==> IsProperPrefix(p, q) && q[..|p| + 1] == c
    ensures IsProperPrefix(p, q) && q[..|p| + 1] == c && q != c ==> IsProperPrefix(c, q)
  {
    assert c[..|p|] == p;
    if IsProperPrefix(c, q) {
      assert q[..|p|] == q[..|c|][..|p|];
    }
    if IsProperPrefix(p, q) && q[..|p| + 1] == c && |q| == |c| {
      assert q == q[..|p| + 1];
    }
  }

  lemma ScanCovers(m: Entries, p: Path, done: set<Path>, c: Path, s: seq<Path>, sub: seq<Path>)
    requires IsChild(p, c) && c in m
    requires forall q :: q in s <==> q in m && IsProperPrefix(p, q) && q[..|p| + 1] in done
    requires forall q :: q in sub <==> q in m && IsProperPrefix(c, q)
    ensures forall q :: q in s + [c] + sub <==> q in m && IsProperPrefix(p, q) && q[..|p| + 1] in done + {c}
  {
    forall q ensures q in s + [c] + sub <==> q in m && IsProperPrefix(p, q) && q[..|p| + 1] in done + {c} {
      BranchOf(p, c, q);
      if q == c {
        assert c[..|p| + 1] == c;
      }
    }
  }

  lemma ScanDistinct(m: Entries, p: Path, done: set<Path>, c: Path, s: seq<Path>, sub: seq<Path>)
    requires IsChild(p, c) && c !in done
    requires forall q :: q in s ==> IsProperPrefix(p, q) && q[..|p| + 1] in done
    requires forall q :: q in sub ==> IsProperPrefix(c, q)
    requires Distinct(s) && Distinct(sub)
    ensures Distinct(s + [c] + sub)
  {
    var t := s + [c] + sub;
    forall i, j | 0 <= i < j < |t| ensures t[i] != t[j] {
      if j == |s| {
        assert t[i] in s;
        assert c[..|p| + 1] == c;
      } else if j > |s| {
        assert t[j] in sub;
        BranchOf(p, c, t[j]);
        if i < |s| {
          assert t[i] in s;
        } else if i > |s| {
          assert t[i] == sub[i - |s| - 1] && t[j] == sub[j - |s| - 1];
        }
      }
    }
  }

  lemma ScanParentsFirst(p: Path, c: Path, s: seq<Path>, sub: seq<Path>)
    requires IsChild(p, c)
    requires ParentsFirst(s, p) && ParentsFirst(sub, c)
    ensures ParentsFirst(s + [c] + sub, p)
  {
    var t := s + [c] + sub;
    forall k | 0 <= k < |t| && Parent(t[k]) != p ensures Parent(t[k]) in t[..k] {
      if k < |s| {
        assert t[k] == s[k] && t[..k] == s[..k];
      } else if k > |s| {
        var j := k - |s| - 1;
        assert t[k] == sub[j];
        assert t[..k] == s + [c] + sub[..j];
        if Parent(sub[j]) != c {
          assert Parent(sub[j]) in sub[..j];
        }
      }
    }
  }

  lemma ScanAdvance(m: Entries, p: Path, done: set<Path>, c: Path, s: seq<Path>, sub: seq<Path>)
    requires IsChild(p, c) && c in m && c !in done
    requires Scanned(m, p, done, s) && ScanOrder(m, c, sub)
    ensures Scanned(m, p, done + {c}, s + [c] + sub)
  {
    ScanCovers(m, p, done, c, s, sub);
    ScanDistinct(m, p, done, c, s, sub);
    ScanParentsFirst(p, c, s, sub);
  }

  /** One turn of the loop: `c`, taken from the children still to visit,
      and what the recursive call collected below it are appended to what
      the loop collected so far. */
  lemma ScanStep(m: Entries, p: Path, kids: set<Path>, c: Path, got: seq<Path>, before: seq<Path>, after: seq<Path>)
    requires c in kids && kids <= Children(m, p)
    requires |before| + 1 <= |after| && after[..|before| + 1] == before + [c]
    requires Scanned(m, p, Children(m, p) - kids, got) && ScanOrder(m, c, after[|before| + 1..])
    ensures after[..|before|] == before
    ensures Scanned(m, p, Children(m, p) - (kids - {c}), got + after[|before|..])
  {
    var sub := after[|before| + 1..];
    assert after[|before|..] == [c] + sub;
    assert got + after[|before|..] == got + [c] + sub;
    assert after[..|before|] == (before + [c])[..|before|];
    var done := Children(m, p) - kids;
    assert Children(m, p) - (kids - {c}) == done + {c};
    ScanAdvance(m, p, done, c, got, sub);
  }

  lemma ScanDone(m: Entries, p: Path, s: seq<Path>)
    requires WellFormed(m) && Scanned(m, p, Children(m, p), s)
    ensures ScanOrder(m, p, s)
  {
    forall q | q in m && IsProperPrefix(p, q) ensures q in s {
      BranchChild(m, p, q);
    }
  }

  /** scanDirectory: collects, after what `all` already holds, every entry
      below `p`, each once and each after its directory, in an order
      listFiles() leaves open. */
  method ScanDirectory(fs: FileSystem, p: Path, all: seq<Path>) returns (all': seq<Path>)
    requires fs.Valid()
    ensures |all| <= |all'| && all'[..|all|] == all
    ensures ScanOrder(fs.entries, p, all'[|all|..])
    decreases Subtree(fs.entries, p), 2
  {
    if !IsDirectory(fs.entries, p) {
      all' := all;
      NothingBelow(fs.entries, p);
      assert all'[|all|..] == [];
      return;
    }
    all' := ScanChildren(fs, p, all);
  }

  /** The loop over the children listFiles() returns for a directory. */
  method ScanChildren(fs: FileSystem, p: Path, all: seq<Path>) returns (all': seq<Path>)
    requires fs.Valid() && IsDirectory(fs.entries, p)
    ensures |all| <= |all'| && all'[..|all|] == all
    ensures ScanOrder(fs.entries, p, all'[|all|..])
    decreases Subtree(fs.entries, p), 1
  {
    all' := all;
    var kids := Children(fs.entries, p);
    ghost var got: seq<Path> := [];
    while kids != {}
      invariant all' == all + got
      invariant kids <= Children(fs.entries, p)
      invariant Scanned(fs.entries, p, Children(fs.entries, p) - kids, got)
      decreases kids
    {
      var c :| c in kids;
      var next := ScanChild(fs, p, kids, c, got, all');
      got := got + next[|all'|..];
      all' := next;
      kids := kids - {c};
    }
    assert Children(fs.entries, p) - kids == Children(fs.entries, p);
    assert all'[|all|..] == got;
    ScanDone(fs.entries, p, got);
  }

  /** The loop body: the child `c` is added, then scanned. */
  method ScanChild(fs: FileSystem, p: Path, ghost kids: set<Path>, c: Path, ghost got: seq<Path>, all: seq<Path>)
    returns (all': seq<Path>)
    requires fs.Valid() && IsDirectory(fs.entries, p)
    requires c in kids && kids <= Children(fs.entries, p)
    requires Scanned(fs.entries, p, Children(fs.entries, p) - kids, got)
    ensures |all| <= |all'| && all'[..|all|] == all
    ensures Scanned(fs.entries, p, Children(fs.entries, p) - (kids - {c}), got + all'[|all|..])
    decreases Subtree(fs.entries, p), 0
  {
    SubtreeShrinks(fs.entries, fs.entries, p, c);
    all' := ScanDirectory(fs, c, all + [c]);
    ScanStep(fs.entries, p, kids, c, got, all, all');
  }

  // ---------------------------------------------------------------------
  // copyAllGeneratedXmlFiles

  /** The date part of the destination: the base name of the file's
      grandparent, or the string "null" when the file's parent is the root
      (File.getParent() of "/" is null, and FilenameUtils.getBaseName(null)
      is null, which the concatenation prints). */
  function XmlDate(f: Path): string {
    if |f| <= 1 then "null" else BaseName(PathString(f[..|f| - 2]))
  }

  /** The destination string `<xmlRoot>/<date>/<date>-<base name of the
      path + ".xml">`. */
  function XmlDestString(cfg: Config, f: Path): string {
    var d := XmlDate(f);
    cfg.xmlRoot + "/" + d + "/" + (d + "-" + BaseName(PathString(f) + ".xml"))
  }

  /** The destination as the normalized path `new File(...)` denotes. */
  function XmlDest(cfg: Config, f: Path): Path {
    Segments(XmlDestString(cfg, f))
  }

  /** The stream's two filters: File::isFile and the "xml" extension. */
  predicate IsXmlFile(m: Entries, f: Path) {
    IsFile(m, f) && Extension(PathString(f)) == "xml"
  }

  /** The stream over the scanned files: each element is filtered against
      the tree as the earlier copies left it; an exit ends the run. */
  function CopyAllResult(m: Entries, cfg: Config, files: seq<Path>): (Outcome, Entries)
    decreases |files|
  {
    if files == [] then (Completed, m)
    else if IsXmlFile(m, files[0]) then
      var (o, m1) := CopyFileResult(m, files[0], XmlDest(cfg, files[0]));
      if o != Completed then (o, m1) else CopyAllResult(m1, cfg, files[1..])
    else CopyAllResult(m, cfg, files[1..])
  }

  /** copyAllGeneratedXmlFiles for the order `files` the scan produced. */
  function CopyAllGeneratedResult(m: Entries, cfg: Config, files: seq<Path>): (Outcome, Entries) {
    var (o, m1) := CopyAllResult(m, cfg, files);
    if o != Completed then (o, m1) else SweepResult(m1, Segments(cfg.htmlPosts))
  }

  /** The ghost `scanned` is the order the scan happened to produce. */
  method CopyAllGeneratedXmlFiles(fs: FileSystem, cfg: Config) returns (o: Outcome, ghost scanned: seq<Path>)
    requires fs.Valid()
    modifies fs
    ensures fs.Valid()
    ensures ScanOrder(old(fs.entries), Segments(cfg.htmlPosts), scanned)
    ensures (o, fs.entries) == CopyAllGeneratedResult(old(fs.entries), cfg, scanned)
  {
    var allFiles := ScanDirectory(fs, Segments(cfg.htmlPosts), []);
    assert allFiles[0..] == allFiles;
    scanned := allFiles;
    o := CopyXmlFiles(fs, cfg, allFiles);
    if o != Completed {
      return;
    }
    o := DeleteXmlFromSiteFolder(fs, Segments(cfg.htmlPosts));
  }

  /** The filtered stream's forEach: each file still a file with the "xml"
      extension is copied to its destination. */
  method CopyXmlFiles(fs: FileSystem, cfg: Config, files: seq<Path>) returns (o: Outcome)
    requires fs.Valid()
    modifies fs
    ensures fs.Valid()
    ensures (o, fs.entries) == CopyAllResult(old(fs.entries), cfg, files)
  {
    o := Completed;
    var i := 0;
    while i < |files|
      invariant 0 <= i <= |files| && fs.Valid() && o == Completed
      invariant CopyAllResult(old(fs.entries), cfg, files) == CopyAllResult(fs.entries, cfg, files[i..])
    {
      var f := files[i];
      assert files[i..][0] == f && files[i..][1..] == files[i + 1..];
      if IsXmlFile(fs.entries, f) {
        var dest := XmlDest(cfg, f);
        XmlDestIsPath(cfg, f);
        o := CopyFile(fs, f, dest);
        if o != Completed {
          return;
        }
      }
      i := i + 1;
    }
  }

  lemma XmlDestIsPath(cfg: Config, f: Path)
    ensures IsPath(XmlDest(cfg, f))
  {
    SegmentsArePath(XmlDestString(cfg, f));
  }

  /** Where a file at least two levels deep is copied:
      `<xmlRoot>/<d>/<d>-<n>` with `d` the base name of its grandparent and
      `n` the base name of its path with ".xml" appended. */
  lemma XmlDestLayout(cfg: Config, f: Path)
    requires |f| >= 2
    ensures var d := BaseName(PathString(f[..|f| - 2]));
            var n := BaseName(PathString(f) + ".xml");
            && IsName(d + "-" + n)
            && XmlDest(cfg, f) == Segments(cfg.xmlRoot) + (if d == "" then [] else [d]) + [d + "-" + n]
  {
    var d := BaseName(PathString(f[..|f| - 2]));
    var n := BaseName(PathString(f) + ".xml");
    BaseNameNoSeparator(PathString(f) + ".xml");
    BaseNameNoSeparator(PathString(f[..|f| - 2]));
    DateDest(cfg.xmlRoot, XmlDestString(cfg, f), d, n);
  }

  /** For an XML file the appended ".xml" is taken off again: the copy is
      named `<d>-<the file's own name>`. */
  lemma XmlFileDest(cfg: Config, f: Path)
    requires |f| >= 2 && Extension(PathString(f)) == "xml"
    ensures var d := BaseName(PathString(f[..|f| - 2]));
            && IsName(d + "-" + Name(f[|f| - 1]))
            && XmlDest(cfg, f) == Segments(cfg.xmlRoot) + (if d == "" then [] else [d]) + [d + "-" + Name(f[|f| - 1])]
  {
    XmlDestLayout(cfg, f);
    XmlFileName(f);
  }

  lemma DateDest(root: string, s: string, d: string, n: string)
    requires s == root + "/" + d + "/" + (d + "-" + n)
    requires '/' !in d && '/' !in n
    ensures IsName(d + "-" + n)
    ensures Segments(s) == Segments(root) + (if d == "" then [] else [d]) + [d + "-" + n]
  {
    DateLayout(root, d, n);
  }

  /** getBaseName takes the appended ".xml" off again: what is left is the
      file's own name. */
  lemma XmlFileName(f: Path)
    requires f != [] && Extension(PathString(f)) == "xml"
    ensures BaseName(PathString(f) + ".xml") == Name(f[|f| - 1])
  {
    BaseNameOfAppendedXml(PathString(f));
    NameOfPathString(f);
  }

  /** `<root>/<d>/<d>-<n>` when neither `d` nor `n` holds a separator. */
  lemma DateLayout(root: string, d: string, n: string)
    requires '/' !in d && '/' !in n
    ensures IsName(d + "-" + n)
    ensures Segments(root + "/" + d + "/" + (d + "-" + n)) ==
      Segments(root) + (if d == "" then [] else [d]) + [d + "-" + n]
  {
    var name := d + "-" + n;
    assert '/' !in name;
    SegmentsStep(root + "/" + d, name);
    SegmentsJoin(root, d);
    if d != "" {
      SegmentsOfName(d);
    }
  }

  /** The file named in the comment of copyAllGeneratedXmlFiles,
      `_site/blog-posts/2016-05-12/welcome-to-jekyll/welcome-to-jekyll.xml`:
      it lands in `<xmlRoot>/2016-05-12/2016-05-12-welcome-to-jekyll.xml`. */
  lemma WelcomeToJekyllDest(cfg: Config)
    ensures XmlDest(cfg, ["_site", "blog-posts", "2016-05-12", "welcome-to-jekyll", "welcome-to-jekyll.xml"]) ==
      Segments(cfg.xmlRoot) + ["2016-05-12", "2016-05-12" + "-" + "welcome-to-jekyll.xml"]
  {
    var f: Path := ["_site", "blog-posts", "2016-05-12", "welcome-to-jekyll", "welcome-to-jekyll.xml"];
    assert f[..|f| - 2] == ["_site", "blog-posts", "2016-05-12"];
    WelcomeDate();
    WelcomeName();
    XmlDestLayout(cfg, f);
  }

  lemma WelcomeDate()
    ensures BaseName(PathString(["_site", "blog-posts", "2016-05-12"])) == "2016-05-12"
  {
    var g: Path := ["_site", "blog-posts", "2016-05-12"];
    var day := "2016-05-12";
    NameOfPathString(g);
    PlainName(day);
    assert LastDot(day) < 0;
  }

  lemma WelcomeName()
    ensures BaseName(PathString(["_site", "blog-posts", "2016-05-12", "welcome-to-jekyll", "welcome-to-jekyll.xml"]) + ".xml") ==
      "welcome-to-jekyll.xml"
  {
    var f: Path := ["_site", "blog-posts", "2016-05-12", "welcome-to-jekyll", "welcome-to-jekyll.xml"];
    var stem := "welcome-to-jekyll";
    assert f[|f| - 1] == stem + ".xml";
    PlainXmlFile(f, stem);
  }

  /** A file named `<stem>.xml`, the stem free of separators, keeps that
      name in its destination. */
  lemma PlainXmlFile(f: Path, stem: string)
    requires f != [] && f[|f| - 1] == stem + ".xml"
    requires '/' !in stem && '\\' !in stem
    ensures BaseName(PathString(f) + ".xml") == stem + ".xml"
  {
    PlainXmlName(stem);
    ExtensionOfPathString(f);
    XmlFileName(f);
  }

  /** The run over the scanned files changes no entry but the
      destinations of the files it visits, leaves the tree well formed and
      ends, if at all, with the exit of copyFile. */
  lemma {:induction false} CopyAllFrame(m: Entries, cfg: Config, files: seq<Path>)
    requires WellFormed(m)
    ensures var (o, m') := CopyAllResult(m, cfg, files);
            && WellFormed(m')
            && (o == Completed || o == Exit(36))
            && forall p :: p in m && (forall i :: 0 <= i < |files| ==> p != XmlDest(cfg, files[i])) ==>
                 p in m' && m'[p] == m[p]
    decreases |files|
  {
    if files != [] {
      var f := files[0];
      var m1 := m;
      if IsXmlFile(m, f) {
        var dest := XmlDest(cfg, f);
        XmlDestIsPath(cfg, f);
        CopyFileFrame(m, f, dest);
        CopyFilePreservesWellFormed(m, f, dest);
        if LastModified(m, f) != LastModified(m, dest) {
          CopyFileFails(m, f, dest);
        }
        m1 := CopyFileResult(m, f, dest).1;
      }
      CopyAllFrame(m1, cfg, files[1..]);
      var (o, m') := CopyAllResult(m, cfg, files);
      forall p | p in m && (forall i :: 0 <= i < |files| ==> p != XmlDest(cfg, files[i]))
        ensures p in m' && m'[p] == m[p]
      {
        assert p != XmlDest(cfg, files[0]);
        forall i | 0 <= i < |files[1..]| ensures p != XmlDest(cfg, files[1..][i]) {
          assert files[1..][i] == files[i + 1];
        }
      }
    }
  }

  /** Scanned files none of which is an XML file copy nothing. */
  lemma {:induction false} NoXmlNoCopy(m: Entries, cfg: Config, files: seq<Path>)
    requires forall i :: 0 <= i < |files| ==> !IsXmlFile(m, files[i])
    ensures CopyAllResult(m, cfg, files) == (Completed, m)
    decreases |files|
  {
    if files != [] {
      assert !IsXmlFile(m, files[0]);
      NoXmlNoCopy(m, cfg, files[1..]);
    }
  }
}
