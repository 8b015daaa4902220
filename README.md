# jekyll2cms publishing core in Dafny

jekyll2cms watches a Jekyll blog repository. It hands the XML that Jekyll generates for each post over to a CMS export folder. This project models that hand-over, over an abstract filesystem that is updated in place, and proves what it does.

The model covers two Java classes:

- `MarkdownTransformer`:
  - `copyGeneratedXmlFiles` takes the changed paths of a commit range. A changed post `_posts/<folder>/<yyyy>-<mm>-<dd>-<slug>.<ext>` is split by the regular expression `(((/.+/)|())(((\d+-){3})(([^/\.]+))))`. Then:
    - its generated XML `<htmlPosts><folder>/<date>/<slug>/<slug>.xml` is copied to `<xmlRoot><folder>/<date>/<fullName>.xml`;
    - or, for a deleted post, that copy is removed, and so is its date directory once it is empty.
  - `copyAllGeneratedXmlFiles` walks the whole generated tree with `scanDirectory`. It copies every XML file to `<xmlRoot>/<d>/<d>-<name>`, where `d` is the base name (`getBaseName`, which strips an extension) of the file's grandparent.
  - Both end with the sweep below.
- `FileTransfer`:
  - `copyFile` copies only when the modification times differ. When the destination is missing it creates one parent level first, and it keeps the source's attributes.
  - `deleteXmlFromSiteFolder` sweeps `.xml`-named entries at most five levels below the generated tree.
  - `moveGeneratedImages` mirrors a tree.
  - `deleteImages` deletes a tree bottom-up.

The modules follow that structure:

- `Paths`: paths as sequences of segments. `Segments` is the normalisation `java.io.File` applies to a path string (repeated and trailing separators vanish). `PathString` is `getAbsolutePath`.
- `FilenameUtils`: `getName`, `getExtension` and `getBaseName` of Apache Commons IO.
- `PostPath`: the regular expression as an explicit search (`Find`). It is proved to agree with the declarative match `MatchesAt`: it reports the leftmost matching position, and there the match with the longest `/.+/` folder, and nothing exactly when no position matches. That this is what `Matcher.find()` returns is a reading of Java's backtracking order (leftmost start, first alternative first, greedy `.+`), not something proved against the regex engine.
- `Fs`:
  - the tree is a `map<Path, Node>` with `Node = File(content, mtime) | Dir`;
  - the primitives `Files.delete`, `File.mkdir` and `Files.copy` are functions on it;
  - the class `FileSystem` applies them in place.
- `Outcomes`: a run either completes, calls `System.exit(status)` (shown as `Exit(status)`), or lets a runtime exception escape (shown as `Uncaught`).
- `FileTransfer`, `MarkdownTransformer`: the two services.
  - Each operation is a method over `FileSystem`, proved against a function that states the resulting outcome and tree.
  - Lemmas state the properties of those functions.

### Where the comments and the code differ

The model follows the code in each case:

- The comment at `MarkdownTransformer.java:91-92` calls the generated XML `<date>-<title>.xml`. The code reads `<slug>/<slug>.xml`, and `SourceString` follows the code.
- The comment at `MarkdownTransformer.java:135-138` gives the destination as `<xmlRoot>/2016-05-12-welcome-to-jekyll`. The code builds `<xmlRoot>/2016-05-12/2016-05-12-welcome-to-jekyll.xml`, which `WelcomeToJekyllDest` proves.
- Nothing checks that the date is a calendar date.
  - Any post whose full name (three digit groups plus slug) is shorter than ten characters makes `substring(0, 10)` throw, and the exception ends the whole run whatever entries follow (`ShortDateEscapes`; `ShortDateWitness` gives `_posts/1-1-1-a.md`).
  - A failed copy exits the process, so one bad entry also ends the batch.

## Model

| member | source | states |
|---|---|---|
| Paths.Segments | src/main/java/de/adesso/service/MarkdownTransformer.java:94-96 | defines the normalised path `new File(s)` denotes: split at '/', empty pieces dropped; SegmentsArePath, SegmentsJoin and SegmentsOfPathString state its properties |
| Paths.PathString | src/main/java/de/adesso/service/MarkdownTransformer.java:130-132 | defines `getAbsolutePath()` of a path: "/" for the root, else "/" before each segment; SegmentsOfPathString proves Segments undoes it |
| Paths.SegmentsArePath | src/main/java/de/adesso/service/MarkdownTransformer.java:94-96 | every path string built by the format strings denotes a well-formed sequence of segments |
| Paths.SegmentsJoin | src/main/java/de/adesso/service/MarkdownTransformer.java:140-141 | joining two strings with "/" joins their segment sequences |
| Paths.SegmentsOfPathString | src/main/java/de/adesso/service/MarkdownTransformer.java:130 | normalising the absolute path string of a path gives the path back |
| FilenameUtils.Name | src/main/java/de/adesso/service/MarkdownTransformer.java:130-132 | defines `getName`: the text after the last '/' or '\\'; NameIsLastPart states it is the maximal separator-free suffix |
| FilenameUtils.Extension | src/main/java/de/adesso/service/MarkdownTransformer.java:130 | defines `getExtension`: what follows the last dot of the name, else ""; PlainXmlName and BaseNameAndExtension state its properties |
| FilenameUtils.BaseName | src/main/java/de/adesso/service/MarkdownTransformer.java:132-141 | defines `getBaseName`: the name without its last dot and what follows; BaseNameAndExtension, BaseNameNoSeparator and BaseNameOfAppendedXml state its properties |
| FilenameUtils.NameIsLastPart | src/main/java/de/adesso/service/MarkdownTransformer.java:132 | getName returns the separator-free suffix after the last separator |
| FilenameUtils.NameOfPathString | src/main/java/de/adesso/service/MarkdownTransformer.java:130 | the name of an absolute path string is the name of its last segment |
| FilenameUtils.BaseNameAndExtension | src/main/java/de/adesso/service/MarkdownTransformer.java:130-141 | the base name, a dot and the extension put back together give the name (without the dot when the name has none) |
| FilenameUtils.BaseNameNoSeparator | src/main/java/de/adesso/service/MarkdownTransformer.java:132 | a base name never holds '/', so it is at most one path segment |
| FilenameUtils.BaseNameOfAppendedXml | src/main/java/de/adesso/service/MarkdownTransformer.java:141 | for a name with extension "xml", the base name of name + ".xml" is the whole name |
| FilenameUtils.PlainXmlName | src/main/java/de/adesso/service/MarkdownTransformer.java:130 | a separator-free `<stem>.xml` is its own name and has extension "xml" |
| PostPath.MatchAt | src/main/java/de/adesso/service/MarkdownTransformer.java:77-80 | defines the pattern anchored at one position: the `/.+/` alternative with the longest folder that lets the rest match, else the empty folder; MatchAtSpec proves it against MatchesAt |
| PostPath.Find | src/main/java/de/adesso/service/MarkdownTransformer.java:80-82 | defines `matcher.find()` on a fresh matcher as the search from position 0; FindSpec proves it against MatchesAt |
| PostPath.FindSpec | src/main/java/de/adesso/service/MarkdownTransformer.java:77-82 | find() reports the leftmost position where the pattern matches and, there, the match with the longest folder; it reports nothing exactly when the pattern matches nowhere |
| PostPath.FindFromSpec | src/main/java/de/adesso/service/MarkdownTransformer.java:80-82 | searching from position i reports the first matching position at or after i, with the longest folder there |
| PostPath.FindFromIs | src/main/java/de/adesso/service/MarkdownTransformer.java:80-82 | the search stops at the first position where the anchored match succeeds and reports that match |
| PostPath.MatchAtSpec | src/main/java/de/adesso/service/MarkdownTransformer.java:77 | the anchored match prefers the `/.+/` alternative with the greedy longest folder, falls back to the empty folder, and fails only where no match exists |
| PostPath.TailFromSound | src/main/java/de/adesso/service/MarkdownTransformer.java:77 | what `(\d+-){n}([^/\.]+)` reads is laid out in the text: digit groups each followed by '-', then a maximal slug |
| PostPath.TailFromComplete | src/main/java/de/adesso/service/MarkdownTransformer.java:77 | any such layout is what `(\d+-){n}([^/\.]+)` reads (no backtracking is needed) |
| PostPath.LongestFolderEndSound | src/main/java/de/adesso/service/MarkdownTransformer.java:77 | the folder end the backtracking `.+` settles on spans `/…/` and lets the rest match |
| PostPath.LongestFolderEndIsLongest | src/main/java/de/adesso/service/MarkdownTransformer.java:77 | no larger folder end lets the rest match |
| PostPath.MatchesAtUnique | src/main/java/de/adesso/service/MarkdownTransformer.java:77 | two matches at one position with folders of one length have the same groups |
| PostPath.MatchesAtText | src/main/java/de/adesso/service/MarkdownTransformer.java:77 | a match is well-shaped groups whose text `folder + fullName` stands at the position, followed by the end or a character the slug cannot take |
| PostPath.FoundIsWellShaped | src/main/java/de/adesso/service/MarkdownTransformer.java:83-85 | the groups find() reports are well shaped: folder empty or `/…/`, three non-empty digit runs, a non-empty slug without '/' or '.', a full name without '/' |
| PostPath.FullNameNoSlash | src/main/java/de/adesso/service/MarkdownTransformer.java:84 | group(5), the full name, holds no '/' |
| PostPath.TopLevelPost | src/main/java/de/adesso/service/MarkdownTransformer.java:62-63 | `_posts/<y>-<m>-<d>-<slug><.ext>` is split at position 7 with an empty folder and exactly those groups |
| PostPath.NetlifyTestPost | src/main/java/de/adesso/service/MarkdownTransformer.java:62-63 | `_posts/2017-08-01-new-post-for-netlify-test.markdown` gives folder "", groups 2017, 08, 01 and slug `new-post-for-netlify-test` |
| MarkdownTransformer.Resolve | src/main/java/de/adesso/service/MarkdownTransformer.java:82-96 | defines what a changed path asks for: nothing (not under `_posts`, or no match), the substring exception (full name under ten characters), or the source, destination and date directory built by the three format strings; EntryIgnored, PostLayout and ShortDateEscapes state its properties |
| MarkdownTransformer.DeletePostXml | src/main/java/de/adesso/service/MarkdownTransformer.java:98-109 | defines the delete branch: Files.delete on the copy, then on its date directory when the listing is empty, every IOException caught; DeletePostXmlEffect gives its closed form |
| MarkdownTransformer.EntryByChangedPath | src/main/java/de/adesso/service/MarkdownTransformer.java:65-71 | a DELETE entry is handled by its old path alone, every other change type by its new path alone |
| MarkdownTransformer.EntryIgnored | src/main/java/de/adesso/service/MarkdownTransformer.java:82 | a path that does not start with `_posts`, or in which the pattern finds nothing, copies and deletes nothing |
| MarkdownTransformer.PostLayout | src/main/java/de/adesso/service/MarkdownTransformer.java:83-96 | source is `<htmlPosts><folder>/<date>/<slug>/<slug>.xml`, destination `<xmlRoot><folder>/<date>/<fullName>.xml`, dirPath is exactly the destination's parent, date is the first ten characters of the full name |
| MarkdownTransformer.TopLevelPlan | src/main/java/de/adesso/service/MarkdownTransformer.java:94-96 | a post directly under `_posts` maps to `<htmlPosts>/<date>/<slug>/<slug>.xml` and `<xmlRoot>/<date>/<fullName>.xml` |
| MarkdownTransformer.DateOfFullName | src/main/java/de/adesso/service/MarkdownTransformer.java:86 | with a four-digit year and two-digit month and day, the ten characters taken are `yyyy-mm-dd` |
| MarkdownTransformer.NetlifyPostPlan | src/main/java/de/adesso/service/MarkdownTransformer.java:62-63 | the example post maps to `<htmlPosts>/2017-08-01/new-post-for-netlify-test/new-post-for-netlify-test.xml` and `<xmlRoot>/2017-08-01/2017-08-01-new-post-for-netlify-test.xml` |
| MarkdownTransformer.ShortDateEscapes | src/main/java/de/adesso/service/MarkdownTransformer.java:82-86 | for every changed path under `_posts` whose match has a full name shorter than ten characters, the batch and the whole of copyGeneratedXmlFiles end with the escaping IndexOutOfBounds, the tree untouched, whatever entries follow |
| MarkdownTransformer.ShortDateWitness | src/main/java/de/adesso/service/MarkdownTransformer.java:86 | `_posts/1-1-1-a.md` is such a post |
| MarkdownTransformer.DeletePostXmlEffect | src/main/java/de/adesso/service/MarkdownTransformer.java:98-109 | a delete removes the copy when it exists and is not a non-empty directory, then removes the date directory exactly when the copy was its only entry; a missing copy changes nothing |
| MarkdownTransformer.LeftEmpty | src/main/java/de/adesso/service/MarkdownTransformer.java:104 | once the copy is gone its directory is empty exactly when the copy was its only entry |
| MarkdownTransformer.ProcessEntry | src/main/java/de/adesso/service/MarkdownTransformer.java:60-113 | one entry, in place, gives the outcome and tree of the entry's specification |
| MarkdownTransformer.CopyGeneratedXmlFiles | src/main/java/de/adesso/service/MarkdownTransformer.java:58-116 | the entries in order, stopping at the first exit or escaping exception, then the sweep once |
| MarkdownTransformer.EntryFrame | src/main/java/de/adesso/service/MarkdownTransformer.java:60-113 | one entry changes, adds or removes only its post's copy and date directory, keeps the tree well formed, and ends with completion, exit 36 or the short-name exception |
| MarkdownTransformer.BatchFrame | src/main/java/de/adesso/service/MarkdownTransformer.java:60-114 | the same for a whole batch, with the union of the paths its posts map to |
| MarkdownTransformer.BatchIgnored | src/main/java/de/adesso/service/MarkdownTransformer.java:115 | a batch that names no post only runs the sweep |
| MarkdownTransformer.NothingBelow | src/main/java/de/adesso/service/MarkdownTransformer.java:155-156 | a path with no listing (missing, or a file) has nothing below it, so the scan adds nothing |
| MarkdownTransformer.ScanAdvance | src/main/java/de/adesso/service/MarkdownTransformer.java:158-159 | appending a child and the scan of its subtree keeps "each entry of the visited branches once, parents first" |
| MarkdownTransformer.ScanDone | src/main/java/de/adesso/service/MarkdownTransformer.java:157-160 | once every child's branch is visited, the collection holds exactly the entries strictly below the directory |
| MarkdownTransformer.ScanDirectory | src/main/java/de/adesso/service/MarkdownTransformer.java:154-162 | keeps what `all` held and adds every entry strictly below the start, each once, each after its parent, never the start itself |
| MarkdownTransformer.ScanChildren | src/main/java/de/adesso/service/MarkdownTransformer.java:157-161 | the loop over the listing collects exactly the subtree below the directory in that order |
| MarkdownTransformer.ScanChild | src/main/java/de/adesso/service/MarkdownTransformer.java:158-159 | adding the child and then scanning it extends the visited branches by that child's |
| MarkdownTransformer.CopyAllGeneratedXmlFiles | src/main/java/de/adesso/service/MarkdownTransformer.java:122-145 | the scanned order has the scan's properties, and the outcome and tree are those of copying each XML file of that order and then sweeping |
| MarkdownTransformer.CopyXmlFiles | src/main/java/de/adesso/service/MarkdownTransformer.java:129-143 | each element still a file with extension "xml" when reached is copied to its destination; an exit stops the run |
| MarkdownTransformer.XmlDate | src/main/java/de/adesso/service/MarkdownTransformer.java:132 | defines the date part: the base name of the file's grandparent, or "null" when the parent is the root; XmlDestLayout states where it lands |
| MarkdownTransformer.XmlDest | src/main/java/de/adesso/service/MarkdownTransformer.java:133-141 | defines the destination `<xmlRoot>/<d>/<d>-<base name of path + ".xml">` as a normalised path; XmlDestLayout, XmlFileDest and XmlDestIsPath state its properties |
| MarkdownTransformer.XmlDestIsPath | src/main/java/de/adesso/service/MarkdownTransformer.java:133-141 | every destination is a well-formed path |
| MarkdownTransformer.XmlDestLayout | src/main/java/de/adesso/service/MarkdownTransformer.java:132-141 | a file two or more levels deep goes to `<xmlRoot>/<d>/<d>-<n>`, with `d` its grandparent's base name and `n` the base name of its path + ".xml" (no `<d>` level when `d` is empty) |
| MarkdownTransformer.XmlFileDest | src/main/java/de/adesso/service/MarkdownTransformer.java:129-141 | for a file with extension "xml" the copy is named `<d>-<the file's own name>` |
| MarkdownTransformer.XmlFileName | src/main/java/de/adesso/service/MarkdownTransformer.java:141 | getBaseName takes the appended ".xml" off again |
| MarkdownTransformer.WelcomeToJekyllDest | src/main/java/de/adesso/service/MarkdownTransformer.java:135-141 | `_site/blog-posts/2016-05-12/welcome-to-jekyll/welcome-to-jekyll.xml` goes to `<xmlRoot>/2016-05-12/2016-05-12-welcome-to-jekyll.xml` |
| MarkdownTransformer.CopyAllFrame | src/main/java/de/adesso/service/MarkdownTransformer.java:129-143 | the copy run changes no entry except the destinations of the scanned files, keeps the tree well formed and ends, if at all, with exit 36 |
| MarkdownTransformer.NoXmlNoCopy | src/main/java/de/adesso/service/MarkdownTransformer.java:129-131 | scanned files none of which is an XML file copy nothing |
| Fs.FileSystem.Delete | src/main/java/de/adesso/service/FileTransfer.java:60 | Files.delete removes an existing non-root entry with no children and fails otherwise, keeping the tree well formed |
| Fs.FileSystem.Mkdir | src/main/java/de/adesso/service/FileTransfer.java:37 | File.mkdir creates one missing directory inside an existing one and fails otherwise |
| Fs.FileSystem.Copy | src/main/java/de/adesso/service/FileTransfer.java:39-40 | Files.copy with REPLACE_EXISTING replaces the destination unless it is a non-empty directory or has no parent directory |
| Fs.DeletePreservesWellFormed | src/main/java/de/adesso/service/FileTransfer.java:60 | a deletion keeps every entry inside an existing directory, and succeeds exactly on an existing childless non-root entry |
| Fs.CopyPreservesWellFormed | src/main/java/de/adesso/service/FileTransfer.java:39-40 | a copy keeps every entry inside an existing directory |
| FileTransfer.CopyFileResult | src/main/java/de/adesso/service/FileTransfer.java:32-47 | defines copyFile's outcome and tree: nothing when the times agree, else the one-level mkdir of a missing destination's parent and Files.copy with COPY_ATTRIBUTES, exit 36 on failure; the CopyFile lemmas below state its properties |
| FileTransfer.CopyFile | src/main/java/de/adesso/service/FileTransfer.java:32-47 | in place, gives the outcome and tree of copyFile's specification |
| FileTransfer.CopyFileSkipsUpToDate | src/main/java/de/adesso/service/FileTransfer.java:34 | equal modification times, two missing files (both 0) included, leave the tree unchanged |
| FileTransfer.CopyFileFails | src/main/java/de/adesso/service/FileTransfer.java:36-46 | with differing times copyFile exits with 36 exactly when the source is missing, the destination is the root or a non-empty directory, or its parent cannot be made with one mkdir |
| FileTransfer.CopyFileCopies | src/main/java/de/adesso/service/FileTransfer.java:39-40 | a completed copy leaves the source's node, content and time, at the destination |
| FileTransfer.CopyFileFrame | src/main/java/de/adesso/service/FileTransfer.java:36-40 | only the destination changes, and at most its immediate parent is created besides |
| FileTransfer.CopyFileIdempotent | src/main/java/de/adesso/service/FileTransfer.java:34-40 | after a completed copyFile, running it again changes nothing |
| FileTransfer.CopyFilePreservesWellFormed | src/main/java/de/adesso/service/FileTransfer.java:36-40 | copyFile keeps the tree well formed |
| FileTransfer.SweepResult | src/main/java/de/adesso/service/FileTransfer.java:55-70 | defines the sweep's outcome and tree: exit 37 for a missing root, the NullPointerException for "/", else the starting tree without the reported entries that had no children to begin with (the walk reports a directory before its children); SweepRemovesXmlFiles states its properties |
| FileTransfer.DeleteXmlFromSiteFolder | src/main/java/de/adesso/service/FileTransfer.java:55-70 | in place, gives the sweep's outcome and tree: exit 37 for a missing root, the NullPointerException for "/", else every reported entry deleted where Files.delete can |
| FileTransfer.SweepAdvance | src/main/java/de/adesso/service/FileTransfer.java:58-64 | deleting a shortest reported entry, ignoring a failure, keeps "the tree is the start without the reported entries handled so far that had no children" |
| FileTransfer.SweepStep | src/main/java/de/adesso/service/FileTransfer.java:60 | deleting the next reported entry, none handled before being longer, removes it exactly when it had no children in the starting tree |
| FileTransfer.SweepRemovesXmlFiles | src/main/java/de/adesso/service/FileTransfer.java:56-64 | a completed sweep leaves no file with an ".xml" name within five levels; entries not reported are untouched; nothing is added |
| FileTransfer.SweepPreservesWellFormed | src/main/java/de/adesso/service/FileTransfer.java:56-64 | the sweep keeps the tree well formed |
| FileTransfer.MirrorOk | src/main/java/de/adesso/service/FileTransfer.java:72-96 | defines when the run completes: a non-directory's Files.copy succeeds, or, after the mkdir of a missing dest, every child completes into the entry of the same name |
| FileTransfer.MirrorOkAgree | src/main/java/de/adesso/service/FileTransfer.java:79-85 | whether the run completes depends only on the entries at and below src and dest and on the kind of dest's parent, so siblings cannot affect each other and the listing order does not matter |
| FileTransfer.MirrorIntoFresh | src/main/java/de/adesso/service/FileTransfer.java:75-88 | mirroring any existing src into a missing dest inside a directory always completes |
| FileTransfer.MoveGeneratedImages | src/main/java/de/adesso/service/FileTransfer.java:72-96 | ends with completion exactly when MirrorOk holds of the starting tree, else with exit 390; nothing outside dest changes and nothing is removed; every changed entry below dest copies its counterpart below src; on completion every file below src has its bytes at the same relative path below dest, and every directory below src has an entry there whenever that entry's parent is a directory |
| FileTransfer.MoveDirectory | src/main/java/de/adesso/service/FileTransfer.java:73-85 | the directory case: dest created when missing, then the children mirrored, with the same promises |
| FileTransfer.MoveChildren | src/main/java/de/adesso/service/FileTransfer.java:79-85 | the loop over the listing ends with completion exactly when every child completes from the tree it started with, and then mirrors the subtree of every child, within the frame |
| FileTransfer.CopyMirrors | src/main/java/de/adesso/service/FileTransfer.java:86-94 | copying a file (or a missing path) is a mirror of it within the frame |
| FileTransfer.MkdirMirrors | src/main/java/de/adesso/service/FileTransfer.java:75-77 | creating dest stays within the frame and leaves the listing of src unchanged |
| FileTransfer.MoveFrameStep | src/main/java/de/adesso/service/FileTransfer.java:81-84 | mirroring a child into the same-named child of dest stays within the frame of the parent |
| FileTransfer.ChildrenMirrored | src/main/java/de/adesso/service/FileTransfer.java:75-85 | once dest is there (or its parent is no directory) and every child is mirrored, every entry below src is |
| FileTransfer.DeleteTree | src/main/java/de/adesso/service/FileTransfer.java:101-113 | the walk deletes each file, and each directory after its entries: everything from the start down goes, except the root "/", whose deletion is the failure |
| FileTransfer.ClearStep | src/main/java/de/adesso/service/FileTransfer.java:101-112 | deleting one more child's subtree extends the cleared part by exactly that subtree |
| FileTransfer.DeleteImagesResult | src/main/java/de/adesso/service/FileTransfer.java:98-120 | defines deleteImages' outcome and tree: nothing for a non-directory, else the subtree removed, or, from "/", everything but the root removed and exit 38; DeleteImagesEffect states its properties |
| FileTransfer.DeleteImages | src/main/java/de/adesso/service/FileTransfer.java:98-120 | in place, gives the outcome and tree of deleteImages' specification |
| FileTransfer.DeleteImagesEffect | src/main/java/de/adesso/service/FileTransfer.java:98-119 | a directory and everything below it are gone, every other entry is kept unchanged; deleting from "/" leaves only the root and exits with 38 |

## Left out

- GitRepoCloner and EmailService (cloning over the network, sending mail) are not part of this model.
- Spring wiring and `@Value` injection are left out: the two roots are the fields of `Config`. ConfigService is not part of this model. Its `getLOCAL_HTML_POSTS()` is taken to be the same value as `LOCAL_HTML_POSTS`, and the sweep takes that root as a parameter.
- Logging and `printStackTrace` are left out. `System.exit` is the outcome `Exit(status)`, with the tree as the operation had left it.
- Real filesystem semantics beyond the tree are left out: permissions, attributes other than the modification time, symbolic links, and the directory stream left open at `MarkdownTransformer.java:104`.
- Fs.LastModified: a directory has no time in the model and reads 0.
- Paths.Segments: every path is treated as absolute. The process's working directory, which would resolve relative roots, is not modelled.
- Paths.Segments: the names `.` and `..` are kept as ordinary segments. The operating system resolves them, for example in a folder group `/../` or in a configured root, and the model does not.
- MarkdownTransformer.Resolve: Java's `length()` and `substring(0, 10)` count UTF-16 code units, and the model counts characters (Unicode scalar values). A full name with characters outside the Basic Multilingual Plane is treated differently: with group(5) `1-1-1-` followed by two U+1F600 characters, Java sees ten code units and takes them all as the date, while the model sees eight characters and gives the IndexOutOfBounds outcome.
- Files.copy without COPY_ATTRIBUTES stamps the copy with the current time. The clock is the parameter `now`.
- FileTransfer.MoveGeneratedImages: one `now` stamps every copy of a run, so the clock stands still for the run. In Java each Files.copy takes its own time.
- The order of `File.listFiles()` and `File.list()` is unspecified. The loops choose children nondeterministically. `CopyAllGeneratedXmlFiles` returns the order its scan produced as a ghost value and states its result for that order.
- MarkdownTransformer.CopyAllGeneratedXmlFiles: the result is stated for the order the scan produced, not proved equal across all listing orders.
- FileTransfer.MoveGeneratedImages: requires that neither the source nor the destination lies inside the other. When one does, the Java recursion copies into what it is listing, and that is not modelled.
- FileTransfer.MoveGeneratedImages: the tree after an exit 390 is described only by the frame: nothing outside dest changed, and each changed entry copies its source.
- FileTransfer.DeleteXmlFromSiteFolder: an I/O error raised while the walk is already under way is not modelled. The tree is complete, so the walk fails only on a missing root (exit 37).
- FileTransfer.DeleteTree: a failure in the middle of the walk is not modelled. Inside the tree only the root "/" cannot be deleted.
- The regular expression is modelled for this one pattern, not as a general engine. `\d` is ASCII digits. `.` excludes Java's line terminators.
- No calendar or future check on the date is made, because the code makes none.
