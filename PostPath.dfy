module Options {
  datatype Option<T> = None | Some(value: T)
}

/**
 * The decomposition of a changed post path by the regular expression of
 * MarkdownTransformer.copyGeneratedXmlFiles,
 *
 *     (((/.+/)|())(((\d+-){3})(([^/\.]+))))
 *
 * searched with Matcher.find(): the leftmost start position wins; at that
 * position the folder alternative `/.+/` is tried before the empty one, and
 * `.+` is greedy, so the longest folder that lets the rest match is taken.
 * `\d+-` cannot backtrack (a digit is never a '-'), and the trailing
 * `[^/\.]+` takes the longest run. `.` excludes Java's line terminators.
 *
 * `Find` is the search written out; `MatchesAt` says declaratively what a
 * match with given groups is, and the lemmas below show that `Find`
 * returns exactly the leftmost, folder-longest such match.
 */
module PostPath {
  import opened Options
  import opened Paths

  predicate IsDigit(c: char) {
    '0' <= c <= '9'
  }

  /** The characters `.` does not match without DOTALL. */
  predicate IsLineTerminator(c: char) {
    c == '\n' || c == '\r' || c == '\U{85}' || c == '\U{2028}' || c == '\U{2029}'
  }

  /** The characters `[^/\.]` matches. */
  predicate IsSlugChar(c: char) {
    c != '/' && c != '.'
  }

  predicate AllDigits(t: string) {
    forall i :: 0 <= i < |t| ==> IsDigit(t[i])
  }

  predicate AllSlugChars(t: string) {
    forall i :: 0 <= i < |t| ==> IsSlugChar(t[i])
  }

  predicate NoLineTerminator(t: string) {
    forall i :: 0 <= i < |t| ==> !IsLineTerminator(t[i])
  }

  /** The groups of one match: group(2) is `folder`, group(8) is `slug`, and
      group(5) is `FullName()`, the three `digits-` groups and the slug. */
  datatype Fields = Fields(folder: string, year: string, month: string, day: string, slug: string) {
    function FullName(): string {
      year + "-" + month + "-" + day + "-" + slug
    }

    function Text(): string {
      folder + FullName()
    }
  }

  /** The folder group: empty, or `/…/` with at least one character and no
      line terminator between the slashes. */
  predicate FolderShaped(folder: string) {
    folder == "" ||
    (|folder| >= 3 && folder[0] == '/' && folder[|folder| - 1] == '/' &&
     NoLineTerminator(folder[1..|folder| - 1]))
  }

  /** Groups that the pattern can produce: a well-formed folder, three
      non-empty digit runs and a non-empty slug of characters other than '/'
      and '.'. */
  predicate WellShaped(f: Fields) {
    && FolderShaped(f.folder)
    && |f.year| > 0 && AllDigits(f.year)
    && |f.month| > 0 && AllDigits(f.month)
    && |f.day| > 0 && AllDigits(f.day)
    && |f.slug| > 0 && AllSlugChars(f.slug)
  }

  /** `s` holds `t` at position `i`. */
  predicate At(s: string, i: nat, t: string) {
    i + |t| <= |s| && s[i..i + |t|] == t
  }

  /** The digit groups `gs`, each followed by '-'. */
  function DashJoin(gs: seq<string>): string {
    if gs == [] then "" else gs[0] + "-" + DashJoin(gs[1..])
  }

  predicate DigitGroups(gs: seq<string>) {
    forall i :: 0 <= i < |gs| ==> |gs[i]| > 0 && AllDigits(gs[i])
  }

  /** `s` holds, at `k`, the digit groups `gs` each followed by '-', then the
      slug `sl` as the longest run the greedy `[^/\.]+` takes. */
  predicate Laid(s: string, k: nat, gs: seq<string>, sl: string) {
    var t := DashJoin(gs) + sl;
    && DigitGroups(gs) && |sl| > 0 && AllSlugChars(sl) && At(s, k, t)
    && (k + |t| == |s| || !IsSlugChar(s[k + |t|]))
  }

  /** The pattern matches `s` at position `i` with groups `f`: the folder,
      then year, month and day each followed by '-', then the slug.
      `MatchesAtText` restates this in terms of `Text()`. */
  predicate MatchesAt(s: string, i: nat, f: Fields) {
    && FolderShaped(f.folder) && At(s, i, f.folder)
    && Laid(s, i + |f.folder|, [f.year, f.month, f.day], f.slug)
  }

  datatype Match = Match(start: nat, fields: Fields)

  // ---------------------------------------------------------------------
  // The search, step by step

  /** Length of the run of digits starting at `k`. */
  function DigitRun(s: string, k: nat): (n: nat)
    requires k <= |s|
    ensures k + n <= |s|
    decreases |s| - k
  {
    if k < |s| && IsDigit(s[k]) then 1 + DigitRun(s, k + 1) else 0
  }

  /** Length of the run of slug characters starting at `k`. */
  function SlugRun(s: string, k: nat): (n: nat)
    requires k <= |s|
    ensures k + n <= |s|
    decreases |s| - k
  {
    if k < |s| && IsSlugChar(s[k]) then 1 + SlugRun(s, k + 1) else 0
  }

  /** `\d+-` at `k`: the digits, when it matches. */
  function DigitGroup(s: string, k: nat): (r: Option<string>)
    requires k <= |s|
    ensures r.Some? ==> k + |r.value| < |s|
  {
    var n := DigitRun(s, k);
    if n > 0 && k + n < |s| && s[k + n] == '-' then Some(s[k..k + n]) else None
  }

  /** `(\d+-){n}` followed by `([^/\.]+)` at `k`: the digit groups and the slug. */
  function TailFrom(s: string, k: nat, n: nat): (r: Option<(seq<string>, string)>)
    requires k <= |s|
    ensures r.Some? ==> |r.value.0| == n
    decreases n
  {
    if n == 0 then
      var m := SlugRun(s, k);
      if m == 0 then None else Some(([], s[k..k + m]))
    else
      match DigitGroup(s, k)
      case None => None
      case Some(g) =>
        match TailFrom(s, k + |g| + 1, n - 1)
        case None => None
        case Some(t) => Some(([g] + t.0, t.1))
  }

  /** `((\d+-){3})(([^/\.]+))` at `k`, as groups with an empty folder. */
  function TailAt(s: string, k: nat): Option<Fields>
    requires k <= |s|
  {
    match TailFrom(s, k, 3)
    case None => None
    case Some(t) => Some(Fields("", t.0[0], t.0[1], t.0[2], t.1))
  }

  /** `/.+/` spans `s[i..j+1]`. */
  predicate FolderSpan(s: string, i: nat, j: nat) {
    i + 2 <= j < |s| && s[i] == '/' && s[j] == '/' && NoLineTerminator(s[i + 1..j])
  }

  /** `/.+/` can span `s[i..j+1]` and the rest of the pattern matches after it. */
  predicate FolderOk(s: string, i: nat, j: nat) {
    FolderSpan(s, i, j) && TailAt(s, j + 1).Some?
  }

  /** The greedy `.+` backtracking from `hi` down: the largest folder end
      `j <= hi` after which the rest matches, with the rest's groups. */
  function LongestFolderEnd(s: string, i: nat, hi: nat): (r: Option<(nat, Fields)>)
    requires hi < |s|
    ensures r.Some? ==> i + 2 <= r.value.0 <= hi
    decreases hi
  {
    if hi < i + 2 then None
    else if FolderSpan(s, i, hi) && TailAt(s, hi + 1).Some? then Some((hi, TailAt(s, hi + 1).value))
    else LongestFolderEnd(s, i, hi - 1)
  }

  /** The pattern anchored at `i`: folder alternative first, then the empty one. */
  function MatchAt(s: string, i: nat): Option<Fields>
    requires i <= |s|
  {
    var folderEnd: Option<(nat, Fields)> := if |s| == 0 then None else LongestFolderEnd(s, i, |s| - 1);
    match folderEnd
    case Some((j, t)) => Some(t.(folder := s[i..j + 1]))
    case None => TailAt(s, i)
  }

  /** Matcher.find() from position `i` on. */
  function FindFrom(s: string, i: nat): Option<Match>
    requires i <= |s|
    decreases |s| - i
  {
    if i == |s| then None
    else
      match MatchAt(s, i)
      case Some(f) => Some(Match(i, f))
      case None => FindFrom(s, i + 1)
  }

  /** Matcher.find() on a fresh matcher. */
  function Find(s: string): Option<Match> {
    FindFrom(s, 0)
  }

  // ---------------------------------------------------------------------
  // What the search computes

  lemma {:induction false} DigitRunSound(s: string, k: nat)
    requires k <= |s|
    ensures forall t :: k <= t < k + DigitRun(s, k) ==> IsDigit(s[t])
    ensures k + DigitRun(s, k) == |s| || !IsDigit(s[k + DigitRun(s, k)])
    decreases |s| - k
  {
    if k < |s| && IsDigit(s[k]) {
      DigitRunSound(s, k + 1);
    }
  }

  lemma {:induction false} SlugRunSound(s: string, k: nat)
    requires k <= |s|
    ensures forall t :: k <= t < k + SlugRun(s, k) ==> IsSlugChar(s[t])
    ensures k + SlugRun(s, k) == |s| || !IsSlugChar(s[k + SlugRun(s, k)])
    decreases |s| - k
  {
    if k < |s| && IsSlugChar(s[k]) {
      SlugRunSound(s, k + 1);
    }
  }

  lemma {:induction false} DigitRunIs(s: string, k: nat, n: nat)
    requires k + n <= |s|
    requires forall t :: k <= t < k + n ==> IsDigit(s[t])
    requires k + n == |s| || !IsDigit(s[k + n])
    ensures DigitRun(s, k) == n
    decreases n
  {
    if n > 0 {
      DigitRunIs(s, k + 1, n - 1);
    }
  }

  lemma {:induction false} SlugRunIs(s: string, k: nat, n: nat)
    requires k + n <= |s|
    requires forall t :: k <= t < k + n ==> IsSlugChar(s[t])
    requires k + n == |s| || !IsSlugChar(s[k + n])
    ensures SlugRun(s, k) == n
    decreases n
  {
    if n > 0 {
      SlugRunIs(s, k + 1, n - 1);
    }
  }

  lemma AtConcat(s: string, i: nat, t: string, u: string)
    requires At(s, i, t) && At(s, i + |t|, u)
    ensures At(s, i, t + u)
  {
    assert s[i..i + |t| + |u|] == s[i..i + |t|] + s[i + |t|..i + |t| + |u|];
  }

  lemma AtSplit(s: string, i: nat, t: string, u: string)
    requires At(s, i, t + u)
    ensures At(s, i, t) && At(s, i + |t|, u)
  {
    var w := s[i..i + |t| + |u|];
    assert s[i..i + |t|] == w[..|t|];
    assert s[i + |t|..i + |t| + |u|] == w[|t|..];
  }

  /** The character of `s` at `i + j` when `s` holds `t` at `i`. */
  lemma AtIndex(s: string, i: nat, t: string, j: nat)
    requires At(s, i, t) && j < |t|
    ensures s[i + j] == t[j]
  {
    assert s[i..i + |t|][j] == s[i + j];
  }

  lemma AtSlice(s: string, i: nat, n: nat)
    requires i + n <= |s|
    ensures At(s, i, s[i..i + n])
  {
  }

  /** A digit group found at `k` is a non-empty run of digits followed by '-'. */
  lemma DigitGroupSound(s: string, k: nat)
    requires k <= |s| && DigitGroup(s, k).Some?
    ensures var d := DigitGroup(s, k).value; |d| > 0 && AllDigits(d) && At(s, k, d + "-")
  {
    var n := DigitRun(s, k);
    var d := s[k..k + n];
    DigitRunSound(s, k);
    assert s[k..k + n + 1] == d + "-";
  }

  /** A digit group found at `k` is `d` when `s` has `d` then '-' there. */
  lemma DigitGroupIs(s: string, k: nat, d: string)
    requires |d| > 0 && AllDigits(d) && At(s, k, d + "-")
    ensures DigitGroup(s, k) == Some(d)
  {
    AtSplit(s, k, d, "-");
    forall t | k <= t < k + |d| ensures IsDigit(s[t]) {
      AtIndex(s, k, d, t - k);
    }
    AtIndex(s, k + |d|, "-", 0);
    DigitRunIs(s, k, |d|);
  }

  lemma FullNameLayout(f: Fields)
    ensures f.FullName() == DashJoin([f.year, f.month, f.day]) + f.slug
  {
    var y, mo, d := f.year, f.month, f.day;
    assert DashJoin([d]) == d + "-" + "";
    assert [y, mo, d][1..] == [mo, d];
    assert [mo, d][1..] == [d];
  }

  /** The slug run at `k` is `sl` when `s` holds the maximal run `sl` there. */
  lemma SlugRunOf(s: string, k: nat, sl: string)
    requires At(s, k, sl) && AllSlugChars(sl)
    requires k + |sl| == |s| || !IsSlugChar(s[k + |sl|])
    ensures SlugRun(s, k) == |sl|
  {
    forall t | k <= t < k + |sl| ensures IsSlugChar(s[t]) {
      AtIndex(s, k, sl, t - k);
    }
    SlugRunIs(s, k, |sl|);
  }

  /** The maximal slug run at `k`, when it is not empty, is laid out there. */
  lemma SlugRunLaid(s: string, k: nat)
    requires k <= |s| && SlugRun(s, k) > 0
    ensures Laid(s, k, [], s[k..k + SlugRun(s, k)])
  {
    var m := SlugRun(s, k);
    var sl := s[k..k + m];
    SlugRunSound(s, k);
    AtSlice(s, k, m);
    assert DashJoin([]) + sl == sl;
    forall j | 0 <= j < m ensures IsSlugChar(sl[j]) {
      assert s[k + j] == sl[j];
    }
  }

  /** Laying out one more digit group in front. */
  lemma LaidCons(s: string, k: nat, g: string, gs: seq<string>, sl: string)
    requires |g| > 0 && AllDigits(g) && At(s, k, g + "-") && Laid(s, k + |g| + 1, gs, sl)
    ensures Laid(s, k, [g] + gs, sl)
  {
    var t1 := DashJoin(gs) + sl;
    assert ([g] + gs)[1..] == gs;
    assert DashJoin([g] + gs) + sl == (g + "-") + t1;
    AtConcat(s, k, g + "-", t1);
  }

  /** Reading the first digit group off a layout. */
  lemma LaidUncons(s: string, k: nat, gs: seq<string>, sl: string)
    requires gs != [] && Laid(s, k, gs, sl)
    ensures |gs[0]| > 0 && AllDigits(gs[0]) && At(s, k, gs[0] + "-")
    ensures k + |gs[0]| + 1 <= |s| && Laid(s, k + |gs[0]| + 1, gs[1..], sl)
  {
    var t1 := DashJoin(gs[1..]) + sl;
    assert DashJoin(gs) + sl == (gs[0] + "-") + t1;
    AtSplit(s, k, gs[0] + "-", t1);
  }

  /** What `TailFrom` reads is laid out at `k`. */
  lemma {:induction false} TailFromSound(s: string, k: nat, n: nat)
    requires k <= |s| && TailFrom(s, k, n).Some?
    ensures Laid(s, k, TailFrom(s, k, n).value.0, TailFrom(s, k, n).value.1)
    decreases n
  {
    if n == 0 {
      SlugRunLaid(s, k);
    } else {
      var g := DigitGroup(s, k).value;
      var k1 := k + |g| + 1;
      DigitGroupSound(s, k);
      TailFromSound(s, k1, n - 1);
      var t := TailFrom(s, k1, n - 1).value;
      LaidCons(s, k, g, t.0, t.1);
    }
  }

  /** `TailFrom` reads whatever is laid out at `k`. */
  lemma {:induction false} TailFromComplete(s: string, k: nat, gs: seq<string>, sl: string)
    requires k <= |s| && Laid(s, k, gs, sl)
    ensures TailFrom(s, k, |gs|) == Some((gs, sl))
    decreases |gs|
  {
    if gs == [] {
      assert DashJoin(gs) + sl == sl;
      SlugRunOf(s, k, sl);
      assert s[k..k + |sl|] == sl;
    } else {
      LaidUncons(s, k, gs, sl);
      DigitGroupIs(s, k, gs[0]);
      TailFromComplete(s, k + |gs[0]| + 1, gs[1..], sl);
      assert [gs[0]] + gs[1..] == gs;
    }
  }

  /** Whatever `TailAt` returns is a match with an empty folder. */
  lemma TailAtSound(s: string, k: nat)
    requires k <= |s| && TailAt(s, k).Some?
    ensures TailAt(s, k).value.folder == "" && MatchesAt(s, k, TailAt(s, k).value)
  {
    TailFromSound(s, k, 3);
    var t := TailFrom(s, k, 3).value;
    var f := TailAt(s, k).value;
    assert t.0 == [f.year, f.month, f.day];
  }

  /** A match with an empty folder is what `TailAt` returns. */
  lemma TailAtComplete(s: string, k: nat, f: Fields)
    requires MatchesAt(s, k, f) && f.folder == ""
    ensures TailAt(s, k) == Some(f)
  {
    TailFromComplete(s, k, [f.year, f.month, f.day], f.slug);
  }

  /** The folder end chosen works, and no larger one up to `hi` does. */
  lemma {:induction false} LongestFolderEndSound(s: string, i: nat, hi: nat)
    requires hi < |s| && LongestFolderEnd(s, i, hi).Some?
    ensures var r := LongestFolderEnd(s, i, hi).value;
      FolderSpan(s, i, r.0) && TailAt(s, r.0 + 1) == Some(r.1)
    decreases hi
  {
    if !(FolderSpan(s, i, hi) && TailAt(s, hi + 1).Some?) {
      LongestFolderEndSound(s, i, hi - 1);
    }
  }

  /** Every folder end that works is at most the one chosen. */
  lemma {:induction false} LongestFolderEndIsLongest(s: string, i: nat, hi: nat, j: nat)
    requires hi < |s| && j <= hi && FolderOk(s, i, j)
    ensures LongestFolderEnd(s, i, hi).Some? && j <= LongestFolderEnd(s, i, hi).value.0
    decreases hi
  {
    if !(FolderSpan(s, i, hi) && TailAt(s, hi + 1).Some?) {
      LongestFolderEndIsLongest(s, i, hi - 1, j);
    }
  }

  /** A match lies inside the string. */
  lemma MatchesAtInside(s: string, i: nat, f: Fields)
    requires MatchesAt(s, i, f)
    ensures i < |s|
  {
  }

  /** The match read as text: well-shaped groups whose `Text()` stands at
      `i`, followed by the end of the string or a character the slug cannot
      take. */
  lemma MatchesAtText(s: string, i: nat, f: Fields)
    ensures MatchesAt(s, i, f) <==>
      && WellShaped(f) && At(s, i, f.Text())
      && (i + |f.Text()| == |s| || !IsSlugChar(s[i + |f.Text()|]))
  {
    var rest := DashJoin([f.year, f.month, f.day]) + f.slug;
    TextLayout(f);
    DateGroups(f);
    if At(s, i, f.folder + rest) {
      AtSplit(s, i, f.folder, rest);
    }
    if At(s, i, f.folder) && At(s, i + |f.folder|, rest) {
      AtConcat(s, i, f.folder, rest);
    }
  }

  lemma TextLayout(f: Fields)
    ensures f.Text() == f.folder + (DashJoin([f.year, f.month, f.day]) + f.slug)
  {
    FullNameLayout(f);
  }

  lemma DateGroups(f: Fields)
    ensures DigitGroups([f.year, f.month, f.day]) <==>
      |f.year| > 0 && AllDigits(f.year) && |f.month| > 0 && AllDigits(f.month) &&
      |f.day| > 0 && AllDigits(f.day)
  {
    var gs := [f.year, f.month, f.day];
    assert gs[0] == f.year && gs[1] == f.month && gs[2] == f.day;
  }

  /** A non-empty folder group standing at `i` is a folder span. */
  lemma FolderSpanOf(s: string, i: nat, folder: string)
    requires FolderShaped(folder) && folder != "" && At(s, i, folder)
    ensures FolderSpan(s, i, i + |folder| - 1)
  {
    var j := i + |folder| - 1;
    AtIndex(s, i, folder, 0);
    AtIndex(s, i, folder, |folder| - 1);
    var inner := folder[1..|folder| - 1];
    var w := s[i + 1..j];
    forall t | 0 <= t < |w| ensures !IsLineTerminator(w[t]) {
      AtIndex(s, i, folder, t + 1);
      assert w[t] == s[i + (t + 1)] == folder[t + 1] == inner[t];
    }
  }

  /** A folder span followed by a folderless match is a match with that folder. */
  lemma FolderJoin(s: string, i: nat, j: nat, g: Fields)
    requires FolderSpan(s, i, j) && MatchesAt(s, j + 1, g) && g.folder == ""
    ensures MatchesAt(s, i, g.(folder := s[i..j + 1]))
  {
    AtSlice(s, i, j + 1 - i);
    assert s[i..j + 1][1..j - i] == s[i + 1..j];
  }

  /** What follows the folder of a match matches with an empty folder. */
  lemma MatchesAtTail(s: string, i: nat, g: Fields)
    requires MatchesAt(s, i, g)
    ensures i + |g.folder| <= |s|
    ensures MatchesAt(s, i + |g.folder|, g.(folder := ""))
  {
    var t := g.(folder := "");
    assert [t.year, t.month, t.day] == [g.year, g.month, g.day] && t.slug == g.slug;
    assert At(s, i + |g.folder|, "");
  }

  /** What follows the folder of a match is what `TailAt` reads there. */
  lemma TailAfterFolder(s: string, i: nat, g: Fields)
    requires MatchesAt(s, i, g)
    ensures i + |g.folder| <= |s|
    ensures TailAt(s, i + |g.folder|) == Some(g.(folder := ""))
  {
    MatchesAtTail(s, i, g);
    TailAtComplete(s, i + |g.folder|, g.(folder := ""));
  }

  /** Two matches at one position with folders of equal length are equal. */
  lemma MatchesAtUnique(s: string, i: nat, f: Fields, g: Fields)
    requires MatchesAt(s, i, f) && MatchesAt(s, i, g) && |f.folder| == |g.folder|
    ensures f == g
  {
    TailAfterFolder(s, i, f);
    TailAfterFolder(s, i, g);
    assert f.folder == s[i..i + |f.folder|] == g.folder;
  }

  /** A match with a folder of length `n` gives a folder end at `i + n - 1`. */
  lemma FolderBound(s: string, i: nat, g: Fields)
    requires MatchesAt(s, i, g) && g.folder != ""
    ensures |s| > 0 && i + |g.folder| - 1 <= |s| - 1
    ensures LongestFolderEnd(s, i, |s| - 1).Some?
    ensures i + |g.folder| - 1 <= LongestFolderEnd(s, i, |s| - 1).value.0
  {
    var k := i + |g.folder|;
    FolderSpanOf(s, i, g.folder);
    TailAfterFolder(s, i, g);
    var j := k - 1;
    assert TailAt(s, j + 1).Some?;
    LongestFolderEndIsLongest(s, i, |s| - 1, j);
  }

  /** The pattern matches nowhere at `i`. */
  ghost predicate NoMatchAt(s: string, i: nat) {
    forall g :: !MatchesAt(s, i, g)
  }

  /** `f` matches at `i`, and every other match there has a shorter folder. */
  ghost predicate LongestMatchAt(s: string, i: nat, f: Fields) {
    MatchesAt(s, i, f) && forall g :: MatchesAt(s, i, g) ==> |g.folder| < |f.folder| || g == f
  }

  /** `MatchAt` returns a match at `i` with the longest folder, and finds
      one whenever there is one. */
  lemma MatchAtSpec(s: string, i: nat)
    requires i <= |s|
    ensures MatchAt(s, i).Some? ==> LongestMatchAt(s, i, MatchAt(s, i).value)
    ensures MatchAt(s, i).None? ==> NoMatchAt(s, i)
  {
    var folderEnd: Option<(nat, Fields)> := if |s| == 0 then None else LongestFolderEnd(s, i, |s| - 1);
    if folderEnd.Some? {
      var j, t := folderEnd.value.0, folderEnd.value.1;
      var f := t.(folder := s[i..j + 1]);
      LongestFolderEndSound(s, i, |s| - 1);
      TailAtSound(s, j + 1);
      FolderJoin(s, i, j, t);
      assert MatchAt(s, i) == Some(f);
      forall g | MatchesAt(s, i, g)
        ensures |g.folder| < |f.folder| || g == f
      {
        if g.folder != "" {
          FolderBound(s, i, g);
          if |g.folder| == |f.folder| {
            MatchesAtUnique(s, i, f, g);
          }
        }
      }
    } else {
      assert MatchAt(s, i) == TailAt(s, i);
      forall g | MatchesAt(s, i, g) ensures MatchAt(s, i) == Some(g) {
        if g.folder != "" {
          FolderBound(s, i, g);
        }
        TailAtComplete(s, i, g);
      }
      if TailAt(s, i).Some? {
        TailAtSound(s, i);
      }
    }
  }

  /** The search from `i0` stops at the first position at or after `i0`
      where `MatchAt` succeeds, and reports what it found there. */
  lemma {:induction false} FindFromIs(s: string, i0: nat)
    requires i0 <= |s|
    ensures FindFrom(s, i0).Some? ==>
              var m := FindFrom(s, i0).value;
              && i0 <= m.start < |s| && MatchAt(s, m.start) == Some(m.fields)
              && (forall i: nat :: i0 <= i < m.start ==> MatchAt(s, i).None?)
    ensures FindFrom(s, i0).None? ==> forall i: nat :: i0 <= i < |s| ==> MatchAt(s, i).None?
    decreases |s| - i0
  {
    if i0 < |s| && MatchAt(s, i0).None? {
      FindFromIs(s, i0 + 1);
    }
  }

  /** No match starts at or beyond the end of the text. */
  lemma NoMatchPastEnd(s: string, i: nat)
    requires |s| <= i
    ensures NoMatchAt(s, i)
  {
    forall g ensures !MatchesAt(s, i, g) {
      if MatchesAt(s, i, g) {
        MatchesAtInside(s, i, g);
      }
    }
  }

  /** The search from `i0` returns the first position at or after `i0` where
      the pattern matches, with the longest folder there. */
  lemma FindFromSpec(s: string, i0: nat)
    requires i0 <= |s|
    ensures FindFrom(s, i0).Some? ==>
              var m := FindFrom(s, i0).value;
              && i0 <= m.start
              && LongestMatchAt(s, m.start, m.fields)
              && (forall i: nat :: i0 <= i < m.start ==> NoMatchAt(s, i))
    ensures FindFrom(s, i0).None? ==> forall i: nat :: i0 <= i ==> NoMatchAt(s, i)
  {
    FindFromIs(s, i0);
    if FindFrom(s, i0).Some? {
      var m := FindFrom(s, i0).value;
      MatchAtSpec(s, m.start);
      forall i: nat | i0 <= i < m.start ensures NoMatchAt(s, i) {
        MatchAtSpec(s, i);
      }
    } else {
      forall i: nat | i0 <= i ensures NoMatchAt(s, i) {
        if i < |s| {
          MatchAtSpec(s, i);
        } else {
          NoMatchPastEnd(s, i);
        }
      }
    }
  }

  /** Matcher.find() characterized: it reports the leftmost position where
      the pattern matches and, there, the match with the longest folder;
      it reports nothing exactly when the pattern matches nowhere. */
  lemma FindSpec(s: string)
    ensures Find(s).Some? ==>
              var m := Find(s).value;
              && LongestMatchAt(s, m.start, m.fields)
              && (forall i: nat :: i < m.start ==> NoMatchAt(s, i))
    ensures Find(s).None? <==> forall i: nat :: NoMatchAt(s, i)
  {
    FindFromSpec(s, 0);
    if Find(s).Some? {
      var m := Find(s).value;
      assert !NoMatchAt(s, m.start);
    }
  }

  // ---------------------------------------------------------------------
  // Post paths

  /** The groups of whatever Matcher.find() reports are well shaped. */
  lemma FoundIsWellShaped(s: string)
    requires Find(s).Some?
    ensures WellShaped(Find(s).value.fields)
    ensures '/' !in Find(s).value.fields.FullName()
  {
    FindSpec(s);
    var m := Find(s).value;
    MatchesAtText(s, m.start, m.fields);
    FullNameNoSlash(m.fields);
  }

  /** What a match starts with: a digit when there is no folder, and a '/'
      at both ends of the folder otherwise. */
  lemma MatchStart(s: string, i: nat, g: Fields)
    requires MatchesAt(s, i, g)
    ensures g.folder == "" ==> i < |s| && IsDigit(s[i])
    ensures g.folder != "" ==> i + |g.folder| <= |s| && s[i] == '/' && s[i + |g.folder| - 1] == '/'
  {
    if g.folder == "" {
      var rest := DashJoin([g.year, g.month, g.day]) + g.slug;
      assert rest == g.year + ("-" + DashJoin([g.month, g.day]) + g.slug);
      DateGroups(g);
      AtIndex(s, i, rest, 0);
      assert rest[0] == g.year[0];
    } else {
      AtIndex(s, i, g.folder, 0);
      AtIndex(s, i, g.folder, |g.folder| - 1);
    }
  }

  /** `Find` reports the match at `i` when it is the longest there and
      nothing matches before `i`. */
  lemma FindIs(s: string, i: nat, f: Fields)
    requires LongestMatchAt(s, i, f) && forall j: nat :: j < i ==> NoMatchAt(s, j)
    ensures Find(s) == Some(Match(i, f))
  {
    FindSpec(s);
    assert !NoMatchAt(s, i);
    var m := Find(s).value;
    assert !NoMatchAt(s, m.start);
    assert m.start == i;
  }

  /** A post directly under `_posts`, `_posts/<year>-<month>-<day>-<slug><ext>`
      with an extension that starts with '.', is split with an empty folder
      and the groups it was built from. */
  lemma TopLevelPost(f: Fields, ext: string)
    requires f.folder == "" && WellShaped(f)
    requires ext == "" || ext[0] == '.'
    requires '/' !in ext
    ensures Find("_posts/" + f.FullName() + ext) == Some(Match(7, f))
  {
    var s := "_posts/" + f.FullName() + ext;
    TopLevelMatch(f, ext);
    forall j: nat | j < 7 ensures NoMatchAt(s, j) {
      TopLevelNoEarlier(f, ext, j);
    }
    FindIs(s, 7, f);
  }

  lemma TopLevelMatch(f: Fields, ext: string)
    requires f.folder == "" && WellShaped(f)
    requires ext == "" || ext[0] == '.'
    ensures LongestMatchAt("_posts/" + f.FullName() + ext, 7, f)
  {
    var n := f.FullName();
    var s := "_posts/" + n + ext;
    assert s[7..7 + |n|] == n;
    if ext != "" {
      assert s[7 + |n|] == ext[0];
    }
    MatchesAtText(s, 7, f);
    FullNameStart(f);
    forall g | MatchesAt(s, 7, g) ensures |g.folder| < |f.folder| || g == f {
      MatchStart(s, 7, g);
      if g.folder == "" {
        MatchesAtUnique(s, 7, f, g);
      }
    }
  }

  lemma TopLevelNoEarlier(f: Fields, ext: string, j: nat)
    requires WellShaped(f) && '/' !in ext && j < 7
    ensures NoMatchAt("_posts/" + f.FullName() + ext, j)
  {
    var n := f.FullName();
    var s := "_posts/" + n + ext;
    FullNameNoSlash(f);
    forall g ensures !MatchesAt(s, j, g) {
      if MatchesAt(s, j, g) {
        MatchStart(s, j, g);
      }
    }
  }

  /** The full name holds no '/'. */
  lemma FullNameNoSlash(f: Fields)
    requires WellShaped(f)
    ensures '/' !in f.FullName()
  {
    var n := f.FullName();
    forall k | 0 <= k < |n| ensures n[k] != '/' {
      if k < |f.year| {
        assert n[k] == f.year[k];
      } else if k < |f.year| + 1 + |f.month| + 1 + |f.day| + 1 {
        var m := f.year + "-" + f.month + "-" + f.day + "-";
        assert n == m + f.slug;
        assert n[k] == m[k];
        assert m == f.year + "-" + (f.month + "-" + f.day + "-");
        if k > |f.year| {
          var m2 := f.month + "-" + f.day + "-";
          assert m[k] == m2[k - |f.year| - 1];
          if k - |f.year| - 1 > |f.month| {
            var m3 := f.day + "-";
            assert m2 == f.month + "-" + m3;
            assert m2[k - |f.year| - 1] == m3[k - |f.year| - |f.month| - 2];
          }
        }
      } else {
        assert n[k] == f.slug[k - (|f.year| + |f.month| + |f.day| + 3)];
      }
    }
  }

  /** The full name starts with the first digit of the year. */
  lemma FullNameStart(f: Fields)
    requires |f.year| > 0 && AllDigits(f.year)
    ensures |f.FullName()| > 0 && IsDigit(f.FullName()[0])
  {
    assert f.FullName()[0] == f.year[0];
  }

  /** The post path named in the comment of copyGeneratedXmlFiles,
      `_posts/2017-08-01-new-post-for-netlify-test.markdown`. */
  lemma NetlifyTestPost()
    ensures Find("_posts/" + "2017-08-01-new-post-for-netlify-test" + ".markdown") ==
      Some(Match(7, Fields("", "2017", "08", "01", "new-post-for-netlify-test")))
  {
    var f := Fields("", "2017", "08", "01", "new-post-for-netlify-test");
    NetlifyTestShaped();
    NetlifyTestFullName();
    assert '/' !in ".markdown";
    TopLevelPost(f, ".markdown");
  }

  lemma NetlifyTestShaped()
    ensures WellShaped(Fields("", "2017", "08", "01", "new-post-for-netlify-test"))
  {
    assert AllSlugChars("new-post-for-netlify-test");
  }

  lemma NetlifyTestFullName()
    ensures Fields("", "2017", "08", "01", "new-post-for-netlify-test").FullName() ==
      "2017-08-01-new-post-for-netlify-test"
  {
    assert "2017" + "-" == "2017-";
    assert "2017-" + "08" == "2017-08";
    assert "2017-08" + "-" == "2017-08-";
    assert "2017-08-" + "01" == "2017-08-01";
    assert "2017-08-01" + "-" == "2017-08-01-";
    assert "2017-08-01-" + "new-post-for-netlify-test" == "2017-08-01-new-post-for-netlify-test";
  }

}
