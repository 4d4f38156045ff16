/**
 * The fallback that turns a PDF path into a paper record when no hand-written
 * metadata exists (`parsePaperFromFilename`). The filename is the last path
 * segment with the first ".pdf" removed; it is then read as an arXiv identifier,
 * as a `Goodwin_<year>_<journal>_<volume>_<page>` publication tag, or as a plain
 * title.
 *
 * The script's two regular expressions are modelled exactly:
 *   `/^\d{4}\.\d{5}/`                         HasArxivPrefix
 *   `/Goodwin_\d{4}_/`                        HasGoodwinTag (unanchored)
 *   `/Goodwin_(\d{4})_(\w+)_(\d+)_(\d+)/`     MatchAt / FindMatch / CaptureGroups
 * The capture is searched the way a backtracking engine does: the leftmost start
 * wins; at that start the greedy `\w+` first takes the whole word run and gives
 * characters back one at a time; each `\d+` is greedy.
 */
module PaperFilename {
  import opened Strings
  import opened Wrappers

  datatype Paper = Paper(
    title: string,
    authors: string,
    publicationInfo: string,
    abstractText: string,
    arxivId: string,
    filename: string,
    path: string)

  const Author := "Griffin Goodwin"
  const ArxivTitlePrefix := "Research Paper - arXiv:"
  const ArxivInfoPrefix := "arXiv:"
  const Tag := "Goodwin_"

  /** The number of characters after the last '/' of path; all of them when there is none. */
  function SegmentLength(path: string): (n: nat)
    ensures n <= |path|
    ensures forall k :: |path| - n <= k < |path| ==> path[k] != '/'
    ensures n < |path| ==> path[|path| - n - 1] == '/'
    decreases |path|
  {
    if path == [] || path[|path| - 1] == '/' then 0 else 1 + SegmentLength(path[..|path| - 1])
  }

  /** `path.split('/').pop()`: the text after the last '/', or all of path when there is none. */
  function LastSegment(path: string): (seg: string)
    ensures '/' !in seg
    ensures |seg| <= |path| && seg == path[|path| - |seg|..]
    ensures |seg| < |path| ==> path[|path| - |seg| - 1] == '/'
  {
    var n := SegmentLength(path);
    var seg := path[|path| - n..];
    assert forall k :: 0 <= k < |seg| ==> seg[k] == path[|path| - n + k];
    seg
  }

  /** The contract of LastSegment pins its result down: any suffix without '/' that follows a '/' is it. */
  lemma LastSegmentAfterSlash(dir: string, seg: string)
    requires '/' !in seg
    ensures LastSegment(dir + "/" + seg) == seg
  {
    var p := dir + "/" + seg;
    var n := SegmentLength(p);
    assert p[|p| - |seg| - 1] == '/';
    assert forall k :: |p| - |seg| <= k < |p| ==> p[k] == seg[k - (|p| - |seg|)];
    assert n == |seg|;
    assert p[|p| - |seg|..] == seg;
  }

  /** Index of the first occurrence of t in s at or after `from`. */
  function IndexOf(s: string, t: string, from: nat): (r: Option<nat>)
    ensures r.Some? ==> from <= r.value && OccursAt(s, t, r.value)
    ensures r.Some? ==> forall k :: from <= k < r.value ==> !OccursAt(s, t, k)
    ensures r.None? ==> forall k :: from <= k ==> !OccursAt(s, t, k)
    decreases |s| - from
  {
    if from + |t| > |s| then None
    else if s[from..from + |t|] == t then Some(from)
    else IndexOf(s, t, from + 1)
  }

  /** `s.replace('.pdf', '')`: a string pattern removes only its first occurrence. */
  function StripPdf(s: string): (r: string)
    ensures !Contains(s, ".pdf") ==> r == s
    ensures Contains(s, ".pdf") ==> |r| == |s| - 4
    ensures Contains(s, ".pdf") ==>
      exists k :: OccursAt(s, ".pdf", k) && (forall k' :: 0 <= k' < k ==> !OccursAt(s, ".pdf", k')) &&
        r == s[..k] + s[k + 4..]
  {
    match IndexOf(s, ".pdf", 0)
    case None => s
    case Some(k) => s[..k] + s[k + 4..]
  }

  /** ".pdf" has no proper border, so it cannot overlap the end of a stem that lacks it. */
  lemma StripPdfSuffix(stem: string)
    requires !Contains(stem, ".pdf")
    ensures StripPdf(stem + ".pdf") == stem
  {
    var s := stem + ".pdf";
    var n := |stem|;
    assert OccursAt(s, ".pdf", n) by { assert s[n..n + 4] == ".pdf"; }
    forall k | 0 <= k < n
      ensures !OccursAt(s, ".pdf", k)
    {
      if k + 4 <= n {
        assert s[k..k + 4] == stem[k..k + 4];
        assert !OccursAt(stem, ".pdf", k);
      } else {
        // the window starts inside the stem and ends inside ".pdf"
        assert s[n] == '.';
        assert k + 1 <= n <= k + 3;
        if n == k + 1 { assert s[k + 1] == '.' != ".pdf"[1]; }
        else if n == k + 2 { assert s[k + 2] == '.' != ".pdf"[2]; }
        else { assert s[k + 3] == '.' != ".pdf"[3]; }
      }
    }
    var r := IndexOf(s, ".pdf", 0);
    assert r == Some(n);
    assert s[..n] == stem && s[n + 4..] == [];
  }

  /** `str.replace(/_/g, ' ')`. */
  function UnderscoresToSpaces(s: string): (r: string)
    ensures |r| == |s|
    ensures forall k :: 0 <= k < |s| ==> r[k] == (if s[k] == '_' then ' ' else s[k])
  {
    if s == [] then [] else [if s[0] == '_' then ' ' else s[0]] + UnderscoresToSpaces(s[1..])
  }

  // ----- `/^\d{4}\.\d{5}/` -----

  predicate HasArxivPrefix(f: string)
  {
    |f| >= 10 && DigitsBetween(f, 0, 4) && f[4] == '.' && DigitsBetween(f, 5, 10)
  }

  /** The anchored test looks at the first ten characters only: what follows them never matters. */
  lemma ArxivTestReadsTenCharacters(f: string, rest: string)
    ensures HasArxivPrefix(f) <==> |f| >= 10 && HasArxivPrefix(f[..10])
    ensures HasArxivPrefix(f) ==> HasArxivPrefix(f + rest)
  {
  }

  // ----- `/Goodwin_\d{4}_/` -----

  /** `Goodwin_\d{4}_` matches at index i. */
  predicate HeadAt(f: string, i: int)
  {
    0 <= i && i + 13 <= |f| && f[i..i + 8] == Tag && DigitsBetween(f, i + 8, i + 12) && f[i + 12] == '_'
  }

  predicate HasGoodwinTag(f: string)
    ensures CaptureGroups(f).Some? ==> HasGoodwinTag(f)
  {
    exists i :: 0 <= i <= |f| && HeadAt(f, i)
  }

  // ----- `/Goodwin_(\d{4})_(\w+)_(\d+)_(\d+)/` -----

  /**
   * `_(\d+)_(\d+)` matches at j. The first `\d+` must be followed by '_', which is
   * not a digit, so it is always the maximal digit run; see TailAtExactly.
   */
  predicate TailAt(f: string, j: int)
  {
    0 <= j < |f| && f[j] == '_' &&
    var v := DigitRun(f, j + 1);
    v > 0 && j + 1 + v < |f| && f[j + 1 + v] == '_' && DigitRun(f, j + 2 + v) > 0
  }

  /** The capture pattern matches from index i with the journal group ending (exclusive) at j. */
  predicate MatchAt(f: string, i: int, j: int)
  {
    HeadAt(f, i) && i + 13 < j <= |f| && WordCharsBetween(f, i + 13, j) && TailAt(f, j)
  }

  /**
   * TailAt is exactly regular-expression matching of `_(\d+)_(\d+)` for any
   * lengths d1, d2 of the two groups, and greedy matching makes the volume the
   * only possible d1 and the page the longest permitted d2.
   */
  lemma TailAtExactly(f: string, j: nat, d1: nat, d2: nat)
    requires j + 2 + d1 + d2 <= |f|
    requires f[j] == '_' && d1 > 0 && DigitsBetween(f, j + 1, j + 1 + d1)
    requires f[j + 1 + d1] == '_' && d2 > 0 && DigitsBetween(f, j + 2 + d1, j + 2 + d1 + d2)
    ensures TailAt(f, j)
    ensures d1 == DigitRun(f, j + 1) && d2 <= DigitRun(f, j + 2 + d1)
  {
  }

  /**
   * Backtracking of the greedy journal group: try journal ends j, j - 1, ...,
   * i + 14 and keep the first one after which `_(\d+)_(\d+)` matches.
   */
  function JournalEnd(f: string, i: nat, j: nat): (r: Option<nat>)
    requires HeadAt(f, i) && i + 13 <= j <= |f| && WordCharsBetween(f, i + 13, j)
    ensures r.Some? ==> i + 13 < r.value <= j && MatchAt(f, i, r.value)
    ensures r.Some? ==> forall j' :: r.value < j' <= j ==> !MatchAt(f, i, j')
    ensures r.None? ==> forall j' :: j' <= j ==> !MatchAt(f, i, j')
    decreases j
  {
    if j == i + 13 then None
    else if TailAt(f, j) then Some(j)
    else JournalEnd(f, i, j - 1)
  }

  /** No journal group can run past the end of the word run that starts after the year. */
  lemma NoMatchBeyondWordRun(f: string, i: nat, j: int)
    requires HeadAt(f, i) && i + 13 + WordRun(f, i + 13) < j
    ensures !MatchAt(f, i, j)
  {
    var e := i + 13 + WordRun(f, i + 13);
    if j <= |f| {
      assert !IsWordChar(f[e]);
      assert !WordCharsBetween(f, i + 13, j);
    }
  }

  /**
   * Leftmost-first search: the first start index at or after i where the whole
   * capture pattern matches, together with the greedy journal end there.
   */
  function FindMatch(f: string, i: nat): (r: Option<(nat, nat)>)
    ensures r.Some? ==> i <= r.value.0 && MatchAt(f, r.value.0, r.value.1)
    ensures r.Some? ==> forall i', j' :: i <= i' < r.value.0 ==> !MatchAt(f, i', j')
    ensures r.Some? ==> forall j' :: r.value.1 < j' ==> !MatchAt(f, r.value.0, j')
    ensures r.None? ==> forall i', j' :: i <= i' ==> !MatchAt(f, i', j')
    decreases |f| - i
  {
    if i + 13 > |f| then None
    else if HeadAt(f, i) then
      var e := i + 13 + WordRun(f, i + 13);
      match JournalEnd(f, i, e)
      case Some(j) =>
        assert forall j' :: e < j' ==> !MatchAt(f, i, j') by {
          forall j' | e < j' { NoMatchBeyondWordRun(f, i, j'); }
        }
        Some((i, j))
      case None =>
        assert forall j' :: !MatchAt(f, i, j') by {
          forall j' | e < j' { NoMatchBeyondWordRun(f, i, j'); }
        }
        FindMatch(f, i + 1)
    else FindMatch(f, i + 1)
  }

  /** The groups of a successful `match`, and the match's start (`match.index`). */
  datatype Captures = Captures(index: nat, year: string, journal: string, volume: string, page: string)

  predicate IsDigits(s: string)
  {
    forall k :: 0 <= k < |s| ==> IsDigit(s[k])
  }

  /** The shapes `\d{4}`, `\w+`, `\d+`, `\d+` of the four groups. */
  predicate GroupsWellFormed(c: Captures)
  {
    |c.year| == 4 && IsDigits(c.year) &&
    |c.journal| > 0 && (forall k :: 0 <= k < |c.journal| ==> IsWordChar(c.journal[k])) &&
    |c.volume| > 0 && IsDigits(c.volume) &&
    |c.page| > 0 && IsDigits(c.page)
  }

  /** The text matched by the whole pattern, rebuilt from the groups. */
  function MatchedText(c: Captures): string
  {
    Tag + c.year + "_" + c.journal + "_" + c.volume + "_" + c.page
  }

  /** The groups of the match that starts at i with the journal ending at j (greedy page). */
  function CaptureAt(f: string, i: nat, j: nat): (c: Captures)
    requires MatchAt(f, i, j)
    ensures c.index == i && i + 13 + |c.journal| == j
    ensures GroupsWellFormed(c) && OccursAt(f, MatchedText(c), c.index)
    ensures MatchAt(f, c.index, c.index + 13 + |c.journal|)
    ensures var end := c.index + |MatchedText(c)|;
      end == |f| || !IsDigit(f[end])
  {
    var m := j + 1 + DigitRun(f, j + 1);
    var e := m + 1 + DigitRun(f, m + 1);
    GroupsAt(f, i, j, m, e);
    MatchSpelledOut(f, i, j, m, e);
    Captures(i, f[i + 8..i + 12], f[i + 13..j], f[j + 1..m], f[m + 1..e])
  }

  /** The slices between the separators have the shapes of the four groups. */
  lemma GroupsAt(f: string, i: nat, j: nat, m: nat, e: nat)
    requires HeadAt(f, i) && i + 13 < j && j + 1 < m && m + 1 < e <= |f| && WordCharsBetween(f, i + 13, j)
    requires DigitsBetween(f, j + 1, m) && DigitsBetween(f, m + 1, e)
    ensures GroupsWellFormed(Captures(i, f[i + 8..i + 12], f[i + 13..j], f[j + 1..m], f[m + 1..e]))
  {
    var year, journal, volume, page := f[i + 8..i + 12], f[i + 13..j], f[j + 1..m], f[m + 1..e];
    assert forall k :: 0 <= k < |year| ==> year[k] == f[i + 8 + k];
    assert forall k :: 0 <= k < |journal| ==> journal[k] == f[i + 13 + k];
    assert forall k :: 0 <= k < |volume| ==> volume[k] == f[j + 1 + k];
    assert forall k :: 0 <= k < |page| ==> page[k] == f[m + 1 + k];
  }

  lemma Glue(f: string, a: nat, b: nat, c: nat, x: string, y: string)
    requires a <= b <= c <= |f| && f[a..b] == x && f[b..c] == y
    ensures f[a..c] == x + y
  {
    assert f[a..c] == f[a..b] + f[b..c];
  }

  /** The text from i to e, cut at the three separators, is the pattern's text rebuilt from its groups. */
  lemma MatchSpelledOut(f: string, i: nat, j: nat, m: nat, e: nat)
    requires i + 13 < j < m < e <= |f|
    requires f[i..i + 8] == Tag && f[i + 12] == '_' && f[j] == '_' && f[m] == '_'
    ensures f[i..e] ==
      MatchedText(Captures(i, f[i + 8..i + 12], f[i + 13..j], f[j + 1..m], f[m + 1..e]))
  {
    var x := Tag + f[i + 8..i + 12];
    Glue(f, i, i + 8, i + 12, Tag, f[i + 8..i + 12]);
    assert f[i + 12..i + 13] == "_";
    Glue(f, i, i + 12, i + 13, x, "_");
    x := x + "_";
    Glue(f, i, i + 13, j, x, f[i + 13..j]);
    x := x + f[i + 13..j];
    assert f[j..j + 1] == "_";
    Glue(f, i, j, j + 1, x, "_");
    x := x + "_";
    Glue(f, i, j + 1, m, x, f[j + 1..m]);
    x := x + f[j + 1..m];
    assert f[m..m + 1] == "_";
    Glue(f, i, m, m + 1, x, "_");
    x := x + "_";
    Glue(f, i, m + 1, e, x, f[m + 1..e]);
  }

  /**
   * `filename.match(/Goodwin_(\d{4})_(\w+)_(\d+)_(\d+)/)`: null when no start and
   * journal end match; otherwise the groups of the leftmost start, the longest
   * journal there, and the longest page.
   */
  function CaptureGroups(f: string): (r: Option<Captures>)
    ensures r.None? ==> forall i, j :: !MatchAt(f, i, j)
    ensures r.Some? ==> GroupsWellFormed(r.value) && OccursAt(f, MatchedText(r.value), r.value.index)
    ensures r.Some? ==> MatchAt(f, r.value.index, r.value.index + 13 + |r.value.journal|)
    ensures r.Some? ==> forall i, j :: 0 <= i < r.value.index ==> !MatchAt(f, i, j)
    ensures r.Some? ==> forall j :: r.value.index + 13 + |r.value.journal| < j ==> !MatchAt(f, r.value.index, j)
    ensures r.Some? ==> var end := r.value.index + |MatchedText(r.value)|;
      end == |f| || !IsDigit(f[end])
  {
    match FindMatch(f, 0)
    case None => None
    case Some((i, j)) =>
      var c := CaptureAt(f, i, j);
      assert c.index + 13 + |c.journal| == j;
      Some(c)
  }

  /** The branch the parser takes, with the values it computes there. */
  datatype Reading =
    | Arxiv(id: string)
    | Published(c: Captures)
    | TaggedUnparsed
    | Plain

  function Classify(f: string): (r: Reading)
    ensures r.Arxiv? <==> HasArxivPrefix(f)
    ensures r.Arxiv? ==> r.id == f[..10]
    ensures r.Published? <==> !HasArxivPrefix(f) && HasGoodwinTag(f) && CaptureGroups(f).Some?
    ensures r.Published? ==> CaptureGroups(f) == Some(r.c)
    ensures r.Published? ==> GroupsWellFormed(r.c) && OccursAt(f, MatchedText(r.c), r.c.index)
    ensures r.TaggedUnparsed? <==> !HasArxivPrefix(f) && HasGoodwinTag(f) && CaptureGroups(f).None?
    ensures r.Plain? <==> !HasArxivPrefix(f) && !HasGoodwinTag(f)
  {
    if HasArxivPrefix(f) then Arxiv(f[..10])
    else if HasGoodwinTag(f) then
      match CaptureGroups(f)
      case Some(c) => Published(c)
      case None => TaggedUnparsed
    else Plain
  }

  const PublishedPrefix := "Published in "
  const ApJName := "The Astrophysical Journal"

  /** "Published in <journal> (<year>)", with "ApJ" spelled out as The Astrophysical Journal. */
  function PublishedTitle(c: Captures): (title: string)
    ensures |PublishedPrefix| <= |title| && title[..|PublishedPrefix|] == PublishedPrefix
    ensures c.journal != "ApJ" ==> OccursAt(title, c.journal, |PublishedPrefix|)
    ensures c.journal == "ApJ" ==> OccursAt(title, ApJName, |PublishedPrefix|)
    ensures |title| == |PublishedPrefix| + (if c.journal == "ApJ" then |ApJName| else |c.journal|) + 2 + |c.year| + 1
    ensures title[|title| - |c.year| - 3..|title| - |c.year| - 1] == " ("
    ensures OccursAt(title, c.year, |title| - |c.year| - 1) && title[|title| - 1] == ')'
  {
    var name := if c.journal == "ApJ" then ApJName else c.journal;
    var head := PublishedPrefix + name + " (";
    var title := head + c.year + ")";
    assert title[..|head| + |c.year|] == head + c.year;
    assert title[|head|..|head| + |c.year|] == c.year;
    assert title[|head| - 2..|head|] == head[|head| - 2..] == " (";
    assert title[..|PublishedPrefix|] == head[..|PublishedPrefix|] == PublishedPrefix;
    assert title[|PublishedPrefix|..|PublishedPrefix| + |name|] == head[|PublishedPrefix|..|PublishedPrefix| + |name|] == name;
    title
  }

  /** The title, citation and arXiv identifier each branch assigns (before the fallback). */
  datatype Texts = Texts(title: string, info: string, arxivId: string)

  function BranchTexts(f: string): (t: Texts)
    ensures t.arxivId != "" <==> HasArxivPrefix(f)
    ensures t.info == "" || f != ""
    ensures HasArxivPrefix(f) ==>
      t == Texts(ArxivTitlePrefix + f[..10], ArxivInfoPrefix + f[..10], f[..10])
    ensures !HasArxivPrefix(f) && HasGoodwinTag(f) && CaptureGroups(f).Some? ==>
      var c := CaptureGroups(f).value;
      t == Texts(PublishedTitle(c), c.journal + " " + c.year + ", " + c.volume + ", " + c.page, "")
    ensures !HasArxivPrefix(f) && HasGoodwinTag(f) && CaptureGroups(f).None? ==>
      t == Texts(UnderscoresToSpaces(f), "", "")
    ensures !HasArxivPrefix(f) && !HasGoodwinTag(f) ==> t == Texts(UnderscoresToSpaces(f), f, "")
  {
    match Classify(f)
    case Arxiv(id) => Texts(ArxivTitlePrefix + id, ArxivInfoPrefix + id, id)
    case Published(c) => Texts(PublishedTitle(c), c.journal + " " + c.year + ", " + c.volume + ", " + c.page, "")
    case TaggedUnparsed => Texts(UnderscoresToSpaces(f), "", "")
    case Plain => Texts(UnderscoresToSpaces(f), f, "")
  }

  /** `parsePaperFromFilename(pdfPath)`; `publicationInfo || filename` is the fallback. */
  function ParsePaperFromFilename(pdfPath: string): (p: Paper)
    ensures p.authors == Author && p.abstractText == "" && p.path == pdfPath
    ensures p.filename == StripPdf(LastSegment(pdfPath))
    ensures p.arxivId != "" <==> HasArxivPrefix(p.filename)
    ensures p.publicationInfo == "" <==> p.filename == ""
  {
    var f := StripPdf(LastSegment(pdfPath));
    var t := BranchTexts(f);
    Paper(t.title, Author, if t.info == "" then f else t.info, "", t.arxivId, f, pdfPath)
  }

  // ----- the branches, as promised by the script's comments -----

  /** An arXiv-style filename yields the ten-character identifier and the arXiv texts. */
  lemma ArxivBranch(pdfPath: string)
    requires HasArxivPrefix(ParsePaperFromFilename(pdfPath).filename)
    ensures var p := ParsePaperFromFilename(pdfPath);
      p.arxivId == p.filename[..10] && |p.arxivId| == 10 &&
      p.publicationInfo == "arXiv:" + p.arxivId &&
      p.title == "Research Paper - arXiv:" + p.arxivId
  {
  }

  /** A publication tag whose full capture matches yields the citation and the journal title. */
  lemma PublishedBranch(pdfPath: string)
    requires var f := ParsePaperFromFilename(pdfPath).filename;
      !HasArxivPrefix(f) && CaptureGroups(f).Some?
    ensures var p := ParsePaperFromFilename(pdfPath);
      var c := CaptureGroups(p.filename).value;
      p.publicationInfo == c.journal + " " + c.year + ", " + c.volume + ", " + c.page &&
      p.title == PublishedPrefix + (if c.journal == "ApJ" then ApJName else c.journal) + " (" + c.year + ")" &&
      p.arxivId == ""
  {
    var f := ParsePaperFromFilename(pdfPath).filename;
    var c := CaptureGroups(f).value;
    assert HasGoodwinTag(f) by { assert HeadAt(f, c.index); }
  }

  /** A publication tag without a full capture: plain title, citation falls back to the filename. */
  lemma TaggedUnparsedBranch(pdfPath: string)
    requires var f := ParsePaperFromFilename(pdfPath).filename;
      !HasArxivPrefix(f) && HasGoodwinTag(f) && CaptureGroups(f).None?
    ensures var p := ParsePaperFromFilename(pdfPath);
      p.title == UnderscoresToSpaces(p.filename) && p.publicationInfo == p.filename && p.arxivId == ""
  {
  }

  /** Anything else: plain title with underscores turned into spaces, the filename as citation. */
  lemma PlainBranch(pdfPath: string)
    requires var f := ParsePaperFromFilename(pdfPath).filename;
      !HasArxivPrefix(f) && !HasGoodwinTag(f)
    ensures var p := ParsePaperFromFilename(pdfPath);
      p.title == UnderscoresToSpaces(p.filename) && p.publicationInfo == p.filename && p.arxivId == ""
  {
  }

  // ----- round trips: the filenames the repository's PDFs are named by -----

  /** A filename that consists only of word characters cannot contain ".pdf". */
  lemma WordsLackPdf(s: string)
    requires forall k :: 0 <= k < |s| ==> IsWordChar(s[k])
    ensures !Contains(s, ".pdf")
  {
    assert '.' !in s;
    NotContains(s, ".pdf", 0);
  }

  /** The filename `Goodwin_<year>_<journal>_<volume>_<page>` as the page's PDFs are named. */
  function TagName(year: string, journal: string, volume: string, page: string): string
  {
    Tag + year + "_" + journal + "_" + volume + "_" + page
  }

  /** Where each group sits inside a composed filename. */
  lemma TagNameLayout(year: string, journal: string, volume: string, page: string)
    requires |year| == 4
    ensures var f := TagName(year, journal, volume, page);
      var j := 13 + |journal|;
      var m := j + 1 + |volume|;
      |f| == m + 1 + |page| &&
      f[..8] == Tag && f[8..12] == year && f[12] == '_' && f[13..j] == journal && f[j] == '_' &&
      f[j + 1..m] == volume && f[m] == '_' && f[m + 1..] == page
  {
    var t3 := volume + "_" + page;
    var t1 := journal + "_" + t3;
    var f := TagName(year, journal, volume, page);
    assert f == Tag + year + "_" + t1;
    assert f[13..] == t1;
    assert t1[|journal| + 1..] == t3;
  }

  /** The character classes along a composed filename. */
  lemma TagNameChars(year: string, journal: string, volume: string, page: string)
    requires GroupsWellFormed(Captures(0, year, journal, volume, page))
    ensures var f := TagName(year, journal, volume, page);
      var j := 13 + |journal|;
      var m := j + 1 + |volume|;
      HeadAt(f, 0) && |f| == m + 1 + |page| && f[j] == '_' && f[m] == '_' &&
      WordCharsBetween(f, 13, j) && DigitsBetween(f, j + 1, m) && DigitsBetween(f, m + 1, |f|)
  {
    var f := TagName(year, journal, volume, page);
    var j := 13 + |journal|;
    var m := j + 1 + |volume|;
    TagNameLayout(year, journal, volume, page);
    assert forall k :: 8 <= k < 12 ==> f[k] == f[8..12][k - 8];
    assert forall k :: 13 <= k < j ==> f[k] == f[13..j][k - 13];
    assert forall k :: j + 1 <= k < m ==> f[k] == f[j + 1..m][k - j - 1];
    assert forall k :: m + 1 <= k < |f| ==> f[k] == f[m + 1..][k - m - 1];
  }

  /** In a composed filename the pattern matches at 0 with the real journal, and with no longer one. */
  lemma TagNameMatches(year: string, journal: string, volume: string, page: string)
    requires GroupsWellFormed(Captures(0, year, journal, volume, page))
    ensures var f := TagName(year, journal, volume, page);
      var j := 13 + |journal|;
      MatchAt(f, 0, j) && (forall j' :: j < j' ==> !MatchAt(f, 0, j')) &&
      DigitRun(f, j + 1) == |volume| && DigitRun(f, j + 2 + |volume|) == |page|
  {
    TagNameChars(year, journal, volume, page);
    MatchFromLayout(TagName(year, journal, volume, page), 13 + |journal|, 14 + |journal| + |volume|);
  }

  /**
   * A string laid out as `Goodwin_dddd_<word>_<digits>_<digits>`, with the journal
   * ending at j and the page's '_' at m, matches with exactly that journal.
   */
  lemma MatchFromLayout(f: string, j: nat, m: nat)
    requires HeadAt(f, 0) && 13 < j && j + 1 < m && m + 1 < |f| && f[j] == '_' && f[m] == '_'
    requires WordCharsBetween(f, 13, j) && DigitsBetween(f, j + 1, m) && DigitsBetween(f, m + 1, |f|)
    ensures MatchAt(f, 0, j) && (forall j' :: j < j' ==> !MatchAt(f, 0, j'))
    ensures DigitRun(f, j + 1) == m - j - 1 && DigitRun(f, m + 1) == |f| - m - 1
  {
    TailAtExactly(f, j, m - j - 1, |f| - m - 1);
    assert m + 1 + DigitRun(f, m + 1) == |f|;
    // every later '_' is the one before the page, and nothing follows the page
    forall j' | j < j'
      ensures !MatchAt(f, 0, j')
    {
      if j' < |f| && f[j'] == '_' {
        assert j' == m;
      }
    }
  }


  /**
   * `Goodwin_<year>_<journal>_<volume>_<page>` is read back as exactly those
   * groups, whatever underscores and digits the journal itself contains: the
   * greedy journal group backs off only as far as the last `_<digits>_<digits>`.
   */
  lemma CaptureRoundTrip(year: string, journal: string, volume: string, page: string)
    requires GroupsWellFormed(Captures(0, year, journal, volume, page))
    ensures CaptureGroups(TagName(year, journal, volume, page)) == Some(Captures(0, year, journal, volume, page))
  {
    var f := TagName(year, journal, volume, page);
    var j := 13 + |journal|;
    TagNameMatches(year, journal, volume, page);
    assert FindMatch(f, 0) == Some((0, j));
    TagNameGroups(year, journal, volume, page);
  }

  /** CaptureAt reads the groups of a composed filename back. */
  lemma TagNameGroups(year: string, journal: string, volume: string, page: string)
    requires GroupsWellFormed(Captures(0, year, journal, volume, page))
    ensures MatchAt(TagName(year, journal, volume, page), 0, 13 + |journal|)
    ensures CaptureAt(TagName(year, journal, volume, page), 0, 13 + |journal|) == Captures(0, year, journal, volume, page)
  {
    var f := TagName(year, journal, volume, page);
    var j := 13 + |journal|;
    var m := j + 1 + |volume|;
    TagNameMatches(year, journal, volume, page);
    TagNameLayout(year, journal, volume, page);
    assert f[m + 1..m + 1 + |page|] == f[m + 1..];
  }

  /** A name built from word characters has no '/'. */
  lemma WordsLackSlash(s: string)
    requires forall k :: 0 <= k < |s| ==> IsWordChar(s[k])
    ensures '/' !in s + ".pdf"
  {
    var g := s + ".pdf";
    assert forall k :: 0 <= k < |g| ==> g[k] != '/' by {
      forall k | 0 <= k < |g| ensures g[k] != '/' {
        if k < |s| { assert IsWordChar(s[k]); }
      }
    }
  }

  /** A PDF named `Goodwin_<year>_<journal>_<volume>_<page>.pdf` in any directory gets that citation. */
  lemma PublishedRoundTrip(dir: string, year: string, journal: string, volume: string, page: string)
    requires GroupsWellFormed(Captures(0, year, journal, volume, page))
    ensures var p := ParsePaperFromFilename(dir + "/" + TagName(year, journal, volume, page) + ".pdf");
      p.publicationInfo == journal + " " + year + ", " + volume + ", " + page &&
      p.title == PublishedPrefix + (if journal == "ApJ" then ApJName else journal) + " (" + year + ")"
  {
    var f := TagName(year, journal, volume, page);
    var path := dir + "/" + f + ".pdf";
    assert path == dir + "/" + (f + ".pdf");
    TagNameChars(year, journal, volume, page);
    forall k | 0 <= k < |f| ensures IsWordChar(f[k]) {
      if k < 8 { assert f[k] == f[..8][k]; }
    }
    WordsLackSlash(f);
    LastSegmentAfterSlash(dir, f + ".pdf");
    WordsLackPdf(f);
    StripPdfSuffix(f);
    assert !HasArxivPrefix(f) by { assert f[0] == 'G'; }
    CaptureRoundTrip(year, journal, volume, page);
    PublishedBranch(path);
  }

  /**
   * A file named `<dddd.ddddd><rest>.pdf` (arXiv identifier, then a version
   * suffix or anything else without '/' or ".pdf") is read back as that identifier.
   */
  lemma ArxivRoundTrip(dir: string, id: string, rest: string)
    requires |id| == 10 && DigitsBetween(id, 0, 4) && id[4] == '.' && DigitsBetween(id, 5, 10)
    requires '/' !in rest && !Contains(id + rest, ".pdf")
    ensures ParsePaperFromFilename(dir + "/" + id + rest + ".pdf").arxivId == id
  {
    var f := id + rest;
    var g := f + ".pdf";
    assert forall k :: 0 <= k < |g| ==> g[k] != '/' by {
      forall k | 0 <= k < |g| ensures g[k] != '/' {
        if 10 <= k < |f| { assert g[k] == rest[k - 10] && rest[k - 10] in rest; }
      }
    }
    assert dir + "/" + id + rest + ".pdf" == dir + "/" + g;
    LastSegmentAfterSlash(dir, g);
    StripPdfSuffix(f);
    assert f[..10] == id;
  }
}
