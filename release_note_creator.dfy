/** services/release-note-creator.js: find the most recent release block of
    the changelog, format it as a chat post and describe the upload.
    The changelog arrives as its list of lines (`split('\n')` of the file);
    the package manifest as its name and version; the upload as a request
    value plus whether the chat service accepted it. */
module ReleaseNotes {

  import opened Wrappers
  import opened JsStrings
  import opened Errors

  const HEADER_PREFIX := "## RELEASE "
  const DEFAULT_CHANNEL := "G501BDD5W"
  const ADDED_MARKER := "### Added"
  const CHANGED_MARKER := "### Changed"
  const FIXED_MARKER := "### Fixed"
  const ADDED_POST_MARKER := "## \U{2B50} Added"
  const CHANGED_POST_MARKER := "## \U{1F37F} Changed"
  const FIXED_POST_MARKER := "## \U{1F489} Fixed"

  // ---------------------------------------------------------------------
  // The header pattern  ^## RELEASE (\d+.\d+.\d+(-\w+\.\d+)? )?- .*$
  // (anchored; the first two dots are unescaped and match any character
  // except a line terminator).
  // ---------------------------------------------------------------------

  /** `.` */
  predicate AnyChar(c: char) {
    !IsLineTerminator(c)
  }

  /** `\d+.\d+.\d+` matching the whole of `t`. */
  predicate VersionCore(t: string) {
    exists i, j | 0 < i && i + 1 < j && j + 1 < |t| ::
      && AllDigits(t[..i]) && AnyChar(t[i])
      && AllDigits(t[i + 1..j]) && AnyChar(t[j])
      && AllDigits(t[j + 1..])
  }

  /** `-\w+\.\d+` matching the whole of `t`. */
  predicate PrereleaseSuffix(t: string) {
    exists i | 1 < i < |t| - 1 ::
      t[0] == '-' && AllWordChars(t[1..i]) && t[i] == '.' && AllDigits(t[i + 1..])
  }

  /** `\d+.\d+.\d+(-\w+\.\d+)?` matching the whole of `t`. */
  predicate VersionText(t: string) {
    || VersionCore(t)
    || exists k | 0 < k < |t| :: VersionCore(t[..k]) && PrereleaseSuffix(t[k..])
  }

  /** The line is a release header: `## RELEASE `, an optional version and a
      space, then `- ` and a rest free of line terminators. */
  predicate IsReleaseHeader(line: string) {
    && StartsWith(line, HEADER_PREFIX)
    && (forall i | |HEADER_PREFIX| <= i < |line| :: !IsLineTerminator(line[i]))
    && (|| OccursAt(line, "- ", |HEADER_PREFIX|)
        || exists k | |HEADER_PREFIX| < k <= |line| - 3 ::
             VersionText(line[|HEADER_PREFIX|..k]) && OccursAt(line, " - ", k))
  }

  // ---------------------------------------------------------------------
  // Locating the release block
  // ---------------------------------------------------------------------

  /** Where `findReleaseHeader` stops: the index of the first header, or the
      length of the list when there is none. */
  function FirstHeaderIndex(lines: seq<string>): (k: nat)
    ensures k <= |lines|
    ensures forall i :: 0 <= i < k ==> !IsReleaseHeader(lines[i])
    ensures k < |lines| ==> IsReleaseHeader(lines[k])
    decreases |lines|
  {
    if |lines| == 0 then 0
    else if IsReleaseHeader(lines[0]) then 0
    else 1 + FirstHeaderIndex(lines[1..])
  }

  /** The list without its trailing lines that are blank once trimmed. */
  function TrimTrailingBlank(lines: seq<string>): (r: seq<string>)
    ensures |r| <= |lines| && r == lines[..|r|]
    ensures r == [] || !IsBlank(r[|r| - 1])
    ensures forall i :: |r| <= i < |lines| ==> IsBlank(lines[i])
    decreases |lines|
  {
    if |lines| == 0 then []
    else if IsBlank(lines[|lines| - 1]) then TrimTrailingBlank(lines[..|lines| - 1])
    else lines
  }

  /** The most recent release: its header line and its change lines. */
  datatype ReleaseEntry = ReleaseEntry(title: string, changes: seq<string>)

  /** What `extractLastReleaseTitleAndChanges` returns or throws for a
      changelog given as its lines. */
  function ExtractLastRelease(lines: seq<string>): (r: Result<ReleaseEntry, ErrorKind>)
    ensures r.Failure? ==> r.error == WronglyFormattedChangelog
  {
    if |lines| == 0 || (|lines| == 1 && lines[0] == "") then
      Failure(WronglyFormattedChangelog)
    else
      var k := FirstHeaderIndex(lines);
      if k + 1 >= |lines| then
        Failure(WronglyFormattedChangelog)
      else
        var after := lines[k + 1..];
        Success(ReleaseEntry(lines[k], TrimTrailingBlank(after[..FirstHeaderIndex(after)])))
  }

  /** The extraction fails exactly when no line before the last one is a
      release header; `[]` and `['']` are two such changelogs. */
  lemma ExtractFailsIff(lines: seq<string>)
    ensures ExtractLastRelease(lines).Failure?
        <==> forall i :: 0 <= i < |lines| - 1 ==> !IsReleaseHeader(lines[i])
  {
    var k := FirstHeaderIndex(lines);
    if k + 1 < |lines| {
      assert IsReleaseHeader(lines[k]);
    }
  }

  /** `title` is the first release header of `lines`, at index `k`. */
  ghost predicate FirstHeaderAt(lines: seq<string>, k: int, title: string) {
    && 0 <= k < |lines|
    && title == lines[k]
    && IsReleaseHeader(lines[k])
    && forall i :: 0 <= i < k ==> !IsReleaseHeader(lines[i])
  }

  /** `changes` is what follows the header at `k`: a header-free prefix of
      the lines after it, ending on a non-blank line, followed only by blank
      lines up to the next header or the end. */
  ghost predicate ChangesAfter(lines: seq<string>, k: int, changes: seq<string>) {
    var c := k + 1 + |changes|;
    && 0 <= k && c <= |lines|
    && changes == lines[k + 1..c]
    && (forall i :: k + 1 <= i < c ==> !IsReleaseHeader(lines[i]))
    && (changes == [] || !IsBlank(changes[|changes| - 1]))
    && exists e :: BlankUntilHeader(lines, c, e)
  }

  /** From `c` up to `e`, which is a header or the end, only blank lines. */
  ghost predicate BlankUntilHeader(lines: seq<string>, c: int, e: int) {
    && 0 <= c <= e <= |lines|
    && (e == |lines| || IsReleaseHeader(lines[e]))
    && forall i :: c <= i < e ==> IsBlank(lines[i]) && !IsReleaseHeader(lines[i])
  }

  /** A successful extraction returns the first header of the changelog as
      title, not on the last line, and as changes the block that follows it. */
  lemma ExtractedReleaseShape(lines: seq<string>)
    requires ExtractLastRelease(lines).Success?
    ensures var entry := ExtractLastRelease(lines).value;
      exists k :: k < |lines| - 1 && FirstHeaderAt(lines, k, entry.title) && ChangesAfter(lines, k, entry.changes)
  {
    var k, entry := FirstHeaderIndex(lines), ExtractLastRelease(lines).value;
    ExtractedEntry(lines);
    ChangesAfterHeader(lines, k);
    assert FirstHeaderAt(lines, k, entry.title);
    assert ChangesAfter(lines, k, entry.changes);
  }

  /** A successful extraction takes the first header and the trimmed block
      after it. */
  lemma ExtractedEntry(lines: seq<string>)
    requires ExtractLastRelease(lines).Success?
    ensures var k := FirstHeaderIndex(lines);
      && k + 1 < |lines|
      && ExtractLastRelease(lines).value.title == lines[k]
      && ExtractLastRelease(lines).value.changes == TrimTrailingBlank(lines[k + 1..][..FirstHeaderIndex(lines[k + 1..])])
  {
    var k := FirstHeaderIndex(lines);
    assert k + 1 < |lines|;
  }

  /** The trimmed block after the header at `k` is what `ChangesAfter`
      describes. */
  lemma ChangesAfterHeader(lines: seq<string>, k: nat)
    requires k + 1 < |lines|
    ensures ChangesAfter(lines, k, TrimTrailingBlank(lines[k + 1..][..FirstHeaderIndex(lines[k + 1..])]))
  {
    var after := lines[k + 1..];
    var e := FirstHeaderIndex(after);
    var block := after[..e];
    var changes := TrimTrailingBlank(block);
    forall i | k + 1 <= i < k + 1 + e
      ensures lines[i] == block[i - (k + 1)]
    {
    }
    assert lines[k + 1..k + 1 + |changes|] == block[..|changes|];
    ChangesAfterIntro(lines, k, e, changes);
  }

  /** The block of `e` header-free lines after `k`, which ends at a header or
      at the end, holds `changes` and then only blank lines. */
  lemma ChangesAfterIntro(lines: seq<string>, k: nat, e: nat, changes: seq<string>)
    requires k + 1 + e <= |lines|
    requires forall i :: k + 1 <= i < k + 1 + e ==> !IsReleaseHeader(lines[i])
    requires k + 1 + e == |lines| || IsReleaseHeader(lines[k + 1 + e])
    requires |changes| <= e && changes == lines[k + 1..k + 1 + |changes|]
    requires changes == [] || !IsBlank(changes[|changes| - 1])
    requires forall i :: k + 1 + |changes| <= i < k + 1 + e ==> IsBlank(lines[i])
    ensures ChangesAfter(lines, k, changes)
  {
    var c, stop := k + 1 + |changes|, k + 1 + e;
    assert forall i :: k + 1 <= i < c ==> !IsReleaseHeader(lines[i]);
    assert BlankUntilHeader(lines, c, stop);
  }

  // ---------------------------------------------------------------------
  // The in-place consumption of the line array, as the source does it
  // ---------------------------------------------------------------------

  /** The `data` array that `findReleaseHeader` and `collectChanges` consume
      with `shift()`. */
  class ChangelogLines {
    var data: seq<string>

    constructor (lines: seq<string>)
      ensures data == lines
    {
      data := lines;
    }

    /** `isNotReleaseTitle(data)` */
    predicate IsNotReleaseTitle()
      reads this
    {
      |data| > 0 && !IsReleaseHeader(data[0])
    }

    /** Drops lines up to the first header. */
    method FindReleaseHeader()
      modifies this
      ensures data == old(data)[FirstHeaderIndex(old(data))..]
    {
      ghost var k := 0;
      while IsNotReleaseTitle()
        invariant k <= FirstHeaderIndex(old(data))
        invariant data == old(data)[k..]
        decreases |data|
      {
        data := data[1..];
        k := k + 1;
      }
    }

    /** Moves lines into `changes` up to the next header, then pops the
        trailing blank ones. */
    method CollectChanges() returns (changes: seq<string>)
      modifies this
      ensures data == old(data)[FirstHeaderIndex(old(data))..]
      ensures changes == TrimTrailingBlank(old(data)[..FirstHeaderIndex(old(data))])
    {
      changes := [];
      while IsNotReleaseTitle()
        invariant |changes| <= FirstHeaderIndex(old(data))
        invariant changes == old(data)[..|changes|] && data == old(data)[|changes|..]
        decreases |data|
      {
        changes := changes + [data[0]];
        data := data[1..];
      }
      assert changes == old(data)[..FirstHeaderIndex(old(data))];
      ghost var collected := changes;
      var index := |changes| - 1;
      while index >= 0
        invariant index == |changes| - 1
        invariant TrimTrailingBlank(changes) == TrimTrailingBlank(collected)
        decreases index
      {
        if !IsBlank(changes[index]) {
          break;
        }
        changes := changes[..index];
        index := index - 1;
      }
    }

    /** `extractLastReleaseTitleAndChanges(data)` */
    method ExtractLastReleaseTitleAndChanges() returns (r: Result<ReleaseEntry, ErrorKind>)
      modifies this
      ensures r == ExtractLastRelease(old(data))
    {
      if |data| == 0 || (|data| == 1 && data[0] == "") {
        return Failure(WronglyFormattedChangelog);
      }
      FindReleaseHeader();
      if |data| == 0 {
        // `data.shift()` yields undefined and the list stays empty.
        return Failure(WronglyFormattedChangelog);
      }
      var title := data[0];
      data := data[1..];
      if |data| == 0 {
        return Failure(WronglyFormattedChangelog);
      }
      var changes := CollectChanges();
      return Success(ReleaseEntry(title, changes));
    }
  }

  // ---------------------------------------------------------------------
  // Formatting
  // ---------------------------------------------------------------------

  /** `RELEASE ` followed by the title from its first ` - ` on, with that
      separator replaced by the icon and a space. The icon is part of a
      `replace` string, so `$` patterns in it are expanded. */
  function FormatTitle(title: string, icon: string): string {
    var suffix := SubstringFrom(title, IndexOf(title, " - "));
    "RELEASE " + ReplaceFirstSubstituted(suffix, " - ", icon + " ")
  }

  /** What the icon and its space become in place of the ` - ` at the start
      of the title suffix, with `rest` after it. */
  function IconText(icon: string, rest: string): string {
    Substitution(icon + " ", " - ", "", rest)
  }

  /** An icon without `$` is written as it is, followed by a space. */
  lemma PlainIconText(icon: string, rest: string)
    requires '$' !in icon
    ensures IconText(icon, rest) == icon + " "
  {
    SubstitutionLiteral(icon + " ", " - ", "", rest);
  }

  /** Every release header contains ` - `; the formatted title is `RELEASE`,
      the icon, and the header text after its first ` - `. */
  lemma FormattedTitleOfHeader(header: string, icon: string)
    requires IsReleaseHeader(header)
    ensures var i := IndexOf(header, " - ");
      0 <= i && FormatTitle(header, icon) == "RELEASE " + IconText(icon, header[i + 3..]) + header[i + 3..]
  {
    HeaderHasSeparator(header);
    FormatTitleAtSeparator(header, icon);
  }

  lemma HeaderHasSeparator(header: string)
    requires IsReleaseHeader(header)
    ensures IndexOf(header, " - ") >= 0
  {
    if OccursAt(header, "- ", |HEADER_PREFIX|) {
      assert OccursAt(header, " - ", |HEADER_PREFIX| - 1);
    }
  }

  /** The title formatted from its first ` - `. */
  lemma FormatTitleAtSeparator(title: string, icon: string)
    requires IndexOf(title, " - ") >= 0
    ensures var i := IndexOf(title, " - ");
      0 <= i && FormatTitle(title, icon) == "RELEASE " + IconText(icon, title[i + 3..]) + title[i + 3..]
  {
    var i := IndexOf(title, " - ");
    var rest := title[i + 3..];
    assert title[i..] == " - " + rest;
    SubstitutedAtStart(rest, " - ", icon + " ");
  }

  /** The change lines joined by newlines, with the first `### Added`,
      `### Changed` and `### Fixed` rewritten to decorated level-two markers. */
  function FormatBody(changes: seq<string>): string {
    var text := Join(changes, "\n");
    var added := ReplaceFirst(text, ADDED_MARKER, ADDED_POST_MARKER);
    var changed := ReplaceFirst(added, CHANGED_MARKER, CHANGED_POST_MARKER);
    ReplaceFirst(changed, FIXED_MARKER, FIXED_POST_MARKER)
  }

  /** The first line equal to `p` becomes `q`; every other line is kept. */
  function RewriteFirstLine(lines: seq<string>, p: string, q: string): (r: seq<string>)
    ensures |r| == |lines|
    ensures forall i :: 0 <= i < |r| ==> r[i] == lines[i] || r[i] == q
    decreases |lines|
  {
    if |lines| == 0 then []
    else if lines[0] == p then [q] + lines[1..]
    else [lines[0]] + RewriteFirstLine(lines[1..], p, q)
  }

  /** Without a line equal to `p`, nothing is rewritten. */
  lemma {:induction false} RewriteFirstLineAbsent(lines: seq<string>, p: string, q: string)
    requires p !in lines
    ensures RewriteFirstLine(lines, p, q) == lines
    decreases |lines|
  {
    if |lines| > 0 {
      assert lines[0] != p;
      assert p !in lines[1..];
      RewriteFirstLineAbsent(lines[1..], p, q);
      assert lines == [lines[0]] + lines[1..];
    }
  }

  /** The line rewritten is the first one equal to `p`. */
  lemma {:induction false} RewriteFirstLineAt(lines: seq<string>, p: string, q: string, k: nat)
    requires k < |lines| && lines[k] == p && p !in lines[..k]
    ensures RewriteFirstLine(lines, p, q) == lines[k := q]
    decreases k
  {
    if k > 0 {
      assert lines[0] == lines[..k][0];
      assert lines[1..][..k - 1] == lines[1..k];
      RewriteFirstLineAt(lines[1..], p, q, k - 1);
      UpdateAfterHead(lines, k, q);
    } else {
      assert [q] + lines[1..] == lines[0 := q];
    }
  }

  /** Updating past the first line updates the rest. */
  lemma UpdateAfterHead(lines: seq<string>, k: nat, q: string)
    requires 0 < k < |lines|
    ensures [lines[0]] + lines[1..][k - 1 := q] == lines[k := q]
  {
  }

  /** `p` occurs in a line only when it is the whole line. */
  predicate StandsAlone(lines: seq<string>, p: string) {
    forall i :: 0 <= i < |lines| && Contains(lines[i], p) ==> lines[i] == p
  }

  /** Replacing the first `p` in the joined text rewrites the first line
      equal to `p`, when `p` appears only as a whole line. */
  lemma {:induction false} ReplaceFirstInJoin(lines: seq<string>, p: string, q: string)
    requires |p| > 0 && '\n' !in p
    requires StandsAlone(lines, p)
    ensures ReplaceFirst(Join(lines, "\n"), p, q) == Join(RewriteFirstLine(lines, p, q), "\n")
    decreases |lines|
  {
    if |lines| <= 1 {
      ReplaceInShortJoin(lines, p, q);
    } else {
      var l := lines[0];
      var tail := lines[1..];
      assert lines == [l] + tail;
      if l == p {
        ReplaceAtHeadLine(tail, p, q);
      } else {
        assert !Contains(l, p);
        assert StandsAlone(tail, p) by {
          forall i | 0 <= i < |tail| && Contains(tail[i], p) ensures tail[i] == p {
            assert tail[i] == lines[i + 1];
          }
        }
        ReplaceFirstInJoin(tail, p, q);
        ReplacePastHeadLine(l, tail, p, q);
      }
    }
  }

  /** `ReplaceFirstInJoin` for no line or one line. */
  lemma ReplaceInShortJoin(lines: seq<string>, p: string, q: string)
    requires |lines| <= 1 && |p| > 0
    requires StandsAlone(lines, p)
    ensures ReplaceFirst(Join(lines, "\n"), p, q) == Join(RewriteFirstLine(lines, p, q), "\n")
  {
    if |lines| == 0 {
      assert IndexOf("", p) == -1;
    } else if lines[0] == p {
      ReplaceAtStart("", p, q);
      assert p + "" == p && q + "" == q;
    } else {
      ReplaceAbsent(lines[0], p, q);
    }
  }

  /** `ReplaceFirstInJoin` when the first line is `p` itself. */
  lemma ReplaceAtHeadLine(tail: seq<string>, p: string, q: string)
    requires |tail| >= 1
    ensures ReplaceFirst(Join([p] + tail, "\n"), p, q) == Join(RewriteFirstLine([p] + tail, p, q), "\n")
  {
    var rest := Join(tail, "\n");
    JoinCons(p, tail);
    assert p + "\n" + rest == p + ("\n" + rest);
    ReplaceAtStart("\n" + rest, p, q);
    assert RewriteFirstLine([p] + tail, p, q) == [q] + tail;
    JoinCons(q, tail);
    assert q + "\n" + rest == q + ("\n" + rest);
  }

  /** `ReplaceFirstInJoin` past a first line that does not contain `p`,
      given the property for the remaining lines. */
  lemma ReplacePastHeadLine(l: string, tail: seq<string>, p: string, q: string)
    requires |tail| >= 1 && |p| > 0 && '\n' !in p && l != p && !Contains(l, p)
    requires ReplaceFirst(Join(tail, "\n"), p, q) == Join(RewriteFirstLine(tail, p, q), "\n")
    ensures ReplaceFirst(Join([l] + tail, "\n"), p, q) == Join(RewriteFirstLine([l] + tail, p, q), "\n")
  {
    var rewritten := RewriteFirstLine(tail, p, q);
    JoinCons(l, tail);
    ReplacePastLine(l, Join(tail, "\n"), p, q);
    assert ([l] + tail)[1..] == tail;
    assert RewriteFirstLine([l] + tail, p, q) == [l] + rewritten;
    JoinCons(l, rewritten);
  }

  /** The reference for the body: the change lines with the first line that
      is each marker replaced by its decorated marker. */
  function MarkersRewritten(lines: seq<string>): seq<string> {
    var added := RewriteFirstLine(lines, ADDED_MARKER, ADDED_POST_MARKER);
    var changed := RewriteFirstLine(added, CHANGED_MARKER, CHANGED_POST_MARKER);
    RewriteFirstLine(changed, FIXED_MARKER, FIXED_POST_MARKER)
  }

  predicate MarkersStandAlone(lines: seq<string>) {
    StandsAlone(lines, ADDED_MARKER) && StandsAlone(lines, CHANGED_MARKER) && StandsAlone(lines, FIXED_MARKER)
  }

  /** A decorated marker contains none of the later plain markers. */
  lemma DecoratedMarkersAreInert()
    ensures !Contains(ADDED_POST_MARKER, CHANGED_MARKER)
    ensures !Contains(ADDED_POST_MARKER, FIXED_MARKER)
    ensures !Contains(CHANGED_POST_MARKER, FIXED_MARKER)
  {
    assert ADDED_POST_MARKER[2] == ' ';
    assert CHANGED_POST_MARKER[2] == ' ' && CHANGED_POST_MARKER[3] == '\U{1F37F}';
    forall j | 0 <= j <= |ADDED_POST_MARKER| - |FIXED_MARKER| ensures !OccursAt(ADDED_POST_MARKER, FIXED_MARKER, j) {
      assert ADDED_POST_MARKER[j..j + |FIXED_MARKER|][2 - j] == ADDED_POST_MARKER[2];
    }
    forall j | 0 <= j <= |CHANGED_POST_MARKER| - |FIXED_MARKER| ensures !OccursAt(CHANGED_POST_MARKER, FIXED_MARKER, j) {
      if j <= 2 {
        assert CHANGED_POST_MARKER[j..j + |FIXED_MARKER|][2 - j] == CHANGED_POST_MARKER[2];
      } else {
        assert CHANGED_POST_MARKER[j..j + |FIXED_MARKER|][0] == CHANGED_POST_MARKER[j];
      }
    }
  }

  /** Rewriting a marker line keeps the other markers standing alone. */
  lemma RewriteKeepsStandingAlone(lines: seq<string>, p: string, q: string, m: string)
    requires StandsAlone(lines, m) && !Contains(q, m)
    ensures StandsAlone(RewriteFirstLine(lines, p, q), m)
  {
  }

  /** When the markers appear only as whole lines, the body is the joined
      change lines with each marker's first line decorated. */
  lemma FormatBodyRewritesMarkerLines(lines: seq<string>)
    requires MarkersStandAlone(lines)
    ensures FormatBody(lines) == Join(MarkersRewritten(lines), "\n")
  {
    DecoratedMarkersAreInert();
    var added := RewriteFirstLine(lines, ADDED_MARKER, ADDED_POST_MARKER);
    var changed := RewriteFirstLine(added, CHANGED_MARKER, CHANGED_POST_MARKER);
    ReplaceFirstInJoin(lines, ADDED_MARKER, ADDED_POST_MARKER);
    RewriteKeepsStandingAlone(lines, ADDED_MARKER, ADDED_POST_MARKER, CHANGED_MARKER);
    RewriteKeepsStandingAlone(lines, ADDED_MARKER, ADDED_POST_MARKER, FIXED_MARKER);
    ReplaceFirstInJoin(added, CHANGED_MARKER, CHANGED_POST_MARKER);
    RewriteKeepsStandingAlone(added, CHANGED_MARKER, CHANGED_POST_MARKER, FIXED_MARKER);
    ReplaceFirstInJoin(changed, FIXED_MARKER, FIXED_POST_MARKER);
  }

  /** A title `a - b`, where no space in `a` precedes a dash, formats to
      `RELEASE <icon> b`. */
  lemma FormatTitleAfter(a: string, b: string, icon: string)
    requires NoSpaceDash(a)
    ensures FormatTitle(a + " - " + b, icon) == "RELEASE " + IconText(icon, b) + b
  {
    var title := a + " - " + b;
    SeparatorAfter(a, b);
    var suffix := " - " + b;
    assert title[|a|..] == suffix;
    SubstitutedAtStart(b, " - ", icon + " ");
  }

  /** The title of the unversioned changelog in the release tests,
      `## RELEASE - 2019-08-23`, gives `RELEASE 😁 2019-08-23` for the icon 😁,
      and for any icon without `$`. */
  lemma TitleExample(icon: string)
    requires '$' !in icon
    ensures FormatTitle("## RELEASE" + " - " + "2019-08-23", icon) == "RELEASE " + icon + " " + "2019-08-23"
  {
    assert '-' !in "## RELEASE";
    NoDashNoSpaceDash("## RELEASE");
    FormatTitleAfter("## RELEASE", "2019-08-23", icon);
    PlainIconText(icon, "2019-08-23");
  }

  /** An icon holding `$'` repeats the text after the separator: the icon
      `$'` turns `## RELEASE - 2019-08-23` into
      `RELEASE 2019-08-23 2019-08-23`. */
  lemma DollarIconExample(icon: string)
    requires icon == "$'"
    ensures FormatTitle("## RELEASE" + " - " + "2019-08-23", icon) == "RELEASE " + "2019-08-23" + " " + "2019-08-23"
  {
    var date := "2019-08-23";
    assert '-' !in "## RELEASE";
    NoDashNoSpaceDash("## RELEASE");
    FormatTitleAfter("## RELEASE", date, icon);
    AfterIconText("", date);
    assert "$'" + "" == icon;
    assert date + "" == date;
  }

  /** An icon `$'` followed by `tail` writes the text after the separator. */
  lemma AfterIconText(tail: string, rest: string)
    requires '$' !in tail
    ensures IconText("$'" + tail, rest) == rest + tail + " "
  {
    var repl := "$'" + tail + " ";
    assert repl[0] == '$' && repl[1] == '\'' && repl[2..] == tail + " ";
    SubstitutionLiteral(tail + " ", " - ", "", rest);
  }

  // ---------------------------------------------------------------------
  // The creator and its upload
  // ---------------------------------------------------------------------

  datatype Options = Options(channel: Option<string>, withVersion: bool)

  datatype Creator = Creator(slackToken: string, projectIcon: string, channel: string, withVersion: bool)

  /** `new ReleaseNoteCreator(slackToken, projectIcon, options)` */
  function NewCreator(slackToken: Option<string>, projectIcon: Option<string>, options: Options): (r: Result<Creator, ErrorKind>)
    ensures !Truthy(slackToken) ==> r == Failure(SlackTokenMissing)
    ensures Truthy(slackToken) && !Truthy(projectIcon) ==> r == Failure(ProjectIconMissing)
    ensures r.Success? <==> Truthy(slackToken) && Truthy(projectIcon)
    ensures r.Success? ==>
      && r.value.slackToken == slackToken.value
      && r.value.projectIcon == projectIcon.value
      && r.value.channel == (if Truthy(options.channel) then options.channel.value else DEFAULT_CHANNEL)
      && r.value.withVersion == options.withVersion
  {
    if !Truthy(slackToken) then Failure(SlackTokenMissing)
    else if !Truthy(projectIcon) then Failure(ProjectIconMissing)
    else
      var channel := if Truthy(options.channel) then options.channel.value else DEFAULT_CHANNEL;
      Success(Creator(slackToken.value, projectIcon.value, channel, options.withVersion))
  }

  /** The `name` and `version` fields of package.json. */
  datatype Package = Package(name: string, version: string)

  datatype ReleaseNote = ReleaseNote(title: string, body: string)

  function VersionBanner(pkg: Package): string {
    "# " + pkg.name + " v" + pkg.version + "\n\n"
  }

  /** `getReleaseChangesFormatted()` */
  function ReleaseChangesFormatted(c: Creator, lines: seq<string>, pkg: Package): (r: Result<ReleaseNote, ErrorKind>)
  {
    match ExtractLastRelease(lines)
    case Failure(e) => Failure(e)
    case Success(entry) =>
      var body := FormatBody(entry.changes);
      Success(ReleaseNote(FormatTitle(entry.title, c.projectIcon),
                          if c.withVersion then VersionBanner(pkg) + body else body))
  }

  /** The arguments of the `files.upload` call. */
  datatype Upload = Upload(channels: string, content: string, filename: string, filetype: string)

  /** `postReleaseNote(title, content)`: the request it sends. */
  function UploadRequest(c: Creator, note: ReleaseNote): Upload {
    Upload(c.channel, note.body, note.title + ".md", "post")
  }

  /** `perform()`: the upload sent for the changelog, or the error raised.
      `uploadAccepted` is the chat service's answer. */
  function Perform(c: Creator, lines: seq<string>, pkg: Package, uploadAccepted: bool): (r: Result<Upload, ErrorKind>)
    ensures ExtractLastRelease(lines).Failure? ==> r == Failure(WronglyFormattedChangelog)
    ensures ExtractLastRelease(lines).Success? && !uploadAccepted ==> r == Failure(SlackConnection)
    ensures ExtractLastRelease(lines).Success? && uploadAccepted ==> r.Success?
    ensures r.Success? ==>
      var entry := ExtractLastRelease(lines).value;
      && r.value.channels == c.channel
      && r.value.filetype == "post"
      && r.value.filename == FormatTitle(entry.title, c.projectIcon) + ".md"
      && r.value.content == (if c.withVersion then VersionBanner(pkg) else "") + FormatBody(entry.changes)
  {
    match ReleaseChangesFormatted(c, lines, pkg)
    case Failure(e) => Failure(e)
    case Success(note) =>
      if uploadAccepted then Success(UploadRequest(c, note)) else Failure(SlackConnection)
  }
}
