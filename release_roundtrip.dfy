/** How the two halves of a release meet: the header that the release
    creator (services/release-creator.js) splices into the changelog is the
    header that the release-note creator (services/release-note-creator.js)
    finds in the written file, and the lines that were waiting above the
    previous release become the changes of the note. */
module ReleaseRoundTrip {

  import opened Wrappers
  import opened JsStrings
  import opened Semver
  import ReleasePlanning
  import ReleaseNotes

  /** No space and no line terminator in `s`. */
  predicate Plain(s: string) {
    forall i :: 0 <= i < |s| ==> s[i] != ' ' && !IsLineTerminator(s[i])
  }

  lemma PlainConcat(a: string, b: string)
    requires Plain(a) && Plain(b)
    ensures Plain(a + b)
  {
    forall i | 0 <= i < |a + b| ensures (a + b)[i] != ' ' && !IsLineTerminator((a + b)[i]) {
      if i >= |a| {
        assert (a + b)[i] == b[i - |a|];
      }
    }
  }

  lemma WordsArePlain(t: string)
    requires AllWordChars(t)
    ensures Plain(t)
  {
  }

  /** The printed core matches `\d+.\d+.\d+`. */
  lemma CoreTextMatches(v: Version)
    ensures ReleaseNotes.VersionCore(CoreText(v)) && Plain(CoreText(v))
    ensures IsDigit(CoreText(v)[0])
  {
    DottedDigitsMatch(NatToString(v.major), NatToString(v.minor), NatToString(v.patch));
  }

  /** Three digit runs joined by dots match `\d+.\d+.\d+`. */
  lemma DottedDigitsMatch(a: string, b: string, c: string)
    requires AllDigits(a) && AllDigits(b) && AllDigits(c)
    ensures var t := a + "." + b + "." + c;
      ReleaseNotes.VersionCore(t) && Plain(t) && IsDigit(t[0])
  {
    var t := a + "." + b + "." + c;
    var i := |a|;
    var j := |a| + 1 + |b|;
    assert t[..i] == a;
    assert t[i + 1..j] == b;
    assert t[j + 1..] == c;
    assert t[0] == a[0];
    assert ReleaseNotes.AnyChar(t[i]) && ReleaseNotes.AnyChar(t[j]);
    PlainConcat(a, ".");
    PlainConcat(a + ".", b);
    PlainConcat(a + "." + b, ".");
    PlainConcat(a + "." + b + ".", c);
  }

  /** A version whose prerelease tag, if any, is made of word characters is
      printed as text the header pattern accepts as a version. */
  predicate HeaderVersion(v: Version) {
    v.pre.Stable? || AllWordChars(v.pre.tag)
  }

  lemma FormatMatches(v: Version)
    requires HeaderVersion(v)
    ensures ReleaseNotes.VersionText(Format(v)) && Plain(Format(v))
    ensures |Format(v)| > 0 && IsDigit(Format(v)[0])
  {
    CoreTextMatches(v);
    if v.pre.Pre? {
      var tag, n := v.pre.tag, NatToString(v.pre.n);
      assert PreText(v.pre) == "-" + (tag + ".") + n;
      SuffixMatches(tag, n);
      CoreThenSuffix(CoreText(v), PreText(v.pre));
    } else {
      assert Format(v) == CoreText(v) + "" == CoreText(v);
    }
  }

  /** A printed prerelease part matches `-\w+\.\d+`. */
  lemma SuffixMatches(tag: string, n: string)
    requires AllWordChars(tag) && AllDigits(n)
    ensures var suffix := "-" + (tag + ".") + n;
      ReleaseNotes.PrereleaseSuffix(suffix) && Plain(suffix)
  {
    var suffix := "-" + (tag + ".") + n;
    var i := 1 + |tag|;
    assert suffix[1..i] == tag;
    assert suffix[i + 1..] == n;
    WordsArePlain(tag);
    PlainConcat(tag, ".");
    PlainConcat("-", tag + ".");
    PlainConcat("-" + (tag + "."), n);
  }

  /** A core followed by a prerelease part matches the version pattern. */
  lemma CoreThenSuffix(core: string, suffix: string)
    requires ReleaseNotes.VersionCore(core) && Plain(core) && IsDigit(core[0])
    requires ReleaseNotes.PrereleaseSuffix(suffix) && Plain(suffix)
    ensures var t := core + suffix;
      ReleaseNotes.VersionText(t) && Plain(t) && IsDigit(t[0])
  {
    var t := core + suffix;
    assert t[..|core|] == core && t[|core|..] == suffix;
    PlainConcat(core, suffix);
  }

  /** The header line as it reads once the changelog is split again: the
      spliced text without its leading newline. */
  function HeaderLine(version: Option<string>, today: string): string {
    ReleaseNotes.HEADER_PREFIX + (if version.Some? then version.value + " " else "") + "- " + today
  }

  /** Every header the release creator writes for a printable version (or
      none) and a date on one line is a release header, and its formatted
      title is the date after the icon. */
  lemma WrittenHeaderIsRecognised(version: Option<Version>, today: string, icon: string)
    requires version.Some? ==> HeaderVersion(version.value)
    requires forall i :: 0 <= i < |today| ==> !IsLineTerminator(today[i])
    ensures var printed := if version.Some? then Some(Format(version.value)) else None;
      && ReleasePlanning.ReleaseHeader(printed, today) == "\n" + HeaderLine(printed, today)
      && ReleaseNotes.IsReleaseHeader(HeaderLine(printed, today))
      && ReleaseNotes.FormatTitle(HeaderLine(printed, today), icon) == "RELEASE " + ReleaseNotes.IconText(icon, today) + today
  {
    var printed := if version.Some? then Some(Format(version.value)) else None;
    SplicedHeader(printed, today);
    if version.Some? {
      VersionedHeader(version.value, today, icon);
    } else {
      UnversionedHeader(today, icon);
    }
  }

  /** The spliced text is a newline followed by the header line. */
  lemma SplicedHeader(version: Option<string>, today: string)
    ensures ReleasePlanning.ReleaseHeader(version, today) == "\n" + HeaderLine(version, today)
  {
    var mid := if version.Some? then version.value + " " else "";
    assert ReleasePlanning.ReleaseHeader(version, today) == "\n## RELEASE " + mid + "- " + today;
    assert "\n## RELEASE " == "\n" + ReleaseNotes.HEADER_PREFIX;
  }

  lemma VersionedHeader(version: Version, today: string, icon: string)
    requires HeaderVersion(version)
    requires forall i :: 0 <= i < |today| ==> !IsLineTerminator(today[i])
    ensures var h := HeaderLine(Some(Format(version)), today);
      && ReleaseNotes.IsReleaseHeader(h)
      && ReleaseNotes.FormatTitle(h, icon) == "RELEASE " + ReleaseNotes.IconText(icon, today) + today
  {
    var p := ReleaseNotes.HEADER_PREFIX;
    var v := Format(version);
    FormatMatches(version);
    assert HeaderLine(Some(v), today) == p + v + " - " + today;
    VersionedLineIsHeader(v, today);
    NoSpaceDashBeforeVersion(v);
    ReleaseNotes.FormatTitleAfter(p + v, today, icon);
  }

  /** The prefix, a version, ` - ` and a one-line date form a release header. */
  lemma VersionedLineIsHeader(v: string, today: string)
    requires ReleaseNotes.VersionText(v) && Plain(v) && |v| > 0
    requires forall i :: 0 <= i < |today| ==> !IsLineTerminator(today[i])
    ensures ReleaseNotes.IsReleaseHeader(ReleaseNotes.HEADER_PREFIX + v + " - " + today)
  {
    var p := ReleaseNotes.HEADER_PREFIX;
    var h := p + v + " - " + today;
    var k := |p| + |v|;
    assert h[..|p|] == p;
    assert h[|p|..k] == v;
    assert h[k..k + 3] == " - ";
    forall i | |p| <= i < |h| ensures !IsLineTerminator(h[i]) {
      if i < k {
        assert h[i] == v[i - |p|];
      } else if i >= k + 3 {
        assert h[i] == today[i - k - 3];
      }
    }
  }

  lemma NoSpaceDashBeforeVersion(v: string)
    requires Plain(v) && |v| > 0 && IsDigit(v[0])
    ensures NoSpaceDash(ReleaseNotes.HEADER_PREFIX + v)
  {
    var p := ReleaseNotes.HEADER_PREFIX;
    forall j | 0 <= j < |p + v| - 1 ensures !((p + v)[j] == ' ' && (p + v)[j + 1] == '-') {
      if j + 1 < |p| {
        assert (p + v)[j + 1] == p[j + 1];
      } else if j + 1 == |p| {
        assert (p + v)[j + 1] == v[0];
      } else {
        assert (p + v)[j] == v[j - |p|];
      }
    }
  }

  lemma UnversionedHeader(today: string, icon: string)
    requires forall i :: 0 <= i < |today| ==> !IsLineTerminator(today[i])
    ensures var h := HeaderLine(None, today);
      && ReleaseNotes.IsReleaseHeader(h)
      && ReleaseNotes.FormatTitle(h, icon) == "RELEASE " + ReleaseNotes.IconText(icon, today) + today
  {
    var p := ReleaseNotes.HEADER_PREFIX;
    var h := HeaderLine(None, today);
    var a := "## RELEASE";
    assert h == a + " - " + today;
    assert h[..|p|] == p;
    assert h[|p|..|p| + 2] == "- ";
    forall i | |p| <= i < |h| ensures !IsLineTerminator(h[i]) {
      if i >= |p| + 2 {
        assert h[i] == today[i - |p| - 2];
      }
    }
    assert '-' !in a;
    NoDashNoSpaceDash(a);
    ReleaseNotes.FormatTitleAfter(a, today, icon);
  }

  /** Joining a list where one item holds a newline is joining the list
      with that item split in two. */
  lemma {:induction false} JoinSplitsItem(a: seq<string>, x: string, y: string, b: seq<string>)
    ensures Join(a + [x + "\n" + y] + b, "\n") == Join(a + [x, y] + b, "\n")
    decreases |a|
  {
    if |a| == 0 {
      assert a + [x + "\n" + y] + b == [x + "\n" + y] + b;
      assert a + [x, y] + b == [x] + ([y] + b);
      if |b| == 0 {
        assert [x + "\n" + y] + b == [x + "\n" + y];
        assert [y] + b == [y];
      } else {
        JoinCons(x + "\n" + y, b);
        JoinCons(y, b);
      }
      JoinCons(x, [y] + b);
    } else {
      JoinSplitsItem(a[1..], x, y, b);
      assert a + [x + "\n" + y] + b == [a[0]] + (a[1..] + [x + "\n" + y] + b);
      assert a + [x, y] + b == [a[0]] + (a[1..] + [x, y] + b);
      JoinCons(a[0], a[1..] + [x + "\n" + y] + b);
      JoinCons(a[0], a[1..] + [x, y] + b);
    }
  }

  /** The changelog the release creator writes, read back as lines: the
      first three lines, a blank line, the new header, then the rest. */
  lemma WrittenLines(changelog: string, header: string)
    requires |SplitLines(changelog)| >= ReleasePlanning.HEADER_LINE
    requires '\n' !in header
    ensures var lines := SplitLines(changelog);
      SplitLines(Join(ReleasePlanning.InsertAt(lines, ReleasePlanning.HEADER_LINE, "\n" + header), "\n"))
      == lines[..3] + ["", header] + lines[3..]
  {
    var lines := SplitLines(changelog);
    InsertedHeader(lines, "\n" + header);
    SplicedLinesSplit(lines, header);
  }

  /** The splice at line 3 of a list holding at least three lines. */
  lemma InsertedHeader(lines: seq<string>, item: string)
    requires |lines| >= 3
    ensures ReleasePlanning.InsertAt(lines, ReleasePlanning.HEADER_LINE, item) == lines[..3] + [item] + lines[3..]
  {
  }

  /** Lines without newlines, with `"\n" + header` spliced in at 3, join and
      split back into the lines with a blank line and the header in its
      place. */
  lemma SplicedLinesSplit(lines: seq<string>, header: string)
    requires |lines| >= 3 && '\n' !in header
    requires forall k :: 0 <= k < |lines| ==> '\n' !in lines[k]
    ensures SplitLines(Join(lines[..3] + ["\n" + header] + lines[3..], "\n")) == lines[..3] + ["", header] + lines[3..]
  {
    assert "" + "\n" + header == "\n" + header;
    JoinSplitsItem(lines[..3], "", header, lines[3..]);
    var split := lines[..3] + ["", header] + lines[3..];
    forall k | 0 <= k < |split| ensures '\n' !in split[k] {
      if k >= 5 {
        assert split[k] == lines[k - 2];
      } else if k < 3 {
        assert split[k] == lines[k];
      }
    }
    SplitJoin(split);
  }

  /** After a release, the release-note creator finds the new release: its
      title is the header just written, its formatted title shows the date,
      and its changes are the lines that stood between the top of the
      changelog and the previous release header, without trailing blanks. */
  lemma NoteFindsWrittenRelease(changelog: string, version: Option<Version>, today: string, icon: string)
    requires |SplitLines(changelog)| > ReleasePlanning.HEADER_LINE
    requires forall i :: 0 <= i < ReleasePlanning.HEADER_LINE ==> !ReleaseNotes.IsReleaseHeader(SplitLines(changelog)[i])
    requires version.Some? ==> HeaderVersion(version.value)
    requires forall i :: 0 <= i < |today| ==> !IsLineTerminator(today[i])
    ensures var printed := if version.Some? then Some(Format(version.value)) else None;
      var written := Join(ReleasePlanning.InsertAt(SplitLines(changelog), ReleasePlanning.HEADER_LINE,
                                                   ReleasePlanning.ReleaseHeader(printed, today)), "\n");
      var rest := SplitLines(changelog)[3..];
      var r := ReleaseNotes.ExtractLastRelease(SplitLines(written));
      && r.Success?
      && r.value.title == HeaderLine(printed, today)
      && ReleaseNotes.FormatTitle(r.value.title, icon) == "RELEASE " + ReleaseNotes.IconText(icon, today) + today
      && r.value.changes == ReleaseNotes.TrimTrailingBlank(rest[..ReleaseNotes.FirstHeaderIndex(rest)])
  {
    var printed := if version.Some? then Some(Format(version.value)) else None;
    var lines := SplitLines(changelog);
    var h := HeaderLine(printed, today);
    WrittenHeaderIsRecognised(version, today, icon);
    HeaderIsOneLine(h);
    WrittenLines(changelog, h);
    SplicedHeaderIsFirst(lines, h);
    var split := lines[..3] + ["", h] + lines[3..];
    ExtractAtFirstHeader(split);
  }

  /** A release header holds no newline. */
  lemma HeaderIsOneLine(h: string)
    requires ReleaseNotes.IsReleaseHeader(h)
    ensures '\n' !in h
  {
    var p := ReleaseNotes.HEADER_PREFIX;
    forall i | 0 <= i < |h| ensures h[i] != '\n' {
      if i < |p| {
        assert h[..|p|] == p;
        assert h[i] == p[i];
      }
    }
  }

  /** With no header among the first three lines, the header spliced in
      after them, behind a blank line, is the first one. */
  lemma SplicedHeaderIsFirst(lines: seq<string>, h: string)
    requires |lines| > 3 && ReleaseNotes.IsReleaseHeader(h)
    requires forall i :: 0 <= i < 3 ==> !ReleaseNotes.IsReleaseHeader(lines[i])
    ensures var split := lines[..3] + ["", h] + lines[3..];
      && ReleaseNotes.FirstHeaderIndex(split) == 4
      && split[4] == h && split[5..] == lines[3..]
  {
    var split := lines[..3] + ["", h] + lines[3..];
    assert !ReleaseNotes.IsReleaseHeader("");
    assert forall i :: 0 <= i < 4 ==> !ReleaseNotes.IsReleaseHeader(split[i]);
    assert split[4] == h;
    assert split[5..] == lines[3..];
  }

  /** A header before the last line is the title the extraction returns. */
  lemma ExtractAtFirstHeader(lines: seq<string>)
    requires ReleaseNotes.FirstHeaderIndex(lines) + 1 < |lines|
    ensures var k := ReleaseNotes.FirstHeaderIndex(lines);
      var after := lines[k + 1..];
      ReleaseNotes.ExtractLastRelease(lines)
        == Success(ReleaseNotes.ReleaseEntry(lines[k], ReleaseNotes.TrimTrailingBlank(after[..ReleaseNotes.FirstHeaderIndex(after)])))
  {
    var k := ReleaseNotes.FirstHeaderIndex(lines);
    ReleaseNotes.ExtractFailsIff(lines);
    ReleaseNotes.ExtractedEntry(lines);
  }
}
