/** The coverage badge of services/badge-coverage-updater.js: the line counts
    of an lcov report are summed into a percentage, the percentage picks a
    colour, both go into a shields.io URL, and that URL replaces the first
    coverage badge in the README.

    The report file, the README file and the lcov parser are inputs: the
    report is the file's text or `None` when it cannot be read, and the
    parsed report is given as its per-record line counts, or `None` when
    the parser reports an error and passes no records. The percentage is
    computed exactly, on integers. */
module BadgeCoverage {

  import opened Wrappers
  import opened JsStrings

  const BADGE_URL := "https://img.shields.io/badge/"
  const BADGE_UNKNOWN := BADGE_URL + "coverage-unknown-critical"

  /** The `lines` part of one lcov record. */
  datatype LineCounts = LineCounts(hit: nat, found: nat)

  /** The sum of `hit` over the records. */
  function TotalHit(records: seq<LineCounts>): nat
    decreases |records|
  {
    if |records| == 0 then 0 else TotalHit(records[..|records| - 1]) + records[|records| - 1].hit
  }

  /** The sum of `found` over the records. */
  function TotalFound(records: seq<LineCounts>): nat
    decreases |records|
  {
    if |records| == 0 then 0 else TotalFound(records[..|records| - 1]) + records[|records| - 1].found
  }

  /** The totals of a concatenation are the sums of the totals: the order and
      grouping of the records does not matter. */
  lemma {:induction false} TotalsAppend(a: seq<LineCounts>, b: seq<LineCounts>)
    ensures TotalHit(a + b) == TotalHit(a) + TotalHit(b)
    ensures TotalFound(a + b) == TotalFound(a) + TotalFound(b)
    decreases |b|
  {
    if |b| > 0 {
      assert (a + b)[..|a + b| - 1] == a + b[..|b| - 1];
      TotalsAppend(a, b[..|b| - 1]);
    } else {
      assert a + b == a;
    }
  }

  datatype Color = CriticalColor | ImportantColor | SuccessColor

  function ColorName(c: Color): string {
    match c
    case CriticalColor => "critical"
    case ImportantColor => "important"
    case SuccessColor => "success"
  }

  /** The colour for `(hit / found) * 100`: above 99 is a success, above 89
      is important, anything else is critical. With `found = 0` the
      percentage is NaN (no hit) or Infinity (some hit). */
  function BadgeColor(hit: nat, found: nat): Color {
    if found == 0 then (if hit == 0 then CriticalColor else SuccessColor)
    else if 100 * hit > 99 * found then SuccessColor
    else if 100 * hit > 89 * found then ImportantColor
    else CriticalColor
  }

  /** `Math.floor((hit / found) * 100)` as JavaScript prints it. */
  function PercentText(hit: nat, found: nat): string {
    if found == 0 then (if hit == 0 then "NaN" else "Infinity")
    else NatToString(100 * hit / found)
  }

  /** The badge URL `createBadge` resolves to for the totals. */
  function Badge(hit: nat, found: nat): string {
    BADGE_URL + "coverage-" + PercentText(hit, found) + "%25%0A-" + ColorName(BadgeColor(hit, found))
  }

  /** The percentage shown is the floor of the exact one, and at most 100
      when no more lines are hit than found. */
  lemma PercentIsFloor(hit: nat, found: nat)
    requires found > 0
    ensures var p := 100 * hit / found;
      && PercentText(hit, found) == NatToString(p)
      && p * found <= 100 * hit < (p + 1) * found
      && (hit <= found ==> p <= 100)
  {
    var p, m := 100 * hit / found, 100 * hit % found;
    assert 100 * hit == p * found + m && 0 <= m < found;
    assert (p + 1) * found == p * found + found;
    if hit <= found && p > 100 {
      MulLe(101, p, found);
      assert false;
    }
  }

  function ColorRank(c: Color): nat {
    match c
    case CriticalColor => 0
    case ImportantColor => 1
    case SuccessColor => 2
  }

  /** The colour never goes down as the covered share goes up. */
  lemma ColorMonotone(hit1: nat, found1: nat, hit2: nat, found2: nat)
    requires found1 > 0 && found2 > 0
    requires hit1 * found2 <= hit2 * found1
    ensures ColorRank(BadgeColor(hit1, found1)) <= ColorRank(BadgeColor(hit2, found2))
  {
    if 100 * hit1 > 89 * found1 {
      AboveStaysAbove(hit1, found1, hit2, found2, 89);
    }
    if 100 * hit1 > 99 * found1 {
      AboveStaysAbove(hit1, found1, hit2, found2, 99);
    }
  }

  lemma AboveStaysAbove(hit1: nat, found1: nat, hit2: nat, found2: nat, t: nat)
    requires found1 > 0 && found2 > 0
    requires hit1 * found2 <= hit2 * found1
    requires 100 * hit1 > t * found1
    ensures 100 * hit2 > t * found2
  {
    assert 100 * hit1 * found2 > t * found1 * found2 by {
      assert (100 * hit1 - t * found1) * found2 > 0;
    }
    assert 100 * hit2 * found1 >= 100 * hit1 * found2;
    assert (100 * hit2 - t * found2) * found1 > 0;
  }

  lemma MulLe(a: int, b: int, f: nat)
    requires a <= b
    ensures a * f <= b * f
  {
  }

  /** The colour follows the exact percentage, not the one shown: a
      critical badge never shows more than 89, a success never less than 99,
      and an important badge shows between 89 and 99. */
  lemma ColorVersusShownPercent(hit: nat, found: nat)
    requires found > 0
    ensures var p := 100 * hit / found;
      && (BadgeColor(hit, found) == CriticalColor ==> p <= 89)
      && (BadgeColor(hit, found) == ImportantColor ==> 89 <= p <= 99)
      && (BadgeColor(hit, found) == SuccessColor ==> p >= 99)
  {
    PercentIsFloor(hit, found);
    var p := 100 * hit / found;
    if p >= 90 {
      MulLe(90, p, found);
    }
    if p <= 88 {
      MulLe(p + 1, 89, found);
    }
    if p >= 100 {
      MulLe(100, p, found);
    }
    if p <= 98 {
      MulLe(p + 1, 99, found);
    }
  }

  /** 179 of 200 lines (89.5%) shows 89 and is already important. */
  lemma ImportantAtEightyNine()
    ensures 100 * 179 / 200 == 89 && BadgeColor(179, 200) == ImportantColor
  {
  }

  /** `createBadge(report)` over what the parser passes back: an absent or
      empty report gives the unknown badge; a report the parser rejects
      leaves `data` undefined, so reading its length throws and no badge is
      made (`None`); otherwise the loop sums the counts and the badge is made
      from the totals. */
  method CreateBadge(report: Option<string>, data: Option<seq<LineCounts>>) returns (badge: Option<string>)
    ensures !Truthy(report) ==> badge == Some(BADGE_UNKNOWN)
    ensures Truthy(report) && data.None? ==> badge.None?
    ensures Truthy(report) && data.Some? ==>
      badge == Some(Badge(TotalHit(data.value), TotalFound(data.value)))
  {
    if !Truthy(report) {
      return Some(BADGE_UNKNOWN);
    }
    if data.None? {
      return None;
    }
    var records := data.value;
    var hit: nat := 0;
    var found: nat := 0;
    var i := 0;
    while i < |records|
      invariant 0 <= i <= |records|
      invariant hit == TotalHit(records[..i]) && found == TotalFound(records[..i])
    {
      assert records[..i + 1][..i] == records[..i];
      hit := hit + records[i].hit;
      found := found + records[i].found;
      i := i + 1;
    }
    assert records[..i] == records;
    badge := Some(Badge(hit, found));
  }

  /** `readCoverageAndCreateBadge`: `report` is `None` when the report file
      cannot be read. Its `catch` only covers the read: the failure of a
      rejected report happens after `createBadge` has returned its promise,
      so it is not turned into the unknown badge. */
  method ReadCoverageAndCreateBadge(report: Option<string>, data: Option<seq<LineCounts>>)
    returns (badge: Option<string>)
    ensures report.None? ==> badge == Some(BADGE_UNKNOWN)
    ensures report == Some("") ==> badge == Some(BADGE_UNKNOWN)
    ensures Truthy(report) && data.None? ==> badge.None?
    ensures Truthy(report) && data.Some? ==>
      badge == Some(Badge(TotalHit(data.value), TotalFound(data.value)))
  {
    if report.None? {
      return Some(BADGE_UNKNOWN);
    }
    badge := CreateBadge(report, data);
  }

  /** The report of the badge test: 27 of 28 lines hit gives 96 and the
      colour "important". */
  lemma TestReportBadge()
    ensures Badge(27, 28) == BADGE_URL + "coverage-" + "96" + "%25%0A-" + "important"
  {
    assert 100 * 27 / 28 == 96;
    assert NatToString(96) == "96";
  }

  // ---------------------------------------------------------------------------
  // The README replacement

  /** The fixed part of the pattern
      `!\[Coverage\]\(https:\/\/img\.shields\.io\/badge\/coverage-.*\)`. */
  const BADGE_PATTERN_PREFIX := BADGE_OPEN + BADGE_URL + "coverage-"

  /** `![Coverage](`, with which both the pattern and the replacement begin. */
  const BADGE_OPEN := "!" + "[Coverage]("

  /** The pattern matches `s[i..j + 1]`: the fixed part at `i`, then no line
      terminator (`.` does not match one) up to the `)` at `j`. */
  predicate MatchAt(s: string, i: int, j: int) {
    && OccursAt(s, BADGE_PATTERN_PREFIX, i)
    && i + |BADGE_PATTERN_PREFIX| <= j < |s|
    && s[j] == ')'
    && forall k :: i + |BADGE_PATTERN_PREFIX| <= k < j ==> !IsLineTerminator(s[k])
  }

  /** The first line terminator at or after `from`, or the end. */
  function LineEnd(s: string, from: nat): (r: nat)
    requires from <= |s|
    ensures from <= r <= |s|
    ensures forall k :: from <= k < r ==> !IsLineTerminator(s[k])
    ensures r < |s| ==> IsLineTerminator(s[r])
    decreases |s| - from
  {
    if from == |s| || IsLineTerminator(s[from]) then from else LineEnd(s, from + 1)
  }

  /** The last `)` in `s[lo..hi]`, or -1. */
  function LastClose(s: string, lo: nat, hi: nat): (r: int)
    requires lo <= hi <= |s|
    ensures r == -1 || (lo <= r < hi && s[r] == ')')
    ensures r == -1 ==> forall k :: lo <= k < hi ==> s[k] != ')'
    ensures r >= 0 ==> forall k :: r < k < hi ==> s[k] != ')'
    decreases hi - lo
  {
    if hi == lo then -1
    else if s[hi - 1] == ')' then hi - 1
    else LastClose(s, lo, hi - 1)
  }

  /** Where the greedy `.*\)` ends for a match starting at `i`: the last `)`
      on the rest of the line, or -1. */
  function MatchEnd(s: string, i: nat): (r: int)
    requires i + |BADGE_PATTERN_PREFIX| <= |s|
    ensures r == -1 || i + |BADGE_PATTERN_PREFIX| <= r < |s|
  {
    var start := i + |BADGE_PATTERN_PREFIX|;
    LastClose(s, start, LineEnd(s, start))
  }

  datatype Span = Span(start: nat, end: nat)

  /** The match the regular expression finds, scanning start positions from
      `from`. */
  function FindMatch(s: string, from: nat): (r: Option<Span>)
    requires from <= |s|
    ensures r.Some? ==> from <= r.value.start && r.value.start + |BADGE_PATTERN_PREFIX| <= r.value.end < |s|
    decreases |s| - from
  {
    if from == |s| then None
    else if OccursAt(s, BADGE_PATTERN_PREFIX, from) && MatchEnd(s, from) >= 0 then Some(Span(from, MatchEnd(s, from)))
    else FindMatch(s, from + 1)
  }

  /** `readme.replace(pattern, '![Coverage](' + badge + ')')`. */
  function ReplaceBadge(readme: string, badge: string): string {
    match FindMatch(readme, 0)
    case None => readme
    case Some(m) => readme[..m.start] + BADGE_OPEN + badge + ")" + readme[m.end + 1..]
  }

  /** For a start where the fixed part occurs, the greedy end is the longest
      match, and there is none when it is -1. */
  lemma MatchEndIsLongest(s: string, i: nat)
    requires OccursAt(s, BADGE_PATTERN_PREFIX, i)
    ensures MatchEnd(s, i) == -1 ==> forall j :: !MatchAt(s, i, j)
    ensures MatchEnd(s, i) >= 0 ==> MatchAt(s, i, MatchEnd(s, i))
    ensures forall j :: MatchAt(s, i, j) ==> j <= MatchEnd(s, i)
  {
  }

  /** No match starts in `[lo, hi)`. */
  ghost predicate NoMatchIn(s: string, lo: int, hi: int) {
    forall i, j :: lo <= i < hi ==> !MatchAt(s, i, j)
  }

  /** `FindMatch` is the leftmost match, extended as far as it goes; it is
      `None` exactly when nothing matches. */
  lemma {:induction false} FindMatchIsLeftmostLongest(s: string, from: nat)
    requires from <= |s|
    ensures FindMatch(s, from).None? <==> NoMatchIn(s, from, |s|)
    ensures FindMatch(s, from).Some? ==>
      var m := FindMatch(s, from).value;
      && MatchAt(s, m.start, m.end)
      && NoMatchIn(s, from, m.start)
      && (forall j :: MatchAt(s, m.start, j) ==> j <= m.end)
    decreases |s| - from
  {
    if from < |s| {
      if OccursAt(s, BADGE_PATTERN_PREFIX, from) {
        MatchEndIsLongest(s, from);
      }
      if !(OccursAt(s, BADGE_PATTERN_PREFIX, from) && MatchEnd(s, from) >= 0) {
        assert forall j :: !MatchAt(s, from, j);
        FindMatchIsLeftmostLongest(s, from + 1);
        assert FindMatch(s, from) == FindMatch(s, from + 1);
        NoMatchExtend(s, from);
      }
    }
  }

  lemma NoMatchExtend(s: string, from: nat)
    requires forall j :: !MatchAt(s, from, j)
    ensures forall hi :: NoMatchIn(s, from + 1, hi) ==> NoMatchIn(s, from, hi)
  {
  }

  /** The replacement acts on the leftmost match, taken as long as it goes. */
  lemma ReplaceAtMatch(s: string, i: nat, j: nat, badge: string)
    requires MatchAt(s, i, j) && NoMatchIn(s, 0, i)
    requires forall j' :: MatchAt(s, i, j') ==> j' <= j
    ensures ReplaceBadge(s, badge) == s[..i] + BADGE_OPEN + badge + ")" + s[j + 1..]
  {
    LeftmostLongestIsFound(s, i, j);
  }

  /** The leftmost match, taken as long as it goes, is the one found. */
  lemma LeftmostLongestIsFound(s: string, i: nat, j: nat)
    requires MatchAt(s, i, j) && NoMatchIn(s, 0, i)
    requires forall j' :: MatchAt(s, i, j') ==> j' <= j
    ensures FindMatch(s, 0) == Some(Span(i, j))
  {
    SomeMatchIsFound(s, i, j);
    FindMatchIsLeftmostLongest(s, 0);
    var m := FindMatch(s, 0).value;
    assert m.start <= i by {
      assert MatchAt(s, i, j) && NoMatchIn(s, 0, m.start);
    }
    assert i <= m.start by {
      assert MatchAt(s, m.start, m.end) && NoMatchIn(s, 0, i);
    }
    assert MatchAt(s, i, m.end) && MatchAt(s, i, j);
  }

  /** When anything matches, a match is found. */
  lemma SomeMatchIsFound(s: string, i: int, j: int)
    requires MatchAt(s, i, j)
    ensures FindMatch(s, 0).Some?
  {
    FindMatchIsLeftmostLongest(s, 0);
    assert !NoMatchIn(s, 0, |s|);
  }

  /** A README whose first coverage badge ends its line gets exactly that
      badge replaced; every other character is kept. */
  lemma ReplaceBadgeLine(before: string, shown: string, after: string, badge: string)
    requires '!' !in before && ')' !in shown
    requires forall k :: 0 <= k < |shown| ==> !IsLineTerminator(shown[k])
    requires |after| > 0 ==> IsLineTerminator(after[0])
    ensures ReplaceBadge(before + BADGE_PATTERN_PREFIX + shown + ")" + after, badge)
            == before + BADGE_OPEN + badge + ")" + after
  {
    var s := before + BADGE_PATTERN_PREFIX + shown + ")" + after;
    var i := |before|;
    var j := |before| + |BADGE_PATTERN_PREFIX| + |shown|;
    assert s == before + (BADGE_PATTERN_PREFIX + shown + ")" + after);
    assert s[i..i + |BADGE_PATTERN_PREFIX|] == BADGE_PATTERN_PREFIX;
    assert MatchAt(s, i, j);
    forall i', j' | 0 <= i' < i ensures !MatchAt(s, i', j') {
      assert s[i'] == before[i'];
    }
    assert |after| > 0 ==> s[j + 1] == after[0];
    forall j' | MatchAt(s, i, j') ensures j' <= j {
    }
    ReplaceAtMatch(s, i, j, badge);
    assert s[..i] == before;
    assert s[j + 1..] == after;
  }

  /** The README of the badge test, `# Random Package` then a badge line. */
  lemma TestReadme(badge: string)
    ensures ReplaceBadge("# Random Package\n" + BADGE_PATTERN_PREFIX + "99%25%0A-success" + ")" + "\n", badge)
            == "# Random Package\n" + BADGE_OPEN + badge + ")" + "\n"
  {
    ReplaceBadgeLine("# Random Package\n", "99%25%0A-success", "\n", badge);
  }

  /** Because `.*` is greedy, a badge followed on its line by more text
      ending in `)` swallows that text. */
  lemma GreedyMatchSwallowsLine(shown: string, tail: string, badge: string)
    requires forall k :: 0 <= k < |shown| ==> !IsLineTerminator(shown[k])
    requires forall k :: 0 <= k < |tail| ==> !IsLineTerminator(tail[k])
    requires |tail| > 0 && tail[|tail| - 1] == ')'
    ensures ReplaceBadge(BADGE_PATTERN_PREFIX + shown + ")" + tail, badge) == BADGE_OPEN + badge + ")"
  {
    WholeTextMatches(shown, tail);
    ReplaceWholeMatch(BADGE_PATTERN_PREFIX + shown + ")" + tail, badge);
  }

  /** Such a text is one match from its first to its last character. */
  lemma WholeTextMatches(shown: string, tail: string)
    requires forall k :: 0 <= k < |shown| ==> !IsLineTerminator(shown[k])
    requires forall k :: 0 <= k < |tail| ==> !IsLineTerminator(tail[k])
    requires |tail| > 0 && tail[|tail| - 1] == ')'
    ensures var s := BADGE_PATTERN_PREFIX + shown + ")" + tail; MatchAt(s, 0, |s| - 1)
  {
    var s := BADGE_PATTERN_PREFIX + shown + ")" + tail;
    var p := |BADGE_PATTERN_PREFIX|;
    assert s[..p] == BADGE_PATTERN_PREFIX;
    forall k | p <= k < |s| - 1 ensures !IsLineTerminator(s[k]) {
      if k < p + |shown| {
        assert s[k] == shown[k - p];
      } else if k > p + |shown| {
        assert s[k] == tail[k - p - |shown| - 1];
      }
    }
  }

  /** A match covering the whole text replaces all of it. */
  lemma ReplaceWholeMatch(s: string, badge: string)
    requires |s| > 0 && MatchAt(s, 0, |s| - 1)
    ensures ReplaceBadge(s, badge) == BADGE_OPEN + badge + ")"
  {
    ReplaceAtMatch(s, 0, |s| - 1, badge);
    assert s[..0] == [] && s[|s|..] == [];
  }

  /** A README without a coverage badge is left as it is. */
  lemma NoBadgeUnchanged(readme: string, badge: string)
    requires NoMatchIn(readme, 0, |readme|)
    ensures ReplaceBadge(readme, badge) == readme
  {
    FindMatchIsLeftmostLongest(readme, 0);
  }

  /** The badge text after `coverage-`: no `)` and no line terminator. */
  predicate BadgeTail(t: string) {
    forall k :: 0 <= k < |t| ==> t[k] != ')' && !IsLineTerminator(t[k])
  }

  lemma BadgeTailConcat(a: string, b: string)
    requires BadgeTail(a) && BadgeTail(b)
    ensures BadgeTail(a + b)
  {
    forall k | 0 <= k < |a + b| ensures (a + b)[k] != ')' && !IsLineTerminator((a + b)[k]) {
      if k >= |a| {
        assert (a + b)[k] == b[k - |a|];
      }
    }
  }

  /** Every badge the updater makes is the fixed part of the pattern
      followed by a tail the greedy `.*` stops after. */
  lemma BadgeShape(hit: nat, found: nat)
    ensures var tail := PercentText(hit, found) + "%25%0A-" + ColorName(BadgeColor(hit, found));
      && BADGE_OPEN + Badge(hit, found) == BADGE_PATTERN_PREFIX + tail
      && BadgeTail(tail)
  {
    var pct := PercentText(hit, found);
    var color := ColorName(BadgeColor(hit, found));
    PercentTail(hit, found);
    ColorTail(BadgeColor(hit, found));
    BadgeTailConcat(pct, "%25%0A-");
    BadgeTailConcat(pct + "%25%0A-", color);
    BadgeRegrouped(pct, color);
  }

  lemma PercentTail(hit: nat, found: nat)
    ensures BadgeTail(PercentText(hit, found))
  {
    if found > 0 {
      var pct := PercentText(hit, found);
      forall k | 0 <= k < |pct| ensures pct[k] != ')' && !IsLineTerminator(pct[k]) {
        assert IsDigit(pct[k]);
      }
    }
  }

  lemma ColorTail(c: Color)
    ensures BadgeTail(ColorName(c))
  {
  }

  /** The badge URL after `![Coverage](` starts with the fixed part of the
      pattern. */
  lemma BadgeRegrouped(pct: string, color: string)
    ensures BADGE_OPEN + (BADGE_URL + "coverage-" + pct + "%25%0A-" + color)
         == BADGE_PATTERN_PREFIX + (pct + "%25%0A-" + color)
  {
  }

  /** Replacing with a badge that the pattern itself matches is idempotent:
      the badge written is the badge the pattern finds next. */
  lemma ReplaceIsIdempotent(before: string, shown: string, after: string, badge: string, tail: string)
    requires '!' !in before && ')' !in shown
    requires forall k :: 0 <= k < |shown| ==> !IsLineTerminator(shown[k])
    requires |after| > 0 ==> IsLineTerminator(after[0])
    requires BADGE_OPEN + badge == BADGE_PATTERN_PREFIX + tail && BadgeTail(tail)
    ensures var once := ReplaceBadge(before + BADGE_PATTERN_PREFIX + shown + ")" + after, badge);
      ReplaceBadge(once, badge) == once
  {
    ReplaceBadgeLine(before, shown, after, badge);
    var once := before + BADGE_OPEN + badge + ")" + after;
    assert before + BADGE_OPEN + badge == before + (BADGE_OPEN + badge);
    assert before + BADGE_PATTERN_PREFIX + tail == before + (BADGE_PATTERN_PREFIX + tail);
    assert once == before + BADGE_PATTERN_PREFIX + tail + ")" + after;
    assert ')' !in tail by {
      forall k | 0 <= k < |tail| ensures tail[k] != ')' { }
    }
    ReplaceBadgeLine(before, tail, after, badge);
  }

  /** Running the update twice with the same report changes nothing the
      second time. */
  lemma UpdateIsIdempotent(before: string, shown: string, after: string, hit: nat, found: nat)
    requires '!' !in before && ')' !in shown
    requires forall k :: 0 <= k < |shown| ==> !IsLineTerminator(shown[k])
    requires |after| > 0 ==> IsLineTerminator(after[0])
    ensures var once := ReplaceBadge(before + BADGE_PATTERN_PREFIX + shown + ")" + after, Badge(hit, found));
      ReplaceBadge(once, Badge(hit, found)) == once
  {
    BadgeShape(hit, found);
    ReplaceIsIdempotent(before, shown, after, Badge(hit, found),
                        PercentText(hit, found) + "%25%0A-" + ColorName(BadgeColor(hit, found)));
  }

  /** `updateReadmeCoverageBadge`: the README text written back, with its
      badge replaced by the one made from the report, or `None` when no badge
      was made and the README is not written. */
  method UpdateReadmeCoverageBadge(readme: string, report: Option<string>, data: Option<seq<LineCounts>>)
    returns (written: Option<string>)
    ensures !Truthy(report) ==> written == Some(ReplaceBadge(readme, BADGE_UNKNOWN))
    ensures Truthy(report) && data.None? ==> written.None?
    ensures Truthy(report) && data.Some? ==>
      written == Some(ReplaceBadge(readme, Badge(TotalHit(data.value), TotalFound(data.value))))
  {
    var badge := ReadCoverageAndCreateBadge(report, data);
    if badge.None? {
      return None;
    }
    written := Some(ReplaceBadge(readme, badge.value));
  }
}
