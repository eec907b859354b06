/** The JavaScript string built-ins the release scripts rely on, with their
    JavaScript semantics: `indexOf` answers -1 when the pattern is absent,
    `substring` clamps and swaps its bounds, `replace` with a string pattern
    rewrites only the first occurrence, `split('\n')` of the empty string is
    `['']`, and `trim()` strips the ECMAScript white-space and line-terminator
    characters, and a `replace` string expands the `$` patterns of
    GetSubstitution. Strings are sequences of Unicode scalar values. */
module JsStrings {

  import opened Wrappers

  /** A possibly-undefined string that is truthy: present and not empty. */
  predicate Truthy(s: Option<string>) {
    s.Some? && s.value != ""
  }

  /** `p` occurs in `s` starting at index `i`. */
  predicate OccursAt(s: string, p: string, i: int) {
    0 <= i && i + |p| <= |s| && s[i..i + |p|] == p
  }

  predicate StartsWith(s: string, p: string) {
    OccursAt(s, p, 0)
  }

  /** `s.indexOf(p, from)`: the first occurrence of `p` at or after `from`, or -1. */
  function IndexFrom(s: string, p: string, from: nat): (r: int)
    ensures r == -1 || (from <= r && OccursAt(s, p, r))
    ensures r == -1 ==> forall j :: from <= j ==> !OccursAt(s, p, j)
    ensures r >= 0 ==> forall j :: from <= j < r ==> !OccursAt(s, p, j)
    decreases |s| - from
  {
    if from + |p| > |s| then -1
    else if s[from..from + |p|] == p then from
    else IndexFrom(s, p, from + 1)
  }

  /** `s.indexOf(p)`. */
  function IndexOf(s: string, p: string): (r: int)
    ensures r == -1 || OccursAt(s, p, r)
    ensures r == -1 ==> forall j :: !OccursAt(s, p, j)
    ensures r >= 0 ==> forall j :: 0 <= j < r ==> !OccursAt(s, p, j)
  {
    IndexFrom(s, p, 0)
  }

  /** An occurrence with none before it is the one `indexOf` finds. */
  lemma IndexOfAt(s: string, p: string, i: int)
    requires OccursAt(s, p, i)
    requires forall j :: 0 <= j < i ==> !OccursAt(s, p, j)
    ensures IndexOf(s, p) == i
  {
  }

  /** In `a + b`, a pattern that starts `b` and whose first character is not
      in `a` is found at `|a|`. */
  lemma IndexOfAfter(a: string, b: string, p: string)
    requires |p| > 0 && p[0] !in a && OccursAt(b, p, 0)
    ensures IndexOf(a + b, p) == |a|
  {
    var s := a + b;
    forall j | 0 <= j < |a| ensures !OccursAt(s, p, j) {
      assert s[j] == a[j];
    }
    assert s[|a|..|a| + |p|] == b[..|p|];
    IndexOfAt(s, p, |a|);
  }

  /** `s.includes(p)` */
  predicate Contains(s: string, p: string) {
    exists j | 0 <= j <= |s| - |p| :: OccursAt(s, p, j)
  }

  /** A pattern whose first character is absent does not occur. */
  lemma NotContainsFirstChar(s: string, p: string)
    requires |p| > 0 && p[0] !in s
    ensures !Contains(s, p)
  {
    forall j | 0 <= j <= |s| - |p| ensures !OccursAt(s, p, j) {
      assert s[j..j + |p|][0] == s[j];
    }
  }

  /** A pattern without newline found in `a + "\n" + b`, where `a` does not
      contain it, is found in `b`, shifted past `a` and the newline. */
  lemma IndexOfPastLine(a: string, b: string, p: string)
    requires |p| > 0 && '\n' !in p && !Contains(a, p)
    ensures IndexOf(a + "\n" + b, p) == if IndexOf(b, p) < 0 then -1 else |a| + 1 + IndexOf(b, p)
  {
    var s := a + "\n" + b;
    var d := |a| + 1;
    forall j | 0 <= j <= |a| ensures !OccursAt(s, p, j) {
      if j + |p| <= |a| {
        assert s[j..j + |p|] == a[j..j + |p|];
        assert !OccursAt(a, p, j);
      } else if j + |p| <= |s| {
        assert s[j..j + |p|][|a| - j] == s[|a|] == '\n';
      }
    }
    forall j | 0 <= j ensures OccursAt(s, p, d + j) <==> OccursAt(b, p, j) {
      if d + j + |p| <= |s| {
        assert s[d + j..d + j + |p|] == b[j..j + |p|];
      }
    }
    var r := IndexOf(b, p);
    if r < 0 {
      forall j ensures !OccursAt(s, p, j) {
        if j > |a| {
          assert !OccursAt(b, p, j - d);
        }
      }
    } else {
      forall j | 0 <= j < d + r ensures !OccursAt(s, p, j) {
        if j > |a| {
          assert !OccursAt(b, p, j - d);
        }
      }
      IndexOfAt(s, p, d + r);
    }
  }

  /** No space in `a` is directly followed by a dash. */
  predicate NoSpaceDash(a: string) {
    forall j :: 0 <= j < |a| - 1 ==> !(a[j] == ' ' && a[j + 1] == '-')
  }

  lemma NoDashNoSpaceDash(a: string)
    requires '-' !in a
    ensures NoSpaceDash(a)
  {
    forall j | 0 <= j < |a| - 1 ensures !(a[j] == ' ' && a[j + 1] == '-') {
      assert a[j + 1] in a;
    }
  }

  /** The ` - ` separator written after such an `a` is the first one. */
  lemma SeparatorAfter(a: string, b: string)
    requires NoSpaceDash(a)
    ensures IndexOf(a + " - " + b, " - ") == |a|
  {
    var s := a + " - " + b;
    forall j | 0 <= j < |a| ensures !OccursAt(s, " - ", j) {
      assert s[j] == a[j];
      if j + 1 < |a| {
        assert s[j + 1] == a[j + 1];
      } else {
        assert s[j + 1] == ' ';
      }
    }
    assert s[|a|..|a| + 3] == " - ";
    IndexOfAt(s, " - ", |a|);
  }

  function Clamp(i: int, n: nat): (r: nat)
    ensures r <= n
  {
    if i < 0 then 0 else if i > n then n else i
  }

  /** `s.substring(a, b)`: both bounds clamped into `[0, |s|]`, swapped when reversed. */
  function Substring(s: string, a: int, b: int): (r: string)
    ensures 0 <= a <= b <= |s| ==> r == s[a..b]
  {
    var x, y := Clamp(a, |s|), Clamp(b, |s|);
    if x <= y then s[x..y] else s[y..x]
  }

  /** `s.substring(a)`. */
  function SubstringFrom(s: string, a: int): (r: string)
    ensures 0 <= a <= |s| ==> r == s[a..]
    ensures a < 0 ==> r == s
  {
    Substring(s, a, |s|)
  }

  /** `s.replace(p, q)` with a string pattern and a replacement `q` free of
      `$`: the first occurrence of `p`, if any, becomes `q` literally. The
      changelog markers, the `--` option prefix and the coverage badge are
      such replacements; `ReplaceLiteral` shows this agrees with
      `ReplaceFirstSubstituted`, which also expands `$` patterns. */
  function ReplaceFirst(s: string, p: string, q: string): (r: string)
  {
    var i := IndexOf(s, p);
    if i < 0 then s else s[..i] + q + s[i + |p|..]
  }

  /** The GetSubstitution operation of ECMAScript for a string pattern (no
      capture groups): `$$` is a dollar sign, `$&` the matched text, `` $` ``
      the text before the match and `$'` the text after it; any other `$`,
      including `$1` and `$<`, stands for itself. */
  function Substitution(repl: string, matched: string, before: string, after: string): string
    decreases |repl|
  {
    if |repl| == 0 then ""
    else if repl[0] == '$' && |repl| >= 2 && repl[1] in "$&`'" then
      var expanded :=
        if repl[1] == '$' then "$"
        else if repl[1] == '&' then matched
        else if repl[1] == '`' then before
        else after;
      expanded + Substitution(repl[2..], matched, before, after)
    else [repl[0]] + Substitution(repl[1..], matched, before, after)
  }

  /** `s.replace(p, q)` with a string pattern and any replacement string `q`:
      the first occurrence of `p`, if any, becomes `q` with its `$` patterns
      expanded. */
  function ReplaceFirstSubstituted(s: string, p: string, q: string): string {
    var i := IndexOf(s, p);
    if i < 0 then s else s[..i] + Substitution(q, p, s[..i], s[i + |p|..]) + s[i + |p|..]
  }

  /** A replacement without `$` stands for itself. */
  lemma {:induction false} SubstitutionLiteral(repl: string, matched: string, before: string, after: string)
    requires '$' !in repl
    ensures Substitution(repl, matched, before, after) == repl
    decreases |repl|
  {
    if |repl| > 0 {
      assert repl[0] != '$';
      assert forall c :: c in repl[1..] ==> c in repl;
      SubstitutionLiteral(repl[1..], matched, before, after);
      assert repl == [repl[0]] + repl[1..];
    }
  }

  /** For a replacement without `$`, `replace` is the literal splice. */
  lemma ReplaceLiteral(s: string, p: string, q: string)
    requires '$' !in q
    ensures ReplaceFirstSubstituted(s, p, q) == ReplaceFirst(s, p, q)
  {
    var i := IndexOf(s, p);
    if i >= 0 {
      SubstitutionLiteral(q, p, s[..i], s[i + |p|..]);
    }
  }

  /** A pattern at the very start is the one replaced, with nothing before it. */
  lemma SubstitutedAtStart(rest: string, p: string, q: string)
    ensures ReplaceFirstSubstituted(p + rest, p, q) == Substitution(q, p, "", rest) + rest
  {
    var s := p + rest;
    assert s[0..|p|] == p;
    IndexOfAt(s, p, 0);
    SubstitutedAt(s, p, q, 0, "", rest);
  }

  /** The replacement at the occurrence `indexOf` finds, with the text before
      and after it named. */
  lemma SubstitutedAt(s: string, p: string, q: string, i: int, before: string, after: string)
    requires i >= 0 && IndexOf(s, p) == i
    requires s[..i] == before && s[i + |p|..] == after
    ensures ReplaceFirstSubstituted(s, p, q) == before + Substitution(q, p, before, after) + after
  {
    var m := Substitution(q, p, s[..i], s[i + |p|..]);
    assert ReplaceFirstSubstituted(s, p, q) == s[..i] + m + s[i + |p|..];
  }

  /** A pattern at the very start is the one replaced. */
  lemma ReplaceAtStart(rest: string, p: string, q: string)
    ensures ReplaceFirst(p + rest, p, q) == q + rest
  {
    var s := p + rest;
    assert s[0..|p|] == p;
    assert IndexOf(s, p) == 0;
    assert s[|p|..] == rest;
  }

  /** Splicing `q` over `m` characters at `r` in the part after `head`. */
  lemma SpliceAfter(head: string, rest: string, r: nat, m: nat, q: string)
    requires r + m <= |rest|
    ensures (head + rest)[..|head| + r] + q + (head + rest)[|head| + r + m..]
         == head + (rest[..r] + q + rest[r + m..])
  {
    var s := head + rest;
    assert s[..|head| + r] == head + rest[..r];
    assert s[|head| + r + m..] == rest[r + m..];
  }

  /** A first line free of the pattern is kept and the replacement happens
      in the lines after it. */
  lemma ReplacePastLine(l: string, rest: string, p: string, q: string)
    requires |p| > 0 && '\n' !in p && !Contains(l, p)
    ensures ReplaceFirst(l + "\n" + rest, p, q) == l + "\n" + ReplaceFirst(rest, p, q)
  {
    IndexOfPastLine(l, rest, p);
    if IndexOf(rest, p) >= 0 {
      ReplaceFoundPastLine(l, rest, p, q);
    }
  }

  lemma ReplaceFoundPastLine(l: string, rest: string, p: string, q: string)
    requires IndexOf(rest, p) >= 0
    requires IndexOf(l + "\n" + rest, p) == |l| + 1 + IndexOf(rest, p)
    ensures ReplaceFirst(l + "\n" + rest, p, q) == l + "\n" + ReplaceFirst(rest, p, q)
  {
    ReplaceShifted(l + "\n", rest, p, q);
  }

  /** A replacement found past a prefix happens inside the rest. */
  lemma ReplaceShifted(head: string, rest: string, p: string, q: string)
    requires IndexOf(rest, p) >= 0
    requires IndexOf(head + rest, p) == |head| + IndexOf(rest, p)
    ensures ReplaceFirst(head + rest, p, q) == head + ReplaceFirst(rest, p, q)
  {
    var whole, r := head + rest, IndexOf(rest, p);
    ReplaceFound(rest, p, q, r);
    calc {
      ReplaceFirst(whole, p, q);
      { ReplaceFound(whole, p, q, |head| + r); }
      whole[..|head| + r] + q + whole[|head| + r + |p|..];
      { SpliceAfter(head, rest, r, |p|, q); }
      head + (rest[..r] + q + rest[r + |p|..]);
    }
  }

  /** The occurrence `indexOf` finds is the one replaced. */
  lemma ReplaceFound(s: string, p: string, q: string, i: int)
    requires i >= 0 && IndexOf(s, p) == i
    ensures i + |p| <= |s| && ReplaceFirst(s, p, q) == s[..i] + q + s[i + |p|..]
  {
  }

  /** A pattern absent from a string is not replaced. */
  lemma ReplaceAbsent(l: string, p: string, q: string)
    requires !Contains(l, p)
    ensures ReplaceFirst(l, p, q) == l
  {
    assert forall j :: !OccursAt(l, p, j);
  }

  /** `lines.join(sep)`. */
  function Join(lines: seq<string>, sep: string): string
    decreases |lines|
  {
    if |lines| == 0 then ""
    else if |lines| == 1 then lines[0]
    else lines[0] + sep + Join(lines[1..], sep)
  }

  lemma JoinCons(l: string, rest: seq<string>)
    requires |rest| >= 1
    ensures Join([l] + rest, "\n") == l + "\n" + Join(rest, "\n")
  {
    assert ([l] + rest)[1..] == rest;
  }

  /** `s.split('\n')`: the maximal newline-free pieces between newlines. */
  function SplitLines(s: string): (r: seq<string>)
    ensures |r| >= 1
    ensures forall k :: 0 <= k < |r| ==> '\n' !in r[k]
    decreases |s|
  {
    var i := IndexOf(s, "\n");
    if i < 0 then
      NoNewlineBefore(s, |s|);
      [s]
    else
      NoNewlineBefore(s, i);
      var rest := SplitLines(s[i + 1..]);
      [s[..i]] + rest
  }

  lemma NewlineAt(s: string, j: int)
    ensures OccursAt(s, "\n", j) <==> 0 <= j < |s| && s[j] == '\n'
  {
    if 0 <= j < |s| {
      assert s[j..j + 1] == [s[j]];
    }
  }

  lemma NoNewlineBefore(s: string, i: nat)
    requires i <= |s|
    requires forall j :: 0 <= j < i ==> !OccursAt(s, "\n", j)
    ensures '\n' !in s[..i]
  {
    forall j | 0 <= j < i ensures s[..i][j] != '\n' {
      NewlineAt(s, j);
    }
  }

  lemma NoNewlineIndex(a: string)
    requires '\n' !in a
    ensures IndexOf(a, "\n") == -1
  {
    forall j ensures !OccursAt(a, "\n", j) {
      NewlineAt(a, j);
    }
  }

  lemma FirstNewline(a: string, b: string)
    requires '\n' !in a
    ensures IndexOf(a + "\n" + b, "\n") == |a|
  {
    var s := a + "\n" + b;
    NewlineAt(s, |a|);
    forall j | 0 <= j < |a| ensures !OccursAt(s, "\n", j) {
      NewlineAt(s, j);
      assert s[j] == a[j];
    }
  }

  /** Splitting a joined list of newline-free lines gives the lines back:
      what `join('\n')` writes, `split('\n')` reads. */
  lemma {:induction false} SplitJoin(lines: seq<string>)
    requires |lines| >= 1
    requires forall k :: 0 <= k < |lines| ==> '\n' !in lines[k]
    ensures SplitLines(Join(lines, "\n")) == lines
  {
    if |lines| == 1 {
      NoNewlineIndex(lines[0]);
    } else {
      var rest := Join(lines[1..], "\n");
      var s := lines[0] + "\n" + rest;
      assert Join(lines, "\n") == s;
      FirstNewline(lines[0], rest);
      assert s[..|lines[0]|] == lines[0];
      assert s[|lines[0]| + 1..] == rest;
      SplitJoin(lines[1..]);
      assert SplitLines(s) == [lines[0]] + SplitLines(rest);
      assert lines == [lines[0]] + lines[1..];
    }
  }

  predicate IsLineTerminator(c: char) {
    c == '\n' || c == '\r' || c == '\U{2028}' || c == '\U{2029}'
  }

  /** The ECMAScript WhiteSpace and LineTerminator characters, which `trim()` removes. */
  predicate IsWhitespace(c: char) {
    || IsLineTerminator(c)
    || c == '\t' || c == '\U{000B}' || c == '\U{000C}' || c == ' '
    || c == '\U{00A0}' || c == '\U{FEFF}' || c == '\U{1680}'
    || ('\U{2000}' <= c <= '\U{200A}')
    || c == '\U{202F}' || c == '\U{205F}' || c == '\U{3000}'
  }

  /** `!s.trim()`: the line is empty once white space is trimmed. */
  predicate IsBlank(s: string) {
    forall i :: 0 <= i < |s| ==> IsWhitespace(s[i])
  }

  /** `\d` */
  predicate IsDigit(c: char) {
    '0' <= c <= '9'
  }

  /** `\w` */
  predicate IsWordChar(c: char) {
    ('a' <= c <= 'z') || ('A' <= c <= 'Z') || IsDigit(c) || c == '_'
  }

  /** `\d+` matching the whole of `t`. */
  predicate AllDigits(t: string) {
    |t| > 0 && forall i :: 0 <= i < |t| ==> IsDigit(t[i])
  }

  /** `\w+` matching the whole of `t`. */
  predicate AllWordChars(t: string) {
    |t| > 0 && forall i :: 0 <= i < |t| ==> IsWordChar(t[i])
  }

  function DigitChar(d: nat): (c: char)
    requires d < 10
    ensures IsDigit(c)
  {
    ('0' as int + d) as char
  }

  /** The number a string of decimal digits denotes. */
  function DecimalValue(s: string): nat
    requires forall i :: 0 <= i < |s| ==> IsDigit(s[i])
  {
    if |s| == 0 then 0
    else
      assert IsDigit(s[|s| - 1]);
      DecimalValue(s[..|s| - 1]) * 10 + DigitValue(s[|s| - 1])
  }

  function DigitValue(c: char): (d: nat)
    requires IsDigit(c)
    ensures d < 10
  {
    c as int - '0' as int
  }

  /** `String(n)` for a natural number: its decimal digits, no leading zero. */
  function NatToString(n: nat): (r: string)
    ensures AllDigits(r)
    ensures DecimalValue(r) == n
    ensures |r| > 1 ==> r[0] != '0'
    decreases n
  {
    if n < 10 then [DigitChar(n)]
    else
      var r := NatToString(n / 10) + [DigitChar(n % 10)];
      assert r[..|r| - 1] == NatToString(n / 10);
      r
  }

  function UpperChar(c: char): char {
    if 'a' <= c <= 'z' then (c as int - 32) as char else c
  }

  /** `s.toUpperCase()` on ASCII letters; every other character is kept. */
  function ToUpper(s: string): (r: string)
    ensures |r| == |s|
    ensures forall i :: 0 <= i < |s| ==> r[i] == UpperChar(s[i])
  {
    seq(|s|, i requires 0 <= i < |s| => UpperChar(s[i]))
  }

  lemma ToUpperConcat(a: string, b: string)
    ensures ToUpper(a + b) == ToUpper(a) + ToUpper(b)
  {
    var u, v := ToUpper(a + b), ToUpper(a) + ToUpper(b);
    forall i | 0 <= i < |u| ensures u[i] == v[i] {
      if i < |a| {
        assert (a + b)[i] == a[i];
      } else {
        assert (a + b)[i] == b[i - |a|];
      }
    }
  }
}
