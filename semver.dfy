/** The slice of Semantic Versioning 2.0.0 that release-creator.js uses
    through `semver.inc(version, releaseType, prereleaseTag)`: versions
    `major.minor.patch` with an optional prerelease part of the shape
    `-<tag>.<n>` (or `-<n>` when no tag was given), the seven increment kinds,
    and the precedence order of section 11 of Semantic Versioning 2.0.0. */
module Semver {

  import opened Wrappers
  import opened JsStrings

  /** The prerelease identifiers: none, `[tag, n]`, or `[n]` when `tag` is empty.
      A tag is taken to be an alphanumeric (non-numeric) identifier. */
  datatype Prerelease = Stable | Pre(tag: string, n: nat)

  datatype Version = Version(major: nat, minor: nat, patch: nat, pre: Prerelease)

  /** The `release` argument of `semver.inc`. */
  datatype ReleaseType = Major | Minor | Patch | Premajor | Preminor | Prepatch | Prerelease

  /** The version as `semver` prints it. */
  function Format(v: Version): string {
    CoreText(v) + PreText(v.pre)
  }

  /** The `major.minor.patch` part. */
  function CoreText(v: Version): string {
    NatToString(v.major) + "." + NatToString(v.minor) + "." + NatToString(v.patch)
  }

  /** The prerelease part: empty, `-<tag>.<n>`, or `-<n>` without a tag. */
  function PreText(p: Prerelease): string {
    match p
    case Stable => ""
    case Pre(tag, n) => "-" + (if tag == "" then "" else tag + ".") + NatToString(n)
  }

  /** `inc('pre', identifier)`: bump the trailing number (start at `[0]`),
      then switch to `[identifier, 0]` unless already on that identifier. */
  function IncPre(p: Prerelease, identifier: Option<string>): Prerelease {
    var bumped := if p.Stable? then Pre("", 0) else Pre(p.tag, p.n + 1);
    if !Truthy(identifier) || bumped.tag == identifier.value then bumped
    else Pre(identifier.value, 0)
  }

  /** `semver.inc(v, t, identifier)` */
  function Inc(v: Version, t: ReleaseType, identifier: Option<string>): Version {
    match t
    case Major =>
      // A pre-major version is released as that major version.
      if v.minor != 0 || v.patch != 0 || v.pre.Stable? then Version(v.major + 1, 0, 0, Stable)
      else Version(v.major, 0, 0, Stable)
    case Minor =>
      if v.patch != 0 || v.pre.Stable? then Version(v.major, v.minor + 1, 0, Stable)
      else Version(v.major, v.minor, 0, Stable)
    case Patch =>
      if v.pre.Stable? then Version(v.major, v.minor, v.patch + 1, Stable)
      else Version(v.major, v.minor, v.patch, Stable)
    case Premajor => Version(v.major + 1, 0, 0, IncPre(Stable, identifier))
    case Preminor => Version(v.major, v.minor + 1, 0, IncPre(Stable, identifier))
    case Prepatch => Version(v.major, v.minor, v.patch + 1, IncPre(Stable, identifier))
    case Prerelease =>
      if v.pre.Stable? then Version(v.major, v.minor, v.patch + 1, IncPre(Stable, identifier))
      else Version(v.major, v.minor, v.patch, IncPre(v.pre, identifier))
  }

  /** ASCII (code point) order on identifiers. */
  predicate LexLess(a: string, b: string)
    decreases |a|
  {
    if |a| == 0 then |b| > 0
    else if |b| == 0 then false
    else if a[0] != b[0] then a[0] < b[0]
    else LexLess(a[1..], b[1..])
  }

  /** Sections 11.3 and 11.4 of Semantic Versioning 2.0.0: a prerelease ranks below the normal version;
      numeric identifiers rank below alphanumeric ones; equal tags compare
      by their number. */
  predicate PreLess(a: Prerelease, b: Prerelease) {
    match (a, b)
    case (Stable, _) => false
    case (Pre(_, _), Stable) => true
    case (Pre(ta, na), Pre(tb, nb)) =>
      if ta == tb then na < nb
      else if ta == "" then true
      else if tb == "" then false
      else LexLess(ta, tb)
  }

  /** `a` has lower precedence than `b` (section 11). */
  predicate Precedes(a: Version, b: Version) {
    || a.major < b.major
    || (a.major == b.major && a.minor < b.minor)
    || (a.major == b.major && a.minor == b.minor && a.patch < b.patch)
    || (a.major == b.major && a.minor == b.minor && a.patch == b.patch && PreLess(a.pre, b.pre))
  }

  /** Every increment moves the version up in precedence, except a
      `prerelease` increment that switches to a tag sorting before the
      current one. */
  lemma IncAdvances(v: Version, t: ReleaseType, identifier: Option<string>)
    requires t == Prerelease && v.pre.Pre? && Truthy(identifier) && v.pre.tag != "" && identifier.value != v.pre.tag
             ==> LexLess(v.pre.tag, identifier.value)
    ensures Precedes(v, Inc(v, t, identifier))
  {
  }

  /** The exception is real: from `2.3.9-beta.0`, `prerelease` with the tag
      `alpha` gives `2.3.9-alpha.0`, which ranks below the version it came from. */
  lemma PrereleaseTagSwitchGoesBack()
    ensures var v := Version(2, 3, 9, Pre("beta", 0));
      Inc(v, Prerelease, Some("alpha")) == Version(2, 3, 9, Pre("alpha", 0))
      && Precedes(Inc(v, Prerelease, Some("alpha")), v)
  {
    assert LexLess("alpha", "beta");
  }

  /** Release types that are not prereleases give a stable version;
      prerelease types with a tag give `-<tag>.<n>`. */
  lemma IncShape(v: Version, t: ReleaseType, identifier: Option<string>)
    ensures t in {Major, Minor, Patch} ==> Inc(v, t, identifier).pre.Stable?
    ensures t !in {Major, Minor, Patch} && Truthy(identifier)
            ==> (Inc(v, t, identifier).pre.Pre? && Inc(v, t, identifier).pre.tag == identifier.value)
  {
  }

  /** The increments the release tests pin down, from `2.3.9`. */
  lemma IncExamples(v: Version)
    requires v == Version(2, 3, 9, Stable)
    ensures Format(Inc(v, Patch, None)) == "2.3.10"
    ensures Format(Inc(v, Minor, None)) == "2.4.0"
    ensures Format(Inc(v, Major, None)) == "3.0.0"
  {
    assert NatToString(10) == "10";
  }

  lemma PrepatchExample(v: Version)
    requires v == Version(2, 3, 9, Stable)
    ensures Format(Inc(v, Prepatch, Some("beta"))) == "2.3.10-beta.0"
  {
    var w := Inc(v, Prepatch, Some("beta"));
    assert w == Version(2, 3, 10, Pre("beta", 0));
    assert NatToString(10) == "10";
    assert CoreText(w) == "2.3.10";
    assert PreText(w.pre) == "-beta.0";
  }

  lemma PreminorExample(v: Version)
    requires v == Version(2, 3, 9, Stable)
    ensures Format(Inc(v, Preminor, Some("beta"))) == "2.4.0-beta.0"
  {
    var w := Inc(v, Preminor, Some("beta"));
    assert w == Version(2, 4, 0, Pre("beta", 0));
    assert CoreText(w) == "2.4.0";
    assert PreText(w.pre) == "-beta.0";
  }

  lemma PremajorExample(v: Version)
    requires v == Version(2, 3, 9, Stable)
    ensures Format(Inc(v, Premajor, Some("beta"))) == "3.0.0-beta.0"
  {
    var w := Inc(v, Premajor, Some("beta"));
    assert w == Version(3, 0, 0, Pre("beta", 0));
    assert CoreText(w) == "3.0.0";
    assert PreText(w.pre) == "-beta.0";
  }

  /** From `2.3.9-beta.0`: the same tag bumps the number. */
  lemma SameTagPrereleaseExample(v: Version)
    requires v == Version(2, 3, 9, Pre("beta", 0))
    ensures Format(Inc(v, Prerelease, Some("beta"))) == "2.3.9-beta.1"
  {
    var w := Inc(v, Prerelease, Some("beta"));
    assert w == Version(2, 3, 9, Pre("beta", 1));
    assert CoreText(w) == "2.3.9";
    assert PreText(w.pre) == "-beta.1";
  }

  /** From `2.3.9-beta.0`: a new tag restarts at 0. */
  lemma NewTagPrereleaseExample(v: Version)
    requires v == Version(2, 3, 9, Pre("beta", 0))
    ensures Format(Inc(v, Prerelease, Some("alpha"))) == "2.3.9-alpha.0"
  {
    var w := Inc(v, Prerelease, Some("alpha"));
    assert w == Version(2, 3, 9, Pre("alpha", 0));
    assert CoreText(w) == "2.3.9";
    assert PreText(w.pre) == "-alpha.0";
  }
}
