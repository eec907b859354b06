/** The release planner of services/release-creator.js: the command-line
    parse into a release type and prerelease tag, the version bump, the
    changelog header splice, the commit message and tag, and the choice and
    order of git steps. Git itself is not modelled: a plan is the list of
    steps the planner would issue, and `BranchAfter` replays it to follow the
    checked-out branch. */
module ReleasePlanning {

  import opened Wrappers
  import opened JsStrings
  import opened Semver

  const BRANCH_MASTER := "master"
  const BRANCH_DEVEL := "devel"
  const CHANGELOG_FILE := "CHANGELOG.md"
  const PACKAGE_FILE := "package.json"
  const REMOTE := "origin"
  const DEFAULT_PRERELEASE_TAG := "beta"
  /** The index in the changelog's line list where the new header is spliced. */
  const HEADER_LINE := 3

  /** The option names of `RELEASE_OPTIONS`. */
  function OptionName(t: ReleaseType): string {
    match t
    case Major => "major"
    case Minor => "minor"
    case Patch => "patch"
    case Premajor => "premajor"
    case Preminor => "preminor"
    case Prepatch => "prepatch"
    case Prerelease => "prerelease"
  }

  /** Membership in `PRERELEASE_OPTIONS`. */
  predicate IsPrereleaseType(t: ReleaseType) {
    t == Premajor || t == Preminor || t == Prepatch || t == Prerelease
  }

  /** `RELEASE_OPTIONS.includes(option)`, answering the type so named. */
  function ReleaseOption(option: string): (r: Option<ReleaseType>)
    ensures r.Some? ==> OptionName(r.value) == option
    ensures r.None? <==> forall t: ReleaseType :: OptionName(t) != option
  {
    if option == "major" then Some(Major)
    else if option == "minor" then Some(Minor)
    else if option == "patch" then Some(Patch)
    else if option == "premajor" then Some(Premajor)
    else if option == "preminor" then Some(Preminor)
    else if option == "prepatch" then Some(Prepatch)
    else if option == "prerelease" then Some(Prerelease)
    else None
  }

  /** `arg.replace('--', '')`: the first `--` removed. */
  function StripDashes(arg: string): string {
    ReplaceFirst(arg, "--", "")
  }

  /** What the parse promises for `argv` (`argv[0]` and `argv[1]` are the
      interpreter and the script): the type named by the third argument when it
      is an option, `patch` otherwise; the tag given as the fourth argument,
      else `beta` exactly for the prerelease types. */
  predicate ParsesAs(argv: seq<string>, releaseType: ReleaseType, prereleaseTag: Option<string>) {
    && (if |argv| > 2 && ReleaseOption(StripDashes(argv[2])).Some?
        then releaseType == ReleaseOption(StripDashes(argv[2])).value
        else releaseType == Patch)
    && (if |argv| > 3 && argv[3] != ""
        then prereleaseTag == Some(StripDashes(argv[3]))
        else if IsPrereleaseType(releaseType) then prereleaseTag == Some(DEFAULT_PRERELEASE_TAG)
        else prereleaseTag == None)
  }

  /** `parseCommandLineArguments`. */
  method ParseCommandLineArguments(argv: seq<string>) returns (releaseType: ReleaseType, prereleaseTag: Option<string>)
    ensures ParsesAs(argv, releaseType, prereleaseTag)
  {
    releaseType := Patch;
    prereleaseTag := None;
    if |argv| > 2 && argv[2] != "" {
      var option := StripDashes(argv[2]);
      var named := ReleaseOption(option);
      if named.Some? {
        releaseType := named.value;
      }
    }
    if |argv| > 3 && argv[3] != "" {
      var option := StripDashes(argv[3]);
      prereleaseTag := Some(option);
    } else if IsPrereleaseType(releaseType) {
      prereleaseTag := Some(DEFAULT_PRERELEASE_TAG);
    }
  }

  /** The parse has one outcome per argument vector. */
  lemma ParsesAsIsFunctional(argv: seq<string>, t1: ReleaseType, g1: Option<string>, t2: ReleaseType, g2: Option<string>)
    requires ParsesAs(argv, t1, g1) && ParsesAs(argv, t2, g2)
    ensures t1 == t2 && g1 == g2
  {
  }

  /** Every option name parses back to its type, with or without a leading `--`. */
  lemma OptionNameParses(t: ReleaseType)
    ensures ReleaseOption(OptionName(t)) == Some(t)
    ensures StripDashes("--" + OptionName(t)) == OptionName(t)
  {
    var s := "--" + OptionName(t);
    assert OccursAt(s, "--", 0);
    assert s[2..] == OptionName(t);
  }

  /** The line spliced into the changelog. Its leading newline leaves a
      blank line before the header once the lines are joined. */
  function ReleaseHeader(version: Option<string>, today: string): string {
    "\n## RELEASE " + (if version.Some? then version.value + " " else "") + "- " + today
  }

  /** `lines.splice(at, 0, item)`: `item` is inserted at `at`, or appended
      when the list is shorter. */
  function InsertAt(lines: seq<string>, at: nat, item: string): (r: seq<string>)
    ensures var p := if at <= |lines| then at else |lines|;
      && |r| == |lines| + 1
      && r[p] == item
      && (forall i :: 0 <= i < p ==> r[i] == lines[i])
      && (forall i :: p <= i < |lines| ==> r[i + 1] == lines[i])
  {
    var p := if at <= |lines| then at else |lines|;
    lines[..p] + [item] + lines[p..]
  }

  /** Taking the inserted line out again gives back the original lines. */
  lemma InsertAtRemoved(lines: seq<string>, at: nat, item: string)
    ensures var p := if at <= |lines| then at else |lines|;
      var r := InsertAt(lines, at, item);
      r[..p] + r[p + 1..] == lines
  {
    var p := if at <= |lines| then at else |lines|;
    var r := InsertAt(lines, at, item);
    assert |r[..p] + r[p + 1..]| == |lines|;
    forall i | 0 <= i < |lines| ensures (r[..p] + r[p + 1..])[i] == lines[i] {
      if i >= p {
        assert (r[..p] + r[p + 1..])[i] == r[i + 1];
      }
    }
  }

  function CommitMessage(version: Option<string>, today: string): string {
    if version.Some? then "Release " + version.value else "Release - " + today
  }

  function TagName(version: string): string {
    "v" + version
  }

  /** One git operation of a release, as the planner issues it. */
  datatype Step =
    | Checkout(branch: string)
    | Pull
    | WriteFile(file: string)
    | Add(files: seq<string>)
    | Commit(message: string)
    | Push
    | AddTag(tag: string)
    | PushTag(remote: string, tag: string)
    | Merge(source: string, target: string)

  /** `pullAndCommitChanges`: check out the branch when one is named, pull,
      write the files, stage both, commit and push. */
  function PullAndCommitChanges(withVersion: bool, message: string, branch: string): seq<Step> {
    (if branch != "" then [Checkout(branch)] else [])
    + [Pull]
    + (if withVersion then [WriteFile(PACKAGE_FILE)] else [])
    + [WriteFile(CHANGELOG_FILE), Add([CHANGELOG_FILE, PACKAGE_FILE]), Commit(message), Push]
  }

  /** `addTagToGit`, issued only when the release has a version. */
  function AddTagToGit(tag: Option<string>): seq<Step> {
    if tag.Some? then [AddTag(tag.value), PushTag(REMOTE, tag.value)] else []
  }

  /** `mergeDevelOntoMaster` */
  function MergeDevelOntoMaster(): seq<Step> {
    [Checkout(BRANCH_MASTER), Pull, Merge(BRANCH_DEVEL, BRANCH_MASTER), Push]
  }

  /** `/v\d+(\.\d+)?/.test(branch)`: the pattern is not anchored and its
      optional group never changes the answer, so it holds exactly when a `v`
      is followed by a digit somewhere in the name. */
  ghost predicate IsVersionBranch(branch: string) {
    exists i :: 0 <= i < |branch| - 1 && branch[i] == 'v' && IsDigit(branch[i + 1])
  }

  /** The same test as a scan from the left. */
  predicate HasVersionMarker(branch: string)
    decreases |branch|
  {
    |branch| >= 2 && ((branch[0] == 'v' && IsDigit(branch[1])) || HasVersionMarker(branch[1..]))
  }

  lemma {:induction false} HasVersionMarkerIsVersionBranch(branch: string)
    ensures HasVersionMarker(branch) <==> IsVersionBranch(branch)
    decreases |branch|
  {
    if |branch| >= 2 {
      var rest := branch[1..];
      HasVersionMarkerIsVersionBranch(rest);
      if IsVersionBranch(rest) {
        var i :| 0 <= i < |rest| - 1 && rest[i] == 'v' && IsDigit(rest[i + 1]);
        assert branch[i + 1] == 'v' && IsDigit(branch[i + 2]);
      }
      if IsVersionBranch(branch) && !(branch[0] == 'v' && IsDigit(branch[1])) {
        var i :| 0 <= i < |branch| - 1 && branch[i] == 'v' && IsDigit(branch[i + 1]);
        assert rest[i - 1] == 'v' && IsDigit(rest[i]);
      }
    }
  }

  /** The branch test: release in place when a prerelease tag is set or the
      current branch is a version branch. */
  predicate ReleasesInPlace(prereleaseTag: Option<string>, currentBranch: string) {
    Truthy(prereleaseTag) || HasVersionMarker(currentBranch)
  }

  /** `devel` takes the devel flow and `v4` is released in place. */
  lemma BranchChoiceExamples()
    ensures !ReleasesInPlace(None, "devel")
    ensures ReleasesInPlace(None, "v4")
    ensures ReleasesInPlace(Some("beta"), "devel")
  {
  }

  /** The whole sequence of git steps of a release. */
  function GitPlan(withVersion: bool, message: string, tag: Option<string>,
                   prereleaseTag: Option<string>, currentBranch: string): seq<Step>
  {
    if ReleasesInPlace(prereleaseTag, currentBranch) then
      PullAndCommitChanges(withVersion, message, currentBranch) + AddTagToGit(tag)
    else
      PullAndCommitChanges(withVersion, message, BRANCH_DEVEL) + MergeDevelOntoMaster()
      + AddTagToGit(tag) + [Checkout(BRANCH_DEVEL)]
  }

  /** The branch checked out after running `steps` from branch `start`. */
  function BranchAfter(steps: seq<Step>, start: string): string
    decreases |steps|
  {
    if |steps| == 0 then start
    else BranchAfter(steps[1..], if steps[0].Checkout? then steps[0].branch else start)
  }

  /** The branch on which step `i` runs. */
  function BranchAt(steps: seq<Step>, start: string, i: nat): string
    requires i <= |steps|
  {
    BranchAfter(steps[..i], start)
  }

  lemma {:induction false} BranchAfterAppend(a: seq<Step>, b: seq<Step>, start: string)
    ensures BranchAfter(a + b, start) == BranchAfter(b, BranchAfter(a, start))
    decreases |a|
  {
    if |a| == 0 {
      assert a + b == b;
    } else {
      assert (a + b)[1..] == a[1..] + b;
      BranchAfterAppend(a[1..], b, if a[0].Checkout? then a[0].branch else start);
    }
  }

  /** Steps that check out nothing but `b` leave `b` checked out. */
  lemma {:induction false} StaysOn(steps: seq<Step>, b: string)
    requires forall k :: 0 <= k < |steps| && steps[k].Checkout? ==> steps[k].branch == b
    ensures BranchAfter(steps, b) == b
    decreases |steps|
  {
    if |steps| > 0 {
      StaysOn(steps[1..], b);
    }
  }

  /** Steps that begin by checking out `b` and check out nothing else end on `b`. */
  lemma EndsOn(steps: seq<Step>, b: string, start: string)
    requires |steps| > 0 && steps[0] == Checkout(b)
    requires forall k :: 0 <= k < |steps| && steps[k].Checkout? ==> steps[k].branch == b
    ensures BranchAfter(steps, start) == b
  {
    StaysOn(steps[1..], b);
  }

  /** Where the commit falls in the devel flow: after the checkout, the pull
      and the one or two file writes and the staging. */
  function DevelCommitIndex(withVersion: bool): nat {
    if withVersion then 5 else 4
  }

  /** Both files are always staged; `package.json` is written only for a
      versioned release; the one commit carries the release message. */
  lemma StagedFiles(withVersion: bool, message: string, branch: string, plan: seq<Step>)
    requires plan == PullAndCommitChanges(withVersion, message, branch)
    ensures forall k :: 0 <= k < |plan| && plan[k].Add? ==> plan[k].files == [CHANGELOG_FILE, PACKAGE_FILE]
    ensures WriteFile(PACKAGE_FILE) in plan <==> withVersion
    ensures WriteFile(CHANGELOG_FILE) in plan
    ensures forall k :: 0 <= k < |plan| && plan[k].Commit? ==> plan[k] == Commit(message) && k == |plan| - 2
  {
    var head := if branch != "" then [Checkout(branch)] else [];
    var pkg := if withVersion then [WriteFile(PACKAGE_FILE)] else [];
    var tail := [WriteFile(CHANGELOG_FILE), Add([CHANGELOG_FILE, PACKAGE_FILE]), Commit(message), Push];
    assert plan == head + [Pull] + pkg + tail;
    assert plan[|plan| - 4] == WriteFile(CHANGELOG_FILE);
    if withVersion {
      assert plan[|head| + 1] == WriteFile(PACKAGE_FILE);
    } else {
      assert plan == head + [Pull] + tail;
    }
  }

  /** In place: every step runs on the current branch, nothing else is checked
      out, nothing is merged, and a versioned release ends with its tag. */
  lemma InPlacePlan(withVersion: bool, message: string, tag: Option<string>,
                    prereleaseTag: Option<string>, currentBranch: string, plan: seq<Step>)
    requires ReleasesInPlace(prereleaseTag, currentBranch)
    requires plan == GitPlan(withVersion, message, tag, prereleaseTag, currentBranch)
    ensures forall k :: 0 <= k < |plan| ==> !plan[k].Merge?
    ensures forall k :: 0 <= k < |plan| && plan[k].Checkout? ==> plan[k].branch == currentBranch
    ensures forall i :: 0 <= i <= |plan| ==> BranchAt(plan, currentBranch, i) == currentBranch
    ensures Commit(message) in plan
    ensures tag.Some? ==> plan[|plan| - 2..] == [AddTag(tag.value), PushTag(REMOTE, tag.value)]
  {
    var pc := PullAndCommitChanges(withVersion, message, currentBranch);
    assert plan == pc + AddTagToGit(tag);
    InPlaceSteps(withVersion, message, currentBranch, tag);
    assert pc[|pc| - 2] == Commit(message);
    assert plan[|pc| - 2] == Commit(message);
    forall i | 0 <= i <= |plan| ensures BranchAt(plan, currentBranch, i) == currentBranch {
      StaysOn(plan[..i], currentBranch);
    }
  }

  /** Committing and tagging in place merges nothing and checks out only
      the current branch. */
  lemma InPlaceSteps(withVersion: bool, message: string, branch: string, tag: Option<string>)
    ensures var steps := PullAndCommitChanges(withVersion, message, branch) + AddTagToGit(tag);
      forall k :: 0 <= k < |steps| ==> !steps[k].Merge? && (steps[k].Checkout? ==> steps[k].branch == branch)
  {
  }

  /** The devel flow's steps: one commit with the release message, then one
      merge of `devel` into `master`, then the tag. */
  lemma DevelPlanSteps(withVersion: bool, message: string, tag: Option<string>,
                       prereleaseTag: Option<string>, currentBranch: string, plan: seq<Step>)
    requires !ReleasesInPlace(prereleaseTag, currentBranch)
    requires plan == GitPlan(withVersion, message, tag, prereleaseTag, currentBranch)
    ensures DevelCommitIndex(withVersion) + 4 < |plan|
    ensures plan[DevelCommitIndex(withVersion)] == Commit(message)
    ensures plan[DevelCommitIndex(withVersion) + 4] == Merge(BRANCH_DEVEL, BRANCH_MASTER)
    ensures forall k :: 0 <= k < |plan| && plan[k].Merge? ==> k == DevelCommitIndex(withVersion) + 4
    ensures forall k :: 0 <= k < |plan| && plan[k].Commit? ==> k == DevelCommitIndex(withVersion)
    ensures tag.Some? ==> plan[DevelCommitIndex(withVersion) + 6] == AddTag(tag.value)
    ensures plan[|plan| - 1] == Checkout(BRANCH_DEVEL)
  {
    var pc := PullAndCommitChanges(withVersion, message, BRANCH_DEVEL);
    var mg := MergeDevelOntoMaster();
    var tg := AddTagToGit(tag);
    assert plan == pc + mg + tg + [Checkout(BRANCH_DEVEL)];
    StagedFiles(withVersion, message, BRANCH_DEVEL, pc);
    var c := DevelCommitIndex(withVersion);
    assert |pc| == c + 2;
    forall k | 0 <= k < |plan| && (plan[k].Merge? || plan[k].Commit?)
      ensures k == c + 4 || k == c
      ensures plan[k].Merge? ==> k == c + 4
    {
      if k < |pc| {
        assert plan[k] == pc[k];
      }
    }
  }

  /** Committing on `devel` ends on `devel`, and so does every prefix that
      has passed the checkout. */
  lemma DevelCommitBranch(withVersion: bool, message: string, start: string, pc: seq<Step>)
    requires pc == PullAndCommitChanges(withVersion, message, BRANCH_DEVEL)
    ensures |pc| == DevelCommitIndex(withVersion) + 2
    ensures BranchAfter(pc[..DevelCommitIndex(withVersion)], start) == BRANCH_DEVEL
    ensures BranchAfter(pc, start) == BRANCH_DEVEL
  {
    var c := DevelCommitIndex(withVersion);
    EndsOn(pc[..c], BRANCH_DEVEL, start);
    EndsOn(pc, BRANCH_DEVEL, start);
  }

  /** The merge runs on `master`, and the run is still on `master` after it. */
  lemma MergeBranch(start: string, mg: seq<Step>)
    requires mg == MergeDevelOntoMaster()
    ensures BranchAfter(mg[..2], start) == BRANCH_MASTER
    ensures BranchAfter(mg, start) == BRANCH_MASTER
  {
    EndsOn(mg[..2], BRANCH_MASTER, start);
    EndsOn(mg, BRANCH_MASTER, start);
  }

  /** The devel flow's branches: the commit runs on `devel`, the merge and
      the tag on `master`, and the run finishes on `devel`. */
  lemma DevelPlanBranches(withVersion: bool, message: string, tag: Option<string>,
                          prereleaseTag: Option<string>, currentBranch: string, plan: seq<Step>)
    requires !ReleasesInPlace(prereleaseTag, currentBranch)
    requires plan == GitPlan(withVersion, message, tag, prereleaseTag, currentBranch)
    ensures DevelCommitIndex(withVersion) + 6 < |plan|
    ensures BranchAt(plan, currentBranch, DevelCommitIndex(withVersion)) == BRANCH_DEVEL
    ensures BranchAt(plan, currentBranch, DevelCommitIndex(withVersion) + 4) == BRANCH_MASTER
    ensures BranchAt(plan, currentBranch, DevelCommitIndex(withVersion) + 6) == BRANCH_MASTER
    ensures BranchAfter(plan, currentBranch) == BRANCH_DEVEL
  {
    var pc := PullAndCommitChanges(withVersion, message, BRANCH_DEVEL);
    var mg := MergeDevelOntoMaster();
    var rest := mg + AddTagToGit(tag) + [Checkout(BRANCH_DEVEL)];
    var c := DevelCommitIndex(withVersion);
    assert plan == pc + rest;
    DevelCommitBranch(withVersion, message, currentBranch, pc);
    MergeBranch(BRANCH_DEVEL, mg);
    BranchAtPrefix(pc, rest, currentBranch, c);
    assert rest[..2] == mg[..2] && rest[..4] == mg;
    BranchAtPast(pc, rest, currentBranch, c + 4);
    BranchAtPast(pc, rest, currentBranch, c + 6);
    BranchAfterAppend(mg + AddTagToGit(tag), [Checkout(BRANCH_DEVEL)], BRANCH_DEVEL);
    BranchAfterAppend(pc, rest, currentBranch);
  }

  /** A step within `a` runs where it would without `b`. */
  lemma BranchAtPrefix(a: seq<Step>, b: seq<Step>, start: string, i: nat)
    requires i <= |a|
    ensures BranchAt(a + b, start, i) == BranchAfter(a[..i], start)
  {
    assert (a + b)[..i] == a[..i];
  }

  /** A step within `b` runs where `b` alone would, started after `a`. */
  lemma BranchAtPast(a: seq<Step>, b: seq<Step>, start: string, i: nat)
    requires |a| <= i <= |a| + |b|
    ensures BranchAt(a + b, start, i) == BranchAfter(b[..i - |a|], BranchAfter(a, start))
  {
    assert (a + b)[..i] == a + b[..i - |a|];
    BranchAfterAppend(a, b[..i - |a|], start);
  }

  /** The outcome of `perform`: the parsed arguments, the new version, the
      changelog text to write, the commit message, the tag and the git steps. */
  datatype ReleaseRun = ReleaseRun(
    releaseType: ReleaseType,
    prereleaseTag: Option<string>,
    version: Option<string>,
    changelog: string,
    commitMessage: string,
    tag: Option<string>,
    plan: seq<Step>)

  /** `perform`, with the file contents, today's date and the current branch
      given as inputs. */
  method Perform(withVersion: bool, argv: seq<string>, packageVersion: Version,
                 changelog: string, today: string, currentBranch: string) returns (run: ReleaseRun)
    ensures withVersion ==>
              && ParsesAs(argv, run.releaseType, run.prereleaseTag)
              && run.version == Some(Format(Inc(packageVersion, run.releaseType, run.prereleaseTag)))
              && run.tag == Some(TagName(run.version.value))
    ensures !withVersion ==>
              && run.releaseType == Patch && run.prereleaseTag == None
              && run.version == None && run.tag == None
    ensures run.changelog == Join(InsertAt(SplitLines(changelog), HEADER_LINE, ReleaseHeader(run.version, today)), "\n")
    ensures run.commitMessage == CommitMessage(run.version, today)
    ensures run.plan == GitPlan(withVersion, run.commitMessage, run.tag, run.prereleaseTag, currentBranch)
  {
    var releaseType := Patch;
    var prereleaseTag: Option<string> := None;
    var version: Option<string> := None;
    if withVersion {
      releaseType, prereleaseTag := ParseCommandLineArguments(argv);
      version := Some(Format(Inc(packageVersion, releaseType, prereleaseTag)));
    }

    var changes := SplitLines(changelog);
    changes := InsertAt(changes, HEADER_LINE, ReleaseHeader(version, today));
    var newChanges := Join(changes, "\n");

    var commitMessage := CommitMessage(version, today);
    var tag := if version.Some? then Some(TagName(version.value)) else None;

    var plan := GitPlan(withVersion, commitMessage, tag, prereleaseTag, currentBranch);
    run := ReleaseRun(releaseType, prereleaseTag, version, newChanges, commitMessage, tag, plan);
  }

  /** A patch release of 2.3.9 commits `Release 2.3.10` and tags `v2.3.10`. */
  lemma PatchReleaseExample(prev: Version)
    requires prev == Version(2, 3, 9, Stable)
    ensures var v := Format(Inc(prev, Patch, None));
      CommitMessage(Some(v), "2019-08-23") == "Release 2.3.10" && TagName(v) == "v2.3.10"
  {
    IncExamples(prev);
  }
}
