# Release automation, modelled in Dafny

This project models the decision logic of a release-automation toolkit for
JavaScript packages. Git, Slack, ClickUp and the file system are outside the
model. What remains is five pieces of sequential logic:

- **Release notes** (`ReleaseNotes`, release_note_creator.dfy). This finds the
  most recent `## RELEASE …` block of a changelog given as its lines. It
  formats the block's title and body for a chat post and describes the upload
  request. The line array that the original consumes with `shift()` is a class
  (`ChangelogLines`) whose methods are proved against the pure extraction.
- **Release planning** (`ReleasePlanning`, release_creator.dfy, and `Semver`,
  semver.dfy). This covers:
  - the command-line parse into a release type and a prerelease tag;
  - the version bump for the seven increment kinds;
  - the changelog header splice;
  - the commit message and the tag;
  - the git steps of a release, as a list of abstract steps, replayed to
    follow the checked-out branch.
- **The two halves together** (`ReleaseRoundTrip`, release_roundtrip.dfy). The
  header the planner writes is the header the note creator finds next. The
  lines that waited above the previous release become the note's changes.
- **ClickUp status reconciliation** (`ClickUp`, clickup_status.dfy, with
  clickup_service.dfy and clickup_script.dfy). A pull-request event moves the
  tagged task forward to a target status and rolls its parent up. A push event
  moves every tagged task to "released". The service and the older script
  differ only in data: the priority list, the tag opener and case folding. Both
  are one `Variant` of the same model. The HTTP API is an `Api` value, and an
  event's effect is the list of PUT requests it sends.
- **Coverage badge** (`BadgeCoverage`, badge_coverage.dfy). This sums the lcov
  line counts, works out the floored percentage and the colour, builds the
  shields.io URL, and replaces the first coverage badge of the README.

Shared modules:

- `Wrappers` holds `Option` and `Result`.
- `Errors` holds the error kinds of utils/errors.js.
- `JsStrings` holds the JavaScript string built-ins the code relies on:
  - `indexOf`;
  - `substring`, with its clamping and swapping;
  - `replace` of the first occurrence, with the `$$`, `$&`, `` $` `` and `$'` patterns of its replacement string;
  - `split`/`join` on newlines;
  - `trim()` blankness;
  - ASCII `toUpperCase`;
  - `String(n)`.

## Model

| member | source | states |
|---|---|---|
| ReleaseNotes.NewCreator | services/release-note-creator.js:13-22 | A missing token fails with SlackTokenMissing, checked before the icon. Then a missing icon fails with ProjectIconMissing. Construction succeeds exactly when both are truthy. The channel defaults to G501BDD5W, and withVersion is copied. |
| ReleaseNotes.FirstHeaderIndex | services/release-note-creator.js:24-32 | The index where the header search stops. No line before it is a release header. It is a header unless it is the end of the list. |
| ReleaseNotes.TrimTrailingBlank | services/release-note-creator.js:40-46 | The result is a prefix of the lines. Its last line, if any, is non-blank. Every line dropped is blank after trimming. |
| ReleaseNotes.ExtractLastRelease | services/release-note-creator.js:51-67 | Extraction fails only with WronglyFormattedChangelog. |
| ReleaseNotes.ExtractFailsIff | services/release-note-creator.js:51-67 | Extraction fails exactly when no line before the last one is a release header, which covers `[]` and `['']`. |
| ReleaseNotes.ExtractedReleaseShape | services/release-note-creator.js:24-67 | The title is the first header, and it is not the last line. The changes are the header-free lines after it, ending on a non-blank line. Only blank lines follow them up to the next header or the end. |
| ReleaseNotes.ChangelogLines.FindReleaseHeader | services/release-note-creator.js:28-32 | The shifting loop drops exactly the lines before the first header. |
| ReleaseNotes.ChangelogLines.CollectChanges | services/release-note-creator.js:34-49 | The loop moves the lines up to the next header out of the array. The popping loop then leaves them without trailing blank lines. |
| ReleaseNotes.ChangelogLines.ExtractLastReleaseTitleAndChanges | services/release-note-creator.js:51-67 | The in-place extraction returns what `ExtractLastRelease` gives for the initial array. |
| ReleaseNotes.FormattedTitleOfHeader | services/release-note-creator.js:73-75 | Every release header contains ` - `. The title is `RELEASE `, then the icon and a space with their `$` patterns expanded as in a `replace` string, then the text after the first ` - `. |
| ReleaseNotes.FormatTitleAfter | services/release-note-creator.js:73-75 | A title `a - b`, with no space followed by a dash in `a`, formats to `RELEASE `, the expanded icon text, and `b`. |
| ReleaseNotes.PlainIconText | services/release-note-creator.js:74 | An icon without `$` is written as it is, followed by a space. |
| ReleaseNotes.TitleExample | test/services/release-note-creator.js:150 | `## RELEASE - 2019-08-23` formats to `RELEASE 😁 2019-08-23` for the icon 😁, and likewise for every icon without `$`. |
| ReleaseNotes.DollarIconExample | services/release-note-creator.js:74 | The icon `$'` expands to the text after the separator: `## RELEASE - 2019-08-23` formats to `RELEASE 2019-08-23 2019-08-23`. |
| ReleaseNotes.RewriteFirstLine | services/release-note-creator.js:76-80 | The line count is kept. Every line is either kept or becomes the replacement. |
| ReleaseNotes.RewriteFirstLineAbsent | services/release-note-creator.js:78-80 | Without a marker line, nothing changes. |
| ReleaseNotes.RewriteFirstLineAt | services/release-note-creator.js:78-80 | Only the first marker line is rewritten. |
| ReleaseNotes.ReplaceFirstInJoin | services/release-note-creator.js:76-80 | Suppose a marker occurs only as a whole line. Then replacing its first occurrence in the joined text rewrites exactly the first line equal to it. |
| ReleaseNotes.DecoratedMarkersAreInert | services/release-note-creator.js:78-80 | A decorated marker contains none of the plain markers replaced after it, so the three replacements do not interfere. |
| ReleaseNotes.RewriteKeepsStandingAlone | services/release-note-creator.js:78-80 | Rewriting one marker keeps the others occurring only as whole lines. |
| ReleaseNotes.FormatBodyRewritesMarkerLines | services/release-note-creator.js:76-80 | The body is the change lines joined by newlines, with the first `### Added`, `### Changed` and `### Fixed` lines decorated. |
| ReleaseNotes.Perform | services/release-note-creator.js:69-110 | A bad changelog fails with WronglyFormattedChangelog. A rejected upload fails with SlackConnection. A good changelog with an accepted upload succeeds. The upload goes to the creator's channel, with filetype `post` and filename `<title>.md`. Its content is the body, prefixed with `# <name> v<version>` and a blank line when withVersion is set. |
| Semver.IncExamples | services/release-creator.js:81 | From 2.3.9, patch gives 2.3.10, minor gives 2.4.0 and major gives 3.0.0. |
| Semver.PrepatchExample | services/release-creator.js:81 | From 2.3.9 with tag beta, prepatch gives 2.3.10-beta.0. |
| Semver.PreminorExample | services/release-creator.js:81 | From 2.3.9 with tag beta, preminor gives 2.4.0-beta.0. |
| Semver.PremajorExample | services/release-creator.js:81 | From 2.3.9 with tag beta, premajor gives 3.0.0-beta.0. |
| Semver.SameTagPrereleaseExample | services/release-creator.js:81 | From 2.3.9-beta.0, prerelease with the same tag beta gives 2.3.9-beta.1. |
| Semver.NewTagPrereleaseExample | services/release-creator.js:81 | From 2.3.9-beta.0, prerelease with a new tag alpha restarts at 2.3.9-alpha.0. |
| Semver.IncAdvances | services/release-creator.js:81 | Every increment raises the version's precedence. The one exception is a prerelease increment that switches to a tag sorting lower. |
| Semver.PrereleaseTagSwitchGoesBack | services/release-creator.js:81 | The exception occurs: 2.3.9-beta.0 becomes 2.3.9-alpha.0, which ranks below it. |
| Semver.IncShape | services/release-creator.js:81 | major, minor and patch give a stable version. The prerelease kinds with a tag carry that tag. |
| ReleasePlanning.ReleaseOption | services/release-creator.js:8-9 | An option is recognised exactly when it names one of the seven release types, and it answers that type. |
| ReleasePlanning.ParseCommandLineArguments | services/release-creator.js:12-32 | The release type is the third argument, with its first `--` removed, when that names an option. Otherwise it is patch. The tag is the fourth argument, without `--`, when present. Otherwise it is `beta` exactly for the four prerelease types. |
| ReleasePlanning.ParsesAsIsFunctional | services/release-creator.js:12-32 | The parse has one outcome per argument vector. |
| ReleasePlanning.OptionNameParses | services/release-creator.js:17-21 | Every option name parses to its type, with or without `--`. |
| ReleasePlanning.InsertAt | services/release-creator.js:90 | The splice adds one element at index 3, or at the end of a shorter list. Lines before it are unchanged, and lines after it shift by one. |
| ReleasePlanning.InsertAtRemoved | services/release-creator.js:90 | Removing the spliced line gives back the original lines. |
| ReleasePlanning.HasVersionMarkerIsVersionBranch | services/release-creator.js:101 | The branch test holds exactly when some `v` in the name is followed by a digit. |
| ReleasePlanning.BranchChoiceExamples | services/release-creator.js:101 | `devel` takes the devel flow. `v4`, or any branch with a prerelease tag, is released in place. |
| ReleasePlanning.StagedFiles | services/release-creator.js:34-52 | Both files are always staged. `package.json` is written only for a versioned release. The single commit carries the release message, just before the push. |
| ReleasePlanning.InPlacePlan | services/release-creator.js:101-104 | In place, every step runs on the current branch. Nothing else is checked out and nothing is merged. The commit is made, and a versioned release ends with its tag and tag push. |
| ReleasePlanning.DevelPlanSteps | services/release-creator.js:105-110 | The devel flow makes one commit, then one merge of devel into master four steps later, then the tag. It ends by checking out devel. |
| ReleasePlanning.DevelCommitBranch | services/release-creator.js:34-52 | The devel commit runs on devel. |
| ReleasePlanning.MergeBranch | services/release-creator.js:60-67 | The merge runs on master, and the run stays on master. |
| ReleasePlanning.DevelPlanBranches | services/release-creator.js:105-110 | The commit runs on devel, and the merge and the tag on master. The run finishes on devel. |
| ReleasePlanning.Perform | services/release-creator.js:69-115 | With versioning, the run parses the arguments, bumps the package version and tags `v<version>`. Without versioning, there is no version and no tag. The changelog is split, spliced at line 3 with the header, and joined. The commit message is `Release <version>` or `Release - <date>`. The git plan follows the branch choice. |
| ReleasePlanning.PatchReleaseExample | services/release-creator.js:93-94 | A patch release of 2.3.9 commits `Release 2.3.10` and tags `v2.3.10`. |
| ReleaseRoundTrip.CoreTextMatches | services/release-note-creator.js:11 | A printed `major.minor.patch` matches `\d+.\d+.\d+`. |
| ReleaseRoundTrip.FormatMatches | services/release-note-creator.js:11 | A printed version whose tag is made of word characters matches the version part of the header pattern. |
| ReleaseRoundTrip.SplicedHeader | services/release-creator.js:90 | The spliced text is a newline followed by the header line. |
| ReleaseRoundTrip.VersionedHeader | services/release-creator.js:90 | A versioned header the planner writes is a release header, and it formats to `RELEASE `, the expanded icon text, and the date. |
| ReleaseRoundTrip.UnversionedHeader | services/release-creator.js:90 | An unversioned header the planner writes is a release header, and it formats to `RELEASE `, the expanded icon text, and the date. |
| ReleaseRoundTrip.WrittenHeaderIsRecognised | services/release-creator.js:90 | Every header the planner writes, for a printable version or none and a one-line date, is recognised, and its title shows the date. |
| ReleaseRoundTrip.JoinSplitsItem | services/release-creator.js:90-91 | Joining a list whose item holds a newline equals joining it with that item split in two. |
| ReleaseRoundTrip.WrittenLines | services/release-creator.js:87-91 | Read back as lines, the written changelog is the first three lines, a blank line, the header, then the rest. |
| ReleaseRoundTrip.NoteFindsWrittenRelease | services/release-note-creator.js:51-75 | After a release, the note creator extracts the new header as title and formats it to `RELEASE `, the expanded icon text, and the date. Its changes are the lines that preceded the previous release, without trailing blanks. |
| JsStrings.SubstitutionLiteral | services/release-note-creator.js:74 | A replacement string without `$` stands for itself. |
| JsStrings.ReplaceLiteral | services/release-note-creator.js:76-80 | For a replacement without `$`, `replace` splices it in literally in place of the first occurrence. |
| JsStrings.SubstitutedAtStart | services/release-note-creator.js:74 | A pattern at the very start is replaced, with nothing before it and the rest after it. |
| JsStrings.SplitJoin | services/release-creator.js:87-91 | `split('\n')` of `join('\n')` of newline-free lines gives them back. |
| ClickUp.IndexIn | services/clickup-status-updater.js:46-47 | `indexOf` is -1 exactly for an absent status. Otherwise it is the first index holding it. |
| ClickUp.ShouldUpdateMeaning | services/clickup-status-updater.js:45-49 | An update never applies an unknown target and never rewrites a status to itself. Any known target upgrades an unknown current status. |
| ClickUp.NeverDowngrades | services/clickup-status-updater.js:45-49 | With a duplicate-free list, a target at or before the current status is never applied. |
| ClickUp.FoldedDecisionIgnoresCase | services/clickup-status-updater.js:46-47 | The service's decision does not depend on the case of either status. |
| ClickUp.UpdateOnlyUpgrades | services/clickup-status-updater.js:45-72 | The update sends at most one PUT, carrying the target for that task. It sends it exactly when the target is known and ranks above the current status. It answers true exactly when the PUT was sent and succeeded, and a failure never throws. |
| ClickUp.TaskIdOfTag | services/clickup-status-updater.js:38-43 | The id of `pre (CU-id) post` is `id`. |
| ClickUp.TaggedTitleId | services/clickup-status-updater.js:38-43 | When the first opener starts a well-formed tag, the id is that tag's word run of at least six characters. |
| ClickUp.SomeEqualIff | services/clickup-status-updater.js:88-92 | The inner `some` holds exactly when the login is in the list. |
| ClickUp.SomeAssigneeReviewsIff | services/clickup-status-updater.js:88-92 | The nested `some` holds exactly when some assignee login is a reviewer login. |
| ClickUp.WaitingForReviewIff | services/clickup-status-updater.js:74-96 | Waiting for review holds exactly when both lists exist and some assignee login equals a requested reviewer's login. |
| ClickUp.PushTestAsWritten | services/clickup-status-updater.js:113-118 | As written, the push test holds exactly for a non-pull-request payload with an empty commit list. It rejects every payload the intended test accepts. |
| ClickUp.TargetStatus | services/clickup-status-updater.js:163-174 | The reassignments give `Target`: approval wins. Otherwise an overlap gives waiting-for-review, raised to in-code-review when a review is present. Otherwise the target is doing. |
| ClickUp.TargetMonotone | services/clickup-status-updater.js:163-174 | More review signals never give a lower target, and every target is known and at least doing. |
| ClickUp.GetLowestPriorityStatus | services/clickup-status-updater.js:142-158 | The `forEach` accumulator computes `LowestOf` of the tasks. |
| ClickUp.FirstMinimalStep | services/clickup-status-updater.js:145-155 | One step keeps the first minimal task, or takes the new one when it ranks strictly lower. |
| ClickUp.LowestIsFirstMinimal | services/clickup-status-updater.js:142-158 | Only an empty list gives null. Otherwise the result is the status of the first task of minimal rank, compared without case folding. |
| ClickUp.EmptyStatusResets | services/clickup-status-updater.js:146-147 | An empty status resets the search, so the task after it wins whatever its rank. |
| ClickUp.InProgressOutcome | services/clickup-status-updater.js:160-201 | A pull request sends nothing unless its task was fetched and ranks below the target. The first PUT moves the task to the target. A roll-up PUT follows only a successful update of a task that has a parent. |
| ClickUp.RollUpReachesLowestSubtask | services/clickup-status-updater.js:185-199 | The roll-up moves the parent to the status of its first minimal subtask, and only when that ranks above the parent's. |
| ClickUp.ReleaseSubtasksOnlyRelease | services/clickup-status-updater.js:217-225 | Subtasks are only ever moved to released. |
| ClickUp.ReleaseTaskOnlyReleases | services/clickup-status-updater.js:207-226 | Releasing a task only sends PUTs to released. |
| ClickUp.ReleasedRequestsOnlyRelease | services/clickup-status-updater.js:203-229 | A whole push only sends PUTs to released. |
| ClickUp.PushOnlyReleases | services/clickup-status-updater.js:231-237 | The handler sends a push event only to the released status. |
| ClickUp.UntaggedPullRequestIsIgnored | services/clickup-status-updater.js:231-237 | A pull request whose title has no well-formed tag sends nothing, and it is never handled as a push. |
| ClickUp.ReleaseSubtasksCover | services/clickup-status-updater.js:218-224 | Every subtask ranking below released gets a PUT to released. |
| ClickUp.ReleasedRequestsInclude | services/clickup-status-updater.js:204-228 | Every request one commit gives rise to is sent by the push. |
| ClickUp.LastCommitIncluded | services/clickup-status-updater.js:204-228 | The last commit's requests are sent by the push. |
| ClickUp.PushReleasesTaggedTasks | services/clickup-status-updater.js:203-237 | With the intended push test and field name, every task tagged in a commit, and each of its subtasks, that ranks below released gets a PUT to released. |
| ClickUp.SubtasksNeverReleasedAsWritten | services/clickup-status-updater.js:217-218 | As written, no subtask is released: only the task's own update is sent. |
| ClickUp.RollUpNeverRunsAsWritten | services/clickup-status-updater.js:191 | As written, against an API that lists `subtasks`, a pull request sends at most its own task's update. |
| ClickUp.RollUpRunsAsIntended | services/clickup-status-updater.js:185-199 | With the intended name, a successful update of a task with a parent sends the task PUT and then the parent's roll-up PUT. |
| ClickUp.PushSendsNothingAsWritten | services/clickup-status-updater.js:113-118 | As written, no payload other than a pull request makes the handler send anything. |
| ClickUpService.ServiceStatusesDistinct | services/clickup-status-updater.js:13-22 | The eight statuses are distinct. |
| ClickUpService.ServiceTargetsOrdered | services/clickup-status-updater.js:4-22 | Doing, waiting-for-review, in-code-review and to-release climb the list, and released is above them all. |
| ClickUpService.TestTitleId | test/services/clickup-status-updater.test.js:13 | The test title gives the id `123456`. |
| ClickUpService.TestTitleTag | test/services/clickup-status-updater.test.js:13 | The test title carries a well-formed tag. |
| ClickUpService.TestPullRequestTarget | test/services/clickup-status-updater.test.js:10-18 | The pull-request test payload targets doing: a review is present, but the empty lists rule out waiting-for-review. |
| ClickUpService.TestPushPayload | test/services/clickup-status-updater.test.js:21-28 | The push test payload is rejected as written, and nothing is sent. Under the intended test, the tagged task is moved to released. |
| ClickUpScript.ScriptStatusesDistinct | scripts/update-clickup-status.js:8-17 | The script's eight statuses are distinct. |
| ClickUpScript.ScriptTargetsOrdered | scripts/update-clickup-status.js:8-17 | The script's targets climb its list in the same order. `in functionnal test` ranks 3. |
| ClickUpScript.RankOfDistinct | scripts/update-clickup-status.js:35-36 | Without case folding, a status of a duplicate-free list ranks at its own index. |
| ClickUpScript.ScriptIsCaseSensitive | scripts/update-clickup-status.js:34-38 | The script ranks a capitalised status as unknown, so it rewrites even the same status. |
| ClickUpService.ServiceIgnoresCase | services/clickup-status-updater.js:46-47 | The service leaves a status that differs only in case alone. |
| ClickUpScript.TagNeedsSixWordChars | scripts/update-clickup-status.js:109-111 | `(#a1b2c3)` is a tag and `(#a1b2c)` is not. |
| ClickUpScript.ScriptTaskId | scripts/update-clickup-status.js:27-32 | The id of a title ending in `(#id)` is `id`. |
| BadgeCoverage.TotalsAppend | services/badge-coverage-updater.js:12-18 | The totals of concatenated records are the sums of the totals. |
| BadgeCoverage.CreateBadge | services/badge-coverage-updater.js:7-28 | A falsy report gives the unknown badge. A report the parser rejects gives no badge, because the callback reads the length of undefined data and throws. Otherwise the summing loop's totals give the badge. |
| BadgeCoverage.ReadCoverageAndCreateBadge | services/badge-coverage-updater.js:30-37 | An unreadable or empty report gives the unknown badge. A report the parser rejects gives no badge: the `catch` does not cover the parser's callback. Otherwise the badge is made from the totals. |
| BadgeCoverage.PercentIsFloor | services/badge-coverage-updater.js:19-25 | The shown percentage is the floor of the exact one, and at most 100 when hits do not exceed lines found. |
| BadgeCoverage.ColorMonotone | services/badge-coverage-updater.js:21-23 | A larger covered share never gives a lower colour. |
| BadgeCoverage.AboveStaysAbove | services/badge-coverage-updater.js:21-23 | A share above a threshold stays above it when the share grows. |
| BadgeCoverage.ColorVersusShownPercent | services/badge-coverage-updater.js:19-25 | A critical badge shows at most 89, an important one between 89 and 99, and a success at least 99. |
| BadgeCoverage.ImportantAtEightyNine | services/badge-coverage-updater.js:19-25 | 179 of 200 lines shows 89 and is important. |
| BadgeCoverage.TestReportBadge | test/services/badge-coverage-updater.test.js:94-97 | 27 of 28 lines gives `coverage-96%25%0A-important`. |
| BadgeCoverage.BadgeShape | services/badge-coverage-updater.js:25 | Every badge begins with the pattern's fixed part and has no `)` and no line terminator after it. |
| BadgeCoverage.LineEnd | services/badge-coverage-updater.js:42 | `.` stops at the first line terminator. |
| BadgeCoverage.LastClose | services/badge-coverage-updater.js:42 | This is the last `)` in a range, or -1 when there is none. |
| BadgeCoverage.MatchEnd | services/badge-coverage-updater.js:42 | The greedy end lies inside the text when there is one. |
| BadgeCoverage.FindMatch | services/badge-coverage-updater.js:42 | A match found lies inside the text, at or after the scan start. |
| BadgeCoverage.MatchEndIsLongest | services/badge-coverage-updater.js:42 | The greedy end is the longest match at a start, and -1 means there is no match there. |
| BadgeCoverage.FindMatchIsLeftmostLongest | services/badge-coverage-updater.js:42 | The match is the leftmost one, extended as far as it goes. There is none exactly when nothing matches. |
| BadgeCoverage.ReplaceAtMatch | services/badge-coverage-updater.js:42 | Replacement rewrites the leftmost longest match and keeps everything else. |
| BadgeCoverage.ReplaceBadgeLine | services/badge-coverage-updater.js:42 | A badge ending its line is replaced, and all other text is kept. |
| BadgeCoverage.TestReadme | test/services/badge-coverage-updater.test.js:5-7 | The test README's badge line is replaced and the heading kept. |
| BadgeCoverage.GreedyMatchSwallowsLine | services/badge-coverage-updater.js:42 | Text after the badge on its line that ends in `)` is swallowed by the greedy `.*`. |
| BadgeCoverage.NoBadgeUnchanged | services/badge-coverage-updater.js:42 | A README without a badge is left as it is. |
| BadgeCoverage.ReplaceIsIdempotent | services/badge-coverage-updater.js:39-44 | Replacing with a badge the pattern matches is idempotent. |
| BadgeCoverage.UpdateIsIdempotent | services/badge-coverage-updater.js:39-44 | A second update with the same report changes nothing. |
| BadgeCoverage.UpdateReadmeCoverageBadge | services/badge-coverage-updater.js:39-44 | The README is written back with its first badge replaced by the report's badge, or by the unknown badge. When the parser rejects the report, nothing is written. |

## Left out

- Network, git and files. These are out of the model:
  - the ClickUp, Slack and git calls are answers passed in (`Api`, `uploadAccepted`) or steps returned (`Step`);
  - file contents, `process.argv`, today's date and the current branch are parameters;
  - logging is not modelled.
- Promise ordering. The per-commit and per-subtask updates are unawaited promises that run in no guaranteed order. The model lists the requests in source order and states properties by membership, never by position across tasks.
- `fetchTask`'s `withSubTasks` query flag is not modelled. The API value returns every task with all its list fields.
- BadgeCoverage.BadgeColor: `(hit / found) * 100` is a double in the source. The model computes on exact integers: it compares `100·hit` with `89·found` and `99·found`, and shows `⌊100·hit/found⌋`. A double could round across a threshold where the exact value does not, and the shown number can differ as well: for 29 of 100 lines, `(29 / 100) * 100` is 28.999999999999996, so the source shows 28 where the model shows 29. With `found = 0`, the model reproduces the JavaScript output (`NaN` and critical, or `Infinity` and success) and needs no precondition.
- JsStrings.ToUpper: case is folded on ASCII letters only. All the statuses involved are ASCII letters, spaces and emoji, so the ranks are unaffected.
- Semver: only the increment rules the release code uses are modelled. Build metadata and numeric-only prerelease identifiers beyond `[n]` are not. Precedence is section 11 of Semantic Versioning 2.0.0 restricted to these shapes.
- ReleasePlanning.Perform: services/release-creator.js does not run as written:
  - line 75 is an invalid destructuring assignment;
  - line 80 reads an undefined `versionFile`;
  - lines 90, 93 and 94 use a block-scoped `version` outside its block;
  - lines 104 and 109 chain git calls onto a Promise.

  The model follows the evident intent. Without versioning, no tag steps are issued, where the source would build `vundefined`.
- JSON parsing and serialisation of package.json are not modelled. The package is given as its version, or its name and version.
- Several test expectations disagree with the source. In each case the model follows the source:
  - the release tests expect `chore(release): …` commit messages, where the source writes `Release …`;
  - the note tests expect the default channel `CMLBBF6Q3`, where the source uses `G501BDD5W`;
  - the badge tests call `.perform()` on a module that exports nothing.
- Errors: utils/errors.js does not export `SlackConnectionError`. The note creator's rejection on a failed upload is therefore a `TypeError` in the source. The model names it SlackConnection.
- ClickUp.IsPushEventAsWritten: reading `commits.length` of a payload without commits throws. The model writes this as `None`, and the handler then sends nothing. A numeric pusher (a number `**` a count) is not modelled; GitHub sends the pusher as an object.
- ClickUp.UpdateStatusIfNecessary: a roll-up over an empty subtask list has a `null` target. The service then throws on `null.toUpperCase()`, and the script ranks it -1. Both send nothing, and the model writes this as a missing target.
- ReleaseRoundTrip.NoteFindsWrittenRelease: this requires the new version's prerelease tag, if any, to be made of word characters. A tag given on the command line with other characters writes a header that the note creator's pattern does not accept.
- ReleaseNotes.FormatBodyRewritesMarkerLines: this states the body for changelogs whose markers appear only as whole lines. A marker embedded in a longer line is still handled by `FormatBody` itself, which replaces the first occurrence in the text as the source does.

## Findings

| source | as written | input that shows it | evidently intended | confidence | as-written member | corrected member |
|---|---|---|---|---|---|---|
| services/clickup-status-updater.js:113-118 | `!isPR && payload && pusher ** commits.length`: `**` binds tighter than `&&`, and `"johanna" ** 1` is NaN, so the test holds only when `commits` is empty | the push test payload: pusher `johanna`, one commit tagged `(CU-123456)` | not a pull request, a pusher, and at least one commit (`&&`) | high; not executed | ClickUp.PushSendsNothingAsWritten | ClickUp.PushReleasesTaggedTasks |
| services/clickup-status-updater.js:191 | the parent roll-up reads `parentTask.substasks` | a tagged pull request whose task has a parent with a `subtasks` list below the new status | read `parentTask.subtasks` and roll the parent up | high; not executed | ClickUp.RollUpNeverRunsAsWritten | ClickUp.RollUpRunsAsIntended |
| services/clickup-status-updater.js:217-218 | the subtask release is guarded by `task.substasks` and iterates `task.subtrasks` | a push tagging a task whose `subtasks` list holds a task in "to release" | guard on and iterate `task.subtasks` | high; not executed | ClickUp.SubtasksNeverReleasedAsWritten | ClickUp.PushReleasesTaggedTasks |

The same three defects appear in scripts/update-clickup-status.js at lines
102-107, 181 and 205-206. The `Variant` model covers both files, and the
corrected handler `ClickUp.HandleEvent` is the one the rest of the model uses.
`ClickUpService.TestPushPayload` shows the first finding on the push test
payload itself.
