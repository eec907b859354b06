/** ClickUp status reconciliation driven by a GitHub event payload, as done by
    services/clickup-status-updater.js and by its older variant
    scripts/update-clickup-status.js.

    Both move ClickUp tasks forward along one priority list of statuses: a
    pull-request event whose title carries a ClickUp tag moves the tagged task
    to a target status derived from reviewers, assignees and the review, and
    then rolls its parent up to the lowest status among the parent's subtasks;
    a push event moves every task tagged in a commit message to "released".
    The two files differ only in their data (priority list, tag opener, status
    names) and in whether the update decision upper-cases statuses, so both
    are one `Variant` of the same model.

    The ClickUp HTTP API is replaced by an `Api` value: the task each GET would
    return (absent when the request fails) and the tasks whose PUT fails. What
    an event does is the list of PUT requests it issues. */
module ClickUp {

  import opened Wrappers
  import opened JsStrings

  /** The data that distinguishes the service from the script. */
  datatype Variant = Variant(
    priorities: seq<string>,  // statuses from lowest to highest priority
    foldCase: bool,           // the update decision upper-cases both statuses
    tagOpen: string,          // the text that opens a ClickUp tag in a title
    doing: string,
    waitingForReview: string,
    inCodeReview: string,
    toRelease: string,
    released: string)

  const TODO_STATUS := "\U{1F4E6}TO DO"
  const DOING_STATUS := "\U{270D}\U{FE0F}DOING"
  const WAITING_FOR_REVIEW_STATUS := "\U{270B}WAITING FOR REVIEW"
  const IN_FUNCTIONAL_TEST_STATUS := "\U{1F46E}\U{1F3FB}\U{200D}\U{2642}\U{FE0F}IN FUNCTIONAL TEST"
  const IN_CODE_REVIEW_STATUS := "\U{1F46E}\U{1F3FB}\U{200D}\U{2642}\U{FE0F}IN CODE REVIEW"
  const TO_RELEASE_STATUS := "\U{1F680}TO RELEASE"
  const RELEASED_STATUS := "\U{1F3C1}RELEASED"
  const CLOSED_STATUS := "\U{1F47B}CLOSED"

  const STATUS_PRIORITIES := [
    TODO_STATUS, DOING_STATUS, WAITING_FOR_REVIEW_STATUS, IN_FUNCTIONAL_TEST_STATUS,
    IN_CODE_REVIEW_STATUS, TO_RELEASE_STATUS, RELEASED_STATUS, CLOSED_STATUS]

  /** services/clickup-status-updater.js: emoji-prefixed upper-case statuses,
      tags written `(CU-<id>)`, case folding in the update decision. */
  const SERVICE := Variant(
    STATUS_PRIORITIES, true, "(CU-",
    DOING_STATUS, WAITING_FOR_REVIEW_STATUS, IN_CODE_REVIEW_STATUS, TO_RELEASE_STATUS, RELEASED_STATUS)

  /** `list.indexOf(s)`: the first index of `s`, or -1. */
  function IndexIn(l: seq<string>, s: string): (r: int)
    ensures -1 <= r < |l|
    ensures r == -1 <==> s !in l
    ensures r >= 0 ==> l[r] == s && s !in l[..r]
  {
    if |l| == 0 then -1
    else if l[0] == s then 0
    else
      var k := IndexIn(l[1..], s);
      if k < 0 then -1 else (assert l[..k + 1] == [l[0]] + l[1..][..k]; k + 1)
  }

  /** The status as the update decision looks it up. */
  function Normalize(v: Variant, status: string): string {
    if v.foldCase then ToUpper(status) else status
  }

  /** The rank the update decision gives a status; -1 when it is unknown. */
  function UpdateRank(v: Variant, status: string): int {
    IndexIn(v.priorities, Normalize(v, status))
  }

  /** The rank `getLowestPriorityStatus` gives a status: never case-folded. */
  function PriorityRank(v: Variant, status: string): int {
    IndexIn(v.priorities, status)
  }

  /** The test at the head of `updateStatusIfNecessary`. */
  predicate ShouldUpdate(v: Variant, current: string, target: string) {
    UpdateRank(v, current) < UpdateRank(v, target)
  }

  /** No duplicate status in the list. */
  predicate Distinct(l: seq<string>) {
    forall i, j :: 0 <= i < j < |l| ==> l[i] != l[j]
  }

  /** An update never applies an unknown target and never rewrites a status
      to itself; any known target upgrades an unknown current status. */
  lemma ShouldUpdateMeaning(v: Variant, current: string, target: string)
    ensures ShouldUpdate(v, current, target) ==> Normalize(v, target) in v.priorities
    ensures ShouldUpdate(v, current, target) ==> Normalize(v, current) != Normalize(v, target)
    ensures Normalize(v, current) !in v.priorities && Normalize(v, target) in v.priorities
            ==> ShouldUpdate(v, current, target)
  {
  }

  /** With no duplicates in the list, a status is never moved to one that
      sits at or before it: there are no downgrades. */
  lemma NeverDowngrades(v: Variant, current: string, target: string, i: int, j: int)
    requires Distinct(v.priorities)
    requires 0 <= j <= i < |v.priorities|
    requires v.priorities[i] == Normalize(v, current) && v.priorities[j] == Normalize(v, target)
    ensures !ShouldUpdate(v, current, target)
  {
    var p := v.priorities;
    var ri := IndexIn(p, Normalize(v, current));
    if ri < i {
      assert p[ri] == p[i];
    }
  }

  lemma UpperCharIdempotent(c: char)
    ensures UpperChar(UpperChar(c)) == UpperChar(c)
  {
  }

  /** The service's decision ignores the case of both statuses. */
  lemma FoldedDecisionIgnoresCase(v: Variant, current: string, target: string)
    requires v.foldCase
    ensures ShouldUpdate(v, current, target) == ShouldUpdate(v, ToUpper(current), ToUpper(target))
  {
    forall s: string ensures ToUpper(ToUpper(s)) == ToUpper(s) {
      forall i | 0 <= i < |s| ensures ToUpper(ToUpper(s))[i] == ToUpper(s)[i] {
        UpperCharIdempotent(s[i]);
      }
    }
  }

  /** A PUT of a new status for a task. */
  datatype Request = Put(taskId: string, status: string)

  /** What `updateStatusIfNecessary` does: the PUT it issues, if any, and what
      it answers. */
  datatype Update = Update(requests: seq<Request>, updated: bool)

  /** `updateStatusIfNecessary(taskId, current, target)`. A missing target
      (the `null` a roll-up over no subtasks produces) issues nothing: the
      script ranks it -1, the service throws on `null.toUpperCase()` before any
      request. A PUT in `failingPuts` is caught and answered with false. */
  function UpdateStatusIfNecessary(
    v: Variant, failingPuts: set<string>, taskId: string, current: string, target: Option<string>): Update
  {
    if target.Some? && ShouldUpdate(v, current, target.value) then
      Update([Put(taskId, target.value)], taskId !in failingPuts)
    else
      Update([], false)
  }

  /** The answer is true exactly when a PUT was issued and succeeded; a PUT is
      issued only for a known target that ranks strictly above the current
      status, and it carries that target for that task. */
  lemma UpdateOnlyUpgrades(v: Variant, failingPuts: set<string>, taskId: string, current: string, target: Option<string>)
    ensures var u := UpdateStatusIfNecessary(v, failingPuts, taskId, current, target);
      && |u.requests| <= 1
      && (u.updated <==> |u.requests| == 1 && taskId !in failingPuts)
      && (forall r | r in u.requests ::
            && r == Put(taskId, target.value)
            && Normalize(v, r.status) in v.priorities
            && UpdateRank(v, current) < UpdateRank(v, r.status))
      && (target.Some? && ShouldUpdate(v, current, target.value) ==> u.requests == [Put(taskId, target.value)])
  {
  }

  // ---------------------------------------------------------------------------
  // Tags and task ids

  /** `getClickUpTaskIdFromTitle`: the text after the first tag opener, up to
      the next `)`. With no opener, `indexOf` gives -1 and the text is cut
      after index |opener| - 1; with no `)`, the id is empty. */
  function TaskId(v: Variant, title: string): string {
    var tag := SubstringFrom(title, IndexOf(title, v.tagOpen) + |v.tagOpen|);
    Substring(tag, 0, IndexOf(tag, ")"))
  }

  /** The tag regular expression (`\(CU-\w{6,}\)` or `\(#\w{6,}\)`) matches
      at `i` with a word run of length `n`. */
  predicate TagAt(v: Variant, s: string, i: int, n: int) {
    && OccursAt(s, v.tagOpen, i)
    && 6 <= n
    && i + |v.tagOpen| + n < |s|
    && AllWordChars(s[i + |v.tagOpen|..i + |v.tagOpen| + n])
    && s[i + |v.tagOpen| + n] == ')'
  }

  /** `containsClikUpTagId`: the regular expression matches somewhere. */
  predicate ContainsTag(v: Variant, s: string) {
    exists i, n | 0 <= i < |s| && 0 <= n < |s| :: TagAt(v, s, i, n)
  }

  /** The id of a title `pre + opener + id + ")" + post` is `id` when the
      opener's first character does not occur earlier. */
  lemma TaskIdOfTag(v: Variant, pre: string, id: string, post: string)
    requires |v.tagOpen| > 0 && v.tagOpen[0] !in pre && ')' !in id
    ensures TaskId(v, pre + v.tagOpen + id + ")" + post) == id
  {
    var rest := id + ")" + post;
    var s := pre + v.tagOpen + id + ")" + post;
    assert s == pre + (v.tagOpen + rest);
    IndexOfAfter(pre, v.tagOpen + rest, v.tagOpen);
    assert s[|pre| + |v.tagOpen|..] == id + (")" + post);
    IndexOfAfter(id, ")" + post, ")");
  }

  /** When the first opener in `s` starts a well-formed tag, the task id is
      exactly that tag's word run, at least six word characters long. */
  lemma TaggedTitleId(v: Variant, s: string, i: int, n: int)
    requires TagAt(v, s, i, n)
    requires forall j :: 0 <= j < i ==> !OccursAt(s, v.tagOpen, j)
    ensures TaskId(v, s) == s[i + |v.tagOpen|..i + |v.tagOpen| + n]
    ensures AllWordChars(TaskId(v, s)) && |TaskId(v, s)| >= 6
  {
    var t := |v.tagOpen|;
    IndexOfAt(s, v.tagOpen, i);
    var tag := s[i + t..];
    assert OccursAt(tag, ")", n) by {
      assert tag[n..n + 1] == [s[i + t + n]];
    }
    forall j | 0 <= j < n ensures !OccursAt(tag, ")", j) {
      assert s[i + t..i + t + n][j] == tag[j];
      assert IsWordChar(tag[j]);
    }
    IndexOfAt(tag, ")", n);
  }

  // ---------------------------------------------------------------------------
  // The event payload

  /** A pull request; a login that a JSON entry lacks is `None` (undefined). */
  datatype PullRequest = PullRequest(
    title: Option<string>,
    requestedReviewers: Option<seq<Option<string>>>,
    assignees: Option<seq<Option<string>>>)

  datatype Review = Review(state: Option<string>)

  datatype Commit = Commit(message: string)

  /** The parts of the GitHub event payload the code reads. */
  datatype Event = Event(
    pullRequest: Option<PullRequest>,
    review: Option<Review>,
    pusher: Option<string>,
    commits: Option<seq<Commit>>)

  /** `logins.some((l) => l === login)` */
  predicate SomeEqual(logins: seq<Option<string>>, login: Option<string>)
    decreases |logins|
  {
    |logins| > 0 && (logins[0] == login || SomeEqual(logins[1..], login))
  }

  /** `assignees.some((a) => reviewers.some((r) => r === a))` */
  predicate SomeAssigneeReviews(assignees: seq<Option<string>>, reviewers: seq<Option<string>>)
    decreases |assignees|
  {
    |assignees| > 0 && (SomeEqual(reviewers, assignees[0]) || SomeAssigneeReviews(assignees[1..], reviewers))
  }

  lemma {:induction false} SomeEqualIff(logins: seq<Option<string>>, login: Option<string>)
    ensures SomeEqual(logins, login) <==> login in logins
    decreases |logins|
  {
    if |logins| > 0 {
      SomeEqualIff(logins[1..], login);
      assert logins == [logins[0]] + logins[1..];
    }
  }

  lemma {:induction false} SomeAssigneeReviewsIff(assignees: seq<Option<string>>, reviewers: seq<Option<string>>)
    ensures SomeAssigneeReviews(assignees, reviewers)
            <==> exists i | 0 <= i < |assignees| :: assignees[i] in reviewers
    decreases |assignees|
  {
    if |assignees| > 0 {
      SomeEqualIff(reviewers, assignees[0]);
      SomeAssigneeReviewsIff(assignees[1..], reviewers);
      if exists i | 0 <= i < |assignees| :: assignees[i] in reviewers {
        var i :| 0 <= i < |assignees| && assignees[i] in reviewers;
        if i > 0 {
          assert assignees[1..][i - 1] in reviewers;
        }
      }
      if exists i | 0 <= i < |assignees| - 1 :: assignees[1..][i] in reviewers {
        var i :| 0 <= i < |assignees| - 1 && assignees[1..][i] in reviewers;
        assert assignees[i + 1] in reviewers;
      }
    }
  }

  /** `isWaitingForReview` */
  predicate IsWaitingForReview(e: Event) {
    && e.pullRequest.Some?
    && e.pullRequest.value.requestedReviewers.Some? && |e.pullRequest.value.requestedReviewers.value| > 0
    && e.pullRequest.value.assignees.Some? && |e.pullRequest.value.assignees.value| > 0
    && SomeAssigneeReviews(e.pullRequest.value.assignees.value, e.pullRequest.value.requestedReviewers.value)
  }

  /** Waiting for review exactly when some assignee's login is also a
      requested reviewer's login (the emptiness tests are then implied). */
  lemma WaitingForReviewIff(e: Event)
    ensures IsWaitingForReview(e) <==>
      && e.pullRequest.Some?
      && e.pullRequest.value.requestedReviewers.Some?
      && e.pullRequest.value.assignees.Some?
      && exists i | 0 <= i < |e.pullRequest.value.assignees.value| ::
           e.pullRequest.value.assignees.value[i] in e.pullRequest.value.requestedReviewers.value
  {
    if e.pullRequest.Some? && e.pullRequest.value.requestedReviewers.Some? && e.pullRequest.value.assignees.Some? {
      SomeAssigneeReviewsIff(e.pullRequest.value.assignees.value, e.pullRequest.value.requestedReviewers.value);
    }
  }

  /** `isInCodeReview`: any review object is truthy. */
  predicate IsInCodeReview(e: Event) {
    e.review.Some?
  }

  /** `isApproved` */
  predicate IsApproved(e: Event) {
    e.review.Some? && e.review.value.state == Some("APPROVED")
  }

  /** `isPullRequestEvent`: a pull request with a non-empty title. */
  predicate IsPullRequestEvent(e: Event) {
    e.pullRequest.Some? && Truthy(e.pullRequest.value.title)
  }

  /** `isPushEvent` as written: `!isPR && payload && pusher ** commits.length`.
      `**` binds tighter than `&&`, and `x ** 0` is 1 while a pusher that is
      a name or an object gives NaN for any positive power, so the test holds
      exactly when `commits` is empty. `None`: reading `commits.length` of a
      payload without commits throws. */
  function IsPushEventAsWritten(e: Event): Option<bool> {
    if IsPullRequestEvent(e) then Some(false)
    else if e.commits.None? then None
    else Some(|e.commits.value| == 0)
  }

  /** `isPushEvent` as evidently intended: not a pull request, a pusher, and
      at least one commit. */
  predicate IsPushEvent(e: Event) {
    && !IsPullRequestEvent(e)
    && Truthy(e.pusher)
    && e.commits.Some? && |e.commits.value| > 0
  }

  /** As written, the push test accepts only payloads with no commit, and it
      rejects every payload the intended test accepts. */
  lemma PushTestAsWritten(e: Event)
    ensures IsPushEventAsWritten(e) == Some(true) <==> !IsPullRequestEvent(e) && e.commits == Some([])
    ensures IsPushEvent(e) ==> IsPushEventAsWritten(e) == Some(false)
  {
  }

  // ---------------------------------------------------------------------------
  // Target status and lowest status

  /** The target status of a pull-request event, by precedence: approval
      wins; otherwise an assignee/reviewer overlap gives "waiting for review",
      raised to "in code review" when a review is present; otherwise "doing". */
  function Target(v: Variant, e: Event): string {
    if IsApproved(e) then v.toRelease
    else if IsWaitingForReview(e) then (if IsInCodeReview(e) then v.inCodeReview else v.waitingForReview)
    else v.doing
  }

  /** The reassignments of `targetStatus` in `updateTaskInProgressStatus`. */
  method TargetStatus(v: Variant, e: Event) returns (target: string)
    ensures target == Target(v, e)
  {
    target := v.doing;
    if IsWaitingForReview(e) {
      target := v.waitingForReview;
      if IsInCodeReview(e) {
        target := v.inCodeReview;
      }
    }
    if IsApproved(e) {
      target := v.toRelease;
    }
  }

  /** The four target statuses sit in this order in the priority list. */
  predicate TargetsOrdered(v: Variant) {
    0 <= UpdateRank(v, v.doing) < UpdateRank(v, v.waitingForReview)
    < UpdateRank(v, v.inCodeReview) < UpdateRank(v, v.toRelease)
  }

  /** The signals of `e` are all present in `f`. */
  predicate MoreAdvanced(e: Event, f: Event) {
    && (IsApproved(e) ==> IsApproved(f))
    && (IsWaitingForReview(e) ==> IsWaitingForReview(f))
    && (IsInCodeReview(e) ==> IsInCodeReview(f))
  }

  /** The target is monotone in the signals: more review progress never
      gives a lower target, and the target is always a known status at or
      above "doing". */
  lemma TargetMonotone(v: Variant, e: Event, f: Event)
    requires TargetsOrdered(v)
    requires MoreAdvanced(e, f)
    ensures 0 <= UpdateRank(v, v.doing) <= UpdateRank(v, Target(v, e)) <= UpdateRank(v, Target(v, f))
  {
  }

  /** A subtask as listed inside its parent. */
  datatype TaskSummary = TaskSummary(id: string, status: string)

  /** One step of the `forEach` in `getLowestPriorityStatus`: a falsy
      accumulator (null or "") is replaced outright. */
  function LowestStep(v: Variant, lowest: Option<string>, status: string): Option<string> {
    if !Truthy(lowest) then Some(status)
    else if PriorityRank(v, status) < PriorityRank(v, lowest.value) then Some(status)
    else lowest
  }

  /** The value `getLowestPriorityStatus` computes, as a left fold. */
  function LowestOf(v: Variant, tasks: seq<TaskSummary>): Option<string>
    decreases |tasks|
  {
    if |tasks| == 0 then None
    else LowestStep(v, LowestOf(v, tasks[..|tasks| - 1]), tasks[|tasks| - 1].status)
  }

  /** `getLowestPriorityStatus(tasks)` */
  method GetLowestPriorityStatus(v: Variant, tasks: seq<TaskSummary>) returns (lowest: Option<string>)
    ensures lowest == LowestOf(v, tasks)
  {
    lowest := None;
    var i := 0;
    while i < |tasks|
      invariant 0 <= i <= |tasks|
      invariant lowest == LowestOf(v, tasks[..i])
    {
      assert tasks[..i + 1][..i] == tasks[..i];
      var status := tasks[i].status;
      if !Truthy(lowest) {
        lowest := Some(status);
      } else {
        var statusPriority := PriorityRank(v, status);
        var lowestStatusPriority := PriorityRank(v, lowest.value);
        if statusPriority < lowestStatusPriority {
          lowest := Some(status);
        }
      }
      i := i + 1;
    }
    assert tasks[..i] == tasks;
  }

  /** `k` holds a status of minimal rank, and no earlier task does. */
  predicate IsFirstMinimal(v: Variant, tasks: seq<TaskSummary>, k: int) {
    && 0 <= k < |tasks|
    && (forall j :: 0 <= j < |tasks| ==> PriorityRank(v, tasks[k].status) <= PriorityRank(v, tasks[j].status))
    && (forall j :: 0 <= j < k ==> PriorityRank(v, tasks[k].status) < PriorityRank(v, tasks[j].status))
  }

  /** Appending a task keeps the first minimal index, unless the new task
      ranks strictly lower, in which case it is the new one. */
  lemma FirstMinimalStep(v: Variant, tasks: seq<TaskSummary>, k: int)
    requires |tasks| > 1 && IsFirstMinimal(v, tasks[..|tasks| - 1], k)
    ensures var n := |tasks|;
      if PriorityRank(v, tasks[n - 1].status) < PriorityRank(v, tasks[k].status)
      then IsFirstMinimal(v, tasks, n - 1)
      else IsFirstMinimal(v, tasks, k)
  {
    var n := |tasks|;
    var prefix := tasks[..n - 1];
    var min := PriorityRank(v, tasks[k].status);
    var last := PriorityRank(v, tasks[n - 1].status);
    assert prefix[k] == tasks[k];
    if last < min {
      forall j | 0 <= j < n - 1 ensures last < PriorityRank(v, tasks[j].status) {
        assert prefix[j] == tasks[j];
      }
    } else {
      forall j | 0 <= j < n - 1 ensures min <= PriorityRank(v, tasks[j].status) {
        assert prefix[j] == tasks[j];
      }
      forall j | 0 <= j < k ensures min < PriorityRank(v, tasks[j].status) {
        assert prefix[j] == tasks[j];
      }
    }
  }

  /** With no empty status among the tasks, the lowest status is that of the
      first task of minimal rank; only an empty list gives null. */
  lemma {:induction false} LowestIsFirstMinimal(v: Variant, tasks: seq<TaskSummary>)
    requires forall j :: 0 <= j < |tasks| ==> tasks[j].status != ""
    ensures LowestOf(v, tasks).None? <==> |tasks| == 0
    ensures |tasks| > 0 ==> exists k :: IsFirstMinimal(v, tasks, k) && LowestOf(v, tasks) == Some(tasks[k].status)
    decreases |tasks|
  {
    var n := |tasks|;
    if n == 1 {
      assert IsFirstMinimal(v, tasks, 0);
    } else if n > 1 {
      var prefix := tasks[..n - 1];
      LowestIsFirstMinimal(v, prefix);
      var k :| IsFirstMinimal(v, prefix, k) && LowestOf(v, prefix) == Some(prefix[k].status);
      assert prefix[k] == tasks[k];
      FirstMinimalStep(v, tasks, k);
      if PriorityRank(v, tasks[n - 1].status) < PriorityRank(v, tasks[k].status) {
        assert LowestOf(v, tasks) == Some(tasks[n - 1].status);
      } else {
        assert LowestOf(v, tasks) == Some(tasks[k].status);
      }
    }
  }

  /** An empty status resets the search: after a known status, a task with
      status "" followed by any task makes that last status the answer,
      whatever its rank. */
  lemma EmptyStatusResets(v: Variant, tasks: seq<TaskSummary>, blank: TaskSummary, last: TaskSummary)
    requires "" !in v.priorities && blank.status == ""
    requires LowestOf(v, tasks).Some? && PriorityRank(v, LowestOf(v, tasks).value) >= 0
    ensures LowestOf(v, tasks + [blank, last]) == Some(last.status)
  {
    var all := tasks + [blank, last];
    assert all[..|all| - 1] == tasks + [blank];
    assert (tasks + [blank])[..|tasks|] == tasks;
  }

  // ---------------------------------------------------------------------------
  // The ClickUp API and the event handler

  /** A task as `GET /task/<id>` returns it. `lists` holds its array-valued
      properties by name; the subtask list is read under a field name that is
      a parameter of the handler. */
  datatype Task = Task(id: string, status: string, parent: Option<string>, lists: map<string, seq<TaskSummary>>)

  /** The answers of the ClickUp API: the task each GET returns (absent when
      the request fails) and the tasks whose PUT fails. */
  datatype Api = Api(tasks: map<string, Task>, failingPuts: set<string>)

  /** `fetchTask`: null when the request fails. */
  function FetchTask(api: Api, taskId: string): Option<Task> {
    if taskId in api.tasks then Some(api.tasks[taskId]) else None
  }

  /** The field names the handler reads a task's subtasks under: the guard of
      the parent roll-up, and the guard and the list of the release of
      subtasks. */
  datatype SubtaskFields = SubtaskFields(rollUp: string, releaseGuard: string, releaseList: string)

  /** The names as written in both files. */
  const FIELDS_AS_WRITTEN := SubtaskFields("substasks", "substasks", "subtrasks")

  /** The name the ClickUp API uses. */
  const FIELDS_INTENDED := SubtaskFields("subtasks", "subtasks", "subtasks")

  /** The roll-up after a successful update: the parent moves up to the lowest
      status among its subtasks. A failed fetch of the parent makes reading
      its fields throw, so nothing is sent. An array is truthy even when
      empty. */
  function ParentRollUp(v: Variant, api: Api, parentId: string, field: string): seq<Request> {
    match FetchTask(api, parentId)
    case None => []
    case Some(parent) =>
      if field in parent.lists then
        UpdateStatusIfNecessary(v, api.failingPuts, parent.id, parent.status, LowestOf(v, parent.lists[field])).requests
      else []
  }

  /** `updateTaskInProgressStatus` for a pull-request event. */
  function InProgressRequests(v: Variant, e: Event, api: Api, field: string): seq<Request>
    requires IsPullRequestEvent(e)
  {
    var taskId := TaskId(v, e.pullRequest.value.title.value);
    match FetchTask(api, taskId)
    case None => []
    case Some(task) =>
      var u := UpdateStatusIfNecessary(v, api.failingPuts, taskId, task.status, Some(Target(v, e)));
      u.requests + (if u.updated && Truthy(task.parent) then ParentRollUp(v, api, task.parent.value, field) else [])
  }

  /** The `forEach` over subtasks in `updateTaskAsReleased`. */
  function ReleaseSubtasks(v: Variant, api: Api, subtasks: seq<TaskSummary>): seq<Request>
    decreases |subtasks|
  {
    if |subtasks| == 0 then []
    else
      var last := subtasks[|subtasks| - 1];
      ReleaseSubtasks(v, api, subtasks[..|subtasks| - 1])
      + UpdateStatusIfNecessary(v, api.failingPuts, last.id, last.status, Some(v.released)).requests
  }

  /** The release of one tagged task: the task itself, then its subtasks
      whatever the first answer was. A present guard with an absent list
      throws after the first update. */
  function ReleaseTask(v: Variant, api: Api, taskId: string, fields: SubtaskFields): seq<Request> {
    match FetchTask(api, taskId)
    case None => []
    case Some(task) =>
      UpdateStatusIfNecessary(v, api.failingPuts, task.id, task.status, Some(v.released)).requests
      + (if fields.releaseGuard in task.lists && fields.releaseList in task.lists
         then ReleaseSubtasks(v, api, task.lists[fields.releaseList])
         else [])
  }

  /** `updateTaskAsReleased`: each commit whose message carries a tag. */
  function ReleasedRequests(v: Variant, api: Api, commits: seq<Commit>, fields: SubtaskFields): seq<Request>
    decreases |commits|
  {
    if |commits| == 0 then []
    else
      ReleasedRequests(v, api, commits[..|commits| - 1], fields) + CommitRequests(v, api, commits[|commits| - 1], fields)
  }

  /** The requests one commit gives rise to. */
  function CommitRequests(v: Variant, api: Api, commit: Commit, fields: SubtaskFields): seq<Request> {
    if ContainsTag(v, commit.message) then ReleaseTask(v, api, TaskId(v, commit.message), fields) else []
  }

  /** `handleEvent` with the intended push test; `fields` names the subtask
      list. */
  function HandleEvent(v: Variant, e: Event, api: Api, fields: SubtaskFields): seq<Request> {
    if IsPullRequestEvent(e) && ContainsTag(v, e.pullRequest.value.title.value) then
      InProgressRequests(v, e, api, fields.rollUp)
    else if IsPushEvent(e) then
      ReleasedRequests(v, api, e.commits.value, fields)
    else []
  }

  /** `handleEvent` exactly as written: the push test of `IsPushEventAsWritten`
      and the misspelt subtask fields. A throw happens before any request, so
      it sends nothing. */
  function HandleEventAsWritten(v: Variant, e: Event, api: Api): seq<Request> {
    if IsPullRequestEvent(e) && ContainsTag(v, e.pullRequest.value.title.value) then
      InProgressRequests(v, e, api, FIELDS_AS_WRITTEN.rollUp)
    else if IsPushEventAsWritten(e) == Some(true) then
      ReleasedRequests(v, api, e.commits.value, FIELDS_AS_WRITTEN)
    else []
  }

  // ---------------------------------------------------------------------------
  // What the handler sends

  /** Every request carries a status the priority list knows. */
  predicate AllKnown(v: Variant, requests: seq<Request>) {
    forall r | r in requests :: Normalize(v, r.status) in v.priorities
  }

  /** For a pull-request event: nothing is sent unless the tagged task was
      fetched and its status ranks below the target; the first request moves
      it to the target; a second request, the parent roll-up, follows only a
      successful update of a task that has a parent. */
  lemma InProgressOutcome(v: Variant, e: Event, api: Api, field: string)
    requires IsPullRequestEvent(e)
    ensures var taskId := TaskId(v, e.pullRequest.value.title.value);
      var requests := InProgressRequests(v, e, api, field);
      && AllKnown(v, requests)
      && |requests| <= 2
      && (requests != [] <==> taskId in api.tasks && ShouldUpdate(v, api.tasks[taskId].status, Target(v, e)))
      && (requests != [] ==> requests[0] == Put(taskId, Target(v, e)))
      && (|requests| == 2 ==> taskId !in api.failingPuts && Truthy(api.tasks[taskId].parent))
  {
    var taskId := TaskId(v, e.pullRequest.value.title.value);
    if taskId in api.tasks {
      var task := api.tasks[taskId];
      var roll := if Truthy(task.parent) then ParentRollUp(v, api, task.parent.value, field) else [];
      if Truthy(task.parent) {
        RollUpIsOneKnownPut(v, api, task.parent.value, field);
      }
      UpdateThenRollUp(v, api.failingPuts, taskId, task.status, Target(v, e), Truthy(task.parent), roll);
    }
  }

  /** The roll-up sends at most one request, to a known status. */
  lemma RollUpIsOneKnownPut(v: Variant, api: Api, parentId: string, field: string)
    ensures |ParentRollUp(v, api, parentId, field)| <= 1 && AllKnown(v, ParentRollUp(v, api, parentId, field))
  {
    if parentId in api.tasks && field in api.tasks[parentId].lists {
      var parent := api.tasks[parentId];
      UpdateOnlyUpgrades(v, api.failingPuts, parent.id, parent.status, LowestOf(v, parent.lists[field]));
    }
  }

  /** An update to `target` followed, after a successful PUT of a task with
      a parent, by a roll-up of at most one known request. */
  lemma UpdateThenRollUp(
    v: Variant, failingPuts: set<string>, taskId: string, current: string, target: string,
    hasParent: bool, roll: seq<Request>)
    requires |roll| <= 1 && AllKnown(v, roll)
    ensures var u := UpdateStatusIfNecessary(v, failingPuts, taskId, current, Some(target));
      var requests := u.requests + (if u.updated && hasParent then roll else []);
      && AllKnown(v, requests)
      && |requests| <= 2
      && (requests != [] <==> ShouldUpdate(v, current, target))
      && (requests != [] ==> requests[0] == Put(taskId, target))
      && (|requests| == 2 ==> taskId !in failingPuts && hasParent)
  {
    UpdateOnlyUpgrades(v, failingPuts, taskId, current, Some(target));
  }

  /** The roll-up moves the parent to the status of its first subtask of
      minimal rank, and only when that ranks above the parent's own status. */
  lemma RollUpReachesLowestSubtask(v: Variant, api: Api, parentId: string, field: string)
    requires parentId in api.tasks && field in api.tasks[parentId].lists
    requires var subtasks := api.tasks[parentId].lists[field];
      |subtasks| > 0 && forall j :: 0 <= j < |subtasks| ==> subtasks[j].status != ""
    ensures var parent := api.tasks[parentId];
      var subtasks := parent.lists[field];
      exists k :: IsFirstMinimal(v, subtasks, k)
        && ParentRollUp(v, api, parentId, field)
           == if ShouldUpdate(v, parent.status, subtasks[k].status) then [Put(parent.id, subtasks[k].status)] else []
  {
    LowestIsFirstMinimal(v, api.tasks[parentId].lists[field]);
  }

  lemma {:induction false} ReleaseSubtasksOnlyRelease(v: Variant, api: Api, subtasks: seq<TaskSummary>)
    ensures forall r | r in ReleaseSubtasks(v, api, subtasks) ::
      r.status == v.released && Normalize(v, v.released) in v.priorities
    decreases |subtasks|
  {
    if |subtasks| > 0 {
      ReleaseSubtasksOnlyRelease(v, api, subtasks[..|subtasks| - 1]);
    }
  }

  lemma ReleaseTaskOnlyReleases(v: Variant, api: Api, taskId: string, fields: SubtaskFields)
    ensures forall r | r in ReleaseTask(v, api, taskId, fields) ::
      r.status == v.released && Normalize(v, v.released) in v.priorities
  {
    if taskId in api.tasks {
      var task := api.tasks[taskId];
      if fields.releaseList in task.lists {
        ReleaseSubtasksOnlyRelease(v, api, task.lists[fields.releaseList]);
      }
    }
  }

  lemma {:induction false} ReleasedRequestsOnlyRelease(v: Variant, api: Api, commits: seq<Commit>, fields: SubtaskFields)
    ensures forall r | r in ReleasedRequests(v, api, commits, fields) ::
      r.status == v.released && Normalize(v, v.released) in v.priorities
    decreases |commits|
  {
    if |commits| > 0 {
      var last := commits[|commits| - 1];
      ReleasedRequestsOnlyRelease(v, api, commits[..|commits| - 1], fields);
      assert ReleasedRequests(v, api, commits, fields)
        == ReleasedRequests(v, api, commits[..|commits| - 1], fields) + CommitRequests(v, api, last, fields);
      ReleaseTaskOnlyReleases(v, api, TaskId(v, last.message), fields);
    }
  }

  /** A push event only ever moves tasks to "released", a known status. */
  lemma PushOnlyReleases(v: Variant, e: Event, api: Api, fields: SubtaskFields)
    requires IsPushEvent(e)
    ensures forall r | r in HandleEvent(v, e, api, fields) ::
      r.status == v.released && Normalize(v, v.released) in v.priorities
  {
    ReleasedRequestsOnlyRelease(v, api, e.commits.value, fields);
  }

  /** A pull-request event with no well-formed tag in its title sends
      nothing, even when the payload also looks like a push. */
  lemma UntaggedPullRequestIsIgnored(v: Variant, e: Event, api: Api, fields: SubtaskFields)
    requires IsPullRequestEvent(e) && !ContainsTag(v, e.pullRequest.value.title.value)
    ensures HandleEvent(v, e, api, fields) == []
  {
  }

  /** Every subtask listed below "released" gets a PUT to "released". */
  lemma ReleaseSubtasksCover(v: Variant, api: Api, subtasks: seq<TaskSummary>, j: int)
    requires 0 <= j < |subtasks| && ShouldUpdate(v, subtasks[j].status, v.released)
    ensures Put(subtasks[j].id, v.released) in ReleaseSubtasks(v, api, subtasks)
  {
    var upTo := subtasks[..j + 1];
    assert upTo[|upTo| - 1] == subtasks[j];
    LastSubtaskCovered(v, api, upTo);
    PrefixSubtasksCovered(v, api, subtasks, j + 1, Put(subtasks[j].id, v.released));
  }

  /** What the first `m` subtasks send, the whole list sends. */
  lemma {:induction false} PrefixSubtasksCovered(v: Variant, api: Api, subtasks: seq<TaskSummary>, m: nat, r: Request)
    requires m <= |subtasks| && r in ReleaseSubtasks(v, api, subtasks[..m])
    ensures r in ReleaseSubtasks(v, api, subtasks)
    decreases |subtasks| - m
  {
    if m < |subtasks| {
      assert subtasks[..m + 1][..m] == subtasks[..m];
      EarlierSubtasksCovered(v, api, subtasks[..m + 1], r);
      PrefixSubtasksCovered(v, api, subtasks, m + 1, r);
    } else {
      assert subtasks[..m] == subtasks;
    }
  }

  /** What the list without its last subtask sends, the whole list sends. */
  lemma EarlierSubtasksCovered(v: Variant, api: Api, subtasks: seq<TaskSummary>, r: Request)
    requires |subtasks| > 0 && r in ReleaseSubtasks(v, api, subtasks[..|subtasks| - 1])
    ensures r in ReleaseSubtasks(v, api, subtasks)
  {
  }

  /** The last subtask, when below "released", gets its PUT. */
  lemma LastSubtaskCovered(v: Variant, api: Api, subtasks: seq<TaskSummary>)
    requires |subtasks| > 0
    requires ShouldUpdate(v, subtasks[|subtasks| - 1].status, v.released)
    ensures Put(subtasks[|subtasks| - 1].id, v.released) in ReleaseSubtasks(v, api, subtasks)
  {
    var last := subtasks[|subtasks| - 1];
    var own := UpdateStatusIfNecessary(v, api.failingPuts, last.id, last.status, Some(v.released)).requests;
    assert own == [Put(last.id, v.released)];
    assert own[0] in ReleaseSubtasks(v, api, subtasks[..|subtasks| - 1]) + own;
  }

  /** Every request of `a` is also in `b`. */
  predicate Within(a: seq<Request>, b: seq<Request>) {
    forall r | r in a :: r in b
  }

  lemma WithinConcat(a: seq<Request>, b: seq<Request>, c: seq<Request>)
    ensures Within(c, a) ==> Within(c, a + b)
    ensures Within(c, b) ==> Within(c, a + b)
  {
  }

  lemma WithinSelf(a: seq<Request>)
    ensures Within(a, a)
  {
  }

  /** Everything one commit gives rise to is sent by the whole push. */
  lemma ReleasedRequestsInclude(v: Variant, api: Api, commits: seq<Commit>, fields: SubtaskFields, k: int)
    requires 0 <= k < |commits|
    ensures Within(CommitRequests(v, api, commits[k], fields), ReleasedRequests(v, api, commits, fields))
  {
    var upTo := commits[..k + 1];
    assert upTo[|upTo| - 1] == commits[k];
    LastCommitIncluded(v, api, upTo, fields);
    PrefixCommitsIncluded(v, api, commits, fields, k + 1, CommitRequests(v, api, commits[k], fields));
  }

  /** What the first `m` commits send, the whole push sends. */
  lemma {:induction false} PrefixCommitsIncluded(
    v: Variant, api: Api, commits: seq<Commit>, fields: SubtaskFields, m: nat, mine: seq<Request>)
    requires m <= |commits| && Within(mine, ReleasedRequests(v, api, commits[..m], fields))
    ensures Within(mine, ReleasedRequests(v, api, commits, fields))
    decreases |commits| - m
  {
    if m < |commits| {
      assert commits[..m + 1][..m] == commits[..m];
      EarlierCommitsIncluded(v, api, commits[..m + 1], fields, mine);
      PrefixCommitsIncluded(v, api, commits, fields, m + 1, mine);
    } else {
      assert commits[..m] == commits;
    }
  }

  /** What the push without its last commit sends, the whole push sends. */
  lemma EarlierCommitsIncluded(v: Variant, api: Api, commits: seq<Commit>, fields: SubtaskFields, mine: seq<Request>)
    requires |commits| > 0
    requires Within(mine, ReleasedRequests(v, api, commits[..|commits| - 1], fields))
    ensures Within(mine, ReleasedRequests(v, api, commits, fields))
  {
    var earlier := ReleasedRequests(v, api, commits[..|commits| - 1], fields);
    var latest := CommitRequests(v, api, commits[|commits| - 1], fields);
    WithinConcat(earlier, latest, mine);
  }

  lemma LastCommitIncluded(v: Variant, api: Api, commits: seq<Commit>, fields: SubtaskFields)
    requires |commits| > 0
    ensures Within(CommitRequests(v, api, commits[|commits| - 1], fields), ReleasedRequests(v, api, commits, fields))
  {
    var latest := CommitRequests(v, api, commits[|commits| - 1], fields);
    WithinSelf(latest);
    WithinConcat(ReleasedRequests(v, api, commits[..|commits| - 1], fields), latest, latest);
  }

  /** With the intended push test and field names, a push releases every
      task tagged in one of its commits and every subtask of that task, each
      one whose status ranks below "released". */
  lemma PushReleasesTaggedTasks(v: Variant, e: Event, api: Api, k: int)
    requires IsPushEvent(e)
    requires 0 <= k < |e.commits.value| && ContainsTag(v, e.commits.value[k].message)
    requires TaskId(v, e.commits.value[k].message) in api.tasks
    ensures var task := api.tasks[TaskId(v, e.commits.value[k].message)];
      && (ShouldUpdate(v, task.status, v.released) ==> Put(task.id, v.released) in HandleEvent(v, e, api, FIELDS_INTENDED))
      && (FIELDS_INTENDED.releaseList in task.lists ==>
            forall j | 0 <= j < |task.lists[FIELDS_INTENDED.releaseList]| ::
              var subtask := task.lists[FIELDS_INTENDED.releaseList][j];
              ShouldUpdate(v, subtask.status, v.released) ==> Put(subtask.id, v.released) in HandleEvent(v, e, api, FIELDS_INTENDED))
  {
    var taskId := TaskId(v, e.commits.value[k].message);
    var task := api.tasks[taskId];
    ReleasedRequestsInclude(v, api, e.commits.value, FIELDS_INTENDED, k);
    assert CommitRequests(v, api, e.commits.value[k], FIELDS_INTENDED) == ReleaseTask(v, api, taskId, FIELDS_INTENDED);
    var own := UpdateStatusIfNecessary(v, api.failingPuts, task.id, task.status, Some(v.released)).requests;
    if FIELDS_INTENDED.releaseList in task.lists {
      var subtasks := task.lists[FIELDS_INTENDED.releaseList];
      assert ReleaseTask(v, api, taskId, FIELDS_INTENDED) == own + ReleaseSubtasks(v, api, subtasks);
      forall j | 0 <= j < |subtasks| && ShouldUpdate(v, subtasks[j].status, v.released)
        ensures Put(subtasks[j].id, v.released) in HandleEvent(v, e, api, FIELDS_INTENDED)
      {
        ReleaseSubtasksCover(v, api, subtasks, j);
      }
    }
  }

  /** As written, the release of a task whose payload has no `substasks`
      field touches that task alone; with `substasks` but no `subtrasks` the
      iteration throws after the first update. Either way no subtask is
      released. */
  lemma SubtasksNeverReleasedAsWritten(v: Variant, api: Api, taskId: string)
    requires taskId in api.tasks && FIELDS_AS_WRITTEN.releaseList !in api.tasks[taskId].lists
    ensures var task := api.tasks[taskId];
      ReleaseTask(v, api, taskId, FIELDS_AS_WRITTEN)
      == UpdateStatusIfNecessary(v, api.failingPuts, task.id, task.status, Some(v.released)).requests
  {
  }

  /** As written, the parent roll-up never runs against an API that names the
      list `subtasks`: a pull-request event sends at most the one update of
      its own task. */
  lemma RollUpNeverRunsAsWritten(v: Variant, e: Event, api: Api)
    requires IsPullRequestEvent(e)
    requires forall id | id in api.tasks :: FIELDS_AS_WRITTEN.rollUp !in api.tasks[id].lists
    ensures |InProgressRequests(v, e, api, FIELDS_AS_WRITTEN.rollUp)| <= 1
  {
  }

  /** With the intended field name, a successful update of a task with a
      parent raises the parent to its lowest subtask status when that ranks
      above the parent's. */
  lemma RollUpRunsAsIntended(v: Variant, e: Event, api: Api)
    requires IsPullRequestEvent(e)
    requires var taskId := TaskId(v, e.pullRequest.value.title.value);
      && taskId in api.tasks && taskId !in api.failingPuts
      && ShouldUpdate(v, api.tasks[taskId].status, Target(v, e))
      && Truthy(api.tasks[taskId].parent)
      && api.tasks[taskId].parent.value in api.tasks
    requires var parent := api.tasks[api.tasks[TaskId(v, e.pullRequest.value.title.value)].parent.value];
      && FIELDS_INTENDED.rollUp in parent.lists
      && LowestOf(v, parent.lists[FIELDS_INTENDED.rollUp]).Some?
      && ShouldUpdate(v, parent.status, LowestOf(v, parent.lists[FIELDS_INTENDED.rollUp]).value)
    ensures var parent := api.tasks[api.tasks[TaskId(v, e.pullRequest.value.title.value)].parent.value];
      InProgressRequests(v, e, api, FIELDS_INTENDED.rollUp)
      == [Put(TaskId(v, e.pullRequest.value.title.value), Target(v, e)),
          Put(parent.id, LowestOf(v, parent.lists[FIELDS_INTENDED.rollUp]).value)]
  {
  }

  /** As written, no payload other than a pull request makes the handler send
      anything: the push test holds only when there is no commit to read. */
  lemma PushSendsNothingAsWritten(v: Variant, e: Event, api: Api)
    requires !IsPullRequestEvent(e)
    ensures HandleEventAsWritten(v, e, api) == []
  {
  }
}
