/** Facts about the service variant (services/clickup-status-updater.js):
    its status list, and what it does with the payloads its tests use. */
module ClickUpService {

  import opened Wrappers
  import opened ClickUp

  /** The eight statuses are distinct. */
  lemma ServiceStatusesDistinct()
    ensures |SERVICE.priorities| == 8 && Distinct(SERVICE.priorities)
  {
  }

  /** The targets of a pull-request event climb the list in the order
      "doing", "waiting for review", "in code review", "to release", and
      "released" comes after all of them. */
  lemma ServiceTargetsOrdered()
    ensures TargetsOrdered(SERVICE)
    ensures UpdateRank(SERVICE, TO_RELEASE_STATUS) < UpdateRank(SERVICE, RELEASED_STATUS)
  {
    DoingRank();
    WaitingForReviewRank();
    InCodeReviewRank();
    ToReleaseRank();
    ReleasedRank();
  }

  /** A status without lower-case letters is its own upper case. */
  lemma NoLowerCaseIsUpper(s: string)
    requires forall i :: 0 <= i < |s| ==> !('a' <= s[i] <= 'z')
    ensures JsStrings.ToUpper(s) == s
  {
  }

  /** A status of the list that folding leaves alone ranks at its index. */
  lemma ServiceRankAt(i: int)
    requires 0 <= i < |STATUS_PRIORITIES|
    requires JsStrings.ToUpper(STATUS_PRIORITIES[i]) == STATUS_PRIORITIES[i]
    ensures UpdateRank(SERVICE, STATUS_PRIORITIES[i]) == i
  {
    ServiceStatusesDistinct();
    var r := UpdateRank(SERVICE, STATUS_PRIORITIES[i]);
    assert STATUS_PRIORITIES[r] == STATUS_PRIORITIES[i];
  }

  lemma DoingRank()
    ensures UpdateRank(SERVICE, DOING_STATUS) == 1
  {
    NoLowerCaseIsUpper(DOING_STATUS);
    ServiceRankAt(1);
  }

  lemma WaitingForReviewRank()
    ensures UpdateRank(SERVICE, WAITING_FOR_REVIEW_STATUS) == 2
  {
    NoLowerCaseIsUpper(WAITING_FOR_REVIEW_STATUS);
    ServiceRankAt(2);
  }

  lemma InCodeReviewRank()
    ensures UpdateRank(SERVICE, IN_CODE_REVIEW_STATUS) == 4
  {
    NoLowerCaseIsUpper(IN_CODE_REVIEW_STATUS);
    ServiceRankAt(4);
  }

  lemma ToReleaseRank()
    ensures UpdateRank(SERVICE, TO_RELEASE_STATUS) == 5
  {
    NoLowerCaseIsUpper(TO_RELEASE_STATUS);
    ServiceRankAt(5);
  }

  lemma ReleasedRank()
    ensures UpdateRank(SERVICE, RELEASED_STATUS) == 6
  {
    NoLowerCaseIsUpper(RELEASED_STATUS);
    ServiceRankAt(6);
  }

  /** The service folds case and leaves alone a status that differs from
      the target only in case. */
  lemma ServiceIgnoresCase(current: string)
    requires current == "\U{270D}\U{FE0F}" + "doing"
    ensures !ShouldUpdate(SERVICE, current, DOING_STATUS)
  {
    JsStrings.ToUpperConcat("\U{270D}\U{FE0F}", "doing");
    NoLowerCaseIsUpper("\U{270D}\U{FE0F}");
    assert JsStrings.ToUpper("doing") == "DOING";
    assert JsStrings.ToUpper(current) == DOING_STATUS;
    NoLowerCaseIsUpper(DOING_STATUS);
  }

  /** The test title `fix: sort in the right order (CU-123456)` gives the
      task id `123456`. */
  lemma TestTitleId(pre: string)
    requires pre == "fix: sort in the right order "
    ensures TaskId(SERVICE, pre + "(CU-" + "123456" + ")") == "123456"
  {
    assert '(' !in pre;
    TaskIdOfTag(SERVICE, pre, "123456", "");
    assert pre + "(CU-" + "123456" + ")" + "" == pre + "(CU-" + "123456" + ")";
  }

  /** The test title carries a well-formed tag. */
  lemma TestTitleTag()
    ensures ContainsTag(SERVICE, "fix: sort in the right order " + "(CU-" + "123456" + ")")
  {
    var pre := "fix: sort in the right order ";
    var title := pre + "(CU-" + "123456" + ")";
    assert title[|pre|..|pre| + 4] == "(CU-";
    assert title[|pre| + 4..|pre| + 10] == "123456";
    assert TagAt(SERVICE, title, |pre|, 6);
  }

  /** The pull-request test payload: a tagged title, no assignee, no
      reviewer and an empty review. A review is present but the empty lists
      rule out "waiting for review", so the target is "doing". */
  lemma TestPullRequestTarget(title: string)
    requires title == "fix: sort in the right order " + "(CU-" + "123456" + ")"
    ensures var e := Event(Some(PullRequest(Some(title), Some([]), Some([]))), Some(Review(None)), None, Some([]));
      IsPullRequestEvent(e) && IsInCodeReview(e) && !IsWaitingForReview(e) && Target(SERVICE, e) == DOING_STATUS
  {
  }

  /** The push test payload (pusher `johanna`, one commit tagged
      `(CU-123456)`): the test as written rejects it and the handler sends
      nothing, while the intended test accepts it and the tagged task, when
      below "released", is moved to "released". */
  lemma TestPushPayload(message: string, api: Api)
    requires message == "fix: sort in the right order " + "(CU-" + "123456" + ")"
    requires "123456" in api.tasks && api.tasks["123456"].id == "123456"
    requires ShouldUpdate(SERVICE, api.tasks["123456"].status, RELEASED_STATUS)
    ensures var e := Event(None, None, Some("johanna"), Some([Commit(message)]));
      && IsPushEventAsWritten(e) == Some(false)
      && HandleEventAsWritten(SERVICE, e, api) == []
      && IsPushEvent(e)
      && Put("123456", RELEASED_STATUS) in HandleEvent(SERVICE, e, api, FIELDS_INTENDED)
  {
    var e := Event(None, None, Some("johanna"), Some([Commit(message)]));
    TestTitleId("fix: sort in the right order ");
    TestTitleTag();
    PushReleasesTaggedTasks(SERVICE, e, api, 0);
  }
}
