/** The older variant, scripts/update-clickup-status.js: lower-case status
    names (with the spelling "in functionnal test"), tags written `(#<id>)`,
    and an update decision that compares statuses exactly as given. Its
    top-level code is the same handler as the service's, so everything
    stated about `ClickUp.HandleEvent` holds for `SCRIPT`. */
module ClickUpScript {

  import opened Wrappers
  import opened ClickUp

  const SCRIPT_TODO := "to do"
  const SCRIPT_DOING := "doing"
  const SCRIPT_WAITING_FOR_REVIEW := "waiting for review"
  const SCRIPT_IN_FUNCTIONAL_TEST := "in functionnal test"
  const SCRIPT_IN_CODE_REVIEW := "in code review"
  const SCRIPT_TO_RELEASE := "to release"
  const SCRIPT_RELEASED := "released"
  const SCRIPT_CLOSED := "closed"

  const SCRIPT_PRIORITIES := [
    SCRIPT_TODO, SCRIPT_DOING, SCRIPT_WAITING_FOR_REVIEW, SCRIPT_IN_FUNCTIONAL_TEST,
    SCRIPT_IN_CODE_REVIEW, SCRIPT_TO_RELEASE, SCRIPT_RELEASED, SCRIPT_CLOSED]

  const SCRIPT := Variant(
    SCRIPT_PRIORITIES, false, "(#",
    SCRIPT_DOING, SCRIPT_WAITING_FOR_REVIEW, SCRIPT_IN_CODE_REVIEW, SCRIPT_TO_RELEASE, SCRIPT_RELEASED)

  /** The eight statuses are distinct. */
  lemma ScriptStatusesDistinct()
    ensures |SCRIPT.priorities| == 8 && Distinct(SCRIPT.priorities)
  {
  }

  /** The targets climb the list in the same order as the service's, and
      "released" comes after all of them. */
  lemma ScriptTargetsOrdered()
    ensures TargetsOrdered(SCRIPT)
    ensures UpdateRank(SCRIPT, SCRIPT_IN_FUNCTIONAL_TEST) == 3
    ensures UpdateRank(SCRIPT, SCRIPT_TO_RELEASE) < UpdateRank(SCRIPT, SCRIPT_RELEASED)
  {
    ScriptStatusesDistinct();
    RankOfDistinct(SCRIPT, 1);
    RankOfDistinct(SCRIPT, 2);
    RankOfDistinct(SCRIPT, 3);
    RankOfDistinct(SCRIPT, 4);
    RankOfDistinct(SCRIPT, 5);
    RankOfDistinct(SCRIPT, 6);
  }

  /** Without case folding, a status of a duplicate-free list ranks at its
      own index. */
  lemma RankOfDistinct(v: Variant, i: int)
    requires !v.foldCase && Distinct(v.priorities) && 0 <= i < |v.priorities|
    ensures UpdateRank(v, v.priorities[i]) == i
  {
    var r := UpdateRank(v, v.priorities[i]);
    assert v.priorities[r] == v.priorities[i];
  }

  /** The script compares statuses as given: a capitalised current status is
      unknown, so even the same status is written again. */
  lemma ScriptIsCaseSensitive(current: string)
    requires current == "D" + "oing"
    ensures ShouldUpdate(SCRIPT, current, SCRIPT_DOING)
  {
    CapitalisedIsUnknown(current);
    ScriptStatusesDistinct();
    RankOfDistinct(SCRIPT, 1);
  }

  /** Every status of the script begins with a lower-case letter. */
  lemma CapitalisedIsUnknown(s: string)
    requires |s| > 0 && 'A' <= s[0] <= 'Z'
    ensures s !in SCRIPT.priorities
  {
    forall i | 0 <= i < |SCRIPT.priorities| ensures SCRIPT.priorities[i] != s {
      assert 'a' <= SCRIPT.priorities[i][0] <= 'z';
    }
  }

  /** A tag needs at least six word characters between `(#` and `)`. */
  lemma TagNeedsSixWordChars()
    ensures ContainsTag(SCRIPT, "(#" + "a1b2c3" + ")")
    ensures !ContainsTag(SCRIPT, "(#" + "a1b2c" + ")")
  {
    var long := "(#" + "a1b2c3" + ")";
    assert long[2..8] == "a1b2c3";
    assert TagAt(SCRIPT, long, 0, 6);
    var short := "(#" + "a1b2c" + ")";
    forall i, n | 0 <= i < |short| && 0 <= n < |short| ensures !TagAt(SCRIPT, short, i, n) {
    }
  }

  /** The id of a title ending in `(#<id>)` is `<id>`. */
  lemma ScriptTaskId(pre: string, id: string)
    requires '(' !in pre && ')' !in id
    ensures TaskId(SCRIPT, pre + "(#" + id + ")") == id
  {
    TaskIdOfTag(SCRIPT, pre, id, "");
    assert pre + "(#" + id + ")" + "" == pre + "(#" + id + ")";
  }
}
