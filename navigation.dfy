/**
 * The question-navigation decision of the exam screen: the search for the
 * first unanswered position (`findNextUnansweredQuestion`), the rule that
 * picks the screen shown after a subject, and what "prev" / "next" do with
 * the current question index.
 */
module Navigation {
  import opened Wrappers
  import opened Countdown

  /** The highest subject id; after it the tryout is scored. */
  const MaxSubjectId := 7

  /** The screens the exam screen navigates to when a subject ends. */
  datatype Route =
    | Intermission(tryout: int, subject: int)  // `/siswa/tryout/{tryout}/{subject}/peralihan`
    | Scoring(tryout: int)                     // `/siswa/tryout/{tryout}/penilaian`

  /** Where a finished subject leads: the intermission before the next subject
      below the fixed maximum, the scoring screen from it on. */
  function RouteAfterSubject(tryout: int, subject: int): (r: Route)
    ensures r.Intermission? <==> subject < MaxSubjectId
    ensures r.Intermission? ==> r.tryout == tryout && r.subject == subject + 1
    ensures r.Scoring? ==> r.tryout == tryout
  {
    if subject < MaxSubjectId then Intermission(tryout, subject + 1) else Scoring(tryout)
  }

  /** Every position `k..hi` occurs in the answered list. The source compares
      1-based positions with a list that holds question ids. */
  predicate PositionsAnswered(answered: seq<int>, k: int, hi: int) {
    forall p :: k <= p <= hi ==> p in answered
  }

  /** The search loop of `findNextUnansweredQuestion`, from position `k` on. */
  function SearchFrom(answered: seq<int>, k: int, total: int): (i: int)
    requires k >= 1
    ensures PositionsAnswered(answered, k, total) ==> i == 1
    ensures !PositionsAnswered(answered, k, total) ==>
              k <= i <= total && i !in answered && PositionsAnswered(answered, k, i - 1)
    decreases if k <= total then total - k + 1 else 0
  {
    if k > total then 1
    else if k !in answered then k
    else SearchFrom(answered, k + 1, total)
  }

  /** `findNextUnansweredQuestion()`: the least position in `1..total` that
      is not in the answered list, or 1 when there is none. */
  function NextUnanswered(answered: seq<int>, total: int): (i: int)
    ensures 1 <= i && (total >= 1 ==> i <= total)
    ensures PositionsAnswered(answered, 1, total) ==> i == 1
    ensures !PositionsAnswered(answered, 1, total) ==>
              i !in answered && PositionsAnswered(answered, 1, i - 1)
  {
    SearchFrom(answered, 1, total)
  }

  /** The `for` loop of `findNextUnansweredQuestion`. */
  method FindNextUnansweredQuestion(answered: seq<int>, total: int) returns (pos: int)
    ensures pos == NextUnanswered(answered, total)
  {
    var i := 1;
    while i <= total
      invariant 1 <= i
      invariant SearchFrom(answered, i, total) == SearchFrom(answered, 1, total)
      decreases total - i
    {
      if i !in answered {
        return i;
      }
      i := i + 1;
    }
    return 1;
  }

  /** When the question ids happen to be the positions `1..n`, the search
      finds the first unanswered question of the subject. */
  lemma NextUnansweredWhenIdsArePositions(ids: seq<int>, answered: seq<int>, k: int)
    requires forall i :: 0 <= i < |ids| ==> ids[i] == i + 1
    requires 0 <= k < |ids| && ids[k] !in answered
    ensures var p := NextUnanswered(answered, |ids|);
            1 <= p <= |ids| && ids[p - 1] !in answered &&
            forall i :: 0 <= i < p - 1 ==> ids[i] in answered
  {
  }

  /** With other ids the search is about positions only: when every question
      id is larger than the number of questions, no position is ever in the
      answered list, so the search returns position 1 whatever is answered. */
  lemma NextUnansweredIgnoresIds(ids: seq<int>, answered: seq<int>)
    requires |ids| >= 1
    requires forall x :: x in answered ==> x in ids
    requires forall i :: 0 <= i < |ids| ==> ids[i] > |ids|
    ensures NextUnanswered(answered, |ids|) == 1
  {
  }

  datatype Direction = Prev | Next

  /** What a navigation does to the screen: show question `index`, or leave
      the subject for `route`. */
  datatype Move = GoTo(index: int) | Finish(route: Route)

  /** `timeLeft && (timeLeft.minutes > 0 || timeLeft.seconds > 0)`. */
  predicate HasTimeLeft(timeLeft: Option<Time>) {
    timeLeft.Some? && (timeLeft.value.minutes > 0 || timeLeft.value.seconds > 0)
  }

  /** The decision of `navigateQuestion`. `answered` is the answered list the
      handler read when it was invoked, before any empty-answer submission. */
  function NavigateMove(dir: Direction, current: int, total: int, answered: seq<int>,
                        timeLeft: Option<Time>, tryout: int, subject: int): (m: Move)
    ensures m.Finish? <==> dir == Next && current == total && !HasTimeLeft(timeLeft) && |answered| == total
    ensures m.Finish? ==> m.route == RouteAfterSubject(tryout, subject)
    ensures dir == Prev ==> m.GoTo? && m.index >= 1 && m.index >= current - 1
                            && (m.index == 1 || m.index == current - 1)
    ensures dir == Next && current != total ==> m == GoTo(current + 1)
    ensures dir == Next && current == total && m.GoTo? ==> m.index == NextUnanswered(answered, total)
  {
    match dir
    case Prev => GoTo(if current - 1 > 1 then current - 1 else 1)
    case Next =>
      if current != total then GoTo(current + 1)
      else if HasTimeLeft(timeLeft) then GoTo(NextUnanswered(answered, total))
      else if |answered| == total then Finish(RouteAfterSubject(tryout, subject))
      else GoTo(NextUnanswered(answered, total))
  }

  /** Navigating from a question of the subject always lands on a question of
      the subject. */
  lemma NavigateStaysOnAQuestion(dir: Direction, current: int, total: int, answered: seq<int>,
                                 timeLeft: Option<Time>, tryout: int, subject: int)
    requires 1 <= current <= total
    ensures var m := NavigateMove(dir, current, total, answered, timeLeft, tryout, subject);
            m.GoTo? ==> 1 <= m.index <= total
  {
  }

  /** On the last question with time left, "next" never leaves the subject:
      it goes back to the first unanswered position. */
  lemma NoFinishWhileTimeLeft(current: int, answered: seq<int>, timeLeft: Option<Time>, tryout: int, subject: int)
    requires HasTimeLeft(timeLeft) && current >= 1
    ensures NavigateMove(Next, current, current, answered, timeLeft, tryout, subject)
            == GoTo(NextUnanswered(answered, current))
  {
  }
}
