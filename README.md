# Exam-taking session of the LuLuSin tryout screen, in Dafny

This project models the student's exam screen `SiswaTryoutPengerjaan`
(`src/Pages/Siswa/TryoutPengerjaan.jsx`) of the LuLuSin front end. With React
and HTTP stripped away, the screen is a small state machine over:

- the countdown `timeLeft = {minutes, seconds}`, ticked once a second;
- the answer map `selectedAnswers` (question id to option id);
- the list `answeredQuestions` of question ids;
- the 1-based index `currentQuestion`;
- three records in the browser store per (tryout, subject): `_time`, `_answers`, `_answered`.

Modules:

- `Countdown` (`countdown.dfy`) holds the pure arithmetic. It has the tick (`Step`) and the
  restoring of the remaining time from a persisted `{minutes, seconds, timestamp}` (`Restore`).
  Its lemmas cover the countdown as a whole: exactly one second per tick, `{0, 0}` after
  `minutes * 60 + seconds` ticks and not before, and restore undoing persist.
- `AnswerBook` (`answer_book.dfy`) holds the answer map and answered list as a value. It has the
  request each handler sends (POST, PATCH or DELETE, with an option id or `null`) and the state
  after a successful call. Its lemmas cover the invariant and the toggle.
- `Navigation` (`navigation.dfy`) holds `findNextUnansweredQuestion` (a specification function and
  the loop proved against it), the rule that picks the next screen (intermission for subject
  `sid + 1` while `sid < 7`, else scoring) and the decision of `navigateQuestion`.
- `TryoutSession` (`tryout_session.dfy`) holds the class `ExamSession`. It has the screen's fields,
  the browser store as a map field, and one method per handler. Each method states its whole new
  state in terms of the functions above. `Load` establishes the invariant `Valid()` when the store
  holds no answer records, or records that already satisfy it. `Tick`, `SelectAnswer`,
  `DeleteAnswer` and `Navigate` keep `Valid()`. `SubmitEmptyAnswer` keeps it when its question id
  is a fetched one, which is how `Navigate` calls it.

The invariant `Valid()` says three things about the answer state:
- only fetched questions are answered;
- every selected answer belongs to an answered question;
- no question is listed twice.

Inputs the screen takes from outside become parameters:
- whether a remote call succeeded (`remoteOk`);
- the wall-clock time in milliseconds (`now`);
- the fetched question ids and the subject's time allotment.

A method reports the remote call it makes as a `Request` value.

Three behaviours of the source are modelled as written:

- `findNextUnansweredQuestion` compares the positions `1..total` with a list that holds question
  ids. `NextUnansweredIgnoresIds` shows that when every id is larger than the number of questions
  and only fetched ids are answered, it always returns position 1, whichever of them are answered. `NextUnansweredWhenIdsArePositions` shows
  that it finds the first unanswered question when the ids are the positions.
- A persisted timer that has run out restores the full allotment, not zero.
- `navigateQuestion` makes its decisions with the answered list and remaining time it read when
  it started. It does so even after it has submitted an empty answer for the question on screen.

On the last question, `next` checks the remaining time first. With time left it goes to the first
unanswered position. With none, it finishes the subject when the answered list is as long as the
question list, and otherwise goes to the first unanswered position (lines 350-383).
This length test means "every question answered" only under the invariant and with distinct
fetched ids (`FullLengthIffAllAnswered`). When a fetched id is repeated, the test never passes
(`RepeatedIdsNeverFullLength`), because the answered list never holds an id twice.

Two modelled paths are never taken by the screen as written:
- `handleDeleteAnswer` (line 393) is not called from the rendered screen (lines 448-575).
- The DELETE branch of `submitEmptyAnswer` (lines 302-304) is not reachable from its only caller.
  `navigateQuestion` calls it only for a question that is not yet answered (lines 346-347).

## Model

| member | source | states |
|---|---|---|
| Countdown.Step | src/Pages/Siswa/TryoutPengerjaan.jsx:118-137 | a non-terminal tick takes exactly one second off and keeps the seconds in 0..59; the terminal tick at minutes and seconds both not positive returns the time unchanged; minutes never go negative |
| Countdown.ElapsedSeconds | src/Pages/Siswa/TryoutPengerjaan.jsx:68 | the elapsed whole seconds are the floor of the elapsed milliseconds over 1000 |
| Countdown.Restore | src/Pages/Siswa/TryoutPengerjaan.jsx:60-81 | the restored time is a well-formed clock value; with a saved record and `m*60+s-elapsed > 0` it holds exactly that many seconds; otherwise, and with nothing saved, it is the full allotment `{minutes, 0}` |
| Countdown.RestoreResumesPersisted | src/Pages/Siswa/TryoutPengerjaan.jsx:66-78 | restoring a record a tick has just persisted (time left, no time elapsed) gives back exactly the persisted time |
| Countdown.RestoreSubtractsElapsed | src/Pages/Siswa/TryoutPengerjaan.jsx:66-75 | reloading k whole seconds (plus under one more) after a record was written takes exactly k seconds off |
| Countdown.RestoreNinetySecondsLater | src/Pages/Siswa/TryoutPengerjaan.jsx:66-75 | a saved `{2, 0}` reloaded 90 s later restores `{0, 30}` |
| Countdown.ExpiredIffNoSecondsLeft | src/Pages/Siswa/TryoutPengerjaan.jsx:122-140 | for a well-formed non-negative time the terminal branch is taken exactly when the time is `{0, 0}` |
| Countdown.CountdownTakesOneSecondPerTick | src/Pages/Siswa/TryoutPengerjaan.jsx:117-137 | n ticks from a well-formed time take exactly n seconds off and keep the time well-formed |
| Countdown.CountdownReachesZero | src/Pages/Siswa/TryoutPengerjaan.jsx:117-141 | the countdown is `{0, 0}` after exactly `minutes*60+seconds` ticks |
| Countdown.NoEarlierTickIsTerminal | src/Pages/Siswa/TryoutPengerjaan.jsx:122-140 | no tick before that one takes the terminal branch |
| AnswerBook.Exclude | src/Pages/Siswa/TryoutPengerjaan.jsx:144-146 | the filtered list holds exactly the ids of the input that are not in the removed list, and is no longer than the input |
| AnswerBook.ExcludeDistributes | src/Pages/Siswa/TryoutPengerjaan.jsx:144-146 | filtering distributes over concatenation, so the unanswered ids keep question order |
| AnswerBook.ExcludeKeepsNoDuplicates | src/Pages/Siswa/TryoutPengerjaan.jsx:222-226 | removing an id from a duplicate-free answered list leaves it duplicate-free |
| AnswerBook.Include | src/Pages/Siswa/TryoutPengerjaan.jsx:320-328 | after appending-if-absent the id is present, nothing else is added, a present id leaves the list unchanged, an absent one is appended at the end, and no duplicate is created |
| AnswerBook.SelectRequest | src/Pages/Siswa/TryoutPengerjaan.jsx:209-254 | clicking the selected option sends PATCH with null; otherwise the option is sent, by PATCH when the question is already answered and by POST when it is not; never DELETE |
| AnswerBook.AfterSelect | src/Pages/Siswa/TryoutPengerjaan.jsx:209-272 | a retracting click leaves the question neither selected nor answered; any other click selects the option and marks it answered, leaving an already-answered list as it was; other questions are untouched |
| AnswerBook.EmptyRequest | src/Pages/Siswa/TryoutPengerjaan.jsx:299-310 | an empty submission sends DELETE exactly when the question is already answered, else POST with null; never PATCH |
| AnswerBook.AfterEmpty | src/Pages/Siswa/TryoutPengerjaan.jsx:312-328 | after an empty submission the question has no selected option and is answered, appended only if absent; other questions are untouched |
| AnswerBook.AfterDelete | src/Pages/Siswa/TryoutPengerjaan.jsx:404-421 | after a delete the question is neither selected nor answered; other questions are untouched |
| AnswerBook.SelectKeepsConsistent | src/Pages/Siswa/TryoutPengerjaan.jsx:203-272 | selecting an answer on a fetched question keeps the invariant: answered ids are fetched ids, selected keys are answered, no duplicates |
| AnswerBook.EmptyKeepsConsistent | src/Pages/Siswa/TryoutPengerjaan.jsx:312-328 | an empty submission for a fetched question keeps the invariant |
| AnswerBook.DeleteKeepsConsistent | src/Pages/Siswa/TryoutPengerjaan.jsx:406-421 | deleting an answer keeps the invariant |
| AnswerBook.SelectTwiceRetracts | src/Pages/Siswa/TryoutPengerjaan.jsx:209-229 | clicking a not-yet-selected option twice ends with the question neither selected nor answered, the second click being a PATCH with null, and the other questions as before |
| AnswerBook.RetractIsDelete | src/Pages/Siswa/TryoutPengerjaan.jsx:209-228 | a retracting click changes the answer state exactly as a delete does |
| AnswerBook.EmptyListsQuestionOnce | src/Pages/Siswa/TryoutPengerjaan.jsx:319-328 | under the invariant, after an empty submission the question occurs in the answered list exactly once |
| AnswerBook.FullLengthIffAllAnswered | src/Pages/Siswa/TryoutPengerjaan.jsx:357-358 | under the invariant and with distinct fetched ids, the answered list is as long as the question list exactly when every fetched question is answered |
| AnswerBook.RepeatedIdsNeverFullLength | src/Pages/Siswa/TryoutPengerjaan.jsx:358 | under the invariant, when a fetched id is repeated the answered list is strictly shorter than the question list, so the finishing test never passes |
| Navigation.RouteAfterSubject | src/Pages/Siswa/TryoutPengerjaan.jsx:163-170 | a finished subject leads to the intermission for subject sid+1 exactly when sid < 7, otherwise to the scoring screen of the same tryout |
| Navigation.SearchFrom | src/Pages/Siswa/TryoutPengerjaan.jsx:193-200 | searching from position k returns the least position in k..total not in the answered list, or 1 when all are in it |
| Navigation.NextUnanswered | src/Pages/Siswa/TryoutPengerjaan.jsx:193-200 | the result is the least position in 1..total not in the answered list, or 1 when there is none; it lies in 1..total whenever total >= 1 |
| Navigation.FindNextUnansweredQuestion | src/Pages/Siswa/TryoutPengerjaan.jsx:193-200 | the loop returns exactly the least unanswered position (or 1) |
| Navigation.NextUnansweredWhenIdsArePositions | src/Pages/Siswa/TryoutPengerjaan.jsx:193-200 | when the question ids are the positions 1..n and one is unanswered, the search lands on the first unanswered question |
| Navigation.NextUnansweredIgnoresIds | src/Pages/Siswa/TryoutPengerjaan.jsx:193-200 | when every question id is larger than the number of questions and only fetched ids are answered, the search returns position 1 whatever is answered |
| Navigation.NavigateMove | src/Pages/Siswa/TryoutPengerjaan.jsx:342-390 | prev goes to max(1, cur-1); next before the last question goes to cur+1; the subject is finished exactly on next at the last question with no time left and an answered list as long as the question list, and then by the subject rule; otherwise next at the last question goes to the first unanswered position |
| Navigation.NavigateStaysOnAQuestion | src/Pages/Siswa/TryoutPengerjaan.jsx:342-390 | navigating from a question of the subject always lands on a question of the subject |
| Navigation.NoFinishWhileTimeLeft | src/Pages/Siswa/TryoutPengerjaan.jsx:350-356 | with time left, next on the last question never leaves the subject |
| TryoutSession.ExamSession.Load | src/Pages/Siswa/TryoutPengerjaan.jsx:60-93 | on load the index is 1, the countdown is restored from the saved `_time` record when the subject has an allotment (no timer otherwise), and the answer map and answered list are read back from their records (empty when absent); when what was read back satisfies the invariant over the fetched ids, and in particular when neither record exists, the loaded state satisfies `Valid()` |
| TryoutSession.ExamSession.Tick | src/Pages/Siswa/TryoutPengerjaan.jsx:114-184 | a normal tick steps the time and persists it with the current timestamp; the terminal tick keeps the time, stops the timer, sends one null POST per unanswered fetched id in question order, removes the three records and routes by the subject rule; a stopped timer does nothing; answers are untouched |
| TryoutSession.ExamSession.SelectAnswer | src/Pages/Siswa/TryoutPengerjaan.jsx:203-284 | the request is as `SelectRequest`; on success the state is `AfterSelect` and the answer map record is written, plus the answered list record on a retract or append; on failure only an alert, nothing changes; with no question on screen no request is sent |
| TryoutSession.ExamSession.SubmitEmptyAnswer | src/Pages/Siswa/TryoutPengerjaan.jsx:287-339 | the request is as `EmptyRequest`; on success the state is `AfterEmpty` and only the answered list record is written, and only when the id was appended; on failure nothing changes |
| TryoutSession.ExamSession.DeleteAnswer | src/Pages/Siswa/TryoutPengerjaan.jsx:393-427 | sends DELETE; on success the state is `AfterDelete` and both records are written; on failure nothing changes |
| TryoutSession.ExamSession.Navigate | src/Pages/Siswa/TryoutPengerjaan.jsx:342-390 | next on an unanswered question first submits an empty answer; then the move is `NavigateMove` over the answered list and time read at the start; finishing removes the three records, sets the route and stops the interval (the screen unmounts), and under the invariant with distinct fetched ids happens only when every fetched question was answered; with no question on screen nothing happens |
| TryoutSession.TimeoutFiresOnce | src/Pages/Siswa/TryoutPengerjaan.jsx:117-172 | from `{0, 1}` one tick shows `{0, 0}`, the next leaves the subject, and a further tick finds the timer stopped |
| TryoutSession.ClickTwice | src/Pages/Siswa/TryoutPengerjaan.jsx:209-229 | two successful clicks on the same option of an unselected question leave it neither selected nor answered |

## Left out

- Remote calls (`axiosInstance`): each is a `Request` value plus a success flag. Error bodies, alert texts and the `is_update` flag are not modelled.
- The timeout's null POSTs are fire-and-forget. Only the list of requests is modelled, not their completion or failures.
- Overlapping answer submissions can race. One handler call is one atomic method call.
- The functional `setState` updaters are modelled as if applied at once, to the same state the handler read.
- The browser store is a map field, with typed records instead of JSON strings. A record of the wrong shape reads as absent.
- `Date.now()` is a parameter. `setInterval`/`clearInterval` scheduling and effect re-runs are not modelled: a tick is one `Tick` call, and the interval is a flag.
- Loading the subject's data is not modelled. That covers the fetch, the `DataUnavailable` error screen and the redirect to login on 401/403. The load is `ExamSession.Load` over the fetched question ids and allotment (`None` when `total_waktu` is absent or falsy).
- TryoutSession.ExamSession.Load: does not promise `Valid()` for every store. The source reads the `_answers` and `_answered` records back unchecked (lines 88-93), so a stale or foreign store loads into a state outside the invariant, for example a list holding an id that was not fetched.
- The reset effect on a subject change (lines 26-37) is not modelled. `Load` is a fresh mount, starting from an empty answer map and answered list when nothing is saved.
- Numbers are unbounded integers. The double-precision representation of JavaScript numbers is not modelled, and neither is `Number(subjectId)` of a non-numeric id (NaN routes to scoring).
- JSX rendering, animations and console output, and the question-grid click that sets `currentQuestion` directly (line 487), are not modelled.
- src/App.jsx, src/Pages/Admin/DetailGuru.jsx, src/Pages/Admin/DetailMurid.jsx, src/Pages/Admin/DashBoard.jsx and src/Pages/Guru/GuruTryoutDetail.jsx are not part of this model. They are a route table and fetch-and-render screens.
