/**
 * The exam screen of one (tryout, subject) pair as a stateful object: the
 * fields the screen keeps (current question, remaining time, answer map,
 * answered list), the browser store it mirrors them into, and one method per
 * handler. Remote calls are reported as the `Request` they issue; whether the
 * call succeeded is a parameter. Wall-clock time is a parameter as well.
 */
module TryoutSession {
  import opened Wrappers
  import opened Countdown
  import opened AnswerBook
  import opened Navigation

  /** The three records persisted per (tryout, subject): the keys
      `tryout_{t}_{s}_time`, `tryout_{t}_{s}_answers` and `tryout_{t}_{s}_answered`. */
  datatype Kind = RemainingTime | AnswerMap | AnsweredList

  datatype StoreKey = StoreKey(tryout: int, subject: int, kind: Kind)

  datatype Record =
    | TimeRecord(saved: SavedTime)
    | AnswersRecord(answers: map<int, int>)
    | AnsweredRecord(ids: seq<int>)

  /** The saved remaining time under `key`, if a time record is there. */
  function SavedTimeAt(store: map<StoreKey, Record>, key: StoreKey): Option<SavedTime> {
    if key in store && store[key].TimeRecord? then Some(store[key].saved) else None
  }

  /** The answer map read back from the record under `key`; empty when absent. */
  function StoredMap(store: map<StoreKey, Record>, key: StoreKey): map<int, int> {
    if key in store && store[key].AnswersRecord? then store[key].answers else map[]
  }

  /** The answered list read back from the record under `key`; empty when absent. */
  function StoredList(store: map<StoreKey, Record>, key: StoreKey): seq<int> {
    if key in store && store[key].AnsweredRecord? then store[key].ids else []
  }

  /** The null-answer POSTs the timeout sends: one per id of `ids`, in order. */
  predicate NullPostsFor(posts: seq<Request>, ids: seq<int>) {
    |posts| == |ids| && forall i :: 0 <= i < |ids| ==> posts[i] == Request(Post, ids[i], None)
  }

  class ExamSession {
    const tryoutId: int
    const subjectId: int
    /** The `question_id`s of the fetched questions, in question order. */
    const questionIds: seq<int>

    /** 1-based index of the question on screen. */
    var currentQuestion: int
    var timeLeft: Option<Time>
    /** Whether the one-second interval is installed. */
    var timerRunning: bool
    var selectedAnswers: map<int, int>
    var answeredQuestions: seq<int>
    /** The browser's persistent key-value store. */
    var store: map<StoreKey, Record>
    /** The screen navigated to, once the subject is over. */
    var route: Option<Route>

    function Key(kind: Kind): StoreKey {
      StoreKey(tryoutId, subjectId, kind)
    }

    function SubjectKeys(): set<StoreKey> {
      {Key(RemainingTime), Key(AnswerMap), Key(AnsweredList)}
    }

    function Book(): Answers
      reads this
    {
      Answers(selectedAnswers, answeredQuestions)
    }

    /** The answer bookkeeping invariant, over this subject's questions. */
    ghost predicate Valid()
      reads this
    {
      Consistent(Book(), questionIds)
    }

    /** `st` with the current answer map and/or answered list written to
        their records. */
    function Mirrored(st: map<StoreKey, Record>, writeMap: bool, writeList: bool): map<StoreKey, Record>
      reads this
    {
      var withMap := if writeMap then st[Key(AnswerMap) := AnswersRecord(selectedAnswers)] else st;
      if writeList then withMap[Key(AnsweredList) := AnsweredRecord(answeredQuestions)] else withMap
    }

    /** The screen after the subject's data is fetched: the countdown is
        restored when the subject has an allotment (`total_waktu`), and the
        answer map and answered list are read back from the store. */
    constructor Load(tryout: int, subject: int, ids: seq<int>, allotMinutes: Option<int>,
                     st: map<StoreKey, Record>, now: int)
      ensures tryoutId == tryout && subjectId == subject && questionIds == ids && store == st
      ensures currentQuestion == 1 && route == None
      ensures timeLeft == if allotMinutes.Some?
                          then Some(Restore(allotMinutes.value, SavedTimeAt(st, Key(RemainingTime)), now))
                          else None
      ensures timerRunning == timeLeft.Some?
      ensures selectedAnswers == StoredMap(st, Key(AnswerMap))
      ensures answeredQuestions == StoredList(st, Key(AnsweredList))
      ensures Consistent(Answers(StoredMap(st, Key(AnswerMap)), StoredList(st, Key(AnsweredList))), ids) ==> Valid()
      ensures Key(AnswerMap) !in st && Key(AnsweredList) !in st ==> Valid()
    {
      tryoutId, subjectId, questionIds := tryout, subject, ids;
      store := st;
      currentQuestion := 1;
      route := None;
      var timeKey := StoreKey(tryout, subject, RemainingTime);
      var restored := if allotMinutes.Some?
                      then Some(Restore(allotMinutes.value, SavedTimeAt(st, timeKey), now))
                      else None;
      timeLeft := restored;
      timerRunning := restored.Some?;
      var mapKey := StoreKey(tryout, subject, AnswerMap);
      var listKey := StoreKey(tryout, subject, AnsweredList);
      selectedAnswers := StoredMap(st, mapKey);
      answeredQuestions := StoredList(st, listKey);
    }

    /** One run of the interval callback at wall-clock time `now`. A normal
        tick persists the new time; the terminal tick stops the timer, sends a
        null answer for every fetched question not in the answered list,
        clears the subject's records and leaves the subject. */
    method Tick(now: int) returns (nullPosts: seq<Request>)
      modifies this
      ensures selectedAnswers == old(selectedAnswers) && answeredQuestions == old(answeredQuestions)
      ensures currentQuestion == old(currentQuestion)
      ensures !old(timerRunning) || old(timeLeft).None? ==> unchanged(this) && nullPosts == []
      ensures old(timerRunning) && old(timeLeft).Some? && !Expired(old(timeLeft).value) ==>
                var t := Step(old(timeLeft).value);
                && timeLeft == Some(t) && timerRunning && route == old(route) && nullPosts == []
                && store == old(store)[Key(RemainingTime) := TimeRecord(Persist(t, now))]
      ensures old(timerRunning) && old(timeLeft).Some? && Expired(old(timeLeft).value) ==>
                && timeLeft == old(timeLeft) && !timerRunning
                && store == old(store) - SubjectKeys()
                && route == Some(RouteAfterSubject(tryoutId, subjectId))
                && NullPostsFor(nullPosts, Exclude(questionIds, old(answeredQuestions)))
      ensures old(Valid()) ==> Valid()
    {
      nullPosts := [];
      if !timerRunning || timeLeft.None? {
        return;
      }
      var prev := timeLeft.value;
      if prev.seconds > 0 {
        var next := Time(prev.minutes, prev.seconds - 1);
        store := store[Key(RemainingTime) := TimeRecord(Persist(next, now))];
        timeLeft := Some(next);
        return;
      }
      if prev.minutes > 0 {
        var next := Time(prev.minutes - 1, 59);
        store := store[Key(RemainingTime) := TimeRecord(Persist(next, now))];
        timeLeft := Some(next);
        return;
      }
      timerRunning := false;
      store := store - {Key(RemainingTime)};
      var unanswered := Exclude(questionIds, answeredQuestions);
      var i := 0;
      while i < |unanswered|
        invariant 0 <= i <= |unanswered|
        invariant NullPostsFor(nullPosts, unanswered[..i])
      {
        nullPosts := nullPosts + [Request(Post, unanswered[i], None)];
        i := i + 1;
      }
      assert unanswered[..i] == unanswered;
      store := store - {Key(AnswerMap), Key(AnsweredList)};
      route := Some(RouteAfterSubject(tryoutId, subjectId));
    }

    /** `handleAnswerSelect(option)` for the question on screen, when the
        remote call succeeds iff `remoteOk`. With no question on screen the
        handler fails before any call is made. */
    method SelectAnswer(option: int, remoteOk: bool) returns (call: Option<Request>, alerted: bool)
      modifies this
      ensures currentQuestion == old(currentQuestion) && timeLeft == old(timeLeft)
      ensures timerRunning == old(timerRunning) && route == old(route)
      ensures !(1 <= currentQuestion <= |questionIds|) ==> call == None && alerted && unchanged(this)
      ensures 1 <= currentQuestion <= |questionIds| ==>
                var q := questionIds[currentQuestion - 1];
                && call == Some(SelectRequest(old(Book()), q, option))
                && alerted == !remoteOk
                && Book() == (if remoteOk then AfterSelect(old(Book()), q, option) else old(Book()))
                && store == if remoteOk
                            then Mirrored(old(store), true,
                                          Retracts(old(Book()), q, option) || q !in old(answeredQuestions))
                            else old(store)
      ensures old(Valid()) ==> Valid()
    {
      if !(1 <= currentQuestion <= |questionIds|) {
        return None, true;
      }
      var q := questionIds[currentQuestion - 1];
      if q in selectedAnswers && selectedAnswers[q] == option {
        call := Some(Request(Patch, q, None));
        if !remoteOk {
          return call, true;
        }
        selectedAnswers := selectedAnswers - {q};
        store := store[Key(AnswerMap) := AnswersRecord(selectedAnswers)];
        answeredQuestions := Exclude(answeredQuestions, [q]);
        store := store[Key(AnsweredList) := AnsweredRecord(answeredQuestions)];
        if old(Valid()) {
          SelectKeepsConsistent(old(Book()), questionIds, q, option);
        }
        return call, false;
      }
      var alreadyAnswered := q in answeredQuestions;
      call := Some(Request(if alreadyAnswered then Patch else Post, q, Some(option)));
      if !remoteOk {
        return call, true;
      }
      selectedAnswers := selectedAnswers[q := option];
      store := store[Key(AnswerMap) := AnswersRecord(selectedAnswers)];
      if !alreadyAnswered {
        answeredQuestions := answeredQuestions + [q];
        store := store[Key(AnsweredList) := AnsweredRecord(answeredQuestions)];
      }
      alerted := false;
    }

    /** `submitEmptyAnswer(q)`: record question `q` as answered with no
        option. The answer map is not written back to the store. */
    method SubmitEmptyAnswer(q: int, remoteOk: bool) returns (call: Option<Request>, alerted: bool)
      modifies this
      ensures currentQuestion == old(currentQuestion) && timeLeft == old(timeLeft)
      ensures timerRunning == old(timerRunning) && route == old(route)
      ensures call == Some(EmptyRequest(old(Book()), q)) && alerted == !remoteOk
      ensures Book() == if remoteOk then AfterEmpty(old(Book()), q) else old(Book())
      ensures store == if remoteOk then Mirrored(old(store), false, q !in old(answeredQuestions)) else old(store)
      ensures old(Valid()) && q in questionIds ==> Valid()
    {
      var alreadyAnswered := q in answeredQuestions;
      call := Some(if alreadyAnswered then Request(Delete, q, None) else Request(Post, q, None));
      if !remoteOk {
        return call, true;
      }
      selectedAnswers := selectedAnswers - {q};
      if !alreadyAnswered {
        answeredQuestions := answeredQuestions + [q];
        store := store[Key(AnsweredList) := AnsweredRecord(answeredQuestions)];
      }
      alerted := false;
    }

    /** `handleDeleteAnswer(q)`: a DELETE, then `q` is neither selected nor
        answered and both records are written back. */
    method DeleteAnswer(q: int, remoteOk: bool) returns (call: Option<Request>, alerted: bool)
      modifies this
      ensures currentQuestion == old(currentQuestion) && timeLeft == old(timeLeft)
      ensures timerRunning == old(timerRunning) && route == old(route)
      ensures call == Some(Request(Delete, q, None)) && alerted == !remoteOk
      ensures Book() == if remoteOk then AfterDelete(old(Book()), q) else old(Book())
      ensures store == if remoteOk then Mirrored(old(store), true, true) else old(store)
      ensures old(Valid()) ==> Valid()
    {
      call := Some(Request(Delete, q, None));
      if !remoteOk {
        return call, true;
      }
      selectedAnswers := selectedAnswers - {q};
      store := store[Key(AnswerMap) := AnswersRecord(selectedAnswers)];
      answeredQuestions := Exclude(answeredQuestions, [q]);
      store := store[Key(AnsweredList) := AnsweredRecord(answeredQuestions)];
      if old(Valid()) {
        DeleteKeepsConsistent(old(Book()), questionIds, q);
      }
      alerted := false;
    }

    /** `navigateQuestion(dir)`. "next" first submits an empty answer for an
        unanswered question on screen; the decision then uses the answered
        list and the remaining time read when the handler started. Finishing
        the subject leaves the screen, whose unmounting clears the interval.
        With no question on screen the handler throws before doing anything. */
    method Navigate(dir: Direction, remoteOk: bool) returns (call: Option<Request>, alerted: bool)
      modifies this
      ensures timeLeft == old(timeLeft)
      ensures !(1 <= old(currentQuestion) <= |questionIds|) ==> call == None && !alerted && unchanged(this)
      ensures 1 <= old(currentQuestion) <= |questionIds| ==>
                var q := questionIds[old(currentQuestion) - 1];
                var empty := dir == Next && q !in old(answeredQuestions);
                var m := NavigateMove(dir, old(currentQuestion), |questionIds|, old(answeredQuestions),
                                      old(timeLeft), tryoutId, subjectId);
                var mid := if empty && remoteOk then Mirrored(old(store), false, true) else old(store);
                && call == (if empty then Some(EmptyRequest(old(Book()), q)) else None)
                && alerted == (empty && !remoteOk)
                && Book() == (if empty && remoteOk then AfterEmpty(old(Book()), q) else old(Book()))
                && currentQuestion == (if m.GoTo? then m.index else old(currentQuestion))
                && route == (if m.Finish? then Some(m.route) else old(route))
                && store == (if m.Finish? then mid - SubjectKeys() else mid)
                && timerRunning == (old(timerRunning) && !m.Finish?)
                && (m.Finish? && old(Valid()) && NoDuplicates(questionIds) ==>
                      forall p :: p in questionIds ==> p in old(answeredQuestions))
      ensures old(Valid()) ==> Valid()
    {
      call, alerted := None, false;
      if !(1 <= currentQuestion <= |questionIds|) {
        return;
      }
      var q := questionIds[currentQuestion - 1];
      var answered := answeredQuestions;
      var time := timeLeft;
      var total := |questionIds|;
      if dir == Prev {
        currentQuestion := if currentQuestion - 1 > 1 then currentQuestion - 1 else 1;
        return;
      }
      if q !in answered {
        call, alerted := SubmitEmptyAnswer(q, remoteOk);
      }
      if currentQuestion != total {
        currentQuestion := currentQuestion + 1;
      } else if HasTimeLeft(time) || |answered| != total {
        currentQuestion := FindNextUnansweredQuestion(answered, total);
      } else {
        if old(Valid()) && NoDuplicates(questionIds) {
          FullLengthIffAllAnswered(old(Book()), questionIds);
        }
        store := store - SubjectKeys();
        route := Some(RouteAfterSubject(tryoutId, subjectId));
        timerRunning := false;
      }
    }
  }

  /** A countdown at one second: the first tick shows `{0, 0}`, the second
      leaves the subject, and a third finds the timer stopped. */
  method TimeoutFiresOnce(s: ExamSession, now: int)
    requires s.timerRunning && s.timeLeft == Some(Time(0, 1)) && s.route == None
    modifies s
    ensures s.route == Some(RouteAfterSubject(s.tryoutId, s.subjectId)) && !s.timerRunning
    ensures s.timeLeft == Some(Time(0, 0))
  {
    var first := s.Tick(now);
    assert s.timeLeft == Some(Time(0, 0)) && s.route == None && first == [];
    var second := s.Tick(now + 1000);
    assert s.route == Some(RouteAfterSubject(s.tryoutId, s.subjectId));
    var third := s.Tick(now + 2000);
    assert third == [];
  }

  /** Clicking the same option twice on a question with no answer leaves the
      question unanswered; the second click is a PATCH with `null`. */
  method ClickTwice(s: ExamSession, option: int)
    requires 1 <= s.currentQuestion <= |s.questionIds|
    requires s.questionIds[s.currentQuestion - 1] !in s.selectedAnswers
    modifies s
    ensures s.currentQuestion == old(s.currentQuestion)
    ensures var q := s.questionIds[s.currentQuestion - 1];
            q !in s.selectedAnswers && q !in s.answeredQuestions
  {
    var first, _ := s.SelectAnswer(option, true);
    var second, _ := s.SelectAnswer(option, true);
    assert second == Some(Request(Patch, s.questionIds[s.currentQuestion - 1], None));
  }
}
