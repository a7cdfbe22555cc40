/**
 * The per-subject countdown of the exam screen: the once-a-second tick on
 * `{minutes, seconds}` and the restoring of the remaining time from the record
 * persisted under the subject's `_time` key.
 */
module Countdown {
  import opened Wrappers

  /** The remaining time the screen shows. */
  datatype Time = Time(minutes: int, seconds: int)

  /** The record kept under the `_time` key: a remaining time and the wall-clock
      millisecond timestamp at which it was written. */
  datatype SavedTime = SavedTime(minutes: int, seconds: int, timestamp: int)

  /** The seconds field is a proper clock digit. Every time the screen produces
      (restore and tick) has this shape. */
  predicate WellFormed(t: Time) {
    0 <= t.seconds < 60
  }

  function TotalSeconds(t: Time): int {
    t.minutes * 60 + t.seconds
  }

  /** Neither `seconds > 0` nor `minutes > 0`: the tick takes its terminal branch. */
  predicate Expired(t: Time) {
    !(t.seconds > 0) && !(t.minutes > 0)
  }

  /** The interval callback's update of `timeLeft`: borrow a minute when the
      seconds run out; at zero the value is returned as it was. */
  function Step(t: Time): (r: Time)
    ensures Expired(t) ==> r == t
    ensures !Expired(t) && WellFormed(t) ==> WellFormed(r) && TotalSeconds(r) == TotalSeconds(t) - 1
    ensures t.minutes >= 0 ==> r.minutes >= 0
  {
    if t.seconds > 0 then Time(t.minutes, t.seconds - 1)
    else if t.minutes > 0 then Time(t.minutes - 1, 59)
    else t
  }

  /** What a tick writes under the `_time` key. */
  function Persist(t: Time, now: int): SavedTime {
    SavedTime(t.minutes, t.seconds, now)
  }

  /** `Math.floor((now - timestamp) / 1000)`: Dafny's division by a positive
      divisor already rounds towards negative infinity. */
  function ElapsedSeconds(now: int, timestamp: int): (e: int)
    ensures e * 1000 <= now - timestamp < e * 1000 + 1000
  {
    (now - timestamp) / 1000
  }

  /** Seconds left of a persisted record at wall-clock time `now`. */
  function Remaining(s: SavedTime, now: int): int {
    s.minutes * 60 + s.seconds - ElapsedSeconds(now, s.timestamp)
  }

  /** The remaining time set when the subject is loaded with an allotment of
      `allotMinutes`: what is left of the saved record if anything is left,
      otherwise (and when nothing is saved) the full allotment. */
  function Restore(allotMinutes: int, saved: Option<SavedTime>, now: int): (t: Time)
    ensures WellFormed(t)
    ensures saved.Some? && Remaining(saved.value, now) > 0 ==>
              t.minutes >= 0 && TotalSeconds(t) == Remaining(saved.value, now)
    ensures saved.None? || Remaining(saved.value, now) <= 0 ==> t == Time(allotMinutes, 0)
  {
    match saved
    case None => Time(allotMinutes, 0)
    case Some(s) =>
      var total := Remaining(s, now);
      if total > 0 then Time(total / 60, total % 60) else Time(allotMinutes, 0)
  }

  /** A record that a tick has just persisted restores to the very time it
      holds, whatever the allotment, as long as time was left. */
  lemma RestoreResumesPersisted(allotMinutes: int, t: Time, now: int)
    requires WellFormed(t) && TotalSeconds(t) > 0
    ensures Restore(allotMinutes, Some(Persist(t, now)), now) == t
  {
  }

  /** Reloading `k` whole seconds (and less than one more) after the record was
      written takes exactly `k` seconds off, when that leaves time. */
  lemma RestoreSubtractsElapsed(allotMinutes: int, t: Time, stamp: int, k: nat, ms: int)
    requires WellFormed(t) && 0 <= ms < 1000 && k < TotalSeconds(t)
    ensures var r := Restore(allotMinutes, Some(Persist(t, stamp)), stamp + k * 1000 + ms);
            WellFormed(r) && TotalSeconds(r) == TotalSeconds(t) - k
  {
  }

  /** For a well-formed non-negative time the terminal branch is taken exactly
      when no second is left. */
  lemma ExpiredIffNoSecondsLeft(t: Time)
    requires WellFormed(t) && t.minutes >= 0
    ensures Expired(t) <==> t == Time(0, 0)
    ensures t == Time(0, 0) <==> TotalSeconds(t) == 0
  {
  }

  /** Reloading 90 seconds after `{2, 0}` was persisted shows `{0, 30}`. */
  lemma RestoreNinetySecondsLater(allotMinutes: int, stamp: int)
    ensures Restore(allotMinutes, Some(SavedTime(2, 0, stamp)), stamp + 90000) == Time(0, 30)
  {
  }

  /** `n` ticks in a row. */
  function Ticks(t: Time, n: nat): Time
    decreases n
  {
    if n == 0 then t else Ticks(Step(t), n - 1)
  }

  lemma {:induction false} CountdownTakesOneSecondPerTick(t: Time, n: nat)
    requires WellFormed(t) && t.minutes >= 0 && n <= TotalSeconds(t)
    ensures var u := Ticks(t, n);
            WellFormed(u) && u.minutes >= 0 && TotalSeconds(u) == TotalSeconds(t) - n
    decreases n
  {
    if n > 0 {
      assert !Expired(t);
      CountdownTakesOneSecondPerTick(Step(t), n - 1);
    }
  }

  /** From a well-formed non-negative time the countdown reaches `{0, 0}`
      after exactly `TotalSeconds(t)` ticks. */
  lemma CountdownReachesZero(t: Time)
    requires WellFormed(t) && t.minutes >= 0
    ensures Ticks(t, TotalSeconds(t)) == Time(0, 0)
  {
    var total: nat := TotalSeconds(t);
    CountdownTakesOneSecondPerTick(t, total);
    ExpiredIffNoSecondsLeft(Ticks(t, total));
  }

  /** No tick before that one takes the terminal branch, so the timeout
      fires once the countdown is used up and not earlier. */
  lemma NoEarlierTickIsTerminal(t: Time, n: nat)
    requires WellFormed(t) && t.minutes >= 0 && n < TotalSeconds(t)
    ensures !Expired(Ticks(t, n))
  {
    CountdownTakesOneSecondPerTick(t, n);
    ExpiredIffNoSecondsLeft(Ticks(t, n));
  }
}
