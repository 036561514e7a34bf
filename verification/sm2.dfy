/** The SuperMemo-2 scheduling engine and its day-granular date helpers.

    Easiness factors are exact reals (the source uses IEEE doubles), and a
    timestamp is an integer number of milliseconds in the server's local time
    zone, taken to be a fixed offset without daylight-saving changes. */
module Sm2 {
  import opened Results

  const MsPerDay: int := 86_400_000

  /** Easiness of a freshly enabled review. */
  const InitialEasiness: real := 2.5

  /** Floor below which the easiness factor never falls. */
  const MinEasiness: real := 1.3

  /** What the engine returns: the four fields a review submission rewrites. */
  datatype Schedule = Schedule(easiness: real, interval: int, repetitions: int, nextReview: int)

  /** Calendar day (days since the epoch, local time) of a timestamp. */
  function Day(t: int): int {
    t / MsPerDay
  }

  /** True when a timestamp falls exactly at local midnight. */
  predicate IsMidnight(t: int) {
    t % MsPerDay == 0
  }

  /** `addDays`: move `days` calendar days forward and clear the time of day. */
  function AddDays(t: int, days: int): (r: int)
    ensures IsMidnight(r)
    ensures Day(r) == Day(t) + days
  {
    (Day(t) + days) * MsPerDay
  }

  /** `getDueToday`: 23:59:59.999 on the day of `now`. */
  function DueCutoff(now: int): (r: int)
    ensures Day(r) == Day(now)
    ensures Day(r + 1) == Day(now) + 1
  {
    Day(now) * MsPerDay + MsPerDay - 1
  }

  /** A timestamp is at or before the cut-off exactly when its day is not after today. */
  lemma DueIffNotAfterToday(t: int, now: int)
    ensures t <= DueCutoff(now) <==> Day(t) <= Day(now)
  {
    var d := Day(t);
    assert d * MsPerDay <= t < d * MsPerDay + MsPerDay;
  }

  /** A due date set by `AddDays(from, n)` is due at `now` exactly when it lands on or before today. */
  lemma AddDaysDue(from: int, n: int, now: int)
    ensures AddDays(from, n) <= DueCutoff(now) <==> Day(from) + n <= Day(now)
  {
    DueIffNotAfterToday(AddDays(from, n), now);
  }

  /** `Math.round`: nearest integer, ties towards positive infinity. */
  function Round(x: real): (r: int)
    ensures r as real - 0.5 <= x < r as real + 0.5
  {
    (x + 0.5).Floor
  }

  /** The change the SM-2 formula applies to the easiness for a given quality. */
  function EasinessDelta(quality: int): real {
    0.1 - (5 - quality) as real * (0.08 + (5 - quality) as real * 0.02)
  }

  /** The new easiness: the SM-2 update, floored at `MinEasiness`. */
  function NextEasiness(prev: real, quality: int): (e: real)
    ensures e >= MinEasiness
    ensures e >= prev + EasinessDelta(quality)
    ensures e == MinEasiness || e == prev + EasinessDelta(quality)
  {
    var e := prev + EasinessDelta(quality);
    if e < MinEasiness then MinEasiness else e
  }

  /** True when a quality score is accepted by `calculate`. */
  predicate ValidQuality(quality: int) {
    0 <= quality <= 5
  }

  /** `calculate` with the clock reading `now` made explicit.
      The source's defaults for the previous state are 2.5, 0 and 0. */
  function Calculate(quality: int, prevEasiness: real, prevInterval: int, prevRepetitions: int, now: int)
    : (r: Result<Schedule>)
    ensures r.Err? <==> !ValidQuality(quality)
    ensures r.Err? ==> r.error == InvalidArgument
    ensures r.Ok? ==> r.value.easiness >= MinEasiness
    ensures r.Ok? ==> r.value.easiness == NextEasiness(prevEasiness, quality)
    ensures r.Ok? && quality < 3 ==> r.value.interval == 1 && r.value.repetitions == 0
    ensures r.Ok? && quality >= 3 ==> r.value.repetitions == prevRepetitions + 1
    ensures r.Ok? ==> IsMidnight(r.value.nextReview) && Day(r.value.nextReview) == Day(now) + r.value.interval
  {
    if quality < 0 || quality > 5 then
      Err(InvalidArgument)
    else
      var newEasiness := NextEasiness(prevEasiness, quality);
      if quality < 3 then
        Ok(Schedule(newEasiness, 1, 0, AddDays(now, 1)))
      else
        var newRepetitions := prevRepetitions + 1;
        var newInterval :=
          if newRepetitions == 1 then 1
          else if newRepetitions == 2 then 6
          else Round(prevInterval as real * newEasiness);
        Ok(Schedule(newEasiness, newInterval, newRepetitions, AddDays(now, newInterval)))
  }

  /** How the easiness moves with the quality: a perfect answer adds exactly 0.1,
      quality 4 keeps it, and 3 or below lowers it unless the floor is reached. */
  lemma EasinessByQuality(prev: real, quality: int)
    requires ValidQuality(quality)
    ensures quality == 5 ==> NextEasiness(prev, quality) == (if prev + 0.1 < MinEasiness then MinEasiness else prev + 0.1)
    ensures quality == 4 && prev >= MinEasiness ==> NextEasiness(prev, quality) == prev
    ensures quality <= 3 ==> NextEasiness(prev, quality) < prev || NextEasiness(prev, quality) == MinEasiness
  {
  }

  /** A lapse forgets the streak: its outcome does not depend on the prior state at all. */
  lemma LapseIgnoresPriorState(quality: int, e1: real, i1: int, n1: int, e2: real, i2: int, n2: int, now: int)
    requires ValidQuality(quality) && quality < 3
    ensures Calculate(quality, e1, i1, n1, now).value.interval == 1
    ensures Calculate(quality, e1, i1, n1, now).value.repetitions == 0
    ensures Calculate(quality, e1, i1, n1, now).value.nextReview == Calculate(quality, e2, i2, n2, now).value.nextReview
    ensures Calculate(quality, e1, i1, n1, now).value.nextReview == AddDays(now, 1)
  {
  }

  /** The interval ladder of a success: 1 day, then 6 days, then the previous
      interval scaled by the NEW easiness and rounded. */
  lemma SuccessInterval(quality: int, prevEasiness: real, prevInterval: int, prevRepetitions: int, now: int)
    requires ValidQuality(quality) && quality >= 3
    ensures prevRepetitions == 0 ==> Calculate(quality, prevEasiness, prevInterval, prevRepetitions, now).value.interval == 1
    ensures prevRepetitions == 1 ==> Calculate(quality, prevEasiness, prevInterval, prevRepetitions, now).value.interval == 6
    ensures prevRepetitions != 0 && prevRepetitions != 1 ==>
      var e := NextEasiness(prevEasiness, quality);
      var i := Calculate(quality, prevEasiness, prevInterval, prevRepetitions, now).value.interval;
      i as real - 0.5 <= prevInterval as real * e < i as real + 0.5
  {
  }

  /** Scaling a positive interval by an easiness of at least 1.3 never shrinks it,
      and grows it by at least one day once it is two days or more. */
  lemma {:induction false} ScaledIntervalGrows(prevInterval: int, e: real)
    requires prevInterval >= 1 && e >= MinEasiness
    ensures Round(prevInterval as real * e) >= prevInterval
    ensures prevInterval >= 2 ==> Round(prevInterval as real * e) > prevInterval
  {
    var p := prevInterval as real;
    assert p * e >= p * MinEasiness by {
      assert p * (e - MinEasiness) >= 0.0;
    }
  }

  /** Third and later successes never shorten the interval. */
  lemma SuccessNeverShortens(quality: int, prevEasiness: real, prevInterval: int, prevRepetitions: int, now: int)
    requires ValidQuality(quality) && quality >= 3
    requires prevRepetitions >= 2 && prevInterval >= 1
    ensures Calculate(quality, prevEasiness, prevInterval, prevRepetitions, now).value.interval >= prevInterval
  {
    ScaledIntervalGrows(prevInterval, NextEasiness(prevEasiness, quality));
  }

  /** A review state the engine can produce: easiness at the floor or above,
      at least one day between reviews, a streak that is never negative. */
  predicate ValidState(easiness: real, interval: int, repetitions: int) {
    easiness >= MinEasiness && interval >= 1 && repetitions >= 0
  }

  /** The engine keeps valid states valid. */
  lemma CalculatePreservesValidState(quality: int, prevEasiness: real, prevInterval: int, prevRepetitions: int, now: int)
    requires ValidQuality(quality)
    requires ValidState(prevEasiness, prevInterval, prevRepetitions)
    ensures var s := Calculate(quality, prevEasiness, prevInterval, prevRepetitions, now).value;
      ValidState(s.easiness, s.interval, s.repetitions)
  {
    if quality >= 3 && prevRepetitions >= 2 {
      ScaledIntervalGrows(prevInterval, NextEasiness(prevEasiness, quality));
    }
  }

  /** The largest timestamp a JavaScript `Date` can hold; beyond it (and below
      its negation) `setDate` yields an Invalid Date. */
  const MaxDateMs: int := 8_640_000_000_000_000

  /** The (easiness, interval, repetitions) a fresh review reaches after `n`
      answers of quality 5 (the clock reading does not affect these fields). */
  function PerfectStreak(n: nat): (real, int, int) {
    if n == 0 then (InitialEasiness, 0, 0)
    else
      var (e, i, k) := PerfectStreak(n - 1);
      var s := Calculate(5, e, i, k, 0).value;
      (s.easiness, s.interval, s.repetitions)
  }

  /** Fifteen perfect answers from a fresh review reach (4.0, 45 243 744, 15). */
  lemma FifteenPerfectAnswers()
    ensures PerfectStreak(15) == (4.0, 45_243_744, 15)
  {
    assert PerfectStreak(1) == (2.6, 1, 1);
    assert PerfectStreak(2) == (2.7, 6, 2);
    assert PerfectStreak(3) == (2.8, 17, 3);
    assert PerfectStreak(4) == (2.9, 49, 4);
    assert PerfectStreak(5) == (3.0, 147, 5);
    assert PerfectStreak(6) == (3.1, 456, 6);
    assert PerfectStreak(7) == (3.2, 1459, 7);
    assert PerfectStreak(8) == (3.3, 4815, 8);
    assert PerfectStreak(9) == (3.4, 16371, 9);
    assert PerfectStreak(10) == (3.5, 57299, 10);
    assert PerfectStreak(11) == (3.6, 206276, 11);
    assert PerfectStreak(12) == (3.7, 763221, 12);
    assert PerfectStreak(13) == (3.8, 2900240, 13);
    assert PerfectStreak(14) == (3.9, 11310936, 14);
    assert PerfectStreak(15) == (4.0, 45243744, 15);
  }

  /** From there, the sixteenth perfect answer schedules the next review past
      the largest JavaScript date. The model's timestamps are unbounded. */
  lemma SixteenthPerfectAnswerLeavesDateRange(now: int)
    requires now >= 0
    ensures Calculate(5, 4.0, 45_243_744, 15, now).Ok?
    ensures Calculate(5, 4.0, 45_243_744, 15, now).value.interval == 185_499_350
    ensures Calculate(5, 4.0, 45_243_744, 15, now).value.nextReview > MaxDateMs
  {
  }

  /** The worked sequence of three successes from a fresh state. */
  lemma ThreeSuccessesExample(now: int)
    ensures Calculate(3, 2.5, 0, 0, now) == Ok(Schedule(2.36, 1, 1, AddDays(now, 1)))
    ensures Calculate(4, 2.36, 1, 1, now) == Ok(Schedule(2.36, 6, 2, AddDays(now, 6)))
    ensures Calculate(5, 2.36, 6, 2, now) == Ok(Schedule(2.46, 15, 3, AddDays(now, 15)))
  {
    assert Round(6.0 * 2.46) == 15;
  }

  /** Qualities 3, 3, 3, 4, 3 from a fresh state, then 5. With exact easiness
      the fifth interval is the half-way product 25 * 1.94 = 48.5, which rounds
      up to 49, and the sixth is 49 * 2.04 = 99.96, which rounds to 100. */
  lemma MixedAnswersExample(now: int)
    ensures Calculate(3, 2.5, 0, 0, now) == Ok(Schedule(2.36, 1, 1, AddDays(now, 1)))
    ensures Calculate(3, 2.36, 1, 1, now) == Ok(Schedule(2.22, 6, 2, AddDays(now, 6)))
    ensures Calculate(3, 2.22, 6, 2, now) == Ok(Schedule(2.08, 12, 3, AddDays(now, 12)))
    ensures Calculate(4, 2.08, 12, 3, now) == Ok(Schedule(2.08, 25, 4, AddDays(now, 25)))
    ensures Calculate(3, 2.08, 25, 4, now) == Ok(Schedule(1.94, 49, 5, AddDays(now, 49)))
    ensures Calculate(5, 1.94, 49, 5, now) == Ok(Schedule(2.04, 100, 6, AddDays(now, 100)))
  {
  }
}
