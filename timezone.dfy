/**
 * The timezone arithmetic of app.js with the platform's timezone database
 * (`Intl.DateTimeFormat`) replaced by an oracle: `isDifferentDay` and the
 * hour-to-instant search `createDateAtHourInTimezone`.
 */
module Timezone {
  import opened Wrappers

  /** Milliseconds in an hour, the gap between two candidates of the search. */
  const HourMs: int := 3600000

  /** Milliseconds in a day. */
  const DayMs: int := 24 * HourMs

  /** The first and one past the last candidate offset, in hours from the starting midnight. */
  const FirstTry: int := -12
  const EndTry: int := 36

  /** The wall-clock reading of an instant in some timezone. */
  datatype WallClock = WallClock(year: int, month: int, day: int, hour: int, minute: int)

  /**
   * The timezone database: the wall clock, in the named zone, of an instant given in
   * milliseconds since the epoch. Nothing is assumed about it, not even that the hour
   * lies in 0..23.
   */
  type TzDb = (string, int) -> WallClock

  /** `isDifferentDay` (app.js:269-273), on the local readings of its two dates. */
  function IsDifferentDay(base: WallClock, target: WallClock): (r: bool)
    ensures !r <==> base.(hour := 0, minute := 0) == target.(hour := 0, minute := 0)
  {
    base.day != target.day || base.month != target.month || base.year != target.year
  }

  /** Being on different days is symmetric and irreflexive. */
  lemma IsDifferentDayApartness(a: WallClock, b: WallClock)
    ensures IsDifferentDay(a, b) == IsDifferentDay(b, a)
    ensures !IsDifferentDay(a, a)
  {
  }

  /** Candidate `k` of the search: `baseDate.getTime() + k * 3600000`. */
  function Candidate(midnight: int, k: int): (t: int)
    ensures (t - midnight) % HourMs == 0 && (t - midnight) / HourMs == k
  {
    midnight + k * HourMs
  }

  /** The test of app.js:384: the zone shows hour `hour` on day-of-month `day` at `t`. */
  predicate Matches(db: TzDb, tz: string, hour: int, day: int, t: int) {
    db(tz, t).hour == hour && db(tz, t).day == day
  }

  /** The first `k` in `from..EndTry-1` whose candidate matches, if any. */
  function FirstMatchFrom(db: TzDb, tz: string, midnight: int, hour: int, day: int, from: int): (r: Option<int>)
    requires FirstTry <= from <= EndTry
    ensures r.Some? ==> from <= r.value < EndTry && Matches(db, tz, hour, day, Candidate(midnight, r.value))
    ensures r.Some? ==> forall j :: from <= j < r.value ==> !Matches(db, tz, hour, day, Candidate(midnight, j))
    ensures r.None? <==> forall j :: from <= j < EndTry ==> !Matches(db, tz, hour, day, Candidate(midnight, j))
    decreases EndTry - from
  {
    if from == EndTry then None
    else if Matches(db, tz, hour, day, Candidate(midnight, from)) then Some(from)
    else FirstMatchFrom(db, tz, midnight, hour, day, from + 1)
  }

  /**
   * What `createDateAtHourInTimezone(reference, hour, tz)` returns: the first candidate
   * on which `tz` shows `hour` on the day-of-month `tz` shows at `reference`, or else the
   * clock reading `fallback` (`new Date()`). `midnight` is `reference` with its hours,
   * minutes, seconds and milliseconds set to zero in the browser's own zone.
   */
  function DateAtHour(db: TzDb, tz: string, reference: int, midnight: int, hour: int, fallback: int): (t: int)
    ensures t == fallback || Matches(db, tz, hour, db(tz, reference).day, t)
  {
    match FirstMatchFrom(db, tz, midnight, hour, db(tz, reference).day, FirstTry)
    case Some(k) => Candidate(midnight, k)
    case None => fallback
  }

  /** A matching candidate with no matching candidate before it is the result. */
  lemma FirstMatchIsResult(db: TzDb, tz: string, reference: int, midnight: int, hour: int, fallback: int, k: int)
    requires FirstTry <= k < EndTry
    requires Matches(db, tz, hour, db(tz, reference).day, Candidate(midnight, k))
    requires forall j :: FirstTry <= j < k ==> !Matches(db, tz, hour, db(tz, reference).day, Candidate(midnight, j))
    ensures DateAtHour(db, tz, reference, midnight, hour, fallback) == Candidate(midnight, k)
  {
    var r := FirstMatchFrom(db, tz, midnight, hour, db(tz, reference).day, FirstTry);
    if r.Some? {
      assert !(r.value < k) && !(k < r.value);
    }
  }

  /** With no matching candidate the result is the fallback reading of the clock. */
  lemma NoMatchIsFallback(db: TzDb, tz: string, reference: int, midnight: int, hour: int, fallback: int)
    requires forall j :: FirstTry <= j < EndTry ==> !Matches(db, tz, hour, db(tz, reference).day, Candidate(midnight, j))
    ensures DateAtHour(db, tz, reference, midnight, hour, fallback) == fallback
  {
  }

  /**
   * An hour the zone skips on the reference day (the gap of a daylight-saving change)
   * is never found: its column gets the fallback reading.
   */
  lemma SkippedHourFallsBack(db: TzDb, tz: string, reference: int, midnight: int, hour: int, fallback: int)
    requires forall t :: db(tz, t).day == db(tz, reference).day ==> db(tz, t).hour != hour
    ensures DateAtHour(db, tz, reference, midnight, hour, fallback) == fallback
  {
    forall j | FirstTry <= j < EndTry
      ensures !Matches(db, tz, hour, db(tz, reference).day, Candidate(midnight, j))
    {
      var t := Candidate(midnight, j);
      assert db(tz, t).day == db(tz, reference).day ==> db(tz, t).hour != hour;
    }
    NoMatchIsFallback(db, tz, reference, midnight, hour, fallback);
  }

  /** `createDateAtHourInTimezone` (app.js:348-390): 48 probes, first match wins. */
  method CreateDateAtHourInTimezone(db: TzDb, reference: int, hour: int, tz: string, midnight: int, fallback: int)
    returns (t: int)
    ensures t == DateAtHour(db, tz, reference, midnight, hour, fallback)
    ensures t == fallback || Matches(db, tz, hour, db(tz, reference).day, t)
  {
    var day := db(tz, reference).day;
    for testHour := FirstTry to EndTry
      invariant forall j :: FirstTry <= j < testHour ==> !Matches(db, tz, hour, day, Candidate(midnight, j))
    {
      var testDate := midnight + testHour * HourMs;
      var hourInTz := db(tz, testDate).hour;
      var dayInTz := db(tz, testDate).day;
      if hourInTz == hour && dayInTz == day {
        FirstMatchIsResult(db, tz, reference, midnight, hour, fallback, testHour);
        return testDate;
      }
    }
    NoMatchIsFallback(db, tz, reference, midnight, hour, fallback);
    return fallback;
  }

  /** Division by `HourMs` of a candidate of a day-aligned midnight. */
  lemma CandidateSplit(midnight: int, j: int)
    requires midnight % DayMs == 0 && 0 <= j < 24
    ensures Candidate(midnight, j) / DayMs == midnight / DayMs
    ensures (Candidate(midnight, j) % DayMs) / HourMs == j
  {
    var n := midnight / DayMs;
    assert midnight == n * DayMs;
    assert Candidate(midnight, j) == n * DayMs + j * HourMs;
  }

  lemma CandidateBefore(midnight: int, j: int)
    requires midnight % DayMs == 0 && FirstTry <= j < 0
    ensures Candidate(midnight, j) / DayMs == midnight / DayMs - 1
  {
    var n := midnight / DayMs;
    assert midnight == n * DayMs;
    assert Candidate(midnight, j) == (n - 1) * DayMs + (24 + j) * HourMs;
  }

  /**
   * In a zone whose wall clock is UTC, with the browser's midnight on a UTC day boundary,
   * hour `hour` of the reference day is found exactly `hour` hours after midnight.
   * `dayOfMonth` maps a day number (days since the epoch) to its day of the month;
   * it is only assumed to differ between the reference day and the day before.
   */
  lemma UtcSearchFindsTopOfHour(db: TzDb, tz: string, reference: int, midnight: int, hour: int, fallback: int,
                                dayOfMonth: int -> int)
    requires forall t :: db(tz, t).hour == (t % DayMs) / HourMs && db(tz, t).day == dayOfMonth(t / DayMs)
    requires midnight % DayMs == 0 && reference / DayMs == midnight / DayMs
    requires dayOfMonth(midnight / DayMs - 1) != dayOfMonth(midnight / DayMs)
    requires 0 <= hour < 24
    ensures DateAtHour(db, tz, reference, midnight, hour, fallback) == midnight + hour * HourMs
  {
    var day := db(tz, reference).day;
    forall j | FirstTry <= j < hour
      ensures !Matches(db, tz, hour, day, Candidate(midnight, j))
    {
      if j < 0 {
        CandidateBefore(midnight, j);
      } else {
        CandidateSplit(midnight, j);
      }
    }
    CandidateSplit(midnight, hour);
    FirstMatchIsResult(db, tz, reference, midnight, hour, fallback, hour);
  }
}
