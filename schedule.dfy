/**
 * The weekly recurrence: `next_wednesday`, which maps a Unix timestamp to
 * 00:00:00 UTC of the first Wednesday strictly after the UTC day holding it,
 * and the saturating countdown `get_remaining_time` is built on.
 *
 * Calendar days are numbered from 1970-01-01 (day 0, a Thursday). chrono's
 * `NaiveDateTime::from_timestamp_opt` splits a timestamp with Euclidean
 * division, which is Dafny's `/` for a positive divisor, and its `NaiveDate`
 * ends at -262144-01-01 and 262143-12-31 of the proleptic Gregorian calendar;
 * leaving that range is the `None` that the source unwraps, here `None`.
 */
module Schedule {
  import opened Base

  /** Day number of -262144-01-01, the first date chrono represents. */
  const MIN_DAY: int := -96465659
  /** Day number of 262143-12-31, the last date chrono represents (a Tuesday). */
  const MAX_DAY: int := 95026601

  /** chrono's `Weekday::Wed` as `num_days_from_monday`. */
  const WEDNESDAY: nat := 2

  /** Day of the week of day number `day`, Monday = 0; day 0 is a Thursday. */
  function Weekday(day: int): (w: nat)
    ensures w < 7
  {
    (day + 3) % 7
  }

  /** The UTC calendar day that holds the signed timestamp `secs`. */
  function DayOf(secs: int): int
  {
    secs / SECONDS_PER_DAY
  }

  /** The first Wednesday strictly after `day`: between one and seven days later. */
  function FirstWednesdayAfter(day: int): (w: int)
    ensures day < w <= day + 7
    ensures Weekday(w) == WEDNESDAY
    ensures forall d :: day < d < w ==> Weekday(d) != WEDNESDAY
  {
    day + 1 + (WEDNESDAY - Weekday(day + 1)) % 7
  }

  /**
   * What `next_wednesday(t)` returns, or None where it panics: the `u64` is
   * reinterpreted `as i64`, its day must be a chrono date, every `succ_opt`
   * step up to the Wednesday must stay a chrono date, and the resulting
   * midnight is cast back `as u64`.
   */
  function NextWednesdayOf(t: u64): Option<u64>
  {
    var day := DayOf(U64AsI64(t));
    if day < MIN_DAY || MAX_DAY < day then None
    else
      var w := FirstWednesdayAfter(day);
      if MAX_DAY < w then None else Some(I64AsU64(w * SECONDS_PER_DAY))
  }

  /** `next_wednesday`: step a date forward one day at a time until it is a Wednesday. */
  method NextWednesday(t: u64) returns (r: Option<u64>)
    ensures r == NextWednesdayOf(t)
  {
    var day := DayOf(U64AsI64(t));
    if day < MIN_DAY || MAX_DAY < day {
      return None;
    }
    if day == MAX_DAY {
      return None;
    }
    var next := day + 1;
    while Weekday(next) != WEDNESDAY
      invariant day < next <= FirstWednesdayAfter(day)
      invariant next <= MAX_DAY
      decreases FirstWednesdayAfter(day) - next
    {
      if next == MAX_DAY {
        return None;
      }
      next := next + 1;
    }
    r := Some(I64AsU64(next * SECONDS_PER_DAY));
  }

  /**
   * The result is midnight of a Wednesday, on a day strictly after the day
   * of `t` and at most seven days later, and so strictly after `t` itself.
   */
  lemma {:induction false} NextWednesdayIsNextWednesdayMidnight(t: u64)
    requires NextWednesdayOf(t).Some?
    ensures var n := U64AsI64(NextWednesdayOf(t).value);
      && n % SECONDS_PER_DAY == 0
      && Weekday(DayOf(n)) == WEDNESDAY
      && DayOf(U64AsI64(t)) < DayOf(n) <= DayOf(U64AsI64(t)) + 7
      && U64AsI64(t) < n
  {
  }

  /** For a timestamp from 1970 on, the result is the plain `u64` midnight, a multiple of 86400 after `t`. */
  lemma {:induction false} NextWednesdayOfNonNegative(t: u64)
    requires t < TWO_TO_THE_63 && NextWednesdayOf(t).Some?
    ensures var n := NextWednesdayOf(t).value;
      && n % SECONDS_PER_DAY == 0
      && t < n <= t + 7 * SECONDS_PER_DAY
      && Weekday(n / SECONDS_PER_DAY) == WEDNESDAY
  {
  }

  /** An input already on a Wednesday gives the following Wednesday, never the same day. */
  lemma {:induction false} NextWednesdayFromWednesday(t: u64)
    requires Weekday(DayOf(U64AsI64(t))) == WEDNESDAY && NextWednesdayOf(t).Some?
    ensures DayOf(U64AsI64(NextWednesdayOf(t).value)) == DayOf(U64AsI64(t)) + 7
  {
  }

  /** The result is stable within its week: one second before it maps to it again. */
  lemma {:induction false} NextWednesdayIdempotent(t: u64)
    requires NextWednesdayOf(t).Some?
    ensures var n := NextWednesdayOf(t).value;
      0 < n && NextWednesdayOf(n - 1) == Some(n)
  {
  }

  /**
   * `next_wednesday` returns for exactly the timestamps from the first
   * second of -262144-01-01 up to, not including, the last Wednesday chrono
   * represents (262143-12-25); everywhere else one of its unwraps panics.
   */
  lemma {:induction false} NextWednesdayDefinedRange(t: u64)
    ensures NextWednesdayOf(t).Some? <==>
      MIN_DAY * SECONDS_PER_DAY <= U64AsI64(t) < (MAX_DAY - 6) * SECONDS_PER_DAY
  {
  }

  /** Wednesday 2024-01-03 10:00:00 UTC maps to Wednesday 2024-01-10 00:00:00 UTC. */
  lemma {:induction false} ExampleWednesdayMorning()
    ensures NextWednesdayOf(1704276000) == Some(1704844800)
  {
  }

  /**
   * `u64::MAX` is `-1` as an `i64`, 1969-12-31 23:59:59 (a Wednesday), so
   * the result is Wednesday 1970-01-07.
   */
  lemma {:induction false} ExampleLargestInput()
    ensures NextWednesdayOf(TWO_TO_THE_64 - 1) == Some(6 * SECONDS_PER_DAY)
  {
  }

  /**
   * `get_remaining_time`'s countdown: nothing is left once `now` has reached
   * `next`, and exactly `next - now` before that; it never goes below zero.
   */
  function RemainingTime(now: u64, next: u64): (r: u64)
    ensures r == 0 <==> next <= now
    ensures now < next ==> now + r == next
  {
    if now > next then 0 else next - now
  }
}
