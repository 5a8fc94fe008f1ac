/**
 * Calendar days. Instants are millisecond counts on the server's local clock;
 * `new Date(date).setHours(0, 0, 0, 0)` keeps the day and drops the time of
 * day, which here is rounding down to a multiple of the length of a day.
 */
module Dates {

  const MsPerDay: nat := 86_400_000

  /** The day number of an instant (Dafny's `/` rounds down, as midnight does). */
  function Day(ms: int): int
  {
    ms / MsPerDay
  }

  /** The local midnight that starts the instant's day. */
  function Midnight(ms: int): (r: int)
    ensures r <= ms < r + MsPerDay
    ensures r % MsPerDay == 0
  {
    Day(ms) * MsPerDay
  }

  /** Normalising twice is normalising once. */
  lemma MidnightIdempotent(ms: int)
    ensures Midnight(Midnight(ms)) == Midnight(ms)
  {
    assert Day(Midnight(ms)) == Day(ms);
  }

  /** Two instants normalise to the same midnight exactly when they fall on the same day. */
  lemma SameMidnightIffSameDay(a: int, b: int)
    ensures Midnight(a) == Midnight(b) <==> Day(a) == Day(b)
  {
  }

  lemma MidnightMonotone(a: int, b: int)
    requires Day(a) < Day(b)
    ensures Midnight(a) + MsPerDay <= Midnight(b)
  {
    assert Midnight(a) + MsPerDay == (Day(a) + 1) * MsPerDay;
  }

  /**
   * The date validator's test: the instant lies before today's midnight, with
   * "today" the instant `now` read from the clock.
   */
  predicate IsPast(input: int, now: int)
  {
    input < Midnight(now)
  }

  /** A date is in the past exactly when its day is strictly before today's; any instant of today passes. */
  lemma PastIffEarlierDay(input: int, now: int)
    ensures IsPast(input, now) <==> Day(input) < Day(now)
  {
    if Day(input) < Day(now) {
      MidnightMonotone(input, now);
    } else if Day(now) < Day(input) {
      MidnightMonotone(now, input);
    } else {
      SameMidnightIffSameDay(input, now);
    }
  }
}
