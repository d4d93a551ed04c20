/**
 * The day-of-year index of src/lib/getDayOfYear.ts. The reference moment is
 * `new Date(year, 0, 0)`, day 0 of January, that is midnight local time on
 * 31 December of the previous year; the index is the number of whole days
 * elapsed since it, plus one.
 *
 * Both moments are inputs in epoch milliseconds: building the reference from
 * the calendar year and the local time zone is not part of this model.
 */
module Calendar {

  /** Milliseconds in one day: `1000 * 60 * 60 * 24`. */
  const MsPerDay: int := 86400000

  /**
   * getDayOfYear as written: `Math.floor(diff / 86400000) + 1` with `diff` the
   * milliseconds from the reference `dayZero` to `time`. The result is the
   * unique `d` whose day-long bucket `[(d - 1), d)` days after the reference
   * holds `time`.
   */
  function DayOfYear(time: int, dayZero: int): (d: int)
    ensures (d - 1) * MsPerDay <= time - dayZero < d * MsPerDay
  {
    var diff := time - dayZero;
    FloorDivBounds(diff);
    (diff as real / MsPerDay as real).Floor + 1
  }

  /** The floor of the real quotient brackets `n` between consecutive multiples of the day length. */
  lemma FloorDivBounds(n: int)
    ensures var k := (n as real / MsPerDay as real).Floor; k * MsPerDay <= n < (k + 1) * MsPerDay
  {
    var x := n as real / MsPerDay as real;
    assert x * MsPerDay as real == n as real;
  }

  /** Two integers whose day-long buckets overlap are equal. */
  lemma BucketUnique(d1: int, d2: int, diff: int)
    requires (d1 - 1) * MsPerDay <= diff < d1 * MsPerDay
    requires (d2 - 1) * MsPerDay <= diff < d2 * MsPerDay
    ensures d1 == d2
  {
  }

  /** The float floor division agrees with Euclidean integer division by the day length. */
  lemma DayOfYearIsIntegerDivision(time: int, dayZero: int)
    ensures DayOfYear(time, dayZero) == (time - dayZero) / MsPerDay + 1
  {
    var diff := time - dayZero;
    var q := diff / MsPerDay;
    assert q * MsPerDay <= diff < (q + 1) * MsPerDay;
    BucketUnique(DayOfYear(time, dayZero), q + 1, diff);
  }

  /** For a fixed year the index never decreases as time goes on. */
  lemma DayOfYearMonotone(t1: int, t2: int, dayZero: int)
    requires t1 <= t2
    ensures DayOfYear(t1, dayZero) <= DayOfYear(t2, dayZero)
  {
  }

  /** One day later gives exactly the next index. */
  lemma DayOfYearNextDay(time: int, dayZero: int)
    ensures DayOfYear(time + MsPerDay, dayZero) == DayOfYear(time, dayZero) + 1
  {
    var d := DayOfYear(time, dayZero);
    BucketUnique(DayOfYear(time + MsPerDay, dayZero), d + 1, time + MsPerDay - dayZero);
  }

  /** Two moments in the same day-long bucket after the reference get the same index. */
  lemma DayOfYearSameDay(t1: int, t2: int, dayZero: int, k: int)
    requires k * MsPerDay <= t1 - dayZero < (k + 1) * MsPerDay
    requires k * MsPerDay <= t2 - dayZero < (k + 1) * MsPerDay
    ensures DayOfYear(t1, dayZero) == DayOfYear(t2, dayZero) == k + 1
  {
    BucketUnique(DayOfYear(t1, dayZero), k + 1, t1 - dayZero);
    BucketUnique(DayOfYear(t2, dayZero), k + 1, t2 - dayZero);
  }

  /** At or after the reference the index is at least 1. */
  lemma DayOfYearPositive(time: int, dayZero: int)
    requires time >= dayZero
    ensures DayOfYear(time, dayZero) >= 1
  {
  }

  /**
   * Because the reference is 31 December of the previous year, local midnight
   * on 1 January (one day after the reference) is given index 2, and the last
   * day of a year of `yearDays` days is given `yearDays + 1`.
   */
  lemma DayOfYearNewYearIsTwo(dayZero: int, yearDays: nat)
    requires yearDays >= 1
    ensures DayOfYear(dayZero + MsPerDay, dayZero) == 2
    ensures DayOfYear(dayZero + yearDays * MsPerDay, dayZero) == yearDays + 1
  {
    BucketUnique(DayOfYear(dayZero + MsPerDay, dayZero), 2, MsPerDay);
    BucketUnique(DayOfYear(dayZero + yearDays * MsPerDay, dayZero), yearDays + 1, yearDays * MsPerDay);
  }

  /**
   * The day-of-year index with the reference kept at day 0 of January but
   * without the extra `+ 1`: `Math.floor(diff / 86400000)`. Local midnight on
   * 1 January is day 1.
   */
  function DayOfYearCorrected(time: int, dayZero: int): (d: int)
    ensures d * MsPerDay <= time - dayZero < (d + 1) * MsPerDay
  {
    var diff := time - dayZero;
    FloorDivBounds(diff);
    (diff as real / MsPerDay as real).Floor
  }

  /**
   * A moment `k - 1` whole days (and less than `k`) after local midnight on
   * 1 January is on day `k`; so a year of `yearDays` days is numbered
   * 1 to `yearDays`.
   */
  lemma DayOfYearCorrectedNumbersDays(time: int, dayZero: int, k: int)
    requires (k - 1) * MsPerDay <= time - (dayZero + MsPerDay) < k * MsPerDay
    ensures DayOfYearCorrected(time, dayZero) == k
  {
    var d := DayOfYearCorrected(time, dayZero);
    BucketUnique(d + 1, k + 1, time - dayZero);
  }

  /** Within a year of `yearDays` days from 1 January, the corrected index lies in 1 .. yearDays. */
  lemma DayOfYearCorrectedRange(time: int, dayZero: int, yearDays: nat)
    requires dayZero + MsPerDay <= time < dayZero + (yearDays + 1) * MsPerDay
    ensures 1 <= DayOfYearCorrected(time, dayZero) <= yearDays
  {
  }
}
