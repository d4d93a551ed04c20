/**
 * The hour angle used inside the Perez branch of the pipeline
 * (calculateHourAngle in src/perezModel.js): 15 degrees per hour of clock time
 * away from noon, negative in the morning and positive in the afternoon.
 *
 * The noon reference is an input in epoch milliseconds; building it as
 * 12:00 local time on the sample's calendar date is not part of this model.
 */
module SolarTime {
  import opened Units

  /** Degrees the sun moves through in one hour of clock time. */
  const DegreesPerHour: real := 15.0

  /**
   * Hour angle in degrees of the moment `time`, relative to the moment
   * `solarNoon`: zero exactly at noon, negative before it and positive after.
   */
  function HourAngle(time: int, solarNoon: int): (h: real)
    ensures h == 0.0 <==> time == solarNoon
    ensures h < 0.0 <==> time < solarNoon
    ensures h > 0.0 <==> time > solarNoon
  {
    ((time - solarNoon) as real / MsPerHour as real) * DegreesPerHour
  }

  /** The clock offset from noon, in milliseconds, that an hour angle stands for: 4 minutes per degree. */
  function OffsetOfHourAngle(h: real): (ms: real)
    ensures h == 0.0 <==> ms == 0.0
  {
    h * (MsPerHour as real / DegreesPerHour)
  }

  /** The hour angle determines the offset from noon exactly. */
  lemma HourAngleRoundTrip(time: int, solarNoon: int)
    ensures OffsetOfHourAngle(HourAngle(time, solarNoon)) == (time - solarNoon) as real
  {
    var d := (time - solarNoon) as real;
    calc {
      OffsetOfHourAngle(HourAngle(time, solarNoon));
      (d / 3600000.0 * 15.0) * (3600000.0 / 15.0);
      { assert (d / 3600000.0 * 15.0) * (3600000.0 / 15.0) == d * ((15.0 / 3600000.0) * (3600000.0 / 15.0)); }
      d;
    }
  }

  /** Moving the clock by `k` whole hours moves the hour angle by exactly 15 * k degrees. */
  lemma HourAnglePerHour(time: int, solarNoon: int, k: int)
    ensures HourAngle(time + k * MsPerHour, solarNoon) == HourAngle(time, solarNoon) + DegreesPerHour * k as real
  {
    var d := (time - solarNoon) as real;
    assert ((time + k * MsPerHour) - solarNoon) as real == d + (k as real) * 3600000.0;
  }

  /** The hour angle depends only on the offset from noon. */
  lemma HourAngleShift(time: int, solarNoon: int, shift: int)
    ensures HourAngle(time + shift, solarNoon + shift) == HourAngle(time, solarNoon)
  {
  }

  /** Later moments have larger hour angles. */
  lemma HourAngleIncreasing(t1: int, t2: int, solarNoon: int)
    requires t1 < t2
    ensures HourAngle(t1, solarNoon) < HourAngle(t2, solarNoon)
  {
    assert HourAngle(t2, solarNoon) - HourAngle(t1, solarNoon) == HourAngle(t2, t1);
  }

  /** Within the twelve hours either side of noon the hour angle lies in [-180, 180). */
  lemma HourAngleWithinDay(time: int, solarNoon: int)
    requires solarNoon - 12 * MsPerHour <= time < solarNoon + 12 * MsPerHour
    ensures -180.0 <= HourAngle(time, solarNoon) < 180.0
  {
  }
}
