/**
 * The energy integrator of the irradiance pipeline: a time series of
 * effective-irradiance samples is turned into watt-hours by the trapezoidal
 * rule over adjacent samples (src/perezModel.js, calculateEnergyOutput and
 * calculateEnergyGenerated).
 *
 * Irradiance values, the panel rating and durations are `real`; timestamps are
 * `int` epoch milliseconds. Arithmetic is exact: floating-point rounding is not
 * modelled.
 */
module Energy {

  import opened Units

  /** One `{time, value}` point: epoch milliseconds and effective irradiance in W/m². */
  datatype Sample = Sample(time: int, value: real)

  /** The irradiance (W/m²) at which a panel delivers its rated power. */
  const ReferenceIrradiance: real := 1000.0

  /**
   * Energy (Wh) delivered by a panel rated `rating` W (at 1000 W/m²) under a
   * constant `irradiance` for `duration` hours: the rating is scaled by the
   * irradiance relative to the reference and multiplied by the duration.
   */
  function EnergyOutput(rating: real, irradiance: real, duration: real): (e: real)
    ensures rating == 0.0 || irradiance == 0.0 || duration == 0.0 ==> e == 0.0
    ensures rating >= 0.0 && irradiance >= 0.0 && duration >= 0.0 ==> e >= 0.0
    ensures irradiance == ReferenceIrradiance ==> e == rating * duration
  {
    var powerOutput := (rating * irradiance) / 1000.0;
    powerOutput * duration
  }

  /** EnergyOutput is linear in the rating. */
  lemma EnergyOutputLinearInRating(a: real, r1: real, b: real, r2: real, irradiance: real, duration: real)
    ensures EnergyOutput(a * r1 + b * r2, irradiance, duration)
         == a * EnergyOutput(r1, irradiance, duration) + b * EnergyOutput(r2, irradiance, duration)
  {
    calc {
      EnergyOutput(a * r1 + b * r2, irradiance, duration);
      ((a * r1 + b * r2) * irradiance) / 1000.0 * duration;
      { assert (a * r1 + b * r2) * irradiance == a * (r1 * irradiance) + b * (r2 * irradiance); }
      (a * (r1 * irradiance) + b * (r2 * irradiance)) / 1000.0 * duration;
      a * ((r1 * irradiance) / 1000.0 * duration) + b * ((r2 * irradiance) / 1000.0 * duration);
    }
  }

  /** EnergyOutput is linear in the irradiance. */
  lemma EnergyOutputLinearInIrradiance(rating: real, a: real, x1: real, b: real, x2: real, duration: real)
    ensures EnergyOutput(rating, a * x1 + b * x2, duration)
         == a * EnergyOutput(rating, x1, duration) + b * EnergyOutput(rating, x2, duration)
  {
    calc {
      EnergyOutput(rating, a * x1 + b * x2, duration);
      (rating * (a * x1 + b * x2)) / 1000.0 * duration;
      { assert rating * (a * x1 + b * x2) == a * (rating * x1) + b * (rating * x2); }
      (a * (rating * x1) + b * (rating * x2)) / 1000.0 * duration;
      a * ((rating * x1) / 1000.0 * duration) + b * ((rating * x2) / 1000.0 * duration);
    }
  }

  /** EnergyOutput is linear in the duration. */
  lemma EnergyOutputLinearInDuration(rating: real, irradiance: real, a: real, d1: real, b: real, d2: real)
    ensures EnergyOutput(rating, irradiance, a * d1 + b * d2)
         == a * EnergyOutput(rating, irradiance, d1) + b * EnergyOutput(rating, irradiance, d2)
  {
    var p := (rating * irradiance) / 1000.0;
    assert p * (a * d1 + b * d2) == a * (p * d1) + b * (p * d2);
  }

  /** EnergyOutput does not decrease when the irradiance grows, for a non-negative rating and duration. */
  lemma EnergyOutputMonotone(rating: real, x1: real, x2: real, duration: real)
    requires rating >= 0.0 && duration >= 0.0 && x1 <= x2
    ensures EnergyOutput(rating, x1, duration) <= EnergyOutput(rating, x2, duration)
  {
    EnergyOutputLinearInIrradiance(rating, 1.0, x2, -1.0, x1, duration);
    assert EnergyOutput(rating, x2 - x1, duration) >= 0.0;
  }

  /** The gap between two samples in hours (the millisecond difference over 3600000). */
  function Hours(prev: Sample, curr: Sample): (h: real)
    ensures h * MsPerHour as real == (curr.time - prev.time) as real
    ensures h >= 0.0 <==> prev.time <= curr.time
    ensures h == 0.0 <==> prev.time == curr.time
  {
    (curr.time - prev.time) as real / MsPerHour as real
  }

  /** The energy of one trapezoid: the mean of the two values held for the gap between them. */
  function PairEnergy(prev: Sample, curr: Sample, rating: real): (e: real)
    ensures prev.time == curr.time || rating == 0.0 || prev.value + curr.value == 0.0 ==> e == 0.0
    ensures rating >= 0.0 && prev.value >= 0.0 && curr.value >= 0.0 && prev.time <= curr.time ==> e >= 0.0
  {
    EnergyOutput(rating, (prev.value + curr.value) / 2.0, Hours(prev, curr))
  }

  /**
   * The independent reference: the sum, over every pair of adjacent samples,
   * of the trapezoid between them.
   */
  function Trapezoid(s: seq<Sample>, rating: real): real
  {
    if |s| < 2 then 0.0 else PairEnergy(s[0], s[1], rating) + Trapezoid(s[1..], rating)
  }

  /**
   * The callback of the `reduce`: index 0 returns the accumulator unchanged,
   * every later index adds the trapezoid of the two-sample window ending there.
   */
  function Accumulate(acc: real, data: seq<Sample>, index: nat, rating: real): (r: real)
    requires index < |data|
    ensures index == 0 ==> r == acc
    ensures index > 0 ==> r == acc + Trapezoid(data[index - 1..index + 1], rating)
  {
    if index == 0 then acc
    else
      assert data[index - 1..index + 1][1..] == [data[index]];
      acc + PairEnergy(data[index - 1], data[index], rating)
  }

  /**
   * `data.reduce(callback, acc)` continued from `index`: the callback applied
   * left to right. From index 0 it adds the pair-sum of the whole series; from
   * a later index, exactly the trapezoids from the pair ending at `index` on.
   */
  function Reduce(data: seq<Sample>, rating: real, index: nat, acc: real): (r: real)
    requires index <= |data|
    ensures index == 0 ==> r == acc + Trapezoid(data, rating)
    ensures index >= 1 ==> r == acc + Trapezoid(data[index - 1..], rating)
    decreases |data| - index
  {
    if index == |data| then acc
    else
      assert index >= 1 ==> data[index - 1..][1..] == data[index..];
      assert data[0..] == data;
      Reduce(data, rating, index + 1, Accumulate(acc, data, index, rating))
  }

  /**
   * Total energy (Wh) of a sample series for a panel of the given rating: the
   * reduce with initial accumulator 0. It equals the pair-sum reference, and
   * a series of fewer than two samples yields nothing.
   */
  function EnergyGenerated(data: seq<Sample>, rating: real): (e: real)
    ensures |data| < 2 ==> e == 0.0
    ensures e == Trapezoid(data, rating)
  {
    Reduce(data, rating, 0, 0.0)
  }

  /** The first pair's trapezoid followed by the energy of the rest. */
  lemma EnergyGeneratedUnfold(s: seq<Sample>, rating: real)
    requires |s| >= 2
    ensures EnergyGenerated(s, rating) == PairEnergy(s[0], s[1], rating) + EnergyGenerated(s[1..], rating)
  {
  }

  /** A ramp from 0 to `x` over exactly one hour yields the area of the triangle: rating * x / 2000. */
  lemma EnergyOfOneHourRamp(t: int, x: real, rating: real)
    ensures EnergyGenerated([Sample(t, 0.0), Sample(t + MsPerHour, x)], rating) == rating * x / 2000.0
  {
    var s := [Sample(t, 0.0), Sample(t + MsPerHour, x)];
    EnergyGeneratedUnfold(s, rating);
    assert Hours(s[0], s[1]) == 1.0;
    assert (0.0 + x) / 2.0 == x / 2.0;
    assert (rating * (x / 2.0)) / 1000.0 == rating * x / 2000.0;
  }

  /** Timestamps never go backwards from one sample to the next. */
  predicate TimesNonDecreasing(s: seq<Sample>)
  {
    forall i :: 0 < i < |s| ==> s[i - 1].time <= s[i].time
  }

  /** Every irradiance value is non-negative. */
  predicate ValuesNonNegative(s: seq<Sample>)
  {
    forall i :: 0 <= i < |s| ==> s[i].value >= 0.0
  }

  /** Every irradiance value equals `v`. */
  predicate ValuesConstant(s: seq<Sample>, v: real)
  {
    forall i :: 0 <= i < |s| ==> s[i].value == v
  }

  /** With a non-negative rating, non-negative values and non-decreasing times the energy is non-negative. */
  lemma {:induction false} EnergyNonNegative(s: seq<Sample>, rating: real)
    requires rating >= 0.0 && ValuesNonNegative(s) && TimesNonDecreasing(s)
    ensures EnergyGenerated(s, rating) >= 0.0
    decreases |s|
  {
    if |s| >= 2 {
      EnergyGeneratedUnfold(s, rating);
      assert s[0].time <= s[1].time;
      assert s[0].value >= 0.0 && s[1].value >= 0.0;
      assert PairEnergy(s[0], s[1], rating) >= 0.0;
      EnergyNonNegative(s[1..], rating);
    }
  }

  /**
   * Integration is additive over a split at a shared sample: the series
   * a ++ [m] ++ b yields the energy of a ++ [m] plus that of [m] ++ b.
   */
  lemma {:induction false} EnergySplit(a: seq<Sample>, m: Sample, b: seq<Sample>, rating: real)
    ensures EnergyGenerated(a + [m] + b, rating)
         == EnergyGenerated(a + [m], rating) + EnergyGenerated([m] + b, rating)
    decreases |a|
  {
    if a != [] {
      var s := a + [m] + b;
      EnergyGeneratedUnfold(s, rating);
      EnergySplit(a[1..], m, b, rating);
      assert s[1..] == a[1..] + [m] + b;
      var left := a + [m];
      EnergyGeneratedUnfold(left, rating);
      assert left[1..] == a[1..] + [m];
      assert s[0] == left[0] && s[1] == left[1];
    }
  }

  /**
   * Constant irradiance telescopes: the energy is that of the value held
   * from the first timestamp to the last.
   */
  lemma {:induction false} EnergyOfConstantSeries(s: seq<Sample>, v: real, rating: real)
    requires |s| >= 1 && ValuesConstant(s, v)
    ensures EnergyGenerated(s, rating) == EnergyOutput(rating, v, Hours(s[0], s[|s| - 1]))
    decreases |s|
  {
    if |s| == 1 {
      assert Hours(s[0], s[0]) == 0.0;
    } else {
      var rest := s[1..];
      EnergyGeneratedUnfold(s, rating);
      EnergyOfConstantSeries(rest, v, rating);
      assert rest[|rest| - 1] == s[|s| - 1];
      assert (v + v) / 2.0 == v;
      var d1, d2 := Hours(s[0], s[1]), Hours(s[1], s[|s| - 1]);
      assert Hours(s[0], s[|s| - 1]) == d1 + d2;
      EnergyOutputLinearInDuration(rating, v, 1.0, d1, 1.0, d2);
    }
  }

  /** The energy is linear in the panel rating. */
  lemma {:induction false} EnergyLinearInRating(s: seq<Sample>, a: real, r1: real, b: real, r2: real)
    ensures EnergyGenerated(s, a * r1 + b * r2)
         == a * EnergyGenerated(s, r1) + b * EnergyGenerated(s, r2)
    decreases |s|
  {
    if |s| >= 2 {
      EnergyGeneratedUnfold(s, a * r1 + b * r2);
      EnergyGeneratedUnfold(s, r1);
      EnergyGeneratedUnfold(s, r2);
      EnergyOutputLinearInRating(a, r1, b, r2, (s[0].value + s[1].value) / 2.0, Hours(s[0], s[1]));
      EnergyLinearInRating(s[1..], a, r1, b, r2);
    }
  }

  /**
   * Raising irradiance values pointwise (same timestamps) never lowers the
   * energy, for a non-negative rating and non-decreasing times.
   */
  lemma {:induction false} EnergyMonotoneInValues(s: seq<Sample>, t: seq<Sample>, rating: real)
    requires |s| == |t| && rating >= 0.0 && TimesNonDecreasing(s)
    requires forall i :: 0 <= i < |s| ==> s[i].time == t[i].time && s[i].value <= t[i].value
    ensures EnergyGenerated(s, rating) <= EnergyGenerated(t, rating)
    decreases |s|
  {
    if |s| >= 2 {
      EnergyGeneratedUnfold(s, rating);
      EnergyGeneratedUnfold(t, rating);
      assert Hours(s[0], s[1]) == Hours(t[0], t[1]) >= 0.0;
      EnergyOutputMonotone(rating, (s[0].value + s[1].value) / 2.0, (t[0].value + t[1].value) / 2.0, Hours(s[0], s[1]));
      EnergyMonotoneInValues(s[1..], t[1..], rating);
    }
  }
}
