/**
 * The sampling grid of perezModelPerMinute (src/perezModel.js): `dt` hours at
 * `resolution` samples per hour give `dt * resolution` samples, the i-th at
 * `start + i * resolutionMs` milliseconds truncated to a whole millisecond by
 * `new Date`, and the resulting series is integrated into energy.
 *
 * The irradiance at each sample is the outcome of the Perez decomposition and
 * the panel projection, which are not part of this model: it is an arbitrary
 * function of the (truncated) sample time, passed in as `irradiance`.
 */
module Grid {
  import opened Units
  import opened Energy

  /** Milliseconds between samples: `(1 / resolution) * 60 * 60 * 1000`. */
  function ResolutionMs(resolution: nat): (ms: real)
    requires resolution > 0
    ensures ms > 0.0 && ms * resolution as real == MsPerHour as real
  {
    (1.0 / resolution as real) * 60.0 * 60.0 * 1000.0
  }

  /**
   * `new Date(x).getTime()` for a time value in range: the fractional part of
   * the milliseconds is cut off toward zero.
   */
  function TruncateMs(x: real): (t: int)
    ensures x >= 0.0 ==> 0 <= t && t as real <= x < t as real + 1.0
    ensures x < 0.0 ==> t <= 0 && t as real - 1.0 < x <= t as real
  {
    if x < 0.0 then -((-x).Floor) else x.Floor
  }

  /** Truncation never reverses the order of two time values. */
  lemma TruncateMonotone(x: real, y: real)
    requires x <= y
    ensures TruncateMs(x) <= TruncateMs(y)
  {
    if x < 0.0 && y >= 0.0 {
    } else if x < 0.0 {
      assert (-y).Floor <= (-x).Floor;
    } else {
      assert x.Floor <= y.Floor;
    }
  }

  /** Truncating the same whole start plus two ordered offsets keeps their order. */
  lemma TruncateOffsetsMonotone(start: int, a: real, b: real)
    requires a <= b
    ensures TruncateMs(start as real + a) <= TruncateMs(start as real + b)
  {
    TruncateMonotone(start as real + a, start as real + b);
  }

  /**
   * Truncating two non-negative time values at least one millisecond apart
   * gives strictly ordered timestamps.
   */
  lemma TruncateOffsetsStrictlyIncreasing(start: int, a: real, b: real)
    requires start as real + a >= 0.0 && b >= a + 1.0
    ensures TruncateMs(start as real + a) < TruncateMs(start as real + b)
  {
  }

  /** An integral time value is kept as it is. */
  lemma TruncateWhole(k: int)
    ensures TruncateMs(k as real) == k
  {
  }

  /** The offset of sample `i` from the start, in (fractional) milliseconds: `i * resolutionMs`. */
  function SampleOffset(resolution: nat, i: nat): (o: real)
    requires resolution > 0
    ensures o >= 0.0 && (o == 0.0 <==> i == 0)
    ensures o * resolution as real == i as real * MsPerHour as real
  {
    var ms := ResolutionMs(resolution);
    assert i as real * ms * resolution as real == i as real * (ms * resolution as real);
    i as real * ms
  }

  /**
   * The timestamp of sample `i`: `new Date(start + i * resolutionMs)`, within
   * one millisecond of the exact time and on the side of it nearer the epoch.
   */
  function SampleTime(start: int, resolution: nat, i: nat): (t: int)
    requires resolution > 0
    ensures i == 0 ==> t == start
    ensures var x := start as real + SampleOffset(resolution, i);
      (x >= 0.0 ==> t as real <= x < t as real + 1.0) && (x < 0.0 ==> t as real - 1.0 < x <= t as real)
  {
    TruncateMs(start as real + SampleOffset(resolution, i))
  }

  /**
   * `count` samples over the index, each stamped with its sample time and
   * carrying the irradiance at that time. A zero resolution is only reached
   * with an empty grid.
   */
  function GridOf(start: int, resolution: nat, count: nat, irradiance: int -> real): (g: seq<Sample>)
    requires resolution > 0 || count == 0
    ensures |g| == count
    ensures forall i :: 0 <= i < |g| ==> g[i].time == SampleTime(start, resolution, i)
    ensures forall i :: 0 <= i < |g| ==> g[i].value == irradiance(g[i].time)
  {
    if count == 0 then []
    else seq(count, i requires 0 <= i < count => Sample(SampleTime(start, resolution, i), irradiance(SampleTime(start, resolution, i))))
  }

  /**
   * The samples perezModelPerMinute feeds to the integrator: `numUnits = dt *
   * resolution` of them. With resolution 0 there are none.
   */
  function SampleGrid(start: int, dt: nat, resolution: nat, irradiance: int -> real): (g: seq<Sample>)
    ensures |g| == dt * resolution
    ensures resolution > 0 ==> forall i :: 0 <= i < |g| ==> g[i].time == SampleTime(start, resolution, i)
    ensures forall i :: 0 <= i < |g| ==> g[i].value == irradiance(g[i].time)
  {
    if resolution == 0 then [] else GridOf(start, resolution, dt * resolution, irradiance)
  }

  /**
   * The energy perezModelPerMinute computes for the window, once getDayOfYear
   * is in scope (see PerezModelPerMinuteAsWritten): a window of fewer than two
   * samples yields nothing.
   */
  function WindowEnergy(start: int, dt: nat, resolution: nat, rating: real, irradiance: int -> real): (e: real)
    ensures dt * resolution < 2 ==> e == 0.0
  {
    EnergyGenerated(SampleGrid(start, dt, resolution, irradiance), rating)
  }

  /** What a call of perezModelPerMinute ends in: a returned energy, or a thrown error. */
  datatype Outcome = Returned(energy: real) | Threw(error: string)

  /**
   * perezModelPerMinute as the module stands: src/perezModel.js imports only
   * suncalc and getAngleOfIncidence, yet calculateETIrradiance calls
   * getDayOfYear, so the first sample throws a ReferenceError. Only an empty
   * window returns, with 0.
   */
  function PerezModelPerMinuteAsWritten(start: int, dt: nat, resolution: nat, rating: real, irradiance: int -> real): (r: Outcome)
    ensures r.Returned? <==> dt * resolution == 0
    ensures r.Returned? ==> r.energy == 0.0
  {
    var g := SampleGrid(start, dt, resolution, irradiance);
    if |g| == 0 then Returned(EnergyGenerated(g, rating))
    else Threw("ReferenceError: getDayOfYear is not defined")
  }

  /** One hour at one sample per hour, the smallest non-empty window, already throws. */
  lemma OneSampleWindowThrows(start: int, rating: real, irradiance: int -> real)
    ensures PerezModelPerMinuteAsWritten(start, 1, 1, rating, irradiance).Threw?
  {
  }

  /**
   * perezModelPerMinute with getDayOfYear imported from src/lib/getDayOfYear.ts:
   * every window returns its energy, which is never negative for a non-negative
   * rating and irradiance.
   */
  ghost function PerezModelPerMinute(start: int, dt: nat, resolution: nat, rating: real, irradiance: int -> real): (r: Outcome)
    ensures r == Returned(WindowEnergy(start, dt, resolution, rating, irradiance))
    ensures rating >= 0.0 && (forall t :: irradiance(t) >= 0.0) ==> r.energy >= 0.0
    ensures dt * resolution < 2 ==> r.energy == 0.0
  {
    if rating >= 0.0 && (forall t :: irradiance(t) >= 0.0) then
      WindowEnergyNonNegative(start, dt, resolution, rating, irradiance);
      Returned(WindowEnergy(start, dt, resolution, rating, irradiance))
    else
      Returned(WindowEnergy(start, dt, resolution, rating, irradiance))
  }

  /**
   * When the resolution divides an hour, sample times are exact: the i-th is
   * `start + i * (3600000 / resolution)`.
   */
  lemma SampleTimeExact(start: int, resolution: nat, i: nat)
    requires resolution > 0 && MsPerHour % resolution == 0
    ensures SampleTime(start, resolution, i) == start + i * (MsPerHour / resolution)
  {
    var q := MsPerHour / resolution;
    assert SampleOffset(resolution, i) == (i * q) as real by {
      var ms := ResolutionMs(resolution);
      assert q * resolution == MsPerHour;
      assert (q as real) * (resolution as real) == MsPerHour as real;
      assert ms * (resolution as real) == (q as real) * (resolution as real);
      assert ms == q as real;
      assert (i as real) * (q as real) == (i * q) as real;
    }
    TruncateWhole(start + i * q);
  }

  /** Offsets `i * ms` and `j * ms` differ by `(j - i) * ms`, which is non-negative for i <= j. */
  lemma OffsetGap(i: nat, j: nat, ms: real)
    requires i <= j && ms > 0.0
    ensures (j as real) * ms == (i as real) * ms + (j - i) as real * ms
    ensures (j - i) as real * ms >= 0.0
    ensures i < j && ms >= 1.0 ==> (j - i) as real * ms >= 1.0
  {
    var k := (j - i) as real;
    assert (j as real) * ms == ((i as real) + k) * ms;
    if i < j && ms >= 1.0 {
      assert k >= 1.0;
      assert k * ms >= 1.0 * ms;
    }
  }

  /** Later indices never get earlier timestamps. */
  lemma SampleTimeMonotone(start: int, resolution: nat, i: nat, j: nat)
    requires resolution > 0 && i <= j
    ensures SampleTime(start, resolution, i) <= SampleTime(start, resolution, j)
  {
    assert SampleOffset(resolution, i) <= SampleOffset(resolution, j) by {
      OffsetGap(i, j, ResolutionMs(resolution));
    }
    TruncateOffsetsMonotone(start, SampleOffset(resolution, i), SampleOffset(resolution, j));
  }

  /** A resolution of at most 3600000 samples an hour spaces samples at least 1 ms apart. */
  lemma SpacingAtLeastOneMs(resolution: nat)
    requires 0 < resolution <= MsPerHour
    ensures ResolutionMs(resolution) >= 1.0
  {
    var ms := ResolutionMs(resolution);
    var r := resolution as real;
    assert ms * r == 3600000.0;
    assert r <= 3600000.0;
    FactorAtLeastOne(ms, r);
  }

  /** A factor that does not shrink a positive number is at least 1. */
  lemma FactorAtLeastOne(a: real, r: real)
    requires r > 0.0 && a * r >= r
    ensures a >= 1.0
  {
    assert (a - 1.0) * r >= 0.0;
  }

  /** Whole multiples of a positive spacing keep the order of their indices. */
  lemma WholeOffsetsIncreasing(i: nat, j: nat, q: nat)
    requires i < j && q > 0
    ensures i * q < j * q
  {
    assert j * q == i * q + (j - i) * q;
  }

  /** With a resolution that divides an hour, later indices get strictly later timestamps. */
  lemma SampleTimeStrictlyIncreasingExact(start: int, resolution: nat, i: nat, j: nat)
    requires resolution > 0 && i < j && MsPerHour % resolution == 0
    ensures SampleTime(start, resolution, i) < SampleTime(start, resolution, j)
  {
    SampleTimeExact(start, resolution, i);
    SampleTimeExact(start, resolution, j);
    WholeOffsetsIncreasing(i, j, MsPerHour / resolution);
  }

  /**
   * From the epoch on, with samples at least a millisecond apart, later
   * indices get strictly later timestamps.
   */
  lemma SampleTimeStrictlyIncreasingFromEpoch(start: int, resolution: nat, i: nat, j: nat)
    requires 0 < resolution <= MsPerHour && i < j && start >= 0
    ensures SampleTime(start, resolution, i) < SampleTime(start, resolution, j)
  {
    var a, b := SampleOffset(resolution, i), SampleOffset(resolution, j);
    assert a >= 0.0 && b >= a + 1.0 by {
      var ms := ResolutionMs(resolution);
      SpacingAtLeastOneMs(resolution);
      OffsetGap(i, j, ms);
      OffsetGap(0, i, ms);
    }
    TruncateOffsetsStrictlyIncreasing(start, a, b);
  }

  /**
   * Later indices get strictly later timestamps in particular when the
   * resolution divides an hour, or when the window starts at or after the epoch
   * and samples are at least a millisecond apart. These conditions suffice;
   * they are not necessary.
   */
  lemma SampleTimeStrictlyIncreasing(start: int, resolution: nat, i: nat, j: nat)
    requires resolution > 0 && i < j
    requires MsPerHour % resolution == 0 || (start >= 0 && resolution <= MsPerHour)
    ensures SampleTime(start, resolution, i) < SampleTime(start, resolution, j)
  {
    if MsPerHour % resolution == 0 {
      SampleTimeStrictlyIncreasingExact(start, resolution, i, j);
    } else {
      SampleTimeStrictlyIncreasingFromEpoch(start, resolution, i, j);
    }
  }

  /** The grid's timestamps are non-decreasing, whatever the resolution. */
  lemma GridTimesNonDecreasing(start: int, resolution: nat, count: nat, irradiance: int -> real)
    requires resolution > 0 || count == 0
    ensures TimesNonDecreasing(GridOf(start, resolution, count, irradiance))
  {
    var g := GridOf(start, resolution, count, irradiance);
    forall i | 0 < i < |g| ensures g[i - 1].time <= g[i].time {
      SampleTimeMonotone(start, resolution, i - 1, i);
    }
  }

  /**
   * The grid's timestamps strictly increase when the resolution divides an
   * hour, or when the window starts at or after the epoch and samples are at
   * least a millisecond apart.
   */
  lemma GridTimesStrictlyIncreasing(start: int, dt: nat, resolution: nat, irradiance: int -> real)
    requires resolution > 0
    requires MsPerHour % resolution == 0 || (start >= 0 && resolution <= MsPerHour)
    ensures var g := SampleGrid(start, dt, resolution, irradiance);
      forall i, j :: 0 <= i < j < |g| ==> g[i].time < g[j].time
  {
    var g := SampleGrid(start, dt, resolution, irradiance);
    forall i, j | 0 <= i < j < |g| ensures g[i].time < g[j].time {
      SampleTimeStrictlyIncreasing(start, resolution, i, j);
    }
  }

  /**
   * Shape of perezModelPerMinute's grid: `dt * resolution` samples, the i-th
   * at `start + i * 3600000 / resolution` when the resolution divides an hour,
   * strictly increasing, and the last one `(dt * resolution - 1) / resolution`
   * hours after the first, one sample interval short of `dt`.
   */
  lemma GridShape(start: int, dt: nat, resolution: nat, irradiance: int -> real)
    requires resolution > 0 && MsPerHour % resolution == 0
    ensures var g := SampleGrid(start, dt, resolution, irradiance);
      && |g| == dt * resolution
      && (forall i :: 0 <= i < |g| ==> g[i].time == start + i * (MsPerHour / resolution))
      && (forall i, j :: 0 <= i < j < |g| ==> g[i].time < g[j].time)
      && (|g| > 0 ==> Hours(g[0], g[|g| - 1]) == (dt * resolution - 1) as real / resolution as real)
  {
    var g := SampleGrid(start, dt, resolution, irradiance);
    var q := MsPerHour / resolution;
    forall i | 0 <= i < |g| ensures g[i].time == start + i * q {
      SampleTimeExact(start, resolution, i);
    }
    GridTimesStrictlyIncreasing(start, dt, resolution, irradiance);
    if |g| > 0 {
      GridSpan(start, dt, resolution, irradiance);
    }
  }

  /**
   * When the resolution divides an hour, the last sample of a non-empty grid
   * is `(dt * resolution - 1) / resolution` hours after the first.
   */
  lemma GridSpan(start: int, dt: nat, resolution: nat, irradiance: int -> real)
    requires resolution > 0 && MsPerHour % resolution == 0 && dt > 0
    ensures var g := SampleGrid(start, dt, resolution, irradiance);
      |g| > 0 && Hours(g[0], g[|g| - 1]) == (dt * resolution - 1) as real / resolution as real
  {
    var g := SampleGrid(start, dt, resolution, irradiance);
    var n := |g|;
    var q := MsPerHour / resolution;
    assert n > 0;
    SampleTimeExact(start, resolution, 0);
    SampleTimeExact(start, resolution, n - 1);
    assert g[n - 1].time - g[0].time == (n - 1) * q;
    SpanHours(n, resolution);
  }

  /** `(n - 1) * (3600000 / resolution)` milliseconds are `(n - 1) / resolution` hours. */
  lemma SpanHours(n: nat, resolution: nat)
    requires n > 0 && resolution > 0 && MsPerHour % resolution == 0
    ensures ((n - 1) * (MsPerHour / resolution)) as real / MsPerHour as real
         == (n - 1) as real / resolution as real
  {
    var q := MsPerHour / resolution;
    assert q * resolution == MsPerHour;
    var k := (n - 1) as real;
    assert ((n - 1) * q) as real == k * q as real;
    assert (q as real) * (resolution as real) == MsPerHour as real;
    calc {
      (k * q as real) / MsPerHour as real;
      (k * q as real) / ((q as real) * (resolution as real));
      k / resolution as real;
    }
  }

  /**
   * With a non-negative rating and irradiance that is never negative, the
   * window's energy is non-negative, whatever the start or resolution.
   */
  lemma WindowEnergyNonNegative(start: int, dt: nat, resolution: nat, rating: real, irradiance: int -> real)
    requires rating >= 0.0
    requires forall t :: irradiance(t) >= 0.0
    ensures WindowEnergy(start, dt, resolution, rating, irradiance) >= 0.0
  {
    var g := SampleGrid(start, dt, resolution, irradiance);
    if resolution > 0 {
      GridTimesNonDecreasing(start, resolution, dt * resolution, irradiance);
    }
    EnergyNonNegative(g, rating);
  }

  /**
   * Under constant irradiance `v`, with a resolution that divides an hour, the
   * window yields the energy of `(dt * resolution - 1) / resolution` hours at
   * `v`: the grid integrates one sample interval less than the `dt` hours asked
   * for.
   */
  lemma WindowEnergyOfConstantIrradiance(start: int, dt: nat, resolution: nat, rating: real, v: real, irradiance: int -> real)
    requires resolution > 0 && MsPerHour % resolution == 0
    requires forall t :: irradiance(t) == v
    ensures dt == 0 ==> WindowEnergy(start, dt, resolution, rating, irradiance) == 0.0
    ensures dt > 0 ==> WindowEnergy(start, dt, resolution, rating, irradiance)
                       == EnergyOutput(rating, v, (dt * resolution - 1) as real / resolution as real)
  {
    var g := SampleGrid(start, dt, resolution, irradiance);
    assert WindowEnergy(start, dt, resolution, rating, irradiance) == EnergyGenerated(g, rating);
    if dt > 0 {
      GridValuesConstant(start, dt, resolution, v, irradiance);
      GridSpan(start, dt, resolution, irradiance);
      var span := (dt * resolution - 1) as real / resolution as real;
      assert Hours(g[0], g[|g| - 1]) == span;
      EnergyOfConstantSeries(g, v, rating);
    }
  }

  /** Under constant irradiance every grid sample carries the same value. */
  lemma GridValuesConstant(start: int, dt: nat, resolution: nat, v: real, irradiance: int -> real)
    requires forall t :: irradiance(t) == v
    ensures ValuesConstant(SampleGrid(start, dt, resolution, irradiance), v)
  {
  }

  /**
   * One hour sampled once an hour at a steady 1000 W/m² for a 1000 W panel
   * yields nothing, although the panel ran at its rating for the hour.
   */
  lemma OneHourWindowYieldsNothing()
    ensures WindowEnergy(0, 1, 1, 1000.0, t => 1000.0) == 0.0
  {
    assert |SampleGrid(0, 1, 1, t => 1000.0)| == 1;
  }

  /**
   * The grid with the closing sample at `start + dt` hours added: `dt *
   * resolution + 1` samples, so that the trapezoids cover the whole window.
   */
  function FullWindowGrid(start: int, dt: nat, resolution: nat, irradiance: int -> real): (g: seq<Sample>)
    requires resolution > 0
    ensures |g| == dt * resolution + 1
    ensures forall i :: 0 <= i < |g| ==> g[i].time == SampleTime(start, resolution, i)
    ensures forall i :: 0 <= i < |g| ==> g[i].value == irradiance(g[i].time)
  {
    GridOf(start, resolution, dt * resolution + 1, irradiance)
  }

  /** The offset of sample `dt * resolution` is exactly `dt` hours, whatever the resolution. */
  lemma LastOffsetIsWindow(dt: nat, resolution: nat)
    requires resolution > 0
    ensures SampleOffset(resolution, dt * resolution) == (dt * MsPerHour) as real
  {
    var o := SampleOffset(resolution, dt * resolution);
    var x := (dt * MsPerHour) as real;
    var r := resolution as real;
    assert o * r == x * r by {
      assert (dt * resolution) as real * MsPerHour as real == (dt * MsPerHour) as real * r;
    }
    assert (o - x) * r == 0.0;
  }

  /**
   * FullWindowGrid starts at `start` and its last sample falls exactly `dt`
   * hours later.
   */
  lemma FullWindowGridSpan(start: int, dt: nat, resolution: nat, irradiance: int -> real)
    requires resolution > 0
    ensures var g := FullWindowGrid(start, dt, resolution, irradiance);
      && g[0].time == start
      && g[|g| - 1].time == start + dt * MsPerHour
  {
    var g := FullWindowGrid(start, dt, resolution, irradiance);
    assert g[0].time == start;
    LastOffsetIsWindow(dt, resolution);
    TruncateWhole(start + dt * MsPerHour);
  }

  /** The energy over the whole window, integrated on FullWindowGrid. */
  function FullWindowEnergy(start: int, dt: nat, resolution: nat, rating: real, irradiance: int -> real): (e: real)
    requires resolution > 0
    ensures dt == 0 ==> e == 0.0
  {
    EnergyGenerated(FullWindowGrid(start, dt, resolution, irradiance), rating)
  }

  /**
   * Under constant irradiance `v`, at any resolution, the whole window yields
   * exactly the energy of `dt` hours at `v`.
   */
  lemma FullWindowEnergyOfConstantIrradiance(start: int, dt: nat, resolution: nat, rating: real, v: real, irradiance: int -> real)
    requires resolution > 0
    requires forall t :: irradiance(t) == v
    ensures FullWindowEnergy(start, dt, resolution, rating, irradiance) == EnergyOutput(rating, v, dt as real)
  {
    var g := FullWindowGrid(start, dt, resolution, irradiance);
    FullWindowGridSpan(start, dt, resolution, irradiance);
    EnergyOfConstantSeries(g, v, rating);
    assert Hours(g[0], g[|g| - 1]) == dt as real;
  }

  /** With a non-negative rating and irradiance, the whole window's energy is non-negative. */
  lemma FullWindowEnergyNonNegative(start: int, dt: nat, resolution: nat, rating: real, irradiance: int -> real)
    requires resolution > 0 && rating >= 0.0
    requires forall t :: irradiance(t) >= 0.0
    ensures FullWindowEnergy(start, dt, resolution, rating, irradiance) >= 0.0
  {
    GridTimesNonDecreasing(start, resolution, dt * resolution + 1, irradiance);
    EnergyNonNegative(FullWindowGrid(start, dt, resolution, irradiance), rating);
  }

  /**
   * The whole-window energy is the as-written window energy plus the one
   * trapezoid that closes the window.
   */
  lemma FullWindowExtendsGrid(start: int, dt: nat, resolution: nat, rating: real, irradiance: int -> real)
    requires resolution > 0 && dt > 0
    ensures var g := FullWindowGrid(start, dt, resolution, irradiance);
      && g[..|g| - 1] == SampleGrid(start, dt, resolution, irradiance)
      && FullWindowEnergy(start, dt, resolution, rating, irradiance)
         == WindowEnergy(start, dt, resolution, rating, irradiance) + PairEnergy(g[|g| - 2], g[|g| - 1], rating)
  {
    var g := FullWindowGrid(start, dt, resolution, irradiance);
    var n := |g|;
    var w := SampleGrid(start, dt, resolution, irradiance);
    assert g[..n - 1] == w;
    var a, m, b := g[..n - 2], g[n - 2], [g[n - 1]];
    assert g == a + [m] + b;
    assert w == a + [m];
    EnergySplit(a, m, b, rating);
    EnergyGeneratedUnfold([m] + b, rating);
    assert ([m] + b)[1..] == b;
  }
}
