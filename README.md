# Solar irradiance energy estimate: the integer and real bookkeeping

This project models the parts of the solar-irradiance estimator that are
arithmetic rather than floating-point physics. The estimator samples effective
irradiance on a panel over a time window and integrates the samples into
watt-hours. The model covers:

- **Energy integrator** (`energy.dfy`, module `Energy`). `calculateEnergyOutput`
  is rating × irradiance / 1000 × hours. `calculateEnergyGenerated` is a
  `reduce` over `{time, value}` samples. It is modelled in the same shape: a
  left fold (`Reduce`) whose callback (`Accumulate`) skips index 0 and adds one
  trapezoid per later index. It is proved equal to an independent pair-sum
  reference (`Trapezoid`). The lemmas state its behaviour: zero for fewer than
  two samples, the one-hour ramp, non-negativity, additivity at a shared
  sample, telescoping under constant irradiance, linearity in the rating and
  monotonicity in the values.
- **Sampling grid of `perezModelPerMinute`** (`grid.dfy`, module `Grid`). There
  are `dt * resolution` samples. Sample `i` is at `start + i * resolutionMs`,
  truncated toward zero to a whole millisecond as `new Date` does. The
  irradiance at a sample is an arbitrary function of its timestamp, passed in
  as a parameter. That function stands for the Perez decomposition and the
  panel projection, which are not modelled. The lemmas give the sample count,
  the exact spacing (in exact arithmetic) when the resolution divides an hour, the ordering of the
  timestamps, the covered span and the energy under constant irradiance.
- **Hour angle** (`solar_time.dfy`, module `SolarTime`). `calculateHourAngle`
  is 15° per hour of offset from a noon timestamp, which is an input here.
- **Day-of-year index** (`calendar.dfy`, module `Calendar`). `getDayOfYear` is
  `floor(diff / 86400000) + 1`. Here `diff` is the millisecond offset from the
  reference `new Date(year, 0, 0)`, which is midnight on 31 December of the
  previous year.

Timestamps are `int` epoch milliseconds. Irradiance, rating and durations are
exact `real`s. `dt` and `resolution` are `nat`s, as the command-line driver
passes them (`src/index.ts:7-9`).

Points where the model follows the code as written:

- The integrator accepts any series: calculateEnergyGenerated
  (`src/perezModel.js:247-262`) never checks the order of the samples. The
  lemmas state which ordering each result needs.
- A zero-length window (`dt = 0` or `resolution = 0`) gives an empty grid and
  zero energy. The code does not reject it.
- calculateDeclinationAngle (`src/perezModel.js:30-31`) uses `dayOfYear - 1`
  over 365, so it expects 1 January to be day 1. getDayOfYear yields 2 for
  1 January and up to 367 (see Findings).
- `src/perezModel.js` calls getDayOfYear (lines 8, 18 and 82) but imports only
  suncalc and getAngleOfIncidence (lines 1-2), so every non-empty window
  throws (see Findings). The rest of the model describes the module with
  `src/lib/getDayOfYear.ts` imported.

## Model

| member | source | states |
|---|---|---|
| `Energy.EnergyOutput` | src/perezModel.js:237-245 | The energy is zero when the rating, irradiance or duration is zero. It is non-negative when all three are. At the 1000 W/m² reference irradiance it equals rating × hours. |
| `Energy.EnergyOutputLinearInRating` | src/perezModel.js:242-243 | calculateEnergyOutput is linear in the panel rating. |
| `Energy.EnergyOutputLinearInIrradiance` | src/perezModel.js:242-243 | calculateEnergyOutput is linear in the effective irradiance. |
| `Energy.EnergyOutputLinearInDuration` | src/perezModel.js:242-243 | calculateEnergyOutput is linear in the duration. |
| `Energy.EnergyOutputMonotone` | src/perezModel.js:242-243 | With a non-negative rating and duration, more irradiance never gives less energy. |
| `Energy.Hours` | src/perezModel.js:254 | The gap in hours times 3600000 is the millisecond gap. It is non-negative exactly when the samples are in time order, and zero exactly when their times are equal. |
| `Energy.PairEnergy` | src/perezModel.js:253-259 | One trapezoid is zero when the two times coincide, the rating is zero or the two values cancel. It is non-negative for ordered times and non-negative rating and values. |
| `Energy.Accumulate` | src/perezModel.js:248-260 | The callback returns the accumulator unchanged at index 0. At a later index it adds the pair-sum of the two-sample window ending there. |
| `Energy.Reduce` | src/perezModel.js:248-261 | The reduce from index 0 adds the pair-sum of the whole series to its accumulator. From an index i ≥ 1 it adds exactly the trapezoids of every adjacent pair from (i-1, i) onward. |
| `Energy.EnergyGenerated` | src/perezModel.js:247-262 | calculateEnergyGenerated returns 0 for fewer than two samples. Otherwise it returns the sum, over each adjacent pair, of calculateEnergyOutput(rating, mean of the two values, gap in hours). |
| `Energy.EnergyGeneratedUnfold` | src/perezModel.js:252-260 | The total is the first pair's trapezoid plus the energy of the series without its first sample. |
| `Energy.EnergyOfOneHourRamp` | src/perezModel.js:252-260 | Two samples one hour apart, with values 0 and X, yield rating × X / 2000. |
| `Energy.EnergyNonNegative` | src/perezModel.js:248-261 | The energy is non-negative when the rating and every value are non-negative and the timestamps never decrease. |
| `Energy.EnergySplit` | src/perezModel.js:248-261 | Splitting at a shared sample m is additive: E(a ++ [m] ++ b) = E(a ++ [m]) + E([m] ++ b). |
| `Energy.EnergyOfConstantSeries` | src/perezModel.js:252-260 | With every value equal to v, the energy telescopes to that of v held from the first timestamp to the last. |
| `Energy.EnergyLinearInRating` | src/perezModel.js:253-260 | The total energy is linear in the panel rating. |
| `Energy.EnergyMonotoneInValues` | src/perezModel.js:252-260 | With the same non-decreasing timestamps and a non-negative rating, raising values pointwise never lowers the energy. |
| `Grid.ResolutionMs` | src/perezModel.js:188 | The sample spacing is positive, and `resolution` spacings make exactly one hour. |
| `Grid.TruncateMs` | src/perezModel.js:195 | `new Date(x)` drops the fractional millisecond toward zero. The result lies within one millisecond of x, on the side of zero. |
| `Grid.TruncateMonotone` | src/perezModel.js:195 | Truncating two time values keeps their order. |
| `Grid.SampleOffset` | src/perezModel.js:188-195 | The offset of sample i is never negative, is zero only for i = 0, and `resolution` times it is i hours in milliseconds. |
| `Grid.SampleTime` | src/perezModel.js:195-227 | Sample 0 is at `start`. Sample i lies within one millisecond of start + offset, on the side nearer the epoch. |
| `Grid.GridOf` | src/perezModel.js:189-232 | The map over the index yields `count` samples. Sample i is at SampleTime(start, resolution, i), `new Date(start + i * resolutionMs)`, and its value is the irradiance at that timestamp. |
| `Grid.SampleGrid` | src/perezModel.js:187-195 | The grid has `numUnits = dt * resolution` samples. Sample i is at SampleTime(start, resolution, i), and its value is the irradiance at that time. With resolution 0 the grid is empty. |
| `Grid.SampleTimeExact` | src/perezModel.js:188-195 | In exact arithmetic, when the resolution divides 3600000, sample i is exactly at start + i × 3600000 / resolution. |
| `Grid.SampleTimeMonotone` | src/perezModel.js:188-195 | A later index never gets an earlier timestamp. |
| `Grid.SampleTimeStrictlyIncreasing` | src/perezModel.js:188-195 | A later index gets a strictly later timestamp, in particular in two cases (sufficient, not necessary): the resolution divides an hour, or the window starts at or after the epoch and samples are at least 1 ms apart. |
| `Grid.SpacingAtLeastOneMs` | src/perezModel.js:188 | At most 3600000 samples per hour space the samples at least 1 ms apart. |
| `Grid.SampleTimeStrictlyIncreasingExact` | src/perezModel.js:188-195 | When the resolution divides an hour, a later index gets a strictly later timestamp, for any start. |
| `Grid.SampleTimeStrictlyIncreasingFromEpoch` | src/perezModel.js:188-195 | From a start at or after the epoch, with samples at least 1 ms apart, a later index gets a strictly later timestamp despite truncation. |
| `Grid.GridTimesNonDecreasing` | src/perezModel.js:189-229 | The grid's timestamps never decrease, for any start and resolution. |
| `Grid.GridTimesStrictlyIncreasing` | src/perezModel.js:187-229 | The grid's timestamps strictly increase under the conditions of SampleTimeStrictlyIncreasing. |
| `Grid.GridShape` | src/perezModel.js:187-195 | In exact arithmetic, when the resolution divides an hour, the grid has dt × resolution samples at exact, strictly increasing times. The span from first to last is (dt × resolution − 1) / resolution hours. |
| `Grid.GridSpan` | src/perezModel.js:187-195 | In exact arithmetic, when the resolution divides an hour, the last sample of a non-empty grid is (dt × resolution − 1) / resolution hours after the first. |
| `Grid.SpanHours` | src/perezModel.js:188 | (n − 1) sample spacings are (n − 1) / resolution hours. |
| `Grid.WindowEnergy` | src/perezModel.js:187-234 | perezModelPerMinute's energy, with getDayOfYear imported, is 0 for a window of fewer than two samples. |
| `Grid.PerezModelPerMinuteAsWritten` | src/perezModel.js:187-235 | As written (getDayOfYear is called at line 18 but not imported at lines 1-2), a call returns exactly when the window has no samples, and then returns 0. Otherwise it throws a ReferenceError. |
| `Grid.OneSampleWindowThrows` | src/perezModel.js:1-18 | A one-hour window at one sample per hour already throws. |
| `Grid.PerezModelPerMinute` | src/perezModel.js:187-235 | With getDayOfYear imported, every call returns the window energy WindowEnergy. That energy is non-negative for a non-negative rating and irradiance, and 0 for fewer than two samples. |
| `Grid.WindowEnergyNonNegative` | src/perezModel.js:187-234 | With getDayOfYear imported, perezModelPerMinute's energy is non-negative for a non-negative rating and irradiance that is never negative. |
| `Grid.WindowEnergyOfConstantIrradiance` | src/perezModel.js:187-234 | In exact arithmetic, when the resolution divides an hour, with getDayOfYear imported and constant irradiance v, the energy is calculateEnergyOutput(rating, v, (dt × resolution − 1) / resolution), which is one sample interval short of dt hours. It is 0 when dt = 0. |
| `Grid.OneHourWindowYieldsNothing` | src/perezModel.js:187-234 | A one-hour window sampled once an hour at 1000 W/m² yields 0 Wh for a 1000 W panel. |
| `Grid.FullWindowGrid` | src/perezModel.js:187-189 | The corrected grid has dt × resolution + 1 samples. Sample i is at SampleTime(start, resolution, i), and its value is the irradiance at that time. |
| `Grid.LastOffsetIsWindow` | src/perezModel.js:188-195 | In exact arithmetic, at any resolution, the offset of sample dt × resolution is exactly dt hours. |
| `Grid.FullWindowEnergy` | src/perezModel.js:187-234 | The energy of the corrected grid. A zero-length window (dt = 0, a single sample) yields 0. |
| `Grid.FullWindowGridSpan` | src/perezModel.js:187-195 | The corrected grid starts at `start` and, in exact arithmetic, ends exactly dt hours later, at any resolution. |
| `Grid.FullWindowEnergyOfConstantIrradiance` | src/perezModel.js:187-234 | In exact arithmetic, under constant irradiance v, at any resolution, the corrected window yields exactly calculateEnergyOutput(rating, v, dt). |
| `Grid.FullWindowEnergyNonNegative` | src/perezModel.js:187-234 | The corrected window's energy is non-negative for a non-negative rating and irradiance. |
| `Grid.FullWindowExtendsGrid` | src/perezModel.js:187-234 | The corrected grid is the original grid plus one closing sample. Its energy is the original energy plus that last trapezoid. |
| `SolarTime.HourAngle` | src/perezModel.js:43-55 | The hour angle is 0 exactly at noon, negative exactly before noon and positive exactly after. |
| `SolarTime.OffsetOfHourAngle` | src/perezModel.js:52-53 | The inverse reading, 240000 ms per degree, maps a zero angle, and only a zero angle, to a zero offset. |
| `SolarTime.HourAngleRoundTrip` | src/perezModel.js:52-53 | The hour angle determines the millisecond offset from noon exactly. |
| `SolarTime.HourAnglePerHour` | src/perezModel.js:52-53 | Shifting the time by k whole hours changes the angle by exactly 15 × k degrees. |
| `SolarTime.HourAngleShift` | src/perezModel.js:52-53 | The angle depends only on the offset between the time and noon. |
| `SolarTime.HourAngleIncreasing` | src/perezModel.js:52-53 | The angle is strictly increasing in the time. |
| `SolarTime.HourAngleWithinDay` | src/perezModel.js:44-53 | Within twelve hours either side of noon, the angle lies in [−180, 180). |
| `Calendar.DayOfYear` | src/lib/getDayOfYear.ts:1-6 | The result d is the unique integer with (d − 1) days ≤ diff < d days, where diff is the offset from the day-0-of-January reference. |
| `Calendar.FloorDivBounds` | src/lib/getDayOfYear.ts:4 | The floor of diff / 86400000 brackets diff between consecutive multiples of a day. |
| `Calendar.DayOfYearIsIntegerDivision` | src/lib/getDayOfYear.ts:3-4 | getDayOfYear equals the integer floor division diff div 86400000, plus 1. |
| `Calendar.DayOfYearMonotone` | src/lib/getDayOfYear.ts:3-4 | For a fixed year, the index never decreases as the timestamp grows. |
| `Calendar.DayOfYearNextDay` | src/lib/getDayOfYear.ts:4 | Adding 86400000 ms to the timestamp adds exactly 1. |
| `Calendar.DayOfYearSameDay` | src/lib/getDayOfYear.ts:4 | Two timestamps in the same day-long bucket after the reference get the same index, k + 1. |
| `Calendar.DayOfYearPositive` | src/lib/getDayOfYear.ts:2-4 | At or after the reference, the index is at least 1. |
| `Calendar.DayOfYearNewYearIsTwo` | src/lib/getDayOfYear.ts:2-4 | Local midnight on 1 January (diff = 86400000) gets index 2. The last day of a year of n days gets n + 1. |
| `Calendar.DayOfYearCorrected` | src/lib/getDayOfYear.ts:2-4 | Without the extra + 1, the result d is the unique integer with d days ≤ diff < d + 1 days. |
| `Calendar.DayOfYearCorrectedNumbersDays` | src/lib/getDayOfYear.ts:2-4 | A moment k − 1 whole days (and less than k) after midnight on 1 January is numbered k. |
| `Calendar.DayOfYearCorrectedRange` | src/lib/getDayOfYear.ts:2-4 | Within a year of n days starting on 1 January, the corrected index lies in 1 .. n. |

## Left out

- The Perez decomposition, the atmospheric transmittance and the optical-depth helpers (src/perezModel.js:72-155, 264-378): these are chains of floating-point `tan`, `pow`, `exp` and `log`, with unguarded divisions. In the grid they are replaced by the abstract `irradiance` function.
- `getETRadiation`, `calculateETIrradiance`, `calculateDeclinationAngle` and `calculateCosineOfZenithAngle` (src/perezModel.js:5-41, 57-70), and `src/lib/etr.ts`, `src/lib/cosZenithAngle.ts`, `src/lib/declinationAngle.ts`: trigonometry over floats, with no integer or ordering content.
- `getEffectiveIrradiance` (src/perezModel.js:157-175): its behaviour is float behaviour of `cos` and a possibly zero denominator.
- `src/lib/vectorMath.js`, the angle of incidence: it is three.js vector code plus `acos`.
- The `suncalc` `getPosition` call and the zenith reconstruction in the grid loop (src/perezModel.js:196-213): an external ephemeris and trigonometry. They feed only the abstract irradiance.
- Building `Date` values from calendar fields, the local time zone and daylight saving (src/lib/getDayOfYear.ts:2, src/perezModel.js:44-51): the reference moment of getDayOfYear and the noon of calculateHourAngle are epoch-millisecond inputs. Every day is taken as 86400000 ms. In a northern-hemisphere zone with daylight saving (such as the driver's Detroit, src/index.ts:4-5), between the spring and autumn changes a local midnight lies one hour short of a whole number of days after `new Date(year, 0, 0)`. So from 00:00 to 01:00 local time getDayOfYear (src/lib/getDayOfYear.ts:3-4) returns the previous day's number all summer. In a southern-hemisphere zone the reference already falls in summer time. From the April change to the October change, local midnight is then one hour past a whole number of days, so from 23:00 to 24:00 getDayOfYear returns the next day's number. The model does not capture this.
- Floating-point rounding: values are exact reals, and `diff / 86400000` is an exact quotient.
- Grid.SampleTimeExact, Grid.GridShape, Grid.GridSpan, Grid.LastOffsetIsWindow, Grid.FullWindowGridSpan, Grid.WindowEnergyOfConstantIrradiance and Grid.FullWindowEnergyOfConstantIrradiance: their exact sample times, and the closed-form energies built on them, hold in exact arithmetic only. In IEEE-754 doubles, `(1 / resolution) * 60 * 60 * 1000` (src/perezModel.js:188) misses the whole number even for some resolutions that divide an hour. Resolution 9 gives 399999.99999999994, 1000 gives 3599.9999999999995 and 45 gives 80000.00000000001. With start 0 and resolution 9, `new Date` (line 195) truncates sample 1 to 399999 ms, not 400000. At dt = 1 the offsets `8 * resolutionMs` and `9 * resolutionMs` truncate to 3199999 and 3599999, each 1 ms short, so the energies differ from the closed forms too. For a resolution that does not divide an hour, such as 7, truncation alone moves the last sample (3085714 ms rather than 6/7 h), so the closed form of Grid.WindowEnergyOfConstantIrradiance is stated only for resolutions that divide an hour.
- `new Date` of a time value beyond ±8.64e15 ms (an invalid date): not modelled.
- Grid.SampleGrid: takes `dt` and `resolution` as natural numbers. A product `dt * resolution` that is not a non-negative integer makes `new Array` throw a RangeError in the source; that path is not modelled. A fractional `dt` or `resolution` whose product is a whole number is also excluded. For example, dt = 1.5 at resolution 2 gives 3 samples, and resolution 0.5 gives samples 7200000 ms apart.
- Grid.PerezModelPerMinuteAsWritten: the error is modelled as its message only. The ReferenceError comes from the first sample's call of calculateETIrradiance (src/perezModel.js:214, 18). The calls before it, getPosition and getAngleOfIncidence, are not modelled.
- The `console.log` debug output (src/perezModel.js:129, 167-171, 277-289) and the command-line driver `src/index.ts`: output only.
- The convergence of the estimate as the resolution grows: it depends on the irradiance physics.

## Findings

| source | as written | input that shows it | evidently intended | confidence | as-written member | corrected member |
|---|---|---|---|---|---|---|
| src/lib/getDayOfYear.ts:2-4 | The reference is `new Date(year, 0, 0)` (31 December of the previous year), and the code still adds 1 to the floor of the elapsed days. | Local midnight on 1 January is 86400000 ms after the reference and yields 2. The last day of a leap year yields 367. | 1 January is day 1 and the last day is 365 or 366, the range the declination formula expects. | high; not executed | `Calendar.DayOfYearNewYearIsTwo` | `Calendar.DayOfYearCorrectedNumbersDays` |
| src/perezModel.js:1-18 | getDayOfYear is called but never imported, so calculateETIrradiance throws a ReferenceError when it reads the name. perezModelPerMinute calls it for every sample. | dt = 1, resolution = 1: the single sample throws, and no energy is returned. Only an empty window returns. | `import getDayOfYear from "./lib/getDayOfYear.js"`, so that every window returns its energy. | high; not executed | `Grid.OneSampleWindowThrows` | `Grid.PerezModelPerMinute` |
| src/perezModel.js:187-195, 234 | `dt * resolution` samples at `start + i / resolution` hours, so the trapezoids stop one interval before the end of the window. | dt = 1, resolution = 1, rating 1000 W, a steady 1000 W/m²: one sample, 0 Wh instead of 1000 Wh. | The energy of the whole `dt`-hour window, using `dt * resolution + 1` samples. | medium; not executed | `Grid.OneHourWindowYieldsNothing` | `Grid.FullWindowEnergyOfConstantIrradiance` |
