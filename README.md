# Sudden-stratospheric-warming event detection and alignment

This project models the event-detection core of the DynVar_SH_SSW analysis
scripts in Dafny.

- `DetectMinMaxPeriods` scans a time series for periods of `period`
  consecutive samples that all lie above a threshold (kind `max`) or all
  below it (kind `min`). It merges flagged time steps into events whenever
  they lie no more than `sep` time steps apart. For each event it reports:
  - the onset, seven time steps before the first flagged step;
  - the end;
  - the duration;
  - the most extreme sample between onset and end.
- `FindUniqueEvents` pools the onset dates of many detections (seasons,
  percentiles, variables), sorts and de-duplicates them, and thins them to a
  list of distinct events.
- `AssignUniqueEvent` maps each onset date to the nearest of those events.
- `event_freq.py` carries its own copy of the detector. That copy takes
  `max` or `min` only, with `max` as its default kind (the default of
  `functions.py` is `auto`). It has no guard for an empty result, and it
  reports each event's dates as one `[start, end]` pair.

Files:

- `series.dfy` (module `Series`) holds the array operations the detectors
  take from numpy and xarray:
  - an `Option` for NaN / NaT;
  - `min` and `max`;
  - boolean-mask selection (`isel`, `a[mask]`).
- `functions.dfy` (module `Functions`) models `functions.py`.
- `event_freq.dfy` (module `EventFreq`) models the detector in
  `event_freq.py`. It reuses the flagging, merging and per-event
  specification of `Functions`.

Modelling choices:

- Time stamps are integers (days or time steps), strictly increasing.
- Samples and thresholds are reals. The code only compares them and takes
  their minimum and maximum.
- The `kind` argument is the enumeration `Kind = Min | Max`. The `auto`
  option of `functions.py` is `KindArg.Auto`.

The loops of the source are methods with loop invariants:

- the merge pass that assigns event ids (`e`, `tm1`, `event_id`);
- the per-event pass that appends durations, extremes and dates;
- the pooling loop of `FindUniqueEvents`;
- the loop of `AssignUniqueEvent`.

Each of these methods is proved against a specification function or
predicate:

- `WindowBeyond` says what a flagged step is.
- `Breaks` and `EventIds` give the event ids.
- `EventStats` and `Describes` give what is reported per event.
- `GapFilter` models the thinning step.
- `IsNearest` models `argmin` over distances.

The lemmas then prove what the code promises about those specifications.

## Model

| member | source | states |
|---|---|---|
| Series.SeqMin | functions.py:34 | the minimum of a non-empty array is one of its elements and no element is smaller |
| Series.SeqMax | functions.py:37 | the maximum of a non-empty array is one of its elements and no element is larger |
| Series.SelectMembership | functions.py:42 | boolean-mask selection yields exactly the elements at positions where the mask is true |
| Series.SelectIncreasing | functions.py:42 | selecting from strictly increasing time stamps keeps them strictly increasing |
| Functions.Rolling | functions.py:27-37 | the rolling reduction has one entry per sample, and an entry is NaN exactly when fewer than period samples end there |
| Functions.RollingWindow | functions.py:27-37 | a full window's entry is the rolling minimum (kind max) or maximum (kind min): one of the window's samples, and bounding all of them |
| Functions.Flags | functions.py:35-38 | the comparison `da > thresh` / `da < thresh` gives one flag per entry, and a NaN entry is never flagged |
| Functions.FlagMask | functions.py:27-38 | one flag per sample, and no step before the first full window is flagged |
| Series.Positions | functions.py:42 | the positions where a mask is true, in strictly increasing order, each true position among them |
| Series.Select | functions.py:42 | `isel` with a boolean mask: one element per true position, the p-th being the element at the p-th true position |
| Functions.FlaggedTimes | functions.py:42 | the time stamps selected by the flag mask, no more of them than there are time stamps |
| Functions.Gap | functions.py:43-49 | the merge gap `sep*timestep`, with timestep the difference of the first two time stamps; it has no contract of its own |
| Functions.Breaks | functions.py:44-52 | the id of the k-th flagged time, the number of gaps above the merge gap among the first k steps; it is at most k |
| Functions.EventIds | functions.py:44-52 | the `event_id` list: one id per flagged time, the first being 0 |
| Functions.KeepMask | functions.py:124-125 | the mask `[True] + list(np.diff(u) > event_sep)`: one entry per date, the first always true |
| Functions.GapFilter | functions.py:124-125 | the dates the mask keeps, never more than the input; GapFilterKeeps gives exactly which |
| Functions.ResolveKind | functions.py:28-32 | `auto` becomes `min` exactly when thresh <= 0 and `max` otherwise; an explicit kind is kept |
| Functions.FlagMaskAt | functions.py:27-38 | step i is flagged iff i >= period - 1 and every sample of the window ending at i is beyond the threshold; the NaN prefix of the rolling reduction is never flagged |
| Functions.FlagMaskIff | functions.py:27-38 | the same equivalence for every step of the series |
| Functions.FlagMaskNone | functions.py:39-41 | the flag mask has no true entry exactly when no window lies wholly beyond the threshold |
| Functions.FlaggedTimesFacts | functions.py:42 | the flagged times are strictly increasing and each comes from a step whose window lies beyond the threshold |
| Functions.AssignEventIds | functions.py:44-52 | ids start at 0; each step adds 1 exactly when the gap to the previous flagged time exceeds sep*timestep, and 0 otherwise |
| Functions.BreaksMonotone | functions.py:44-52 | event ids never decrease along the flagged times |
| Functions.EventIdsMonotone | functions.py:44-52 | the id sequence is non-decreasing |
| Functions.EventIdRange | functions.py:44-54 | the ids that occur are exactly 0 up to the number of gaps exceeding sep*timestep, so `np.unique(ex)` is 0, 1, ..., last id |
| Functions.FirstWith | functions.py:60-61 | the first flagged time carrying id u |
| Functions.LastWith | functions.py:60-62 | the last flagged time carrying id u |
| Functions.SliceValues | functions.py:67-69 | the samples whose time stamps lie in the inclusive slice [lo, hi], and no others |
| Functions.EventExtreme | functions.py:66-69 | the minimum (kind min) or maximum (kind max) of the samples in [onset, end] is such a sample and bounds all of them |
| Functions.OnsetBeforeEnd | functions.py:61-62 | an event's onset, 7 time steps before its first flagged time, comes before its last flagged time |
| Functions.EventStatistics | functions.py:55-69 | for every event id in order: onset = first flagged time - 7*timestep, end = last flagged time, duration = period + count - 1, extreme = extreme over [onset, end] |
| Functions.DetectMinMaxPeriods | functions.py:7-79 | returns None exactly when nothing is flagged; otherwise the statistics are those of the flagged times and their event ids |
| Functions.EventWellFormedAt | functions.py:61-69 | one event starts before it ends, lasts at least period steps, and its extreme lies strictly beyond the threshold |
| Functions.EventsWellFormed | functions.py:61-69 | every event starts before it ends, lasts at least period steps, and has an extreme strictly beyond the threshold |
| Functions.GapBeforeEvent | functions.py:47-51 | the first flagged time of an event is more than the gap after the last flagged time of the previous event |
| Functions.EndsIncreasing | functions.py:47-64 | event end dates are strictly increasing |
| Functions.EventsSeparated | functions.py:47-64 | each event's first flagged time (onset + 7 steps) is more than sep*timestep after the previous event's end |
| Functions.EventsMatchIds | functions.py:44-59 | there is one event per distinct event id, and one more event than there are gaps exceeding sep*timestep |
| Functions.Finite | functions.py:118-120 | the finite dates of one onset array, NaT entries dropped |
| Functions.Pooled | functions.py:110-120 | the pooled dates are exactly the finite dates of some selection |
| Functions.Insert | functions.py:121 | inserting into a strictly increasing list keeps it strictly increasing and adds exactly the new value |
| Functions.Unique | functions.py:121 | `np.unique`: strictly increasing, with exactly the elements of the input |
| Functions.KeptIsSeparated | functions.py:124-125 | a date the gap filter keeps is more than event_sep after every smaller date |
| Functions.SeparatedIsKept | functions.py:124-125 | a date more than event_sep after every smaller date is kept |
| Functions.GapFilterKeeps | functions.py:124-125 | on sorted distinct dates the filter keeps exactly the dates more than event_sep after every smaller one, in increasing order |
| Functions.GapFilterFirst | functions.py:124-125 | the filter always keeps the first (smallest) date |
| Functions.GapFilterIdempotent | functions.py:124-125 | applying the filter to its own output returns it unchanged |
| Functions.UniqueEventsFacts | functions.py:121-125 | sort, de-duplicate and filter give a strictly increasing list whose first element is the minimum pooled date and whose consecutive elements differ by more than event_sep |
| Functions.FindUniqueEvents | functions.py:99-126 | the result is strictly increasing, is a subset of the finite input dates, starts with the smallest of them, has consecutive gaps above event_sep, and contains a date iff it is more than event_sep after every smaller pooled date |
| Functions.NearestIndex | functions.py:141-142 | `argmin(abs(unique - x))`: an index whose distance to x is least, with ties going to the lowest index |
| Functions.AssignUniqueEvent | functions.py:128-143 | one index per finite event, in order; each index is the nearest unique event with ties to the lowest index; when the unique list is strictly increasing, as FindUniqueEvents returns it, an event equal to a unique event maps to that event's index |
| EventFreq.Unpaired | event_freq.py:110 | the [start, end] pairs split into onset and end arrays without changing any value |
| EventFreq.EventStatistics | event_freq.py:103-115 | for every event id in order: the pair [first flagged time - 7*timestep, last flagged time], duration = period + count - 1, extreme over [start, end] |
| EventFreq.UnpairedEvents | event_freq.py:106-115 | pairing the dates changes no event's onset, end, duration or extreme |
| EventFreq.PairedEvents | event_freq.py:106-119 | every pair has start before end, every duration is at least period, every extreme lies strictly beyond the threshold, and there is one event per distinct event id |
| EventFreq.DetectMinMaxPeriods | event_freq.py:64-124 | given at least one flagged step, the function body as written (with `np` bound to numpy) computes statistics, never None: those of the flagged times and their event ids, as in functions.py, with the dates paired |

## Left out

- `WriteCSV` (functions.py:82-95) is file output with `strftime` date formatting.
- Default arguments are not modelled: every argument is passed explicitly.
  `functions.py` defaults to `sep=20`, `period=7`, `time='time'`,
  `kind='auto'`, and the copy in `event_freq.py` to `sep=20`, `period=7`,
  `time='time'`, `kind='max'`. The calls in the repository's scripts pass
  every argument except `time`. The model has no `time` parameter, because
  the renaming of the time dimension is left out (see below).
- EventFreq.DetectMinMaxPeriods: the model assumes numpy is imported as `np`,
  as functions.py:3 does. `event_freq.py` imports only xarray and tabulate
  (event_freq.py:1-2) but calls `np.unique` at event_freq.py:102, so as the
  file stands every call that meets the model's preconditions (two time
  stamps, one flagged step) raises `NameError` there. The model instead returns the statistics the body computes when
  numpy is present.
- The `attrs` metadata strings are left out, as are the renaming of the time
  dimension and the xarray coordinates. The model returns the arrays alone.
- `kind` is an enumeration, so mixed-case strings are not modelled. The two
  detectors lower-case `kind` when flagging but compare it exactly when
  taking the extreme, so with `'MAX'` no extreme is appended and the call
  raises, at the latest at functions.py:78, where `options[kind]` has no key
  `'MAX'`. A
  string other than `min` or `max` is not modelled either.
- NaN samples inside the data are not modelled. Only the NaN prefix of the
  rolling reduction is. With NaN data, xarray's skip-NaN reductions would
  change the window and slice results.
- Floating-point rounding is not modelled. Samples and thresholds are exact
  reals, and only comparisons, minima and maxima are taken.
- Dates are integer time stamps rather than `datetime64` values, and
  `event_sep` is counted in the same units as the time stamps.
- The `events` Dataset of `FindUniqueEvents` has season, percentile and
  optional variable dimensions. The model takes it as a list of onset-date
  arrays, one per selection, in loop order.
- Inputs on which the source raises an exception are excluded by
  preconditions. Each is one line below:
  - `Functions.DetectMinMaxPeriods`: at least two time stamps when a step is flagged, because `ds.time[1]` is read.
  - `EventFreq.DetectMinMaxPeriods`: at least two time stamps and a flagged step, because `event_all.time[0]` is read unguarded.
  - `period` is at least 1, as xarray's rolling window requires.
  - `Functions.FindUniqueEvents`: at least one finite date, because the mask `[True]` cannot index an empty array.
  - `Functions.AssignUniqueEvent`: a non-empty unique list whenever a finite event exists, because `argmin` of an empty array fails.
- The top-level script of `event_freq.py` is not part of this model: the
  quantiles, tables and plots. The other scripts of the repository
  (moment computation, climatology anomalies, plotting) are not part of it
  either.
