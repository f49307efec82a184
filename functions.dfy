/** The event-detection and event-alignment routines of functions.py.

    A time series is a strictly increasing sequence of integer time stamps
    (days or steps) with one real sample per stamp. DetectMinMaxPeriods flags
    the time steps that close a window of `period` samples lying wholly beyond
    a threshold, groups the flagged steps into events by the gap between them,
    and reports each event's onset, end, duration and extreme value.
    FindUniqueEvents pools onset dates from many detections and thins them to
    a list of distinct events; AssignUniqueEvent maps each onset date to the
    nearest of those. */
module Functions {
  import opened Series

  /** Which side of the threshold an event lies on. */
  datatype Kind = Min | Max

  /** The `kind` argument: 'auto', or an explicit 'min' or 'max'. */
  datatype KindArg = Auto | Explicit(kind: Kind)

  /** 'auto' looks for minima when the threshold is not positive and for maxima otherwise. */
  function ResolveKind(arg: KindArg, thresh: real): (k: Kind)
    ensures arg.Auto? ==> (k == Min <==> thresh <= 0.0)
    ensures arg.Explicit? ==> k == arg.kind
  {
    match arg
    case Auto => if thresh <= 0.0 then Min else Max
    case Explicit(k) => k
  }

  /** x lies strictly beyond the threshold on the side `k` looks at. */
  predicate Beyond(k: Kind, x: real, thresh: real) {
    match k
    case Max => x > thresh
    case Min => x < thresh
  }

  // ---------------------------------------------------------------------------
  // Flagging
  // ---------------------------------------------------------------------------

  /** The rolling reduction over windows of `period` samples: the rolling
      minimum when looking for maxima, the rolling maximum when looking for
      minima. The first period - 1 entries have no full window (NaN). */
  function Rolling(values: seq<real>, period: nat, k: Kind): (r: seq<Option<real>>)
    requires period >= 1
    ensures |r| == |values|
    ensures forall i :: 0 <= i < |values| ==> (r[i].None? <==> i + 1 < period)
  {
    seq(|values|, i requires 0 <= i < |values| =>
      if i + 1 < period then None
      else if k == Max then Some(SeqMin(values[i + 1 - period .. i + 1]))
      else Some(SeqMax(values[i + 1 - period .. i + 1])))
  }

  /** A full window's rolling value is the minimum (maxima) or maximum
      (minima) of the `period` samples ending at i: one of them, and no
      sample of the window lies beyond it on the other side. */
  lemma RollingWindow(values: seq<real>, period: nat, k: Kind, i: nat)
    requires period >= 1 && period - 1 <= i < |values|
    ensures var r := Rolling(values, period, k)[i];
      r.Some? &&
      (exists j :: i + 1 - period <= j <= i && values[j] == r.value) &&
      forall j :: i + 1 - period <= j <= i ==> if k == Max then r.value <= values[j] else values[j] <= r.value
  {
    var lo := i + 1 - period;
    var w := values[lo .. i + 1];
    var m := Rolling(values, period, k)[i].value;
    assert m == if k == Max then SeqMin(w) else SeqMax(w);
    var p :| 0 <= p < |w| && w[p] == m;
    assert values[lo + p] == m;
    forall j | lo <= j <= i ensures if k == Max then m <= values[j] else values[j] <= m {
      assert values[j] == w[j - lo] && w[j - lo] in w;
    }
  }

  /** The boolean mask `da > thresh` (or `da < thresh`); a NaN entry compares false. */
  function Flags(rolled: seq<Option<real>>, thresh: real, k: Kind): (mask: seq<bool>)
    ensures |mask| == |rolled|
    ensures forall i :: 0 <= i < |rolled| && rolled[i].None? ==> !mask[i]
  {
    seq(|rolled|, i requires 0 <= i < |rolled| => rolled[i].Some? && Beyond(k, rolled[i].value, thresh))
  }

  /** The flag mask of the series: one flag per sample, and no step before
      the first full window is flagged. */
  function FlagMask(values: seq<real>, thresh: real, period: nat, k: Kind): (mask: seq<bool>)
    requires period >= 1
    ensures |mask| == |values|
    ensures forall i :: 0 <= i < |values| && i + 1 < period ==> !mask[i]
  {
    Flags(Rolling(values, period, k), thresh, k)
  }

  /** Reference definition of a flagged step: a full window of `period`
      samples ends at i and every sample in it lies beyond the threshold. */
  predicate WindowBeyond(values: seq<real>, thresh: real, period: nat, k: Kind, i: nat)
    requires i < |values|
  {
    i + 1 >= period && forall j :: i + 1 - period <= j <= i ==> Beyond(k, values[j], thresh)
  }

  lemma FlagMaskAt(values: seq<real>, thresh: real, period: nat, k: Kind, i: nat)
    requires period >= 1 && i < |values|
    ensures FlagMask(values, thresh, period, k)[i] <==> WindowBeyond(values, thresh, period, k, i)
  {
    if i + 1 >= period {
      var lo := i + 1 - period;
      var w := values[lo .. i + 1];
      var m := if k == Max then SeqMin(w) else SeqMax(w);
      assert Rolling(values, period, k)[i] == Some(m);
      if Beyond(k, m, thresh) {
        forall j | lo <= j <= i ensures Beyond(k, values[j], thresh) {
          assert values[j] == w[j - lo] && w[j - lo] in w;
        }
      }
      if WindowBeyond(values, thresh, period, k, i) {
        var p :| 0 <= p < |w| && w[p] == m;
        assert values[lo + p] == m;
      }
    }
  }

  /** A step is flagged exactly when the window of `period` samples ending
      there lies wholly beyond the threshold. */
  lemma FlagMaskIff(values: seq<real>, thresh: real, period: nat, k: Kind)
    requires period >= 1
    ensures forall i :: 0 <= i < |values| ==>
      (FlagMask(values, thresh, period, k)[i] <==> WindowBeyond(values, thresh, period, k, i))
  {
    forall i | 0 <= i < |values|
      ensures FlagMask(values, thresh, period, k)[i] <==> WindowBeyond(values, thresh, period, k, i)
    {
      FlagMaskAt(values, thresh, period, k, i);
    }
  }

  predicate NoneFlagged(values: seq<real>, thresh: real, period: nat, k: Kind) {
    forall i :: 0 <= i < |values| ==> !WindowBeyond(values, thresh, period, k, i)
  }

  /** The time stamps of the flagged steps (`event_all.time`). */
  function FlaggedTimes(times: seq<int>, values: seq<real>, thresh: real, period: nat, k: Kind): (ft: seq<int>)
    requires |times| == |values| && period >= 1
    ensures |ft| <= |times|
  {
    Select(times, FlagMask(values, thresh, period, k))
  }

  /** Some step is flagged exactly when the mask holds a true entry. */
  lemma FlagMaskNone(values: seq<real>, thresh: real, period: nat, k: Kind)
    requires period >= 1
    ensures (true !in FlagMask(values, thresh, period, k)) <==> NoneFlagged(values, thresh, period, k)
  {
    var mask := FlagMask(values, thresh, period, k);
    FlagMaskIff(values, thresh, period, k);
    if true in mask {
      var i :| 0 <= i < |mask| && mask[i];
      assert WindowBeyond(values, thresh, period, k, i);
    }
    if !NoneFlagged(values, thresh, period, k) {
      var i :| 0 <= i < |values| && WindowBeyond(values, thresh, period, k, i);
      assert mask[i];
    }
  }

  /** Every flagged time is the stamp of a step whose window lies beyond the
      threshold, and the flagged times are strictly increasing. */
  lemma FlaggedTimesFacts(times: seq<int>, values: seq<real>, thresh: real, period: nat, k: Kind)
    requires |times| == |values| && period >= 1 && StrictlyIncreasing(times)
    ensures StrictlyIncreasing(FlaggedTimes(times, values, thresh, period, k))
    ensures var pos := Positions(FlagMask(values, thresh, period, k));
      forall p :: 0 <= p < |pos| ==> pos[p] < |times| && WindowBeyond(values, thresh, period, k, pos[p])
  {
    var mask := FlagMask(values, thresh, period, k);
    FlagMaskIff(values, thresh, period, k);
    SelectIncreasing(times, mask);
  }

  /** When some step is flagged, the flagged times are a non-empty, strictly
      increasing selection of the series' times. */
  lemma FlaggedSetup(times: seq<int>, values: seq<real>, thresh: real, period: nat, k: Kind)
    requires |times| == |values| && period >= 1 && StrictlyIncreasing(times)
    requires !NoneFlagged(values, thresh, period, k)
    ensures var ft := FlaggedTimes(times, values, thresh, period, k);
      var pos := Positions(FlagMask(values, thresh, period, k));
      |ft| >= 1 && StrictlyIncreasing(ft) && |pos| == |ft| &&
      forall p :: 0 <= p < |pos| ==> pos[p] < |times| && times[pos[p]] == ft[p]
  {
    FlagMaskNone(values, thresh, period, k);
    FlaggedTimesFacts(times, values, thresh, period, k);
    PositionsEmpty(FlagMask(values, thresh, period, k));
  }

  // ---------------------------------------------------------------------------
  // Merging flagged times into events
  // ---------------------------------------------------------------------------

  /** The number of steps among the first k of ft whose gap exceeds `gap`:
      the id of the event that ft[k] belongs to. */
  function Breaks(ft: seq<int>, gap: int, k: nat): (b: nat)
    requires k < |ft|
    ensures b <= k
  {
    if k == 0 then 0 else Breaks(ft, gap, k - 1) + (if ft[k] - ft[k - 1] > gap then 1 else 0)
  }

  /** The event id of every flagged time (`event_id`). */
  function EventIds(ft: seq<int>, gap: int): (ids: seq<nat>)
    ensures |ids| == |ft|
    ensures |ft| > 0 ==> ids[0] == 0
    ensures forall k :: 0 <= k < |ft| ==> ids[k] == Breaks(ft, gap, k)
  {
    seq(|ft|, k requires 0 <= k < |ft| => Breaks(ft, gap, k))
  }

  /** The merge pass over the flagged times: a new event id starts whenever
      the gap to the previous flagged time exceeds `gap`. */
  method AssignEventIds(ft: seq<int>, gap: int) returns (ids: seq<nat>)
    requires |ft| >= 1
    ensures |ids| == |ft|
    ensures forall k :: 0 <= k < |ft| ==> ids[k] == Breaks(ft, gap, k)
    ensures ids[0] == 0
    ensures forall k :: 1 <= k < |ft| ==>
      ids[k] == ids[k - 1] + (if ft[k] - ft[k - 1] > gap then 1 else 0)
  {
    var e: nat := 0;
    ids := [e];
    var tm1 := ft[0];
    for k := 1 to |ft|
      invariant |ids| == k && tm1 == ft[k - 1] && e == Breaks(ft, gap, k - 1)
      invariant forall j :: 0 <= j < k ==> ids[j] == Breaks(ft, gap, j)
    {
      var t := ft[k];
      var deltaT := t - tm1;
      if deltaT > gap {
        e := e + 1;
      }
      tm1 := t;
      ids := ids + [e];
    }
  }

  /** Event ids never decrease along the flagged times. */
  lemma {:induction false} BreaksMonotone(ft: seq<int>, gap: int, a: nat, b: nat)
    requires a <= b < |ft|
    ensures Breaks(ft, gap, a) <= Breaks(ft, gap, b)
    decreases b - a
  {
    if a < b {
      BreaksMonotone(ft, gap, a, b - 1);
    }
  }

  /** Every id from 0 up to the last one is taken by some flagged time. */
  lemma {:induction false} BreaksCover(ft: seq<int>, gap: int, b: nat, u: nat)
    requires b < |ft| && u <= Breaks(ft, gap, b)
    ensures exists k :: 0 <= k <= b && Breaks(ft, gap, k) == u
  {
    if u < Breaks(ft, gap, b) {
      BreaksCover(ft, gap, b - 1, u);
    }
  }

  /** The ids that occur are exactly 0, 1, ..., last id: so the number of
      events is one more than the number of gaps exceeding `gap`. */
  lemma EventIdRange(ft: seq<int>, gap: int)
    requires |ft| >= 1
    ensures forall u: nat :: u in EventIds(ft, gap) <==> u <= Breaks(ft, gap, |ft| - 1)
  {
    var ids := EventIds(ft, gap);
    var last := |ft| - 1;
    forall u: nat ensures u in ids <==> u <= Breaks(ft, gap, last) {
      if u in ids {
        var k :| 0 <= k < |ids| && ids[k] == u;
        BreaksMonotone(ft, gap, k, last);
      }
      if u <= Breaks(ft, gap, last) {
        BreaksCover(ft, gap, last, u);
        var k :| 0 <= k <= last && Breaks(ft, gap, k) == u;
        assert ids[k] == u;
      }
    }
  }

  /** Event ids run through every number up to the last one. */
  lemma IdsCover(ft: seq<int>, gap: int, ids: seq<nat>)
    requires |ft| >= 1 && ids == EventIds(ft, gap)
    ensures forall u :: 0 <= u <= ids[|ids| - 1] ==> u in ids
  {
    EventIdRange(ft, gap);
  }

  /** The position of the first flagged time carrying id u. */
  function FirstWith(ids: seq<nat>, u: nat): (k: nat)
    requires u in ids
    ensures k < |ids| && ids[k] == u
    ensures forall j :: 0 <= j < k ==> ids[j] != u
  {
    if ids[0] == u then 0
    else
      assert ids == [ids[0]] + ids[1..];
      1 + FirstWith(ids[1..], u)
  }

  /** The position of the last flagged time carrying id u. */
  function LastWith(ids: seq<nat>, u: nat): (k: nat)
    requires u in ids
    ensures k < |ids| && ids[k] == u
    ensures forall j :: k < j < |ids| ==> ids[j] != u
  {
    if ids[|ids| - 1] == u then |ids| - 1
    else
      assert ids == ids[..|ids| - 1] + [ids[|ids| - 1]];
      LastWith(ids[..|ids| - 1], u)
  }

  // ---------------------------------------------------------------------------
  // Per-event statistics
  // ---------------------------------------------------------------------------

  /** The samples whose time stamps fall in [lo, hi] (`sel(time=slice(lo, hi))`). */
  function SliceValues(times: seq<int>, values: seq<real>, lo: int, hi: int): (w: seq<real>)
    requires |times| == |values|
    ensures forall j :: 0 <= j < |times| && lo <= times[j] <= hi ==> values[j] in w
    ensures forall x :: x in w ==> exists j :: 0 <= j < |times| && lo <= times[j] <= hi && values[j] == x
  {
    if |times| == 0 then []
    else
      var n := |times| - 1;
      var front := SliceValues(times[..n], values[..n], lo, hi);
      if lo <= times[n] <= hi then front + [values[n]] else front
  }

  /** Reference definition of an event's extreme: a sample in [lo, hi] that
      no sample in [lo, hi] exceeds (maxima) or undercuts (minima). */
  ghost predicate IsExtremeOver(k: Kind, x: real, times: seq<int>, values: seq<real>, lo: int, hi: int)
    requires |times| == |values|
  {
    (exists j :: 0 <= j < |times| && lo <= times[j] <= hi && values[j] == x) &&
    forall j :: 0 <= j < |times| && lo <= times[j] <= hi ==>
      if k == Max then values[j] <= x else x <= values[j]
  }

  /** The most extreme sample over [lo, hi]: its minimum for 'min', its maximum for 'max'. */
  function EventExtreme(k: Kind, times: seq<int>, values: seq<real>, lo: int, hi: int): (x: real)
    requires |times| == |values|
    requires exists j :: 0 <= j < |times| && lo <= times[j] <= hi
    ensures IsExtremeOver(k, x, times, values, lo, hi)
  {
    var w := SliceValues(times, values, lo, hi);
    if k == Min then SeqMin(w) else SeqMax(w)
  }

  /** The statistics DetectMinMaxPeriods returns, one entry per event in each array. */
  datatype Stats = Stats(duration: seq<int>, extreme: seq<real>, onset: seq<int>, end: seq<int>)

  /** The gap beyond which two flagged times belong to different events. */
  function Gap(times: seq<int>, sep: int): int
    requires |times| >= 2
  {
    sep * (times[1] - times[0])
  }

  /** The statistics of event u, given the flagged times ft and their event
      ids: the onset is 7 time steps before the event's first flagged time,
      the end is its last flagged time, the duration is period plus its number
      of flagged times minus one, and the extreme value is the extreme of the
      samples between onset and end. */
  ghost predicate EventStats(times: seq<int>, values: seq<real>, period: nat, k: Kind,
                             ft: seq<int>, ids: seq<nat>, step: int, u: nat,
                             onset: int, end: int, duration: int, extreme: real)
    requires |times| == |values| && |ids| == |ft| && u in ids
  {
    onset == ft[FirstWith(ids, u)] - 7 * step &&
    end == ft[LastWith(ids, u)] &&
    duration == period + multiset(ids)[u] - 1 &&
    IsExtremeOver(k, extreme, times, values, onset, end)
  }

  /** Statistics for flagged times ft with event ids ids: one entry per
      event id, each as EventStats says. */
  ghost predicate EventsAre(s: Stats, times: seq<int>, values: seq<real>, period: nat, k: Kind,
                            ft: seq<int>, ids: seq<nat>, step: int)
    requires |times| == |values| && |ids| == |ft| > 0
  {
    var n := ids[|ids| - 1] + 1;
    |s.duration| == n && |s.extreme| == n && |s.onset| == n && |s.end| == n &&
    forall u :: 0 <= u < n ==>
      u in ids &&
      EventStats(times, values, period, k, ft, ids, step, u,
                 s.onset[u], s.end[u], s.duration[u], s.extreme[u])
  }

  /** What the detector reports: something is flagged, and the statistics are
      those of the flagged times and the event ids the gap of sep time steps gives. */
  ghost predicate Describes(s: Stats, times: seq<int>, values: seq<real>, thresh: real, sep: int, period: nat, k: Kind)
    requires |times| == |values| >= 2 && period >= 1
  {
    var ft := FlaggedTimes(times, values, thresh, period, k);
    |ft| > 0 &&
    EventsAre(s, times, values, period, k, ft, EventIds(ft, Gap(times, sep)), times[1] - times[0])
  }

  /** Statistics built event by event from the flagged times and their ids
      are what Describes says. */
  lemma DescribesIntro(s: Stats, times: seq<int>, values: seq<real>, thresh: real, sep: int, period: nat,
                       k: Kind, ft: seq<int>, ids: seq<nat>)
    requires |times| == |values| >= 2 && period >= 1
    requires ft == FlaggedTimes(times, values, thresh, period, k) && |ft| > 0
    requires ids == EventIds(ft, Gap(times, sep))
    requires var n := ids[|ids| - 1] + 1;
      |s.duration| == n && |s.extreme| == n && |s.onset| == n && |s.end| == n
    requires forall u :: 0 <= u < |s.duration| ==>
      u in ids &&
      EventStats(times, values, period, k, ft, ids, times[1] - times[0], u,
                 s.onset[u], s.end[u], s.duration[u], s.extreme[u])
    ensures Describes(s, times, values, thresh, sep, period, k)
  {
    assert EventsAre(s, times, values, period, k, ft, ids, times[1] - times[0]);
  }

  /** An event's onset, seven steps before its first flagged time, comes before its end. */
  lemma OnsetBeforeEnd(ft: seq<int>, ids: seq<nat>, step: int, u: nat)
    requires StrictlyIncreasing(ft) && |ids| == |ft| && u in ids && step > 0
    ensures ft[FirstWith(ids, u)] - 7 * step < ft[LastWith(ids, u)]
  {
    var first, last := FirstWith(ids, u), LastWith(ids, u);
    assert first <= last;
    if first < last {
      assert ft[first] < ft[last];
    }
  }

  /** The per-event pass of the detector: for every event id, in order, the
      onset, end, duration and extreme value of that event. `pos` gives, for
      each flagged time, the position of its sample in the series. */
  method EventStatistics(times: seq<int>, values: seq<real>, period: nat, kind: Kind,
                         eventAll: seq<int>, ids: seq<nat>, timestep: int, ghost pos: seq<nat>)
    returns (duration: seq<int>, extreme: seq<real>, startDates: seq<int>, endDates: seq<int>)
    requires |times| == |values| && StrictlyIncreasing(eventAll) && timestep > 0
    requires |ids| == |eventAll| >= 1
    requires forall u :: 0 <= u <= ids[|ids| - 1] ==> u in ids
    requires |pos| == |eventAll|
    requires forall p :: 0 <= p < |pos| ==> pos[p] < |times| && times[pos[p]] == eventAll[p]
    ensures var n := ids[|ids| - 1] + 1;
      |duration| == n && |extreme| == n && |startDates| == n && |endDates| == n
    ensures forall u :: 0 <= u < |duration| ==>
      u in ids &&
      EventStats(times, values, period, kind, eventAll, ids, timestep, u,
                 startDates[u], endDates[u], duration[u], extreme[u])
  {
    var n := ids[|ids| - 1] + 1;
    duration, extreme, startDates, endDates := [], [], [], [];
    for u := 0 to n
      invariant |duration| == u && |extreme| == u && |startDates| == u && |endDates| == u
      invariant forall v :: 0 <= v < u ==>
        v in ids &&
        EventStats(times, values, period, kind, eventAll, ids, timestep, v,
                   startDates[v], endDates[v], duration[v], extreme[v])
    {
      var first, last := FirstWith(ids, u), LastWith(ids, u);
      var prevDate := eventAll[first] - 7 * timestep;
      var endDate := eventAll[last];
      OnsetBeforeEnd(eventAll, ids, timestep, u);
      assert prevDate <= times[pos[last]] <= endDate;
      var count := multiset(ids)[u];
      var x := EventExtreme(kind, times, values, prevDate, endDate);
      assert EventStats(times, values, period, kind, eventAll, ids, timestep, u,
                        prevDate, endDate, period + count - 1, x);
      ghost var s0, e0, d0, x0 := startDates, endDates, duration, extreme;
      startDates, endDates := startDates + [prevDate], endDates + [endDate];
      duration, extreme := duration + [period + count - 1], extreme + [x];
      forall v | 0 <= v < u + 1
        ensures v in ids && EventStats(times, values, period, kind, eventAll, ids, timestep, v,
                                       startDates[v], endDates[v], duration[v], extreme[v])
      {
        if v < u {
          assert startDates[v] == s0[v] && endDates[v] == e0[v] && duration[v] == d0[v] && extreme[v] == x0[v];
        }
      }
    }
  }

  /** The detector of functions.py. It returns None exactly when no step is
      flagged, and otherwise the statistics that Describes characterises. */
  method DetectMinMaxPeriods(times: seq<int>, values: seq<real>, thresh: real, sep: int, period: nat, kindArg: KindArg)
    returns (r: Option<Stats>)
    requires |times| == |values| && StrictlyIncreasing(times)
    requires period >= 1
    requires |times| < 2 ==> NoneFlagged(values, thresh, period, ResolveKind(kindArg, thresh))
    ensures r.None? <==> NoneFlagged(values, thresh, period, ResolveKind(kindArg, thresh))
    ensures r.Some? ==> |times| >= 2 && Describes(r.value, times, values, thresh, sep, period, ResolveKind(kindArg, thresh))
  {
    var kind := ResolveKind(kindArg, thresh);
    var mask := FlagMask(values, thresh, period, kind);
    FlagMaskNone(values, thresh, period, kind);
    if true !in mask {
      return None;
    }
    var timestep := times[1] - times[0];
    var gap := sep * timestep;
    assert gap == Gap(times, sep);
    var eventAll := Select(times, mask);
    FlaggedSetup(times, values, thresh, period, kind);
    var ids := AssignEventIds(eventAll, gap);
    assert ids == EventIds(eventAll, gap);
    IdsCover(eventAll, gap, ids);
    var duration, extreme, startDates, endDates :=
      EventStatistics(times, values, period, kind, eventAll, ids, timestep, Positions(mask));
    var stats := Stats(duration, extreme, startDates, endDates);
    DescribesIntro(stats, times, values, thresh, sep, period, kind, eventAll, ids);
    r := Some(stats);
  }

  // ---------------------------------------------------------------------------
  // Properties of the reported events
  // ---------------------------------------------------------------------------

  /** The sample behind the p-th flagged time: its window lies beyond the threshold. */
  lemma FlaggedAt(times: seq<int>, values: seq<real>, thresh: real, period: nat, k: Kind, p: nat)
    requires |times| == |values| && period >= 1
    requires p < |FlaggedTimes(times, values, thresh, period, k)|
    ensures var i := Positions(FlagMask(values, thresh, period, k))[p];
      i < |times| && FlaggedTimes(times, values, thresh, period, k)[p] == times[i] &&
      WindowBeyond(values, thresh, period, k, i)
  {
    var i := Positions(FlagMask(values, thresh, period, k))[p];
    FlagMaskAt(values, thresh, period, k, i);
  }

  lemma EventWellFormedAt(s: Stats, times: seq<int>, values: seq<real>, thresh: real, sep: int, period: nat, k: Kind, u: nat)
    requires |times| == |values| >= 2 && period >= 1 && StrictlyIncreasing(times)
    requires Describes(s, times, values, thresh, sep, period, k)
    requires u < |s.end|
    ensures s.onset[u] < s.end[u] && s.duration[u] >= period && Beyond(k, s.extreme[u], thresh)
  {
    var ft := FlaggedTimes(times, values, thresh, period, k);
    var ids := EventIds(ft, Gap(times, sep));
    var step := times[1] - times[0];
    assert u in ids && EventStats(times, values, period, k, ft, ids, step, u,
                                  s.onset[u], s.end[u], s.duration[u], s.extreme[u]);
    SelectIncreasing(times, FlagMask(values, thresh, period, k));
    OnsetBeforeEnd(ft, ids, step, u);
    assert u in multiset(ids);
    FlaggedAt(times, values, thresh, period, k, LastWith(ids, u));
    var i := Positions(FlagMask(values, thresh, period, k))[LastWith(ids, u)];
    assert s.onset[u] <= times[i] <= s.end[u];
    assert Beyond(k, values[i], thresh);
  }

  /** Every event starts before it ends, lasts at least `period` steps, and its
      extreme value lies beyond the threshold (the end sample itself is flagged). */
  lemma EventsWellFormed(s: Stats, times: seq<int>, values: seq<real>, thresh: real, sep: int, period: nat, k: Kind)
    requires |times| == |values| >= 2 && period >= 1 && StrictlyIncreasing(times)
    requires Describes(s, times, values, thresh, sep, period, k)
    ensures forall u :: 0 <= u < |s.end| ==>
      s.onset[u] < s.end[u] && s.duration[u] >= period && Beyond(k, s.extreme[u], thresh)
  {
    forall u: nat | u < |s.end|
      ensures s.onset[u] < s.end[u] && s.duration[u] >= period && Beyond(k, s.extreme[u], thresh)
    {
      EventWellFormedAt(s, times, values, thresh, sep, period, k, u);
    }
  }

  /** The onset and end of event u, unpacked from Describes. */
  lemma DescribesAt(s: Stats, times: seq<int>, values: seq<real>, thresh: real, sep: int, period: nat, k: Kind, u: nat)
    requires |times| == |values| >= 2 && period >= 1
    requires Describes(s, times, values, thresh, sep, period, k)
    requires u < |s.end|
    ensures var ft := FlaggedTimes(times, values, thresh, period, k);
      var ids := EventIds(ft, Gap(times, sep));
      u in ids &&
      s.onset[u] == ft[FirstWith(ids, u)] - 7 * (times[1] - times[0]) &&
      s.end[u] == ft[LastWith(ids, u)]
  {
    var ft := FlaggedTimes(times, values, thresh, period, k);
    var ids := EventIds(ft, Gap(times, sep));
    assert u in ids && EventStats(times, values, period, k, ft, ids, times[1] - times[0], u,
                                  s.onset[u], s.end[u], s.duration[u], s.extreme[u]);
  }

  ghost predicate Monotone(ids: seq<nat>) {
    forall a, b :: 0 <= a <= b < |ids| ==> ids[a] <= ids[b]
  }

  lemma EventIdsMonotone(ft: seq<int>, gap: int)
    ensures Monotone(EventIds(ft, gap))
  {
    forall a, b | 0 <= a <= b < |ft| ensures Breaks(ft, gap, a) <= Breaks(ft, gap, b) {
      BreaksMonotone(ft, gap, a, b);
    }
  }

  /** With non-decreasing ids, all of an earlier event's flagged times come
      before all of a later one's. */
  lemma LastBeforeFirst(ids: seq<nat>, u: nat, v: nat)
    requires Monotone(ids) && u in ids && v in ids && u < v
    ensures LastWith(ids, u) < FirstWith(ids, v)
  {
  }

  /** Between the last flagged time of event u - 1 and the first of event u
      the gap exceeds `gap`: the two are neighbours and the id steps there. */
  lemma GapBeforeEvent(ft: seq<int>, gap: int, u: nat)
    requires 1 <= u && u in EventIds(ft, gap) && (u - 1) in EventIds(ft, gap)
    ensures var ids := EventIds(ft, gap);
      ft[FirstWith(ids, u)] - ft[LastWith(ids, u - 1)] > gap
  {
    var ids := EventIds(ft, gap);
    EventIdsMonotone(ft, gap);
    var f, l := FirstWith(ids, u), LastWith(ids, u - 1);
    assert f > 0;
    assert ids[f] == Breaks(ft, gap, f) && ids[f - 1] == Breaks(ft, gap, f - 1);
    assert ids[f - 1] == u - 1;
    assert l == f - 1;
  }

  /** Event ends are strictly increasing. */
  lemma EndsIncreasing(s: Stats, times: seq<int>, values: seq<real>, thresh: real, sep: int, period: nat, k: Kind)
    requires |times| == |values| >= 2 && period >= 1 && StrictlyIncreasing(times)
    requires Describes(s, times, values, thresh, sep, period, k)
    ensures forall u, v :: 0 <= u < v < |s.end| ==> s.end[u] < s.end[v]
  {
    var ft := FlaggedTimes(times, values, thresh, period, k);
    var ids := EventIds(ft, Gap(times, sep));
    SelectIncreasing(times, FlagMask(values, thresh, period, k));
    EventIdsMonotone(ft, Gap(times, sep));
    forall u: nat, v: nat | u < v < |s.end| ensures s.end[u] < s.end[v] {
      DescribesAt(s, times, values, thresh, sep, period, k, u);
      DescribesAt(s, times, values, thresh, sep, period, k, v);
      LastBeforeFirst(ids, u, v);
      assert LastWith(ids, u) < LastWith(ids, v);
    }
  }

  /** Each event's first flagged time (its onset plus 7 time steps) is more
      than sep time steps after the previous event's end. */
  lemma EventsSeparated(s: Stats, times: seq<int>, values: seq<real>, thresh: real, sep: int, period: nat, k: Kind)
    requires |times| == |values| >= 2 && period >= 1
    requires Describes(s, times, values, thresh, sep, period, k)
    ensures forall u :: 1 <= u < |s.end| ==>
      s.onset[u] + 7 * (times[1] - times[0]) - s.end[u - 1] > sep * (times[1] - times[0])
  {
    var ft := FlaggedTimes(times, values, thresh, period, k);
    forall u: nat | 1 <= u < |s.end|
      ensures s.onset[u] + 7 * (times[1] - times[0]) - s.end[u - 1] > Gap(times, sep)
    {
      DescribesAt(s, times, values, thresh, sep, period, k, u);
      DescribesAt(s, times, values, thresh, sep, period, k, u - 1);
      GapBeforeEvent(ft, Gap(times, sep), u);
    }
  }

  /** The reported events are exactly the distinct event ids 0, 1, ..., so
      there is one more event than there are gaps exceeding sep time steps. */
  lemma EventsMatchIds(s: Stats, times: seq<int>, values: seq<real>, thresh: real, sep: int, period: nat, k: Kind)
    requires |times| == |values| >= 2 && period >= 1
    requires Describes(s, times, values, thresh, sep, period, k)
    ensures var ft := FlaggedTimes(times, values, thresh, period, k);
      |ft| > 0 &&
      (forall u: nat :: u < |s.end| <==> u in EventIds(ft, Gap(times, sep))) &&
      |s.end| == 1 + Breaks(ft, Gap(times, sep), |ft| - 1)
  {
    var ft := FlaggedTimes(times, values, thresh, period, k);
    var ids := EventIds(ft, Gap(times, sep));
    assert |ft| > 0 && |s.end| == ids[|ids| - 1] + 1;
    assert ids[|ids| - 1] == Breaks(ft, Gap(times, sep), |ft| - 1);
    EventIdRange(ft, Gap(times, sep));
  }

  // ---------------------------------------------------------------------------
  // Aligning events across detections
  // ---------------------------------------------------------------------------

  /** The finite dates of one onset-date array, in order: NaT entries are dropped. */
  function Finite(dates: seq<Option<int>>): (r: seq<int>)
    ensures forall x :: x in r <==> Some(x) in dates
  {
    if dates == [] then []
    else
      var n := |dates| - 1;
      assert dates == dates[..n] + [dates[n]];
      Finite(dates[..n]) + (if dates[n].Some? then [dates[n].value] else [])
  }

  /** The finite onset dates of every selection (season, percentile, variable), pooled in order. */
  function Pooled(cells: seq<seq<Option<int>>>): (r: seq<int>)
    ensures forall x :: x in r <==> exists c :: c in cells && Some(x) in c
  {
    if cells == [] then []
    else
      var n := |cells| - 1;
      assert cells == cells[..n] + [cells[n]];
      Pooled(cells[..n]) + Finite(cells[n])
  }

  /** Insert x into a strictly increasing sequence unless it is already there. */
  function Insert(s: seq<int>, x: int): (r: seq<int>)
    requires StrictlyIncreasing(s)
    ensures StrictlyIncreasing(r)
    ensures forall y :: y in r <==> y in s || y == x
  {
    if s == [] then [x]
    else if x < s[0] then [x] + s
    else if x == s[0] then s
    else
      var rest := Insert(s[1..], x);
      assert s == [s[0]] + s[1..];
      PrependIncreasing(s[0], rest);
      [s[0]] + rest
  }

  /** np.unique: the distinct values of xs in increasing order. */
  function Unique(xs: seq<int>): (r: seq<int>)
    ensures StrictlyIncreasing(r)
    ensures forall y :: y in r <==> y in xs
  {
    if xs == [] then []
    else
      var n := |xs| - 1;
      assert xs == xs[..n] + [xs[n]];
      Insert(Unique(xs[..n]), xs[n])
  }

  /** The mask `[True] + list(np.diff(u) > sep)`: keep the first date and every
      date more than sep after its predecessor. */
  function KeepMask(u: seq<int>, sep: int): (m: seq<bool>)
    ensures |m| == |u|
    ensures |u| > 0 ==> m[0]
  {
    seq(|u|, i requires 0 <= i < |u| => i == 0 || u[i] - u[i - 1] > sep)
  }

  /** The thinning step `all_events[[True] + list(check_different)]`. */
  function GapFilter(u: seq<int>, sep: int): (r: seq<int>)
    ensures |r| <= |u|
  {
    Select(u, KeepMask(u, sep))
  }

  /** A date the gap filter keeps is more than sep after every smaller date. */
  lemma KeptIsSeparated(u: seq<int>, sep: int, x: int)
    requires StrictlyIncreasing(u) && x in GapFilter(u, sep)
    ensures x in u && forall e :: e in u && e < x ==> x - e > sep
  {
    var mask := KeepMask(u, sep);
    SelectMembership(u, mask, x);
    var i :| 0 <= i < |u| && mask[i] && u[i] == x;
    forall e | e in u && e < x ensures x - e > sep {
      var j :| 0 <= j < |u| && u[j] == e;
      assert j < i;
      assert u[j] <= u[i - 1];
    }
  }

  /** A date more than sep after every smaller date is kept by the gap filter. */
  lemma SeparatedIsKept(u: seq<int>, sep: int, x: int)
    requires StrictlyIncreasing(u) && x in u
    requires forall e :: e in u && e < x ==> x - e > sep
    ensures x in GapFilter(u, sep)
  {
    var mask := KeepMask(u, sep);
    var i :| 0 <= i < |u| && u[i] == x;
    if i > 0 {
      assert u[i - 1] in u && u[i - 1] < x;
    }
    assert mask[i];
    SelectMembership(u, mask, x);
  }

  /** On sorted distinct dates, the gap filter keeps exactly the dates that
      are more than sep after every smaller date (the first one among them). */
  lemma GapFilterKeeps(u: seq<int>, sep: int)
    requires StrictlyIncreasing(u)
    ensures StrictlyIncreasing(GapFilter(u, sep))
    ensures forall x :: x in GapFilter(u, sep) <==> x in u && forall e :: e in u && e < x ==> x - e > sep
  {
    SelectIncreasing(u, KeepMask(u, sep));
    forall x ensures x in GapFilter(u, sep) <==> x in u && forall e :: e in u && e < x ==> x - e > sep {
      if x in GapFilter(u, sep) {
        KeptIsSeparated(u, sep, x);
      }
      if x in u && forall e :: e in u && e < x ==> x - e > sep {
        SeparatedIsKept(u, sep, x);
      }
    }
  }

  /** The gap filter always keeps the first date. */
  lemma GapFilterFirst(u: seq<int>, sep: int)
    requires StrictlyIncreasing(u) && u != []
    ensures GapFilter(u, sep) != [] && GapFilter(u, sep)[0] == u[0]
  {
    var mask := KeepMask(u, sep);
    var pos := Positions(mask);
    assert mask[0];
    var j :| 0 <= j < |pos| && pos[j] == 0;
    assert pos[0] <= pos[j];
  }

  /** Applying the gap filter to its own output changes nothing. */
  lemma GapFilterIdempotent(u: seq<int>, sep: int)
    requires StrictlyIncreasing(u)
    ensures GapFilter(GapFilter(u, sep), sep) == GapFilter(u, sep)
  {
    var v := GapFilter(u, sep);
    GapFilterKeeps(u, sep);
    var mask := KeepMask(v, sep);
    forall i | 0 <= i < |v| ensures mask[i] {
      if i > 0 {
        assert v[i] in v && v[i - 1] in v;
        assert v[i - 1] < v[i];
      }
    }
    SelectAllTrue(v, mask);
  }

  /** What the sort, de-duplicate and gap-filter step makes of a pool of dates. */
  lemma UniqueEventsFacts(pool: seq<int>, sep: int)
    requires pool != []
    ensures var u := GapFilter(Unique(pool), sep);
      StrictlyIncreasing(u) &&
      (forall d :: d in u <==> d in pool && forall e :: e in pool && e < d ==> d - e > sep) &&
      |u| > 0 && u[0] in pool && (forall e :: e in pool ==> u[0] <= e) &&
      (forall i :: 1 <= i < |u| ==> u[i] - u[i - 1] > sep)
  {
    var sorted := Unique(pool);
    var u := GapFilter(sorted, sep);
    GapFilterKeeps(sorted, sep);
    assert pool[0] in sorted;
    GapFilterFirst(sorted, sep);
    assert sorted[0] in sorted;
    forall e | e in pool ensures u[0] <= e {
      var m :| 0 <= m < |sorted| && sorted[m] == e;
      if m > 0 {
        assert sorted[0] < sorted[m];
      }
    }
    forall i | 1 <= i < |u| ensures u[i] - u[i - 1] > sep {
      assert u[i] in u && u[i - 1] in u && u[i - 1] < u[i];
    }
  }

  /** The distinct events across all detections: the finite onset dates
      sorted and de-duplicated, keeping the first and every date more than
      eventSep after its sorted predecessor. */
  method FindUniqueEvents(events: seq<seq<Option<int>>>, eventSep: int) returns (uniqueEvents: seq<int>)
    requires Pooled(events) != []
    ensures StrictlyIncreasing(uniqueEvents)
    ensures forall d :: d in uniqueEvents <==>
      d in Pooled(events) && forall e :: e in Pooled(events) && e < d ==> d - e > eventSep
    ensures |uniqueEvents| > 0 && uniqueEvents[0] in Pooled(events)
    ensures forall e :: e in Pooled(events) ==> uniqueEvents[0] <= e
    ensures forall i :: 1 <= i < |uniqueEvents| ==> uniqueEvents[i] - uniqueEvents[i - 1] > eventSep
  {
    var allEvents := [];
    for c := 0 to |events|
      invariant allEvents == Pooled(events[..c])
    {
      assert events[..c + 1][..c] == events[..c];
      allEvents := allEvents + Finite(events[c]);
    }
    assert events[..|events|] == events;
    var sorted := Unique(allEvents);
    uniqueEvents := GapFilter(sorted, eventSep);
    UniqueEventsFacts(allEvents, eventSep);
  }

  function Dist(a: int, b: int): nat {
    if a >= b then a - b else b - a
  }

  /** Reference definition of np.argmin over distances: i is at least
      distance from x, and strictly nearer than every earlier index. */
  ghost predicate IsNearest(unique: seq<int>, x: int, i: int) {
    0 <= i < |unique| &&
    (forall j :: 0 <= j < |unique| ==> Dist(unique[i], x) <= Dist(unique[j], x)) &&
    (forall j :: 0 <= j < i ==> Dist(unique[i], x) < Dist(unique[j], x))
  }

  /** `np.argmin(np.abs(unique - x))`: the first index nearest to x. */
  function NearestIndex(unique: seq<int>, x: int): (i: nat)
    requires |unique| > 0
    ensures IsNearest(unique, x, i)
  {
    if |unique| == 1 then 0
    else
      var n := |unique| - 1;
      var i := NearestIndex(unique[..n], x);
      if Dist(unique[n], x) < Dist(unique[i], x) then n else i
  }

  /** Maps each finite event date, in order, to the index of its nearest
      unique event; NaT dates are skipped. */
  method AssignUniqueEvent(events: seq<Option<int>>, uniqueEvents: seq<int>) returns (indx: seq<nat>)
    requires Finite(events) != [] ==> uniqueEvents != []
    ensures |indx| == |Finite(events)|
    ensures forall k :: 0 <= k < |indx| ==> IsNearest(uniqueEvents, Finite(events)[k], indx[k])
    ensures StrictlyIncreasing(uniqueEvents) ==>
      forall k, j :: 0 <= k < |indx| && 0 <= j < |uniqueEvents| && Finite(events)[k] == uniqueEvents[j] ==>
        indx[k] == j
  {
    indx := [];
    for m := 0 to |events|
      invariant |indx| == |Finite(events[..m])|
      invariant forall k :: 0 <= k < |indx| ==> IsNearest(uniqueEvents, Finite(events[..m])[k], indx[k])
    {
      assert events[..m + 1][..m] == events[..m];
      match events[m]
      case Some(event) =>
        assert event in Finite(events);
        indx := indx + [NearestIndex(uniqueEvents, event)];
      case None =>
    }
    assert events[..|events|] == events;
  }
}
