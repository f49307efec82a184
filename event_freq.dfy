/** The copy of the detector in event_freq.py. It flags and merges exactly
    as the detector of functions.py does, but takes 'max' or 'min' only (no
    'auto'), has no guard for a series in which nothing is flagged, and
    reports each event's onset and end as one [start, end] pair. */
module EventFreq {
  import opened Series
  import Functions

  /** The [start, end] dates of one event. */
  datatype DatePair = DatePair(start: int, end: int)

  /** The statistics this detector returns: durations, extreme values and date pairs, one per event. */
  datatype Stats = Stats(duration: seq<int>, extreme: seq<real>, eventDates: seq<DatePair>)

  /** The same statistics with the date pairs split into onset and end arrays. */
  function Unpaired(s: Stats): (t: Functions.Stats)
    ensures t.duration == s.duration && t.extreme == s.extreme
    ensures |t.onset| == |t.end| == |s.eventDates|
    ensures forall u :: 0 <= u < |s.eventDates| ==>
      t.onset[u] == s.eventDates[u].start && t.end[u] == s.eventDates[u].end
  {
    Functions.Stats(s.duration, s.extreme,
                    seq(|s.eventDates|, u requires 0 <= u < |s.eventDates| => s.eventDates[u].start),
                    seq(|s.eventDates|, u requires 0 <= u < |s.eventDates| => s.eventDates[u].end))
  }

  /** The per-event pass: for every event id, in order, the duration, the
      extreme value and the [start, end] pair of that event. */
  method EventStatistics(times: seq<int>, values: seq<real>, period: nat, kind: Functions.Kind,
                         eventAll: seq<int>, ids: seq<nat>, timestep: int, ghost pos: seq<nat>)
    returns (duration: seq<int>, extreme: seq<real>, seDates: seq<DatePair>)
    requires |times| == |values| && StrictlyIncreasing(eventAll) && timestep > 0
    requires |ids| == |eventAll| >= 1
    requires forall u :: 0 <= u <= ids[|ids| - 1] ==> u in ids
    requires |pos| == |eventAll|
    requires forall p :: 0 <= p < |pos| ==> pos[p] < |times| && times[pos[p]] == eventAll[p]
    ensures var n := ids[|ids| - 1] + 1;
      |duration| == n && |extreme| == n && |seDates| == n
    ensures forall u :: 0 <= u < |seDates| ==>
      u in ids &&
      Functions.EventStats(times, values, period, kind, eventAll, ids, timestep, u,
                           seDates[u].start, seDates[u].end, duration[u], extreme[u])
  {
    var n := ids[|ids| - 1] + 1;
    duration, extreme, seDates := [], [], [];
    for u := 0 to n
      invariant |duration| == u && |extreme| == u && |seDates| == u
      invariant forall v :: 0 <= v < u ==>
        v in ids &&
        Functions.EventStats(times, values, period, kind, eventAll, ids, timestep, v,
                             seDates[v].start, seDates[v].end, duration[v], extreme[v])
    {
      var first, last := Functions.FirstWith(ids, u), Functions.LastWith(ids, u);
      var prevDate := eventAll[first] - 7 * timestep;
      var endDate := eventAll[last];
      Functions.OnsetBeforeEnd(eventAll, ids, timestep, u);
      assert prevDate <= times[pos[last]] <= endDate;
      var count := multiset(ids)[u];
      var x := Functions.EventExtreme(kind, times, values, prevDate, endDate);
      assert Functions.EventStats(times, values, period, kind, eventAll, ids, timestep, u,
                                  prevDate, endDate, period + count - 1, x);
      ghost var p0, d0, x0 := seDates, duration, extreme;
      seDates := seDates + [DatePair(prevDate, endDate)];
      duration, extreme := duration + [period + count - 1], extreme + [x];
      forall v | 0 <= v < u + 1
        ensures v in ids && Functions.EventStats(times, values, period, kind, eventAll, ids, timestep, v,
                                                 seDates[v].start, seDates[v].end, duration[v], extreme[v])
      {
        if v < u {
          assert seDates[v] == p0[v] && duration[v] == d0[v] && extreme[v] == x0[v];
        }
      }
    }
  }

  /** Each reported [start, end] pair has start before end, each duration is
      at least `period`, each extreme value lies beyond the threshold, and
      there is one event per distinct event id. */
  lemma PairedEvents(r: Stats, times: seq<int>, values: seq<real>, thresh: real, sep: int, period: nat, kind: Functions.Kind)
    requires |times| == |values| >= 2 && StrictlyIncreasing(times) && period >= 1
    requires Functions.Describes(Unpaired(r), times, values, thresh, sep, period, kind)
    ensures |r.duration| == |r.extreme| == |r.eventDates|
    ensures forall u :: 0 <= u < |r.eventDates| ==>
      r.eventDates[u].start < r.eventDates[u].end &&
      r.duration[u] >= period &&
      Functions.Beyond(kind, r.extreme[u], thresh)
    ensures var ft := Functions.FlaggedTimes(times, values, thresh, period, kind);
      forall u: nat :: u < |r.eventDates| <==> u in Functions.EventIds(ft, Functions.Gap(times, sep))
  {
    var t := Unpaired(r);
    Functions.EventsWellFormed(t, times, values, thresh, sep, period, kind);
    Functions.EventsMatchIds(t, times, values, thresh, sep, period, kind);
  }

  /** Pairing the dates does not change any event's onset, end, duration or extreme. */
  lemma UnpairedEvents(r: Stats, times: seq<int>, values: seq<real>, period: nat, kind: Functions.Kind,
                       eventAll: seq<int>, ids: seq<nat>, step: int)
    requires |times| == |values| && |ids| == |eventAll|
    requires |r.duration| == |r.extreme| == |r.eventDates|
    requires forall u :: 0 <= u < |r.eventDates| ==>
      u in ids &&
      Functions.EventStats(times, values, period, kind, eventAll, ids, step, u,
                           r.eventDates[u].start, r.eventDates[u].end, r.duration[u], r.extreme[u])
    ensures var t := Unpaired(r);
      forall u :: 0 <= u < |r.eventDates| ==>
        u in ids &&
        Functions.EventStats(times, values, period, kind, eventAll, ids, step, u,
                             t.onset[u], t.end[u], t.duration[u], t.extreme[u])
  {
    var t := Unpaired(r);
    forall u | 0 <= u < |r.eventDates|
      ensures u in ids &&
        Functions.EventStats(times, values, period, kind, eventAll, ids, step, u,
                             t.onset[u], t.end[u], t.duration[u], t.extreme[u])
    {
      assert t.onset[u] == r.eventDates[u].start && t.end[u] == r.eventDates[u].end;
    }
  }

  /** Statistics built event by event from the flagged times and their ids are what Describes says. */
  lemma PairedDescribes(r: Stats, times: seq<int>, values: seq<real>, thresh: real, sep: int, period: nat,
                        kind: Functions.Kind, eventAll: seq<int>, ids: seq<nat>)
    requires |times| == |values| >= 2 && period >= 1
    requires eventAll == Functions.FlaggedTimes(times, values, thresh, period, kind) && |eventAll| > 0
    requires ids == Functions.EventIds(eventAll, Functions.Gap(times, sep))
    requires var n := ids[|ids| - 1] + 1;
      |r.duration| == n && |r.extreme| == n && |r.eventDates| == n
    requires forall u :: 0 <= u < |r.eventDates| ==>
      u in ids &&
      Functions.EventStats(times, values, period, kind, eventAll, ids, times[1] - times[0], u,
                           r.eventDates[u].start, r.eventDates[u].end, r.duration[u], r.extreme[u])
    ensures Functions.Describes(Unpaired(r), times, values, thresh, sep, period, kind)
  {
    UnpairedEvents(r, times, values, period, kind, eventAll, ids, times[1] - times[0]);
    Functions.DescribesIntro(Unpaired(r), times, values, thresh, sep, period, kind, eventAll, ids);
  }

  /** The detector of event_freq.py. Something must be flagged (the source
      reads the first flagged time unguarded); the result is what Describes
      says, with each event's onset and end paired. */
  method DetectMinMaxPeriods(times: seq<int>, values: seq<real>, thresh: real, sep: int, period: nat, kind: Functions.Kind)
    returns (r: Stats)
    requires |times| == |values| >= 2 && StrictlyIncreasing(times)
    requires period >= 1
    requires !Functions.NoneFlagged(values, thresh, period, kind)
    ensures |r.duration| == |r.extreme| == |r.eventDates|
    ensures Functions.Describes(Unpaired(r), times, values, thresh, sep, period, kind)
  {
    var timestep := times[1] - times[0];
    var gap := sep * timestep;
    assert gap == Functions.Gap(times, sep);
    var mask := Functions.FlagMask(values, thresh, period, kind);
    var eventAll := Select(times, mask);
    ghost var pos := Positions(mask);
    Functions.FlaggedSetup(times, values, thresh, period, kind);
    var ids := Functions.AssignEventIds(eventAll, gap);
    assert ids == Functions.EventIds(eventAll, gap);
    Functions.IdsCover(eventAll, gap, ids);
    var duration, extreme, seDates :=
      EventStatistics(times, values, period, kind, eventAll, ids, timestep, pos);
    r := Stats(duration, extreme, seDates);
    PairedDescribes(r, times, values, thresh, sep, period, kind, eventAll, ids);
  }
}
