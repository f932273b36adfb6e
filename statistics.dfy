/**
 * The integer parts of analyze_data over the parsed public incidents: the
 * UTC hour of each discovery, the most common hour, the number of fires
 * over 1000 acres, and the rule that a correlation needs two records.
 */
module Statistics {
  import opened Wrappers
  import opened Records

  const MsPerHour: int := 3_600_000
  const MsPerDay: int := 86_400_000

  /** Incidents strictly larger than this many acres are "large". */
  const LargeFireAcres: real := 1000.0

  /** `.hour` of the UTC datetime: the hour of the day, 0 to 23, that
      contains `t` (floored for instants before 1970, as datetime does). */
  function HourOfDay(t: Instant): (h: nat)
    ensures h < 24
    ensures (t - h * MsPerHour) % MsPerDay < MsPerHour
  {
    (t % MsPerDay) / MsPerHour
  }

  /** The hour is determined: no other hour of the day starts within the
      hour before `t`. */
  lemma HourOfDayUnique(t: Instant, h: nat)
    requires h < 24
    requires (t - h * MsPerHour) % MsPerDay < MsPerHour
    ensures h == HourOfDay(t)
  {
    var g := HourOfDay(t);
    var d := t / MsPerDay;
    var rem := t % MsPerDay;
    assert t == d * MsPerDay + rem;
    assert g * MsPerHour <= rem < g * MsPerHour + MsPerHour;
    var x := t - h * MsPerHour;
    assert x == d * MsPerDay + (rem - h * MsPerHour);
    if h < g {
      assert MsPerHour <= rem - h * MsPerHour < MsPerDay;
      ModOfOffset(d, rem - h * MsPerHour);
    } else if h > g {
      var r := rem - h * MsPerHour + MsPerDay;
      assert x == (d - 1) * MsPerDay + r;
      assert MsPerHour <= r < MsPerDay;
      ModOfOffset(d - 1, r);
    }
  }

  lemma ModOfOffset(d: int, r: int)
    requires 0 <= r < MsPerDay
    ensures (d * MsPerDay + r) % MsPerDay == r
  {
  }

  /** The candidate with the highest frequency in `hours`. */
  function MostFrequent(hours: seq<nat>, candidates: seq<nat>): (h: nat)
    requires candidates != []
    ensures h in candidates
    ensures forall c :: c in candidates ==> multiset(hours)[c] <= multiset(hours)[h]
  {
    if |candidates| == 1 then candidates[0]
    else
      var best := MostFrequent(hours, candidates[1..]);
      if multiset(hours)[best] <= multiset(hours)[candidates[0]] then candidates[0] else best
  }

  /** `value_counts().idxmax()` on a non-empty column, None on an empty one. */
  function MostCommonHour(hours: seq<nat>): (r: Option<nat>)
    ensures r.None? <==> hours == []
    ensures r.Some? ==> r.value in hours && forall h :: multiset(hours)[h] <= multiset(hours)[r.value]
  {
    if hours == [] then None else Some(MostFrequent(hours, hours))
  }

  /** `(df["size"] > 1000).sum()`. */
  function LargeFireCount(records: seq<FireRecord>): (n: nat)
    ensures n <= |records|
  {
    if records == [] then 0
    else
      LargeFireCount(records[..|records| - 1])
        + (if records[|records| - 1].incidentSize > LargeFireAcres then 1 else 0)
  }

  ghost function LargeIndices(records: seq<FireRecord>): set<int>
  {
    set i | 0 <= i < |records| && records[i].incidentSize > LargeFireAcres
  }

  /** The count is the number of records whose size exceeds 1000 acres. */
  lemma {:induction false} LargeFireCountIsCardinality(records: seq<FireRecord>)
    ensures LargeFireCount(records) == |LargeIndices(records)|
  {
    if records != [] {
      var n := |records| - 1;
      var init := records[..n];
      LargeFireCountIsCardinality(init);
      assert forall i :: 0 <= i < n ==> init[i] == records[i];
      if records[n].incidentSize > LargeFireAcres {
        assert LargeIndices(records) == LargeIndices(init) + {n};
      } else {
        assert LargeIndices(records) == LargeIndices(init);
      }
    }
  }

  /** The coefficient analyze_data computes with pandas: Pearson's r of these
      two columns. Only its inputs are modelled. */
  datatype Correlation = Pearson(hours: seq<nat>, sizes: seq<real>)

  /** The result dictionary: the data frame's two columns and the three
      statistics. */
  datatype Analysis = Analysis(
    hours: seq<nat>,
    sizes: seq<real>,
    mostCommonHour: Option<nat>,
    largeFireCount: nat,
    correlation: Option<Correlation>)

  function AnalyzeData(records: seq<FireRecord>): (a: Analysis)
    ensures |a.hours| == |records| && |a.sizes| == |records|
    ensures forall i :: 0 <= i < |records| ==>
              a.hours[i] == HourOfDay(records[i].detectionTime) && a.sizes[i] == records[i].incidentSize
    ensures a.mostCommonHour.None? <==> records == []
    ensures a.mostCommonHour.Some? ==>
              && a.mostCommonHour.value < 24
              && forall h :: multiset(a.hours)[h] <= multiset(a.hours)[a.mostCommonHour.value]
    ensures a.largeFireCount == |LargeIndices(records)|
    ensures a.correlation.None? <==> |records| < 2
    ensures a.correlation.Some? ==> a.correlation.value == Pearson(a.hours, a.sizes)
  {
    var hours := seq(|records|, i requires 0 <= i < |records| => HourOfDay(records[i].detectionTime));
    var sizes := seq(|records|, i requires 0 <= i < |records| => records[i].incidentSize);
    LargeFireCountIsCardinality(records);
    Analysis(
      hours,
      sizes,
      MostCommonHour(hours),
      LargeFireCount(records),
      if |records| > 1 then Some(Pearson(hours, sizes)) else None)
  }
}
