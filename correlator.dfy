/**
 * compare_detection_times: for every public incident, in order, the first
 * polygon detection (in detection-list order) that both contains the
 * incident's point and was detected strictly before the official discovery.
 * The geometry library's containment test is the parameter `contains`.
 */
module Correlator {
  import opened Wrappers
  import opened Records
  import opened Sequences

  /** The test on line 253: the polygon contains the point and its
      detection is strictly earlier than the official time. */
  predicate Qualifies<S>(w: WfsRecord<S>, record: FireRecord, contains: Containment<S>)
  {
    contains(w.polygon, record.coordinates) && w.detectionTime < record.detectionTime
  }

  function QualifiesFor<S>(record: FireRecord, contains: Containment<S>): WfsRecord<S> -> bool
  {
    w => Qualifies(w, record, contains)
  }

  /** Position `j` holds the first qualifying polygon for `record`. */
  ghost predicate IsFirstQualifying<S>(wfsRecords: seq<WfsRecord<S>>, record: FireRecord, contains: Containment<S>, j: int)
  {
    && 0 <= j < |wfsRecords|
    && Qualifies(wfsRecords[j], record, contains)
    && forall k :: 0 <= k < j ==> !Qualifies(wfsRecords[k], record, contains)
  }

  /** The entry appended for `record` when polygon `w` is the one found. */
  function Report<S>(record: FireRecord, w: WfsRecord<S>): Match
  {
    Match(record.coordinates, w.detectionTime, record.detectionTime, record.incidentSize)
  }

  /** What the inner loop contributes for one public record. */
  function MatchFor<S>(wfsRecords: seq<WfsRecord<S>>, contains: Containment<S>, record: FireRecord)
    : (m: Option<Match>)
    ensures m.Some? <==> exists j :: 0 <= j < |wfsRecords| && Qualifies(wfsRecords[j], record, contains)
    ensures m.Some? ==> exists j :: IsFirstQualifying(wfsRecords, record, contains, j) && m.value == Report(record, wfsRecords[j])
    ensures m.Some? ==> m.value.wfsDetectionTime < m.value.officialTime
  {
    match FirstIndex(wfsRecords, QualifiesFor(record, contains))
    case Some(j) =>
      assert IsFirstQualifying(wfsRecords, record, contains, j);
      Some(Report(record, wfsRecords[j]))
    case None => None
  }

  function Matcher<S>(wfsRecords: seq<WfsRecord<S>>, contains: Containment<S>): FireRecord -> Option<Match>
  {
    record => MatchFor(wfsRecords, contains, record)
  }

  method CompareDetectionTimes<S>(publicRecords: seq<FireRecord>, wfsRecords: seq<WfsRecord<S>>, contains: Containment<S>)
    returns (earlyDetected: seq<Match>)
    ensures |earlyDetected| <= |publicRecords|
    ensures earlyDetected == FilterMap(publicRecords, Matcher(wfsRecords, contains))
  {
    earlyDetected := [];
    var i := 0;
    while i < |publicRecords|
      invariant 0 <= i <= |publicRecords|
      invariant earlyDetected == FilterMap(publicRecords[..i], Matcher(wfsRecords, contains))
    {
      var record := publicRecords[i];
      var officialTime := record.detectionTime;
      var j := 0;
      while j < |wfsRecords|
        invariant 0 <= j <= |wfsRecords|
        invariant earlyDetected == FilterMap(publicRecords[..i], Matcher(wfsRecords, contains))
        invariant forall k :: 0 <= k < j ==> !Qualifies(wfsRecords[k], record, contains)
      {
        var wfs := wfsRecords[j];
        var wfsDetectionTime := wfs.detectionTime;
        if contains(wfs.polygon, record.coordinates) && wfsDetectionTime < officialTime {
          earlyDetected := earlyDetected + [Match(record.coordinates, wfsDetectionTime, officialTime, record.incidentSize)];
          assert IsFirstQualifying(wfsRecords, record, contains, j);
          break;
        }
        j := j + 1;
      }
      assert publicRecords[..i + 1][..i] == publicRecords[..i];
      assert earlyDetected == FilterMap(publicRecords[..i], Matcher(wfsRecords, contains)) + (if MatchFor(wfsRecords, contains, record).Some? then [MatchFor(wfsRecords, contains, record).value] else []);
      i := i + 1;
    }
    assert publicRecords[..i] == publicRecords;
  }

  /** The correlator's output, described record by record: the k-th match
      comes from the ks[k]-th public record, whose point lies in the first
      qualifying polygon, and it repeats that record's coordinates, official
      time and size with that polygon's detection time; every public record
      with some qualifying polygon yields a match; matches keep public-record
      order and no record yields two. */
  lemma {:induction false} EarlyDetectedExactly<S>(publicRecords: seq<FireRecord>, wfsRecords: seq<WfsRecord<S>>, contains: Containment<S>)
    ensures var out := FilterMap(publicRecords, Matcher(wfsRecords, contains));
            var ks := Kept(publicRecords, Matcher(wfsRecords, contains));
            && |ks| == |out|
            && Increasing(ks)
            && (forall k :: 0 <= k < |ks| ==>
                  && ks[k] < |publicRecords|
                  && exists j :: IsFirstQualifying(wfsRecords, publicRecords[ks[k]], contains, j)
                              && out[k] == Report(publicRecords[ks[k]], wfsRecords[j]))
            && (forall i :: 0 <= i < |publicRecords| &&
                  (exists j :: 0 <= j < |wfsRecords| && Qualifies(wfsRecords[j], publicRecords[i], contains))
                  ==> i in ks)
  {
    var matcher := Matcher(wfsRecords, contains);
    FilterMapKeepsExactly(publicRecords, matcher);
    var out := FilterMap(publicRecords, matcher);
    var ks := Kept(publicRecords, matcher);
    forall k | 0 <= k < |ks|
      ensures exists j :: IsFirstQualifying(wfsRecords, publicRecords[ks[k]], contains, j)
                          && out[k] == Report(publicRecords[ks[k]], wfsRecords[j])
    {
      assert MatchFor(wfsRecords, contains, publicRecords[ks[k]]) == Some(out[k]);
    }
    forall i | 0 <= i < |publicRecords| &&
               (exists j :: 0 <= j < |wfsRecords| && Qualifies(wfsRecords[j], publicRecords[i], contains))
      ensures i in ks
    {
      assert matcher(publicRecords[i]).Some?;
    }
  }

  /** Every reported detection is strictly earlier than the official time:
      equal timestamps never match. */
  lemma {:induction false} MatchesAreEarlier<S>(publicRecords: seq<FireRecord>, wfsRecords: seq<WfsRecord<S>>, contains: Containment<S>)
    ensures forall m :: m in FilterMap(publicRecords, Matcher(wfsRecords, contains)) ==> m.wfsDetectionTime < m.officialTime
  {
    var matcher := Matcher(wfsRecords, contains);
    var out := FilterMap(publicRecords, matcher);
    FilterMapKeepsExactly(publicRecords, matcher);
    var ks := Kept(publicRecords, matcher);
    forall m | m in out
      ensures m.wfsDetectionTime < m.officialTime
    {
      var k :| 0 <= k < |out| && out[k] == m;
      assert matcher(publicRecords[ks[k]]) == Some(m);
    }
  }

  // -----------------------------------------------------------------------
  // The "first containing polygon, then compare times" reading
  // -----------------------------------------------------------------------

  function ContainsPointOf<S>(record: FireRecord, contains: Containment<S>): WfsRecord<S> -> bool
  {
    (w: WfsRecord<S>) => contains(w.polygon, record.coordinates)
  }

  /** Take the first polygon that contains the point and report it only if
      it was detected earlier; a later-detected first container ends the
      search. The source does not do this: its loop moves past such a polygon. */
  function FirstContainingPolicy<S>(wfsRecords: seq<WfsRecord<S>>, contains: Containment<S>, record: FireRecord)
    : Option<Match>
  {
    match FirstIndex(wfsRecords, ContainsPointOf(record, contains))
    case Some(j) =>
      if wfsRecords[j].detectionTime < record.detectionTime then Some(Report(record, wfsRecords[j])) else None
    case None => None
  }

  /** Whenever the first-containing reading reports a match, the source's
      loop reports the same one. */
  lemma FirstContainingPolicyAgrees<S>(wfsRecords: seq<WfsRecord<S>>, contains: Containment<S>, record: FireRecord)
    ensures FirstContainingPolicy(wfsRecords, contains, record).Some? ==>
              MatchFor(wfsRecords, contains, record) == FirstContainingPolicy(wfsRecords, contains, record)
  {
    var first := FirstIndex(wfsRecords, ContainsPointOf(record, contains));
    if first.Some? && wfsRecords[first.value].detectionTime < record.detectionTime {
      var j := first.value;
      assert ContainsPointOf(record, contains)(wfsRecords[j]);
      forall k | 0 <= k < j
        ensures !Qualifies(wfsRecords[k], record, contains)
      {
        assert !ContainsPointOf(record, contains)(wfsRecords[k]);
      }
      assert IsFirstQualifying(wfsRecords, record, contains, j);
    }
  }

  /** ...but not conversely: a point inside a later-detected polygon listed
      first and an earlier-detected one listed second matches the second. */
  lemma PoliciesDiffer()
    ensures var contains := (s: int, c: Coordinates) => true;
            var record := FireRecord([0.0, 0.0], 10, 1.0);
            var wfsRecords := [WfsRecord(1, 20), WfsRecord(2, 5)];
            && FirstContainingPolicy(wfsRecords, contains, record) == None
            && MatchFor(wfsRecords, contains, record) == Some(Match([0.0, 0.0], 5, 10, 1.0))
  {
    var contains := (s: int, c: Coordinates) => true;
    var record := FireRecord([0.0, 0.0], 10, 1.0);
    var wfsRecords := [WfsRecord(1, 20), WfsRecord(2, 5)];
    assert !Qualifies(wfsRecords[0], record, contains);
    assert IsFirstQualifying(wfsRecords, record, contains, 1);
  }
}
