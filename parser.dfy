/**
 * The two GeoJSON parsers: parse_fire_data (public incidents, points) and
 * parse_wfs_data (satellite detections, (multi)polygons). Each walks the
 * feature list once, appends a record for every feature it can read, and
 * skips (never aborts on) every feature it cannot.
 */
module Parser {
  import opened Wrappers
  import opened Records
  import opened Sequences

  /** A decoded GeoJSON document that is truthy: `features` is None when it
      has no "features" key. A falsy document (None, an empty object) is
      `None` at the parser's input. */
  datatype GeoJson<F> = GeoJson(features: Option<seq<F>>)

  /** The features the parser iterates over: none at all for a falsy
      document or one without a "features" key. */
  function Features<F>(doc: Option<GeoJson<F>>): seq<F>
  {
    match doc
    case Some(GeoJson(Some(features))) => features
    case _ => []
  }

  // ---------------------------------------------------------------------
  // Public fire incidents
  // ---------------------------------------------------------------------

  /** A public incident feature, field by field. A field is None when the
      source cannot read it: the key is missing or null, or extracting it
      raises (geometry without "coordinates", coordinates that are not a
      sequence, a timestamp that is not a number, a size that `float`
      rejects, properties that are not an object). */
  datatype FireFeature = FireFeature(
    coordinates: Option<Coordinates>,
    discoveryMs: Option<int>,
    incidentSize: Option<real>)

  /** The range of instants a Python `datetime` can hold (years 1 to 9999):
      0001-01-01T00:00:00Z and 9999-12-31T23:59:59.999Z in epoch milliseconds. */
  const MinEpochMs: int := -62_135_596_800_000
  const MaxEpochMs: int := 253_402_300_799_999

  /** `datetime.fromtimestamp(ms / 1000, tz=timezone.utc)`: the instant
      itself, or an exception (None) when it lies outside the datetime range. */
  function UtcFromEpochMs(ms: int): Option<Instant>
  {
    if MinEpochMs <= ms <= MaxEpochMs then Some(ms) else None
  }

  /** What a feature must offer for parse_fire_data to keep it. */
  ghost predicate ReadableFire(f: FireFeature)
  {
    && f.coordinates.Some?
    && f.discoveryMs.Some?
    && MinEpochMs <= f.discoveryMs.value <= MaxEpochMs
    && f.incidentSize.Some?
  }

  /** The body of parse_fire_data's loop for one feature, step by step in
      the source's order; None is a `continue` or a caught exception. */
  function ParseFireFeature(f: FireFeature): (r: Option<FireRecord>)
    ensures r.Some? <==> ReadableFire(f)
    ensures r.Some? ==>
              && r.value.coordinates == f.coordinates.value
              && r.value.detectionTime == f.discoveryMs.value
              && r.value.incidentSize == f.incidentSize.value
  {
    match f.coordinates
    case None => None
    case Some(coords) =>
      match f.discoveryMs
      case None => None
      case Some(ms) =>
        match UtcFromEpochMs(ms)
        case None => None
        case Some(detectionTime) =>
          match f.incidentSize
          case None => None
          case Some(size) => Some(FireRecord(coords, detectionTime, size))
  }

  method ParseFireData(doc: Option<GeoJson<FireFeature>>) returns (fireRecords: seq<FireRecord>)
    ensures doc.None? || doc.value.features.None? ==> fireRecords == []
    ensures fireRecords == FilterMap(Features(doc), ParseFireFeature)
    ensures |fireRecords| <= |Features(doc)|
  {
    fireRecords := [];
    if doc.None? || doc.value.features.None? {
      return;
    }
    var features := doc.value.features.value;
    var i := 0;
    while i < |features|
      invariant 0 <= i <= |features|
      invariant fireRecords == FilterMap(features[..i], ParseFireFeature)
    {
      assert features[..i + 1][..i] == features[..i];
      var parsed := ParseFireFeature(features[i]);
      if parsed.Some? {
        fireRecords := fireRecords + [parsed.value];
      }
      i := i + 1;
    }
    assert features[..i] == features;
  }

  /** parse_fire_data emits a record for exactly the readable features, in
      feature order, each carrying that feature's coordinates, UTC
      discovery instant and size. */
  lemma ParseFireDataExactly(doc: Option<GeoJson<FireFeature>>)
    ensures var fs := Features(doc);
            var rs := FilterMap(fs, ParseFireFeature);
            var ks := Kept(fs, ParseFireFeature);
            && |ks| == |rs|
            && Increasing(ks)
            && (forall k :: 0 <= k < |ks| ==>
                  && ks[k] < |fs|
                  && ReadableFire(fs[ks[k]])
                  && rs[k] == FireRecord(fs[ks[k]].coordinates.value, fs[ks[k]].discoveryMs.value, fs[ks[k]].incidentSize.value))
            && (forall i :: 0 <= i < |fs| && ReadableFire(fs[i]) ==> i in ks)
  {
    var fs := Features(doc);
    FilterMapKeepsExactly(fs, ParseFireFeature);
    var rs := FilterMap(fs, ParseFireFeature);
    var ks := Kept(fs, ParseFireFeature);
    forall k | 0 <= k < |ks|
      ensures && ReadableFire(fs[ks[k]])
              && rs[k] == FireRecord(fs[ks[k]].coordinates.value, fs[ks[k]].discoveryMs.value, fs[ks[k]].incidentSize.value)
    {
      assert ParseFireFeature(fs[ks[k]]) == Some(rs[k]);
    }
    forall i | 0 <= i < |fs| && ReadableFire(fs[i])
      ensures i in ks
    {
      assert ParseFireFeature(fs[i]).Some?;
    }
  }

  // ---------------------------------------------------------------------
  // Satellite (WFS) polygon detections
  // ---------------------------------------------------------------------

  /** A detection feature: its raw "geometry" object `G` and its
      "oldest_detection" text, each None when missing, null, or (for the
      timestamp) not text or behind properties that are not an object. */
  datatype WfsFeature<G> = WfsFeature(geometry: Option<G>, oldestDetection: Option<string>)

  /** The body of parse_wfs_data's loop for one feature, in the source's
      order. `toShape` is the geometry library's `shape` (None: it raises);
      `parseIso` is `fromisoformat(..).astimezone(timezone.utc)` (None: it
      raises). */
  function ParseWfsFeature<G, S>(toShape: G -> Option<S>, parseIso: string -> Option<Instant>, f: WfsFeature<G>)
    : (r: Option<WfsRecord<S>>)
    ensures r.Some? <==> && f.geometry.Some? && toShape(f.geometry.value).Some?
                         && f.oldestDetection.Some? && parseIso(f.oldestDetection.value).Some?
    ensures r.Some? ==>
              && r.value.polygon == toShape(f.geometry.value).value
              && r.value.detectionTime == parseIso(f.oldestDetection.value).value
  {
    match f.geometry
    case None => None
    case Some(geometry) =>
      match toShape(geometry)
      case None => None
      case Some(poly) =>
        match f.oldestDetection
        case None => None
        case Some(text) =>
          match parseIso(text)
          case None => None
          case Some(detectionTime) => Some(WfsRecord(poly, detectionTime))
  }

  function WfsParser<G, S>(toShape: G -> Option<S>, parseIso: string -> Option<Instant>)
    : WfsFeature<G> -> Option<WfsRecord<S>>
  {
    f => ParseWfsFeature(toShape, parseIso, f)
  }

  /** What a feature must offer for parse_wfs_data to keep it. */
  ghost predicate ReadableWfs<G, S>(toShape: G -> Option<S>, parseIso: string -> Option<Instant>, f: WfsFeature<G>)
  {
    && f.geometry.Some? && toShape(f.geometry.value).Some?
    && f.oldestDetection.Some? && parseIso(f.oldestDetection.value).Some?
  }

  method ParseWfsData<G, S>(doc: Option<GeoJson<WfsFeature<G>>>, toShape: G -> Option<S>, parseIso: string -> Option<Instant>)
    returns (wfsRecords: seq<WfsRecord<S>>)
    ensures doc.None? || doc.value.features.None? ==> wfsRecords == []
    ensures wfsRecords == FilterMap(Features(doc), WfsParser(toShape, parseIso))
    ensures |wfsRecords| <= |Features(doc)|
  {
    wfsRecords := [];
    if doc.None? || doc.value.features.None? {
      return;
    }
    var features := doc.value.features.value;
    var i := 0;
    while i < |features|
      invariant 0 <= i <= |features|
      invariant wfsRecords == FilterMap(features[..i], WfsParser(toShape, parseIso))
    {
      assert features[..i + 1][..i] == features[..i];
      var parsed := ParseWfsFeature(toShape, parseIso, features[i]);
      if parsed.Some? {
        wfsRecords := wfsRecords + [parsed.value];
      }
      i := i + 1;
    }
    assert features[..i] == features;
  }

  /** parse_wfs_data emits a record for exactly the features whose geometry
      converts and whose oldest detection is present and parses, in feature
      order, each carrying the converted shape and the parsed instant. */
  lemma ParseWfsDataExactly<G, S>(doc: Option<GeoJson<WfsFeature<G>>>, toShape: G -> Option<S>, parseIso: string -> Option<Instant>)
    ensures var fs := Features(doc);
            var rs := FilterMap(fs, WfsParser(toShape, parseIso));
            var ks := Kept(fs, WfsParser(toShape, parseIso));
            && |ks| == |rs|
            && Increasing(ks)
            && (forall k :: 0 <= k < |ks| ==>
                  && ks[k] < |fs|
                  && ReadableWfs(toShape, parseIso, fs[ks[k]])
                  && rs[k] == WfsRecord(toShape(fs[ks[k]].geometry.value).value,
                                        parseIso(fs[ks[k]].oldestDetection.value).value))
            && (forall i :: 0 <= i < |fs| && ReadableWfs(toShape, parseIso, fs[i]) ==> i in ks)
  {
    var fs := Features(doc);
    var parse := WfsParser(toShape, parseIso);
    FilterMapKeepsExactly(fs, parse);
    var rs := FilterMap(fs, parse);
    var ks := Kept(fs, parse);
    forall k | 0 <= k < |ks|
      ensures && ReadableWfs(toShape, parseIso, fs[ks[k]])
              && rs[k] == WfsRecord(toShape(fs[ks[k]].geometry.value).value,
                                    parseIso(fs[ks[k]].oldestDetection.value).value)
    {
      assert ParseWfsFeature(toShape, parseIso, fs[ks[k]]) == Some(rs[k]);
    }
    forall i | 0 <= i < |fs| && ReadableWfs(toShape, parseIso, fs[i])
      ensures i in ks
    {
      assert parse(fs[i]).Some?;
    }
  }
}
