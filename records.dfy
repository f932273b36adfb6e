/**
 * The records the pipeline builds and passes between its stages:
 * the dictionaries appended by parse_fire_data, parse_wfs_data and
 * compare_detection_times.
 */
module Records {
  /** A UTC instant, as milliseconds since 1970-01-01T00:00:00Z. Both feeds
      are normalised to UTC before they are compared, so an instant is an
      absolute point in time. */
  type Instant = int

  /** A GeoJSON position as the record keeps it (`tuple(coords)`), normally
      (longitude, latitude). */
  type Coordinates = seq<real>

  /** The geometry library's test "polygon contains the point", on a shape
      `S` and a record's coordinates. */
  type Containment<!S> = (S, Coordinates) -> bool

  /** A public incident: "coordinates", "detection_time", "incident_size". */
  datatype FireRecord = FireRecord(coordinates: Coordinates, detectionTime: Instant, incidentSize: real)

  /** A polygon detection: "polygon" (a geometry object `S`) and "detection_time". */
  datatype WfsRecord<S> = WfsRecord(polygon: S, detectionTime: Instant)

  /** One entry of the correlator's output list. */
  datatype Match = Match(coordinates: Coordinates, wfsDetectionTime: Instant, officialTime: Instant, incidentSize: real)
}
