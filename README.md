# Wildfire detection cross-reference — a Dafny model

This project models the record-processing pipeline of a small Python tool.
The tool cross-references two wildfire feeds:

- an official registry of point incidents ("public" records: a position, a
  discovery time given in epoch milliseconds, a size in acres);
- a satellite feed of polygon detections ("WFS" records: a polygon or
  multi-polygon and an ISO-8601 "oldest detection" time).

Modelled operations:

- **Parsers** (`Parser`). `parse_fire_data` and `parse_wfs_data` each walk a
  GeoJSON feature list and append one record per readable feature. An
  unreadable feature is skipped and never aborts the batch. A missing
  document, or one without a `"features"` key, gives an empty list. Both are
  loop methods proved equal to `FilterMap` of a per-feature parse function.
  The `...Exactly` lemmas then state, feature by feature, which features
  produce records, in what order and with which field values.
- **Correlator** (`Correlator`). `compare_detection_times` visits each public
  record in order. It reports the first polygon, in list order, that both
  contains the point and was detected strictly before the official time.
  It is modelled as a method with nested loops and a `break`, proved equal
  to a specification built on `FirstIndex`.
- **Statistics** (`Statistics`). The integer parts of `analyze_data`: the
  UTC hour of each discovery, the most common hour, the count of fires over
  1000 acres, and the rule that a correlation needs at least two records.

Time is an `Instant`: integer milliseconds since the Unix epoch, in UTC.
The model passes in the code it cannot see as parameters:

- `toShape` stands for the geometry library's `shape`;
- `contains` stands for `polygon.contains(Point(coords))`;
- `parseIso` stands for `datetime.fromisoformat(..).astimezone(timezone.utc)`.

The geometries are type parameters (`G` for raw GeoJSON, `S` for a shape).
In each feature datatype, a field is `None` when the source cannot read
it: the key is missing or null, or extracting it raises. All of those
paths skip the feature.

Notes on the source:

- **Correlation policy.** The docstring of `compare_detection_times`
  (lines 237-239) reads as "find a polygon that contains the point, then
  compare its time". The `and` on line 253 does something else: a
  containing polygon detected later is passed over, and the search
  continues. `FirstContainingPolicy` models the docstring's reading.
  `FirstContainingPolicyAgrees` and `PoliciesDiffer` prove that the code
  reports every match that reading does, and strictly more.
- **Boundary points.** The geometry library's `contains` excludes the
  boundary. `contains` is left abstract, so the model promises nothing
  about points on an edge.
- **Ties for the most common hour.** pandas' `idxmax` decides them. Only
  maximal frequency is stated.
- **Negative sizes.** The code does not check that sizes are
  non-negative, and neither does the model.

## Model

| member | source | states |
|---|---|---|
| Parser.ParseFireFeature | lamprinidis_api_challenge.py:73-92 | one feature yields a record iff its coordinates, discovery timestamp (within the datetime range) and size are all readable; the record copies the coordinates and size and uses the timestamp's UTC instant |
| Parser.ParseFireData | lamprinidis_api_challenge.py:56-98 | an empty list for a missing document or one without "features"; otherwise the per-feature parse mapped over the features, skipped features dropped; never longer than the feature list |
| Parser.ParseFireDataExactly | lamprinidis_api_challenge.py:70-95 | the k-th record comes from the ks[k]-th feature with ks increasing; that feature is readable and the record carries its coordinates, instant and size; every readable feature contributes |
| Parser.ParseWfsFeature | lamprinidis_api_challenge.py:117-135 | one feature yields a record iff its geometry is present and converts to a shape and its oldest_detection is present and parses; the record holds that shape and that UTC instant |
| Parser.ParseWfsData | lamprinidis_api_challenge.py:103-141 | an empty list for a missing document or one without "features"; otherwise the per-feature parse mapped over the features with skips dropped; never longer than the feature list |
| Parser.ParseWfsDataExactly | lamprinidis_api_challenge.py:116-138 | the k-th record comes from the ks[k]-th feature with ks increasing; that feature's geometry converts and its timestamp parses; every such feature contributes, in feature order |
| Correlator.MatchFor | lamprinidis_api_challenge.py:250-260 | a public record yields a match iff some polygon both contains its point and was detected strictly earlier; the match reports the first such polygon's time with the record's own coordinates, official time and size |
| Correlator.CompareDetectionTimes | lamprinidis_api_challenge.py:235-263 | the nested loop with break returns, in public-record order, the match of each record that has one; output no longer than the public list |
| Correlator.EarlyDetectedExactly | lamprinidis_api_challenge.py:244-260 | the k-th match comes from public record ks[k] with ks strictly increasing (at most one match per record, in record order), reporting its first qualifying polygon; every record with a qualifying polygon is matched |
| Correlator.MatchesAreEarlier | lamprinidis_api_challenge.py:253-259 | every reported detection time is strictly before the official time, so equal timestamps never match |
| Correlator.FirstContainingPolicyAgrees | lamprinidis_api_challenge.py:250-260 | whenever the first containing polygon was detected earlier, the loop reports exactly that match |
| Correlator.PoliciesDiffer | lamprinidis_api_challenge.py:253 | a point inside a later-detected polygon listed first and an earlier-detected one listed second is matched to the second, though the first-containing reading reports nothing |
| Statistics.HourOfDay | lamprinidis_api_challenge.py:155 | the UTC hour is in 0..23 and is the hour of the day that contains the instant |
| Statistics.HourOfDayUnique | lamprinidis_api_challenge.py:155 | no other hour in 0..23 satisfies that property, so the hour is determined |
| Statistics.MostFrequent | lamprinidis_api_challenge.py:165 | the chosen hour is one of the candidates and no candidate occurs more often in the column |
| Statistics.MostCommonHour | lamprinidis_api_challenge.py:164-169 | None iff there are no hours; otherwise an hour of the column whose frequency no hour exceeds |
| Statistics.LargeFireCount | lamprinidis_api_challenge.py:172 | the count never exceeds the number of records |
| Statistics.LargeFireCountIsCardinality | lamprinidis_api_challenge.py:172 | the count equals the number of records whose size exceeds 1000 acres |
| Statistics.AnalyzeData | lamprinidis_api_challenge.py:146-188 | the hour and size columns follow the records; the most common hour is None iff there are no records and otherwise is in 0..23 with maximal frequency; the large-fire count is the number of sizes over 1000; the correlation is None iff there are fewer than two records, and otherwise it is taken over exactly the hour and size columns |

## Left out

- `fetch_fire_data` (lines 12-51): an HTTP query and its error handling; network I/O.
- `visualize_data` (lines 193-230): plotting only.
- `main` (lines 268-330): argument parsing, file reading, exit codes and printing. This includes the unguarded `len(wfs_geojson["features"])` on line 314.
- Every `print` diagnostic: they do not affect results.
- The geometry library: `shape`, `Point` and `.contains` are the parameters `toShape` and `contains`. Nothing is stated about boundary points. `Point` raising on a coordinate tuple of unusual length is not modelled; in the source that exception escapes the correlator.
- `datetime.fromisoformat(..).astimezone(timezone.utc)` is the parameter `parseIso`. A text without an offset is read as local time by `astimezone`; that happens inside the parameter.
- Sub-millisecond precision of ISO times: `fromisoformat` keeps microseconds, but an `Instant` is whole milliseconds. `parseIso` must cut an ISO time to the millisecond, rounding down. The reported `wfs_detection_time` (line 256) therefore loses its sub-millisecond digits. Rounding down keeps the strict comparison on line 253 exact, because official times are whole milliseconds: for an integer `o`, `w < o` holds exactly when `floor(w) < o`. Rounding to nearest would not: 11:59:59.9996Z against 12:00:00.000Z is a match in the source but would become two equal times and no match.
- The float division in `fromtimestamp(discovery_ts / 1000)`: the model keeps the exact millisecond and covers only the datetime range check (years 1 to 9999). Rounding of the float to microseconds and non-integral millisecond values are not represented.
- A `"features"` value that cannot be iterated (null, a number, a boolean): the source raises from the `for` on line 70 or 116, outside the `try`, and the exception escapes the parser. The model's document always holds a list. An object or a string is iterated key by key or character by character. Each item then fails `feature["geometry"]` inside the `try` and is skipped, so the result is `[]`. The model gives the same result, because such a value is a list of features whose fields are all unreadable. A feature that is not an object is likewise a feature whose fields are all unreadable, so it is skipped.
- Coordinates are sequences of numbers. A coordinate value whose items are not numbers (`tuple` of a string) is not represented.
- Sizes are reals. NaN and infinite sizes are not represented.
- MostCommonHour: states only that the hour has maximal frequency. pandas' `value_counts().idxmax()` decides ties; the model picks the earliest such hour in record order and does not promise that choice.
- AnalyzeData: the correlation is only the rule "None for fewer than two records" together with the two columns it is computed from. The Pearson value (floating point, possibly NaN) is not modelled.
