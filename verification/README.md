# influxdb_exporter core in Dafny

The exporter accepts InfluxDB line-protocol writes over HTTP and exposes
what it received to Prometheus. The whole of its logic sits in `main.go`;
this project models it in three parts plus the request's status decision.

- **Translation** (`influxDBPost`). A decoded point is a measurement name,
  tags, fields and an event time. Every field whose value is a float, an
  integer or a boolean becomes one sample. The sample's name is the
  measurement for the field `value` and `measurement_field` otherwise.
  Names and tag keys are sanitised: every character outside `[a-zA-Z0-9_]`
  becomes `_`. Tag values are kept verbatim. The sample ID is the list made
  of the derived name, unsanitised, followed by the label pairs in ascending
  key order (modules `Names`, `Lex`, `Identity`, `Translate`).
- **Store** (`processSamples`). A map from ID to sample, changed by two
  transitions that one goroutine applies in order. A delivered sample
  overwrites the entry under its ID. A ticker event removes every sample
  whose event time is strictly before `now - expiry` (module `Store`).
- **Scrape** (`Collect`). Emits the liveness gauge first, then one untyped
  metric per stored sample that is not older than the cutoff; the store is
  not changed (module `Collect`).
- **Write request** (`influxDBPost`). An unreadable body gives 500, a
  payload the parser rejects gives 400, otherwise 204. The precision
  defaults to `ns`. The liveness gauge is set on arrival in every case
  (module `Write`).

Go map iteration order is unspecified. Tags, fields, the label-name list
and the store snapshot are therefore sequences in any order; lemmas show
which results do not depend on that order. `time.Now()` is an explicit
integer parameter, in nanoseconds; the write handler reads the clock twice,
once for the liveness gauge and once for the parser's default timestamp, and
the model takes both readings as separate parameters. The line-protocol
parser is a function parameter.

The ID is built from the derived name before sanitisation (main.go:129),
while the exposed name is sanitised (main.go:112).
`Scenarios.SanitisedNamesCanCollide` shows the consequence: `my.metric` and
`my-metric` produce two store entries that are exposed under the same name
and labels.

## Model

| member | source | states |
|---|---|---|
| Names.Sanitize | main.go:42 | the result has the input's length in characters, uses only `[a-zA-Z0-9_]`, keeps every allowed character in place and puts `_` in place of every other character |
| Names.SanitizeFixesExactlyClean | main.go:42 | a name is left unchanged by sanitisation if and only if it already uses only allowed characters |
| Names.SanitizeIdempotent | main.go:112 | sanitising a sanitised name changes nothing |
| Lex.LessTotal | main.go:127 | the byte-wise string order used by `sort.Strings` relates any two different strings |
| Lex.LessTransitive | main.go:127 | the string order is transitive |
| Lex.Sort | main.go:127 | the sorted label names are in ascending order and are a permutation of the input |
| Lex.OrderedUnique | main.go:127 | two strictly ascending lists with the same elements are equal, so the sorted order is unique |
| Lex.SortIgnoresOrder | main.go:123-127 | sorting two arrangements of the same label names gives the same list |
| Lex.DistinctCardinality | main.go:123-126 | a duplicate-free list of a map's keys has as many entries as the map |
| Identity.Fingerprint | main.go:122-133 | the ID has `2·|labels| + 1` parts and starts with the given name |
| Identity.FingerprintRoundTrip | main.go:128-133 | decoding an ID gives back the name and the full label map |
| Identity.FingerprintIgnoresOrder | main.go:123-133 | the ID does not depend on the order in which the label names were enumerated |
| Identity.FingerprintIdentifiesSeries | main.go:122-133 | two IDs are equal if and only if their names are equal and their label maps are equal |
| Translate.CoerceSkipsOnlyOther | main.go:88-102 | a field is skipped exactly when its value is neither a float, an integer nor a boolean, and a boolean gives 1 exactly when it is true |
| Translate.MetricNameParts | main.go:104-109 | the derived name starts with the measurement; it is the measurement alone exactly for the field `value`, and otherwise continues with `_` and the field key |
| Translate.MetricNameInjective | main.go:104-109 | for one measurement, different field keys give different derived names |
| Translate.LabelsKeys | main.go:115-119 | the label keys are exactly the sanitised tag keys |
| Translate.LabelsValues | main.go:117-119 | every label value is the verbatim value of a tag whose key sanitises to that label |
| Translate.LabelsLastWins | main.go:117-119 | when several tag keys sanitise alike, the label takes the value of the last such tag visited |
| Translate.LabelsSize | main.go:115-119 | there are never more labels than tags |
| Translate.LabelsIgnoreOrder | main.go:117-119 | without two tag keys that sanitise alike, any visiting order of the tags gives the same label map |
| Translate.LabelNames | main.go:123-126 | the collected label names list every label key exactly once |
| Translate.Coercible | main.go:87-102 | the fields kept for translation are never more than the fields of the point |
| Translate.CoercibleSound | main.go:87-102 | every kept entry is the key and coerced value of some field whose value is a float, an integer or a boolean |
| Translate.CoercibleComplete | main.go:87-102 | every field whose value is a float, an integer or a boolean is kept with its coerced value |
| Translate.CoercibleKeysDistinct | main.go:87-102 | with unique field keys, as a Go map has, the kept entries have unique keys |
| Translate.TranslateFields | main.go:87-102 | a point yields at most one sample per field |
| Translate.SampleForIsSampleOf | main.go:104-133 | a sample carries the sanitised derived name, the point's labels, the coerced value and the point's time, and its ID decodes to the unsanitised name and those labels |
| Translate.SampleForTagOrder | main.go:111-133 | unless two tag keys sanitise alike, visiting the tags in any other order gives the same sample, including its ID |
| Translate.TranslateSound | main.go:86-133 | every sample of a point comes from a float, integer or boolean field of that point, with the coerced value |
| Translate.TranslateComplete | main.go:86-133 | every float, integer or boolean field of a point gives a sample |
| Translate.TranslatePointExactly | main.go:86-136 | a sample belongs to a point's translation if and only if it is the sample of one of its coercible fields |
| Translate.TranslateIdsDistinct | main.go:104-133 | when the field keys are distinct, the samples of one point have pairwise different IDs |
| Translate.TranslatePointsExactly | main.go:86-137 | a batch yields exactly the samples of its points |
| Translate.WellFormedIdentity | main.go:122-133 | two translated samples have the same ID if and only if they share the unsanitised name and the label map |
| Translate.TranslateWellFormed | main.go:111-133 | every translated sample has a clean name, clean label keys and an ID built from its own name and labels |
| Scenarios.OneFieldCoercion | main.go:88-102 | a float field passes through, an integer widens, true gives 1 and false gives 0, any other value gives no sample |
| Scenarios.ValueFieldScenario | main.go:104-133 | `cpu,host=a value=42` gives the sample `cpu{host="a"}` = 42 with ID `[cpu, host, a]` |
| Scenarios.FieldSuffixScenario | main.go:104-109 | fields `idle` and `used` of `cpu` give samples `cpu_idle` and `cpu_used` |
| Scenarios.SanitizationScenario | main.go:112-119 | `my.metric` with tag key `host-name` is exposed as `my_metric{host_name=...}` |
| Scenarios.SanitisedNamesCanCollide | main.go:112-133 | two measurements that sanitise alike give two store entries with one exposed name and label map |
| Store.Insert | main.go:147-150 | after a delivery the store holds the sample under its ID and every other entry is unchanged |
| Store.InsertLastWriteWins | main.go:149 | of two deliveries with one ID only the later one remains |
| Store.InsertCommutes | main.go:147-150 | deliveries with different IDs can be applied in either order |
| Store.Sweep | main.go:152-161 | a sweep keeps exactly the entries not older than `now - expiry`, unchanged, and adds none |
| Store.SweepBoundary | main.go:154-159 | a sample exactly at the cutoff survives, one a nanosecond older is removed |
| Store.SweepIdempotent | main.go:152-161 | sweeping twice at the same time equals sweeping once |
| Store.SweepLaterSubsumes | main.go:152-161 | a sweep followed by a later sweep equals the later sweep alone |
| Store.SweepDropsStaleDelivery | main.go:147-161 | a delivered sample whose event time is already past the cutoff disappears at the next sweep, together with the entry it replaced |
| Store.Step | main.go:143-163 | a delivery adds or replaces only the entry under the sample's ID and stores the sample there; after a tick no entry is older than the cutoff |
| Store.RunAppend | main.go:145-163 | handling two runs of events one after the other is the same as handling their concatenation |
| Store.RunConsistent | main.go:143-164 | any sequence of deliveries of translated samples and ticks keeps every entry under its own ID |
| Store.RunEndingInTickIsFresh | main.go:152-161 | right after a tick no stored sample is older than that tick's cutoff |
| Store.OneSamplePerSeries | main.go:122-150 | a consistent store holds at most one entry per unsanitised name and label map |
| Store.RunDeliveries | main.go:145-150 | a run made only of deliveries equals inserting those samples in order |
| Store.InsertAllDistinct | main.go:135-150 | a batch with pairwise different IDs is stored completely and leaves entries under other IDs alone |
| Collect.Collect | main.go:167-188 | the scrape emits the liveness gauge first, then the metrics of the stored samples not older than the cutoff one for one: each such sample contributes exactly one metric and no other sample contributes any |
| Collect.ExactlyMeansFresh | main.go:177-187 | a one-for-one listing of the unexpired samples has as many elements as the sweep keeps, holds only unexpired samples' metrics and misses none |
| Write.Write | main.go:70-140 | status 500 exactly when the body is unreadable, 400 exactly when the parser rejects the payload at the requested precision (`ns` when none is given), otherwise 204 with an empty message and the samples of every point; failed requests produce no samples |
| Write.Serve | main.go:69 | every request, failed or not, sets the liveness gauge to its arrival time |
| Write.FailedWriteKeepsStore | main.go:69-84 | a request answered with 500 or 400 leaves the store unchanged |
| Write.WriteStoresWholePoint | main.go:86-140 | a successful write of one point with distinct field keys stores every sample of that point |
| Write.ServeConsistent | main.go:68-150 | handling any request keeps a consistent store consistent |

## Left out

- HTTP plumbing is not modelled: reading the body, `FormValue`, the trailing newline `http.Error` adds to a message, the `/query` stub, the root page and the `main` wiring. The body and the precision parameter arrive as values.
- The line-protocol parser is a foreign library; it is a function parameter returning either an error or points.
- The Prometheus client (gauge, descriptors, constant metrics, `Describe`, the registry) is not modelled; a scrape's output is a sequence of `Metric` values.
- The goroutine, channel and ticker deliver the store's transitions one at a time; they are a sequence of `Deliver` and `Tick` events.
- Collect.Collect: reads the store as one atomic snapshot. In main.go `Collect` has a value receiver (main.go:167), so its lock at main.go:170 is taken on a copy of the mutex and does not exclude the writes of main.go:148-160; a scrape running during a write is a data race that Go's runtime can abort, and concurrent execution is not modelled.
- Write.Serve: delivers a request's samples to the store as one step, so ticks interleaved with a request's deliveries are not modelled; `Store.Run` covers arbitrary interleavings of single deliveries and ticks.
- Wall-clock time is an integer nanosecond parameter; the liveness gauge holds that integer, not the float number of seconds.
- Strings are sequences of Unicode characters, so lengths are character counts, not Go's byte counts: `é` is one character that becomes one `_`, while in Go it is two bytes. Invalid UTF-8 cannot be represented.
- Go's `time.Add` and `int64` overflow are not modelled; times are unbounded integers.
- Sample values are `real`; float64 rounding, including the rounding of the int64 to float64 conversion, is not modelled.
- The `%q` quoting of the ID's parts is not modelled; the ID is the list of parts itself, and quoting is injective.
- Translate.SampleFor: uses one tag visiting order for all fields of a point, while main.go:117 iterates the tag map afresh for each field. When two tag keys sanitise alike, Go may give different fields of one point different values for that label; `Translate.SampleForTagOrder` shows that without such a clash the order makes no difference.
- Translate.LabelsIgnoreOrder: stated only for tag lists where no two keys sanitise alike; otherwise the label value depends on Go's map iteration order, which `Translate.LabelsLastWins` describes for a given order.
- The debug print of each sample is left out.
- Collect.Collect: fixes which metrics are emitted and how often, not their order, since Go's map iteration order is unspecified.
