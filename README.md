# geojson_to_jsonl: the feature-projection pass

This project models the core of `convert_geojson_to_jsonl`. The function
reads a GeoJSON FeatureCollection and writes it as line-delimited JSON for
a bulk loader, one line per feature that holds both `properties` and
`geometry`.

The model starts from the already-parsed document:

1. It looks up `features`.
2. It walks the features in order.
3. For each feature it looks up `properties` and then `geometry`.
4. It stores `json.dumps(geometry)` under the `geometry` key of the
   properties dict. The dict is changed in place.
5. It writes that dict as one line.

A dict feature that lacks `properties` or `geometry` is skipped with a
warning. Every other failure aborts the run, including a feature that is not
a dict at all.

Modules:

- `Wrappers` holds `Option` and `Result`.
- `Json` (json.dfy) holds parsed JSON values. A JSON object, which is a
  Python `dict`, is an ordered sequence of members, so insertion order is
  kept. `Get` is `d[k]`: `None` stands where Python raises `KeyError`.
  `Put` is `d[k] = v`: an existing key is overwritten where it stands, and
  a new key is appended at the end.
- `GeojsonToJsonl` (geojson_to_jsonl.dfy) holds the pass.
  - The methods `ConvertGeojsonToJsonl` and `WriteFeatures` run it the way
    the source does. The second one is the loop, which updates the feature
    list in place.
  - Each method is proved equal to the step-by-step specification
    `Convert` / `Process`.
  - `json.dumps` is the parameter `dumps: Json -> string`, an uninterpreted
    serialiser.
  - The process exit becomes the returned `Outcome`. The stderr warnings
    become a sequence of `Warning`s, each naming the key that was missing.
  - `outputOpened` records whether the output file was opened.
- `ConversionProperties` (properties.dfy) holds a reference description that
  does not mention the loop, and the lemmas that tie the loop to it:
  - `Complete` is the list of features that convert: dicts that hold both
    keys.
  - `Projection` is a feature's properties with the serialised geometry
    stored under `geometry`.
  - `Raises` says when Python's `TypeError` escapes.
  - `FirstRaise` is the index where the loop stops.

The model follows the Python semantics of the code:

- `geojson_data['features']` on a document that is not a dict raises
  `TypeError`. This is not the handled "'features' key not found" error.
- `for obj in features` iterates:
  - a list's items,
  - a dict's keys,
  - a string's characters.
  On any other value it raises `TypeError`, and by then the output file has
  been opened.
- On line 34 the right-hand side `json.dumps(obj['geometry'])` is evaluated
  before the subscript assignment. So a missing `geometry` is reported even
  when `properties` is `null`. In that case nothing is modified.
- A non-dict `properties` aborts only when `geometry` is present.

Three behaviours of the code that a reader might not expect:

- One might expect no fatal error once the output is opened. In the code,
  a feature that is not a dict, a non-dict `properties` next to a
  `geometry`, or a `features` value that cannot be iterated all raise an
  uncaught `TypeError` after that point. The lines already written stay in
  the file.
- One might expect the key order of a line to be arbitrary. The code keeps
  every property in its position and overwrites an existing `geometry` key
  where it stands.
- One might expect a warning to name every missing key. The code names
  only the first missing key, because `properties` is looked up before
  `geometry`.

## Model

| member | source | states |
|---|---|---|
| Json.Get | geojson_to_jsonl.py:32 | `d[k]` yields a value exactly when `k` is a key of the dict, and the value is the one stored under `k`; otherwise the lookup fails (Python's `KeyError`) |
| Json.Put | geojson_to_jsonl.py:34 | `d[k] = v` on an existing key replaces that member in its position and leaves every other member alone; on a new key it appends the member at the end |
| Json.PutGet | geojson_to_jsonl.py:34 | after `d[k] = v`, `k` maps to `v` and every other key maps to what it mapped to before |
| Json.PutKeys | geojson_to_jsonl.py:34 | after `d[k] = v`, the key order is unchanged, with `k` added last when it was new |
| Json.PutDistinct | geojson_to_jsonl.py:34 | assignment never duplicates a key |
| GeojsonToJsonl.Load | geojson_to_jsonl.py:19-27 | the lookup fails with InvalidJson exactly for unparsable input, with MissingFeaturesKey exactly when a dict document lacks `features`, and with a type error exactly for a non-dict document; on success it yields the `features` member of the document |
| GeojsonToJsonl.Iterate | geojson_to_jsonl.py:30 | `for obj in features` visits a list's items, a dict's keys or a string's one-character strings, and fails on any other value |
| GeojsonToJsonl.VisitFeature | geojson_to_jsonl.py:32-39 | the loop body faults on a non-dict feature; it skips a dict feature exactly when `properties` or `geometry` is absent, naming a key that is absent; it faults on non-dict properties exactly when both keys are present; an emitted record holds the serialised geometry under `geometry`, and the updated feature holds the record under `properties` |
| GeojsonToJsonl.Resume | geojson_to_jsonl.py:30-39 | the rest of the loop from feature `i` changes no feature-list length, only appends to the records and warnings, adds at most one record or warning per remaining feature, and a new abort names a remaining feature's index |
| GeojsonToJsonl.Process | geojson_to_jsonl.py:30-39 | the whole loop keeps the feature list's length, writes and warns at most once per feature, and aborts only with a `TypeError` on one of the features |
| GeojsonToJsonl.Convert | geojson_to_jsonl.py:19-39 | the output file is opened exactly when the `features` lookup succeeds; a successful run opened it; records and warnings together are at most the iterated features; a feature error names an iterated feature |
| GeojsonToJsonl.FileText | geojson_to_jsonl.py:35-36 | the written text has at least one character per record and, when any record was written, ends with a newline |
| GeojsonToJsonl.ConvertGeojsonToJsonl | geojson_to_jsonl.py:19-39 | the outcome, whether the output was opened, the records, warnings and visited features are exactly those of `Convert`, and the text written is each record serialised and followed by a newline |
| GeojsonToJsonl.WriteFeatures | geojson_to_jsonl.py:29-39 | the loop's records, warnings, in-place-updated feature list and abort are exactly those of `Process`, and the text written is `FileText` of the records |
| ConversionProperties.VisitFeatureCases | geojson_to_jsonl.py:32-39 | one feature: a non-dict feature aborts; `properties` is looked up before `geometry` and the first missing one is warned about; a non-dict `properties` aborts only when `geometry` is present; otherwise the feature yields its projection and is updated in place |
| ConversionProperties.RecordContents | geojson_to_jsonl.py:32-35 | in a record, `geometry` holds the serialised geometry; every other property keeps its value and position; an existing `geometry` key is overwritten in place, a missing one is added last; distinct keys stay distinct |
| ConversionProperties.UpdatedInPlace | geojson_to_jsonl.py:32-34 | a converted feature keeps its keys and their order, `properties` now holds the record, and nothing else in it changes |
| ConversionProperties.ResumeRecords | geojson_to_jsonl.py:30-36 | for any loop body, the records written from a point on are the emitted ones, in order, up to the first fault |
| ConversionProperties.ResumeWarnings | geojson_to_jsonl.py:30-39 | for any loop body, the warnings from a point on are the skipped features' ones, in order, up to the first fault |
| ConversionProperties.ResumeAbort | geojson_to_jsonl.py:30-39 | for any loop body, the loop aborts exactly at the first fault, naming its index and cause |
| ConversionProperties.ResumeVisited | geojson_to_jsonl.py:30-34 | for any loop body, only the features emitted before the first fault are changed, each into its updated form; skipped, faulting and later features stay as they were |
| ConversionProperties.FirstFaultIsFirstRaise | geojson_to_jsonl.py:32-37 | the source's loop body first faults exactly at the first feature that raises `TypeError` |
| ConversionProperties.EmitsAreProjections | geojson_to_jsonl.py:32-36 | before any raise, the loop body emits exactly the projections of the features holding both keys, in input order |
| ConversionProperties.SkipsAreOmissions | geojson_to_jsonl.py:32-39 | before any raise, the loop body warns once per feature lacking a key, naming its first missing key, in input order |
| ConversionProperties.ProcessMatchesReference | geojson_to_jsonl.py:30-39 | the loop aborts iff some feature raises, at the first one and with its cause; up to there, the k-th record is the projection of the k-th feature with both keys, the warnings are those of the others in order, and only converted features are modified |
| ConversionProperties.FeatureListRun | geojson_to_jsonl.py:29-39 | with a list of features, the output is opened and the run succeeds iff no feature raises; then the line count equals the number of features holding both keys, lines and warnings together number the features, and lines keep input order |
| ConversionProperties.FatalBeforeOutput | geojson_to_jsonl.py:19-29 | the output is left unopened exactly for invalid JSON, a non-dict document or a missing `features` key, and such a run writes and warns nothing; a missing `features` key is reported exactly when a dict document lacks it |
| ConversionProperties.NonListFeatures | geojson_to_jsonl.py:29-32 | a non-empty dict or string under `features` is iterated anyway and aborts on its first element after the output was opened, writing nothing |
| ConversionProperties.OneLinePerRecord | geojson_to_jsonl.py:35-36 | when the serialiser never emits a raw newline, the written text holds exactly one newline per record |
| ConversionProperties.WrittenTextGrows | geojson_to_jsonl.py:29-36 | the text of the first `k` records is a prefix of the text of all records, so output written before an abort stays in the file |
| ConversionProperties.TwoFeatureExample | geojson_to_jsonl.py:30-39 | taking a collection whose second feature lacks `geometry`, the run succeeds with one line, the first feature's name plus its serialised geometry, and one warning naming `geometry` |

## Left out

- File I/O is not modelled: opening, reading, writing and closing files, and the `FileNotFoundError` / `PermissionError` handlers (lines 16-17, 29, 43-48). `outputOpened` only marks the point where the output file is opened.
- `json.load` is not modelled. The input is an already-parsed value, and a malformed file is the opaque case `NotJson`. Decoding errors about text encoding are also left out.
- `json.dumps` is an uninterpreted parameter. Its separators and escaping are not modelled. So the geometry round-trip (parsing the `geometry` string gives back the original geometry) is not proved, because it depends on the library.
- JSON numbers are abstract: only their literal text is kept, with no floats.
- `main`, argparse, the success message on stdout, the text of the stderr messages and `sys.exit` are left out (lines 41, 50-75). A run returns an `Outcome`, and each warning carries only the key it names.
- Python's traceback for an uncaught `TypeError` is left out. The model returns `Failed` with the error's location.
- Aliasing between dicts is not modelled: values are trees. `json.load` always builds fresh, unshared dicts, so mutating one properties dict cannot affect another feature.
- Repeated keys are not modelled. `Parsed` documents are assumed to have distinct keys at every level, as every dict built by `json.load` does. When the text repeats a key, `json.load` keeps the last value at the key's first position. On a document whose members repeat a key, `Get` takes the first member. `DistinctKeys` is the hypothesis under which `PutDistinct` and the last clause of `RecordContents` hold.
- Lone surrogates are not modelled. `json.load` can produce a Python string holding a lone surrogate such as `"\ud800"`, since Python strings are sequences of code points, but a Dafny `char` cannot hold one. Strings in the model are therefore sequences of Unicode scalar values, and `Iterate` over such a string is not modelled.
