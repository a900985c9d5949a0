/**
 * The feature-projection pass of `convert_geojson_to_jsonl`: look up
 * `features` on the parsed document, walk the features in order, and for
 * every feature with both `properties` and `geometry` store the serialised
 * geometry under the `geometry` key of its properties dict and write that
 * dict as one output line. A feature missing a key is skipped with a
 * warning; a type error (a feature or a properties value that is not a
 * dict) aborts the run.
 *
 * `json.dumps` is the parameter `dumps`, an uninterpreted serialiser.
 * Python's process exit becomes the returned `Outcome`; the text printed to
 * stderr becomes the sequence of `Warning`s.
 */
module GeojsonToJsonl {
  import opened Wrappers
  import opened Json

  /** What `json.load` produced: a parsed document, or a `JSONDecodeError`. */
  datatype Loaded = Parsed(doc: Json) | NotJson

  /** Where a feature makes Python raise an uncaught `TypeError`. */
  datatype FeatureFault =
    | FeatureNotSubscriptable   // `obj['properties']` on a feature that is not a dict
    | PropertiesNotAssignable   // `props['geometry'] = ...` on properties that are not a dict

  /** The errors that end the run. */
  datatype Fatal =
    | InvalidJson                      // `JSONDecodeError`, reported and exit(1)
    | MissingFeaturesKey               // `KeyError` on 'features', reported and exit(1)
    | DocumentNotSubscriptable         // `TypeError`: the document is not a dict
    | FeaturesNotIterable              // `TypeError`: `for obj in features` on a non-iterable
    | FeatureError(index: nat, fault: FeatureFault)  // `TypeError` on the feature at `index`

  datatype Outcome = Converted | Failed(error: Fatal)

  /** The warning of a skipped feature, naming the key whose lookup raised `KeyError`. */
  datatype Warning = MissingKey(key: string)

  /** What the loop body does with one feature. */
  datatype Visit =
    | Emitted(record: Dict, updated: Json)  // the line written, and the feature as the body leaves it
    | Skipped(missing: string)
    | Faulted(fault: FeatureFault)

  /** The loop's state after some features: lines written, warnings, the features as left, the abort. */
  datatype Pass = Pass(records: seq<Dict>, warnings: seq<Warning>, visited: seq<Json>, abort: Option<Fatal>)

  /** The observable result of a run. `outputOpened` says whether the output file was opened (and truncated). */
  datatype Run = Run(outcome: Outcome, outputOpened: bool, records: seq<Dict>, warnings: seq<Warning>, visited: seq<Json>)

  // ---------------------------------------------------------------------------
  // The specification of the pass, step by step as the source executes it
  // ---------------------------------------------------------------------------

  /** `features = geojson_data['features']`. */
  function Load(input: Loaded): (r: Result<Json, Fatal>)
    ensures r == Err(InvalidJson) <==> input.NotJson?
    ensures r == Err(DocumentNotSubscriptable) <==> input.Parsed? && !input.doc.JObject?
    ensures r == Err(MissingFeaturesKey) <==>
              input.Parsed? && input.doc.JObject? && "features" !in Keys(input.doc.members)
    ensures r.Ok? <==> input.Parsed? && input.doc.JObject? && "features" in Keys(input.doc.members)
    ensures r.Ok? ==> Member("features", r.value) in input.doc.members
  {
    match input
    case NotJson => Err(InvalidJson)
    case Parsed(doc) =>
      if !doc.JObject? then Err(DocumentNotSubscriptable)
      else
        match Get(doc.members, "features")
        case None => Err(MissingFeaturesKey)
        case Some(features) => Ok(features)
  }

  /** The values `for obj in features` iterates over: a list's items, a dict's keys, a string's characters. */
  function Iterate(features: Json): (r: Option<seq<Json>>)
    ensures r.None? <==> !(features.JArray? || features.JObject? || features.JString?)
    ensures features.JArray? ==> r == Some(features.items)
    ensures features.JObject? ==>
              && |r.value| == |features.members|
              && forall i :: 0 <= i < |features.members| ==> r.value[i] == JString(features.members[i].key)
    ensures features.JString? ==>
              && |r.value| == |features.s|
              && forall i :: 0 <= i < |features.s| ==> r.value[i] == JString([features.s[i]])
  {
    match features
    case JArray(items) => Some(items)
    case JObject(members) => Some(seq(|members|, i requires 0 <= i < |members| => JString(members[i].key)))
    case JString(s) => Some(seq(|s|, i requires 0 <= i < |s| => JString([s[i]])))
    case _ => None
  }

  /**
   * The loop body for one feature. `obj['properties']` is evaluated first,
   * then the right-hand side `json.dumps(obj['geometry'])`, and only then
   * the assignment into the properties dict.
   */
  function VisitFeature(obj: Json, dumps: Json -> string): (v: Visit)
    ensures v == Faulted(FeatureNotSubscriptable) <==> !obj.JObject?
    ensures v.Skipped? <==>
              obj.JObject? && ("properties" !in Keys(obj.members) || "geometry" !in Keys(obj.members))
    ensures v.Skipped? ==> v.missing in {"properties", "geometry"} && v.missing !in Keys(obj.members)
    ensures v == Faulted(PropertiesNotAssignable) <==>
              && obj.JObject?
              && "properties" in Keys(obj.members) && "geometry" in Keys(obj.members)
              && !Get(obj.members, "properties").value.JObject?
    ensures v.Emitted? ==>
              && obj.JObject?
              && "geometry" in Keys(obj.members)
              && Member("geometry", JString(dumps(Get(obj.members, "geometry").value))) in v.record
              && v.updated.JObject?
              && Member("properties", JObject(v.record)) in v.updated.members
  {
    if !obj.JObject? then Faulted(FeatureNotSubscriptable)
    else
      match Get(obj.members, "properties")
      case None => Skipped("properties")
      case Some(props) =>
        match Get(obj.members, "geometry")
        case None => Skipped("geometry")
        case Some(geometry) =>
          if !props.JObject? then Faulted(PropertiesNotAssignable)
          else
            var record := Put(props.members, "geometry", JString(dumps(geometry)));
            Emitted(record, JObject(Put(obj.members, "properties", JObject(record))))
  }

  /**
   * The effect of one turn of the loop on the feature at `i`: a written
   * record (and the feature's properties dict updated in place), a warning,
   * or the abort.
   */
  function Advance(p: Pass, i: nat, v: Visit): Pass
    requires i < |p.visited|
  {
    match v
    case Emitted(record, updated) => p.(records := p.records + [record], visited := p.visited[i := updated])
    case Skipped(key) => p.(warnings := p.warnings + [MissingKey(key)])
    case Faulted(fault) => p.(abort := Some(FeatureError(i, fault)))
  }

  /** The loop from the feature at `i` on, in state `p`, running `body` on each feature; an abort ends it. */
  function Resume(p: Pass, items: seq<Json>, i: nat, body: Json -> Visit): (r: Pass)
    requires i <= |items| && |p.visited| == |items|
    ensures |r.visited| == |items|
    ensures p.records <= r.records && p.warnings <= r.warnings
    ensures |r.records| + |r.warnings| <= |p.records| + |p.warnings| + (|items| - i)
    ensures p.abort.None? && r.abort.Some? ==> r.abort.value.FeatureError? && i <= r.abort.value.index < |items|
    decreases |items| - i
  {
    if i == |items| || p.abort.Some? then p
    else Resume(Advance(p, i, body(items[i])), items, i + 1, body)
  }

  /** The loop body of the source, with `json.dumps` fixed. */
  function LoopBody(dumps: Json -> string): Json -> Visit {
    obj => VisitFeature(obj, dumps)
  }

  /** The `for obj in features` loop, starting from the features as parsed. */
  function Process(items: seq<Json>, dumps: Json -> string): (r: Pass)
    ensures |r.visited| == |items|
    ensures |r.records| + |r.warnings| <= |items|
    ensures r.abort.Some? ==> r.abort.value.FeatureError? && r.abort.value.index < |items|
  {
    Resume(Pass([], [], items, None), items, 0, LoopBody(dumps))
  }

  /** The whole pass: lookup, opening the output, iteration, the loop. */
  function Convert(input: Loaded, dumps: Json -> string): (r: Run)
    ensures r.outputOpened <==> Load(input).Ok?
    ensures r.outcome == Converted ==> r.outputOpened
    ensures |r.records| + |r.warnings| <= |r.visited|
    ensures r.outcome.Failed? && r.outcome.error.FeatureError? ==> r.outcome.error.index < |r.visited|
  {
    match Load(input)
    case Err(e) => Run(Failed(e), false, [], [], [])
    case Ok(features) =>
      match Iterate(features)
      case None => Run(Failed(FeaturesNotIterable), true, [], [], [])
      case Some(items) =>
        var p := Process(items, dumps);
        Run(if p.abort.None? then Converted else Failed(p.abort.value), true, p.records, p.warnings, p.visited)
  }

  /** The text written to the output file: each record serialised, then a newline. */
  function FileText(records: seq<Dict>, dumps: Json -> string): (text: string)
    ensures |text| >= |records|
    ensures records != [] ==> text[|text| - 1] == '\n'
    decreases |records|
  {
    if records == [] then ""
    else FileText(records[..|records| - 1], dumps) + dumps(JObject(records[|records| - 1])) + "\n"
  }

  // ---------------------------------------------------------------------------
  // The pass as the source runs it
  // ---------------------------------------------------------------------------

  /**
   * `convert_geojson_to_jsonl` from the parsed document on: returns what
   * the run reports, whether the output was opened, the records written
   * (and the file's text), the warnings, and the iterated features as the
   * loop leaves them.
   */
  method ConvertGeojsonToJsonl(input: Loaded, dumps: Json -> string)
    returns (outcome: Outcome, outputOpened: bool, records: seq<Dict>, warnings: seq<Warning>,
             visited: seq<Json>, written: string)
    ensures Run(outcome, outputOpened, records, warnings, visited) == Convert(input, dumps)
    ensures written == FileText(records, dumps)
  {
    records, warnings, visited, written := [], [], [], "";
    outputOpened := false;
    if input.NotJson? {
      outcome := Failed(InvalidJson);
      return;
    }
    var doc := input.doc;
    if !doc.JObject? {
      outcome := Failed(DocumentNotSubscriptable);
      return;
    }
    var found := Get(doc.members, "features");
    if found.None? {
      outcome := Failed(MissingFeaturesKey);
      return;
    }
    outputOpened := true;
    var iterated := Iterate(found.value);
    if iterated.None? {
      outcome := Failed(FeaturesNotIterable);
      return;
    }
    var abort;
    records, warnings, visited, written, abort := WriteFeatures(iterated.value, dumps);
    outcome := if abort.None? then Converted else Failed(abort.value);
  }

  /**
   * The `for obj in features` loop writing into the open output file. The
   * properties dict of each converted feature is updated in place, so
   * `visited` is the iterated sequence as the loop leaves it.
   */
  method WriteFeatures(items: seq<Json>, dumps: Json -> string)
    returns (records: seq<Dict>, warnings: seq<Warning>, visited: seq<Json>, written: string,
             abort: Option<Fatal>)
    ensures Pass(records, warnings, visited, abort) == Process(items, dumps)
    ensures written == FileText(records, dumps)
  {
    records, warnings, visited, written, abort := [], [], items, "", None;
    var i := 0;
    while i < |items|
      invariant 0 <= i <= |items| && |visited| == |items|
      invariant Resume(Pass(records, warnings, visited, None), items, i, LoopBody(dumps)) == Process(items, dumps)
      invariant written == FileText(records, dumps)
    {
      var obj := items[i];
      // lines 32-34: look up `properties`, then `geometry`, then assign into the properties dict
      var step: Visit;
      if !obj.JObject? {
        step := Faulted(FeatureNotSubscriptable);
      } else {
        var props := Get(obj.members, "properties");
        if props.None? {
          step := Skipped("properties");
        } else {
          var geometry := Get(obj.members, "geometry");
          if geometry.None? {
            step := Skipped("geometry");
          } else if !props.value.JObject? {
            step := Faulted(PropertiesNotAssignable);
          } else {
            var record := Put(props.value.members, "geometry", JString(dumps(geometry.value)));
            step := Emitted(record, JObject(Put(obj.members, "properties", JObject(record))));
          }
        }
      }
      assert step == LoopBody(dumps)(obj);
      match step {
        case Faulted(fault) =>
          abort := Some(FeatureError(i, fault));
          return;
        case Skipped(key) =>
          // lines 37-39: warn and continue
          warnings := warnings + [MissingKey(key)];
        case Emitted(record, updated) =>
          // lines 35-36: the updated properties dict becomes one line of the output
          visited := visited[i := updated];
          assert (records + [record])[..|records|] == records;
          records := records + [record];
          written := written + dumps(JObject(record)) + "\n";
      }
      i := i + 1;
    }
  }
}
