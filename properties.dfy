/**
 * What the feature-projection pass promises, stated against a reference
 * description that does not mention the loop: the features that convert
 * are the dict-valued features holding both `properties` and `geometry`;
 * each yields the projection of its properties; the loop stops at the
 * first feature that makes Python raise `TypeError`.
 */
module ConversionProperties {
  import opened Wrappers
  import opened Json
  import opened GeojsonToJsonl

  // ---------------------------------------------------------------------------
  // Reference description
  // ---------------------------------------------------------------------------

  /** The value under `key` of a dict-valued feature (`JNull` when absent). */
  function Field(obj: Json, key: string): Json {
    if obj.JObject? then
      match Get(obj.members, key)
      case Some(v) => v
      case None => JNull
    else JNull
  }

  /** A dict-valued feature that holds both keys the loop body reads. */
  predicate HasBoth(obj: Json) {
    obj.JObject? && "properties" in Keys(obj.members) && "geometry" in Keys(obj.members)
  }

  /** The feature raises `TypeError`: it is not a dict, or its properties cannot take a new key. */
  predicate Raises(obj: Json) {
    !obj.JObject? || (HasBoth(obj) && !Field(obj, "properties").JObject?)
  }

  /** The key a skipped feature is reported for: `properties` is looked up first. */
  function FirstMissing(obj: Json): string {
    if obj.JObject? && "properties" !in Keys(obj.members) then "properties" else "geometry"
  }

  /** The properties dict of a feature (empty when there is none). */
  function PropertiesOf(obj: Json): Dict {
    var props := Field(obj, "properties");
    if props.JObject? then props.members else []
  }

  /** The output record of a feature: its properties with the serialised geometry under `geometry`. */
  function Projection(obj: Json, dumps: Json -> string): Dict {
    Put(PropertiesOf(obj), "geometry", JString(dumps(Field(obj, "geometry"))))
  }

  /** A converted feature as the loop leaves it: its properties value is the record. */
  function Updated(obj: Json, dumps: Json -> string): Json {
    if obj.JObject? then JObject(Put(obj.members, "properties", JObject(Projection(obj, dumps)))) else obj
  }

  /** The index of the first feature that raises, or `|items|` when none does. */
  function FirstRaise(items: seq<Json>): (c: nat)
    ensures c <= |items|
    ensures forall j :: 0 <= j < c ==> !Raises(items[j])
    ensures c < |items| ==> Raises(items[c])
  {
    if items == [] then 0
    else if Raises(items[0]) then 0
    else 1 + FirstRaise(items[1..])
  }

  /** The features that convert, in input order. */
  function Complete(items: seq<Json>): seq<Json> {
    if items == [] then []
    else (if HasBoth(items[0]) then [items[0]] else []) + Complete(items[1..])
  }

  /** One warning per feature that lacks a key, in input order. */
  function Omissions(items: seq<Json>): seq<Warning> {
    if items == [] then []
    else (if HasBoth(items[0]) then [] else [MissingKey(FirstMissing(items[0]))]) + Omissions(items[1..])
  }

  /** The records of the given features. */
  function Projections(objs: seq<Json>, dumps: Json -> string): seq<Dict> {
    if objs == [] then [] else [Projection(objs[0], dumps)] + Projections(objs[1..], dumps)
  }

  /** The `k`-th record is the projection of the `k`-th feature. */
  lemma {:induction false} ProjectionsAt(objs: seq<Json>, dumps: Json -> string)
    ensures |Projections(objs, dumps)| == |objs|
    ensures forall k :: 0 <= k < |objs| ==> Projections(objs, dumps)[k] == Projection(objs[k], dumps)
  {
    if objs != [] {
      ProjectionsAt(objs[1..], dumps);
    }
  }

  // ---------------------------------------------------------------------------
  // One feature
  // ---------------------------------------------------------------------------

  /**
   * The loop body on one feature: it raises exactly when the reference says
   * so; otherwise it converts the features with both keys and reports the
   * first missing key of the others. A null (or any non-dict) properties
   * value is recovered only when `geometry` is missing as well.
   */
  lemma VisitFeatureCases(obj: Json, dumps: Json -> string)
    ensures VisitFeature(obj, dumps) == Faulted(FeatureNotSubscriptable) <==> !obj.JObject?
    ensures VisitFeature(obj, dumps) == Faulted(PropertiesNotAssignable) <==> obj.JObject? && Raises(obj)
    ensures !Raises(obj) && HasBoth(obj) ==>
              VisitFeature(obj, dumps) == Emitted(Projection(obj, dumps), Updated(obj, dumps))
    ensures !Raises(obj) && !HasBoth(obj) ==> VisitFeature(obj, dumps) == Skipped(FirstMissing(obj))
  {
  }

  /**
   * The record of a converted feature: `geometry` holds the serialised
   * geometry; every other property keeps its value and its position; an
   * existing `geometry` key is overwritten where it stands, a missing one is
   * added last; no key is duplicated.
   */
  lemma RecordContents(obj: Json, dumps: Json -> string)
    ensures var props, r := PropertiesOf(obj), Projection(obj, dumps);
            && Get(r, "geometry") == Some(JString(dumps(Field(obj, "geometry"))))
            && (forall k :: k != "geometry" ==> Get(r, k) == Get(props, k))
            && (forall i :: 0 <= i < |props| && props[i].key != "geometry" ==> r[i] == props[i])
            && ("geometry" in Keys(props) ==> |r| == |props| && Keys(r) == Keys(props))
            && ("geometry" !in Keys(props) ==> r == props + [Member("geometry", JString(dumps(Field(obj, "geometry"))))])
            && (DistinctKeys(props) ==> DistinctKeys(r))
  {
    var props := PropertiesOf(obj);
    var g := JString(dumps(Field(obj, "geometry")));
    PutGet(props, "geometry", g);
    PutKeys(props, "geometry", g);
    if DistinctKeys(props) {
      PutDistinct(props, "geometry", g);
    }
  }

  /**
   * A converted feature is changed in place: its keys and their order stay,
   * `properties` now holds the record, and every other member is untouched.
   */
  lemma UpdatedInPlace(obj: Json, dumps: Json -> string)
    requires HasBoth(obj)
    ensures Updated(obj, dumps).JObject?
    ensures Keys(Updated(obj, dumps).members) == Keys(obj.members)
    ensures Get(Updated(obj, dumps).members, "properties") == Some(JObject(Projection(obj, dumps)))
    ensures forall k :: k != "properties" ==> Get(Updated(obj, dumps).members, k) == Get(obj.members, k)
  {
    var v := JObject(Projection(obj, dumps));
    PutGet(obj.members, "properties", v);
    PutKeys(obj.members, "properties", v);
  }

  // ---------------------------------------------------------------------------
  // The loop, for any loop body
  // ---------------------------------------------------------------------------

  /** The index of the first feature on which `body` faults, or `|items|`. */
  function FirstFault(items: seq<Json>, body: Json -> Visit): (c: nat)
    ensures c <= |items|
    ensures forall j :: 0 <= j < c ==> !body(items[j]).Faulted?
    ensures c < |items| ==> body(items[c]).Faulted?
  {
    if items == [] then 0
    else if body(items[0]).Faulted? then 0
    else 1 + FirstFault(items[1..], body)
  }

  /** The records `body` emits for the given features, in order. */
  function Emits(items: seq<Json>, body: Json -> Visit): seq<Dict> {
    if items == [] then []
    else (if body(items[0]).Emitted? then [body(items[0]).record] else []) + Emits(items[1..], body)
  }

  /** The warnings `body` reports for the given features, in order. */
  function Skips(items: seq<Json>, body: Json -> Visit): seq<Warning> {
    if items == [] then []
    else (if body(items[0]).Skipped? then [MissingKey(body(items[0]).missing)] else []) + Skips(items[1..], body)
  }

  /** The records written from feature `i` on are those emitted up to the first fault. */
  lemma {:induction false} ResumeRecords(q: Pass, items: seq<Json>, i: nat, body: Json -> Visit)
    requires i <= FirstFault(items, body) && q.abort.None? && |q.visited| == |items|
    ensures Resume(q, items, i, body).records == q.records + Emits(items[i..FirstFault(items, body)], body)
    decreases |items| - i
  {
    var c := FirstFault(items, body);
    if i == c {
      if c < |items| {
        var q' := Advance(q, c, body(items[c]));
        assert Resume(q, items, c, body) == Resume(q', items, c + 1, body) == q';
      }
    } else {
      var v := body(items[i]);
      ResumeRecords(Advance(q, i, v), items, i + 1, body);
      assert items[i..c][0] == items[i] && items[i..c][1..] == items[i + 1..c];
      var head := if v.Emitted? then [v.record] else [];
      assert q.records + head + Emits(items[i + 1..c], body) == q.records + (head + Emits(items[i + 1..c], body));
    }
  }

  /** The warnings from feature `i` on are those reported up to the first fault. */
  lemma {:induction false} ResumeWarnings(q: Pass, items: seq<Json>, i: nat, body: Json -> Visit)
    requires i <= FirstFault(items, body) && q.abort.None? && |q.visited| == |items|
    ensures Resume(q, items, i, body).warnings == q.warnings + Skips(items[i..FirstFault(items, body)], body)
    decreases |items| - i
  {
    var c := FirstFault(items, body);
    if i == c {
      if c < |items| {
        var q' := Advance(q, c, body(items[c]));
        assert Resume(q, items, c, body) == Resume(q', items, c + 1, body) == q';
      }
    } else {
      var v := body(items[i]);
      ResumeWarnings(Advance(q, i, v), items, i + 1, body);
      assert items[i..c][0] == items[i] && items[i..c][1..] == items[i + 1..c];
      var head := if v.Skipped? then [MissingKey(v.missing)] else [];
      assert q.warnings + head + Skips(items[i + 1..c], body) == q.warnings + (head + Skips(items[i + 1..c], body));
    }
  }

  /** The loop from feature `i` on aborts exactly at the first fault. */
  lemma {:induction false} ResumeAbort(q: Pass, items: seq<Json>, i: nat, body: Json -> Visit)
    requires i <= FirstFault(items, body) && q.abort.None? && |q.visited| == |items|
    ensures var c := FirstFault(items, body);
            Resume(q, items, i, body).abort ==
              if c < |items| then Some(FeatureError(c, body(items[c]).fault)) else None
    decreases |items| - i
  {
    var c := FirstFault(items, body);
    if i == c {
      if c < |items| {
        var q' := Advance(q, c, body(items[c]));
        assert Resume(q, items, c, body) == Resume(q', items, c + 1, body) == q';
      }
    } else {
      ResumeAbort(Advance(q, i, body(items[i])), items, i + 1, body);
    }
  }

  /** The loop from feature `i` on updates in place exactly the features it emits, up to the first fault. */
  lemma {:induction false} ResumeVisited(q: Pass, items: seq<Json>, i: nat, body: Json -> Visit)
    requires i <= FirstFault(items, body) && q.abort.None? && |q.visited| == |items|
    requires forall j :: i <= j < |items| ==> q.visited[j] == items[j]
    ensures var p, c := Resume(q, items, i, body), FirstFault(items, body);
            && |p.visited| == |items|
            && (forall j :: 0 <= j < i ==> p.visited[j] == q.visited[j])
            && (forall j :: i <= j < |items| ==>
                  p.visited[j] == if j < c && body(items[j]).Emitted? then body(items[j]).updated else items[j])
    decreases |items| - i
  {
    var c := FirstFault(items, body);
    if i == c {
      if c < |items| {
        var q' := Advance(q, c, body(items[c]));
        assert Resume(q, items, c, body) == Resume(q', items, c + 1, body) == q';
      }
    } else {
      ResumeVisited(Advance(q, i, body(items[i])), items, i + 1, body);
    }
  }

  // ---------------------------------------------------------------------------
  // The loop of the source
  // ---------------------------------------------------------------------------

  /** The source's loop body faults first exactly where the first feature raises. */
  lemma {:induction false} FirstFaultIsFirstRaise(items: seq<Json>, dumps: Json -> string)
    ensures FirstFault(items, LoopBody(dumps)) == FirstRaise(items)
  {
    if items != [] {
      VisitFeatureCases(items[0], dumps);
      FirstFaultIsFirstRaise(items[1..], dumps);
    }
  }

  /** Before any raise, the source's loop body emits the projections of the features with both keys. */
  lemma {:induction false} EmitsAreProjections(items: seq<Json>, dumps: Json -> string)
    requires forall j :: 0 <= j < |items| ==> !Raises(items[j])
    ensures Emits(items, LoopBody(dumps)) == Projections(Complete(items), dumps)
  {
    if items != [] {
      VisitFeatureCases(items[0], dumps);
      EmitsAreProjections(items[1..], dumps);
      ProjectionsOfComplete(items, dumps);
    }
  }

  /** The records of a non-empty run of features: the first one's, then the others'. */
  lemma ProjectionsOfComplete(xs: seq<Json>, dumps: Json -> string)
    requires xs != []
    ensures Projections(Complete(xs), dumps) ==
            (if HasBoth(xs[0]) then [Projection(xs[0], dumps)] else []) + Projections(Complete(xs[1..]), dumps)
  {
    var rest := Complete(xs[1..]);
    if HasBoth(xs[0]) {
      var ys := Complete(xs);
      assert ys == [xs[0]] + rest;
      assert ys != [] && ys[0] == xs[0] && ys[1..] == rest;
      assert Projections(ys, dumps) == [Projection(ys[0], dumps)] + Projections(ys[1..], dumps);
    } else {
      assert Complete(xs) == rest;
    }
  }

  /** Before any raise, the source's loop body warns about the first missing key of every other feature. */
  lemma {:induction false} SkipsAreOmissions(items: seq<Json>, dumps: Json -> string)
    requires forall j :: 0 <= j < |items| ==> !Raises(items[j])
    ensures Skips(items, LoopBody(dumps)) == Omissions(items)
  {
    if items != [] {
      VisitFeatureCases(items[0], dumps);
      SkipsAreOmissions(items[1..], dumps);
    }
  }

  /**
   * The whole loop: it aborts exactly at the first feature that raises;
   * before that point, the records are the projections of the features with
   * both keys, in input order, the warnings name the first missing key of
   * the others, in input order, and the features after it are untouched.
   */
  lemma ProcessMatchesReference(items: seq<Json>, dumps: Json -> string)
    ensures var p, c := Process(items, dumps), FirstRaise(items);
            && (p.abort.None? <==> c == |items|)
            && (c < |items| ==> p.abort == Some(FeatureError(c,
                  if items[c].JObject? then PropertiesNotAssignable else FeatureNotSubscriptable)))
            && |p.records| == |Complete(items[..c])|
            && (forall k :: 0 <= k < |p.records| ==> p.records[k] == Projection(Complete(items[..c])[k], dumps))
            && p.warnings == Omissions(items[..c])
            && |p.visited| == |items|
            && (forall j :: 0 <= j < |items| ==>
                  p.visited[j] == if j < FirstRaise(items) && HasBoth(items[j]) then Updated(items[j], dumps) else items[j])
  {
    var c, body, q := FirstRaise(items), LoopBody(dumps), Pass([], [], items, None);
    FirstFaultIsFirstRaise(items, dumps);
    ResumeRecords(q, items, 0, body);
    ResumeWarnings(q, items, 0, body);
    ResumeAbort(q, items, 0, body);
    ResumeVisited(q, items, 0, body);
    assert items[0..c] == items[..c];
    EmitsAreProjections(items[..c], dumps);
    SkipsAreOmissions(items[..c], dumps);
    ProjectionsAt(Complete(items[..c]), dumps);
    forall j | 0 <= j < c {
      VisitFeatureCases(items[j], dumps);
    }
    if c < |items| {
      VisitFeatureCases(items[c], dumps);
    }
  }

  /** Without a feature that raises, every feature is either converted or warned about, never both. */
  lemma {:induction false} CompleteOrOmitted(items: seq<Json>)
    requires forall j :: 0 <= j < |items| ==> !Raises(items[j])
    ensures |Complete(items)| + |Omissions(items)| == |items|
  {
    if items != [] {
      CompleteOrOmitted(items[1..]);
    }
  }

  // ---------------------------------------------------------------------------
  // The run
  // ---------------------------------------------------------------------------

  /**
   * The errors that abort before the output file is opened are exactly the
   * parse error, a document that is not a dict, and a missing `features`
   * key, each reported exactly for its own kind of input; such a run writes
   * nothing and warns about nothing.
   */
  lemma FatalBeforeOutput(input: Loaded, dumps: Json -> string)
    ensures var r := Convert(input, dumps);
            && (!r.outputOpened <==>
                  r.outcome in {Failed(InvalidJson), Failed(DocumentNotSubscriptable), Failed(MissingFeaturesKey)})
            && (!r.outputOpened ==> r.records == [] && r.warnings == [])
            && (r.outcome == Failed(InvalidJson) <==> input.NotJson?)
            && (r.outcome == Failed(DocumentNotSubscriptable) <==> input.Parsed? && !input.doc.JObject?)
            && (r.outcome == Failed(MissingFeaturesKey) <==>
                  input.Parsed? && input.doc.JObject? && "features" !in Keys(input.doc.members))
  {
    var r := Convert(input, dumps);
    if r.outputOpened {
      var items := Iterate(Load(input).value);
      if items.Some? {
        ProcessMatchesReference(items.value, dumps);
      }
    }
  }

  /**
   * A collection whose `features` is a list: the run succeeds exactly when
   * no feature raises, and then it writes one line per feature holding
   * both keys, in input order, and one warning per other feature.
   */
  lemma FeatureListRun(members: Dict, items: seq<Json>, dumps: Json -> string)
    requires Get(members, "features") == Some(JArray(items))
    ensures var r := Convert(Parsed(JObject(members)), dumps);
            && r.outputOpened
            && (r.outcome == Converted <==> forall j :: 0 <= j < |items| ==> !Raises(items[j]))
            && (r.outcome == Converted ==>
                  && |r.records| == |Complete(items)|
                  && |r.records| + |r.warnings| == |items|
                  && (forall k :: 0 <= k < |r.records| ==> r.records[k] == Projection(Complete(items)[k], dumps))
                  && r.warnings == Omissions(items))
  {
    ProcessMatchesReference(items, dumps);
    var c := FirstRaise(items);
    if c == |items| {
      assert items[..c] == items;
      CompleteOrOmitted(items);
    }
  }

  /**
   * A `features` value that is a non-empty dict or string is iterated
   * anyway (keys and characters, each a string), so the run aborts on its
   * first element after the output file has been opened.
   */
  lemma NonListFeatures(members: Dict, features: Json, dumps: Json -> string)
    requires Get(members, "features") == Some(features)
    requires (features.JObject? && features.members != []) || (features.JString? && features.s != [])
    ensures var r := Convert(Parsed(JObject(members)), dumps);
            r == Run(Failed(FeatureError(0, FeatureNotSubscriptable)), true, [], [], Iterate(features).value)
  {
    var items := Iterate(features).value;
    ProcessMatchesReference(items, dumps);
    assert Raises(items[0]);
  }

  /** The number of newlines in a text. */
  function Newlines(text: string): nat {
    multiset(text)['\n']
  }

  /** Since `json.dumps` never emits a raw newline, the output file has one line per record. */
  lemma {:induction false} OneLinePerRecord(records: seq<Dict>, dumps: Json -> string)
    requires forall j :: '\n' !in dumps(j)
    ensures Newlines(FileText(records, dumps)) == |records|
  {
    if records != [] {
      var n := |records| - 1;
      OneLinePerRecord(records[..n], dumps);
      assert multiset(FileText(records, dumps)) ==
             multiset(FileText(records[..n], dumps)) + multiset(dumps(JObject(records[n]))) + multiset("\n");
    }
  }

  /**
   * The file only grows: the text of the first `k` records is a prefix of
   * the text of all of them, so the lines written before an abort stay in
   * the file.
   */
  lemma {:induction false} WrittenTextGrows(records: seq<Dict>, k: nat, dumps: Json -> string)
    requires k <= |records|
    ensures FileText(records[..k], dumps) <= FileText(records, dumps)
    decreases |records|
  {
    if k == |records| {
      assert records[..k] == records;
    } else {
      var n := |records| - 1;
      assert records[..n][..k] == records[..k];
      WrittenTextGrows(records[..n], k, dumps);
      assert FileText(records, dumps) == FileText(records[..n], dumps) + (dumps(JObject(records[n])) + "\n");
    }
  }

  /**
   * A two-feature collection whose second feature has no geometry: one line
   * is written, holding the first feature's name and its serialised
   * geometry, and one warning names `geometry`.
   */
  lemma TwoFeatureExample(dumps: Json -> string)
    ensures var point := JObject([Member("type", JString("Point")),
                                  Member("coordinates", JArray([JNumber("1"), JNumber("2")]))]);
            var a := JObject([Member("properties", JObject([Member("name", JString("A"))])), Member("geometry", point)]);
            var b := JObject([Member("properties", JObject([Member("name", JString("B"))]))]);
            var r := Convert(Parsed(JObject([Member("features", JArray([a, b]))])), dumps);
            && r.outcome == Converted
            && r.records == [[Member("name", JString("A")), Member("geometry", JString(dumps(point)))]]
            && r.warnings == [MissingKey("geometry")]
  {
    var point := JObject([Member("type", JString("Point")),
                          Member("coordinates", JArray([JNumber("1"), JNumber("2")]))]);
    var a := JObject([Member("properties", JObject([Member("name", JString("A"))])), Member("geometry", point)]);
    var b := JObject([Member("properties", JObject([Member("name", JString("B"))]))]);
    var members := [Member("features", JArray([a, b]))];
    assert Get(members, "features") == Some(JArray([a, b]));
    FeatureListRun(members, [a, b], dumps);
    assert Keys(a.members) == ["properties", "geometry"];
    assert Keys(b.members) == ["properties"];
    assert "geometry" != "properties" && "geometry" != "name";
    assert HasBoth(a) && !HasBoth(b) && !Raises(a) && !Raises(b);
    assert [a, b][1..] == [b] && [b][1..] == [];
    assert Complete([a, b]) == [a];
    assert Omissions([a, b]) == [MissingKey("geometry")];
    assert Keys([Member("name", JString("A"))]) == ["name"];
    assert Projection(a, dumps) == [Member("name", JString("A")), Member("geometry", JString(dumps(point)))];
  }
}
