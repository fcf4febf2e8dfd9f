/** The detection-result shaping of run_detection and build_medical_context: the
    workflow result's nested prediction lists flattened into one list, and the first
    prediction turned into the context record the chatbot and the report read. */
module DetectionService {
  import opened Wrappers
  import opened JsonValue

  // ------------------------------------------------------------ dictionaries

  /** `d[k]` for a dictionary given as its assignments in order: the value of the
      last entry with key k, as a later assignment overwrites an earlier one. */
  function Lookup(entries: seq<(string, Json)>, k: string): Option<Json>
    decreases |entries|
  {
    if entries == [] then None
    else
      var n := |entries| - 1;
      if entries[n].0 == k then Some(entries[n].1) else Lookup(entries[..n], k)
  }

  /** `k in d`. */
  predicate HasKey(entries: seq<(string, Json)>, k: string) {
    Lookup(entries, k).Some?
  }

  /** `list(d)`: the keys in the order they were first assigned, each once. */
  function Keys(entries: seq<(string, Json)>): seq<string>
    decreases |entries|
  {
    if entries == [] then []
    else
      var n := |entries| - 1;
      var front := Keys(entries[..n]);
      if entries[n].0 in front then front else front + [entries[n].0]
  }

  /** `k in d` holds exactly when some entry has key k. */
  lemma {:induction false} HasKeySpec(entries: seq<(string, Json)>, k: string)
    ensures HasKey(entries, k) <==> exists i :: 0 <= i < |entries| && entries[i].0 == k
    decreases |entries|
  {
    if entries != [] {
      var n := |entries| - 1;
      HasKeySpec(entries[..n], k);
      if exists i :: 0 <= i < |entries| && entries[i].0 == k {
        var i :| 0 <= i < |entries| && entries[i].0 == k;
        if i < n {
          assert entries[..n][i] == entries[i];
        }
      }
    }
  }

  /** `d[k]` is the value of the last entry with key k. */
  lemma {:induction false} LookupLast(entries: seq<(string, Json)>, k: string)
    requires HasKey(entries, k)
    ensures exists i ::
              && 0 <= i < |entries| && entries[i] == (k, Lookup(entries, k).value)
              && forall j :: i < j < |entries| ==> entries[j].0 != k
    decreases |entries|
  {
    var n := |entries| - 1;
    var front := entries[..n];
    if entries[n].0 != k {
      assert Lookup(entries, k) == Lookup(front, k);
      LookupLast(front, k);
      var i :| && 0 <= i < n && front[i] == (k, Lookup(front, k).value)
               && forall j :: i < j < n ==> front[j].0 != k;
      assert entries[i] == front[i];
      assert forall j :: i < j < n ==> entries[j] == front[j];
      assert forall j :: i < j < |entries| ==> entries[j].0 != k;
    } else {
      assert entries[n] == (k, Lookup(entries, k).value);
    }
  }

  /** The keys of a dictionary are its entries' keys, each listed once. */
  lemma {:induction false} KeysSpec(entries: seq<(string, Json)>)
    ensures forall k :: k in Keys(entries) <==> exists i :: 0 <= i < |entries| && entries[i].0 == k
    ensures forall i, j :: 0 <= i < j < |Keys(entries)| ==> Keys(entries)[i] != Keys(entries)[j]
    decreases |entries|
  {
    if entries != [] {
      var n := |entries| - 1;
      KeysSpec(entries[..n]);
      assert forall i :: 0 <= i < n ==> entries[..n][i] == entries[i];
    }
  }

  // ------------------------------------------------------------ flattening

  /** The exception `list.extend` raises on a value it cannot iterate. */
  datatype FlattenError = NotIterable(value: Json)

  /** The value is a number, a boolean or null: Python cannot iterate it. */
  predicate IsScalar(v: Json) {
    v.JNull? || v.JBool? || v.JNumber?
  }

  /** The elements `list.extend(v)` appends: a list's elements, a dictionary's keys,
      a string's one-character strings; any other value raises TypeError. */
  function Iterate(v: Json): (r: Result<seq<Json>, FlattenError>)
    ensures r.Failure? <==> IsScalar(v)
    ensures r.Failure? ==> r.error == NotIterable(v)
    ensures v.JArray? ==> r == Success(v.elems)
    ensures v.JString? ==> r.Success? && |r.value| == |v.s|
    ensures v.JString? ==> forall i :: 0 <= i < |v.s| ==> r.value[i] == JString([v.s[i]])
    ensures v.JObject? ==> r.Success? && |r.value| == |Keys(v.entries)|
    ensures v.JObject? ==> forall i :: 0 <= i < |r.value| ==> r.value[i] == JString(Keys(v.entries)[i])
  {
    match v
    case JArray(es) => Success(es)
    case JString(s) => Success(seq(|s|, i requires 0 <= i < |s| => JString([s[i]])))
    case JObject(entries) =>
      var ks := Keys(entries);
      Success(seq(|ks|, i requires 0 <= i < |ks| => JString(ks[i])))
    case _ => Failure(NotIterable(v))
  }

  /** The item is a dictionary with "predictions" whose value is a dictionary with
      "predictions": the shape the loop takes a prediction list from. */
  predicate Contributes(item: Json) {
    item.JObject? && HasKey(item.entries, "predictions")
    && var data := Lookup(item.entries, "predictions").value;
    data.JObject? && HasKey(data.entries, "predictions")
  }

  /** `item["predictions"]["predictions"]` of a contributing item. */
  function Inner(item: Json): Json
    requires Contributes(item)
  {
    Lookup(Lookup(item.entries, "predictions").value.entries, "predictions").value
  }

  /** What one item adds to the predictions: the elements of its inner value, or
      nothing when the item does not have the expected shape. */
  function Contribution(item: Json): Result<seq<Json>, FlattenError> {
    if Contributes(item) then Iterate(Inner(item)) else Success([])
  }

  /** Running two steps one after the other: the first failure stops the loop,
      otherwise the elements add up. */
  function Then(a: Result<seq<Json>, FlattenError>, b: Result<seq<Json>, FlattenError>): (r: Result<seq<Json>, FlattenError>)
    ensures r.Success? <==> a.Success? && b.Success?
    ensures r.Success? ==> r.value == a.value + b.value
    ensures a.Failure? ==> r == a
    ensures a.Success? && b.Failure? ==> r == b
  {
    match a
    case Failure(_) => a
    case Success(x) =>
      match b
      case Failure(e) => Failure(e)
      case Success(y) => Success(x + y)
  }

  /** The loop over the items, as a function of the items read so far. */
  function FlattenItems(items: seq<Json>): Result<seq<Json>, FlattenError>
    decreases |items|
  {
    if items == [] then Success([])
    else Then(FlattenItems(items[..|items| - 1]), Contribution(items[|items| - 1]))
  }

  /** The predictions run_detection returns for a workflow result: nothing unless
      the result is a non-empty list. */
  function Flatten(result: Json): (r: Result<seq<Json>, FlattenError>)
    ensures !(result.JArray? && |result.elems| > 0) ==> r == Success([])
  {
    if result.JArray? && |result.elems| > 0 then FlattenItems(result.elems) else Success([])
  }

  /** The loop of run_detection: `predictions.extend(pred_data["predictions"])` for
      every item of the expected shape, in order; an item whose inner value cannot be
      iterated raises. */
  method FlattenPredictions(result: Json) returns (r: Result<seq<Json>, FlattenError>)
    ensures r == Flatten(result)
  {
    var predictions: seq<Json> := [];
    if result.JArray? && |result.elems| > 0 {
      var items := result.elems;
      var i := 0;
      while i < |items|
        invariant 0 <= i <= |items|
        invariant FlattenItems(items[..i]) == Success(predictions)
      {
        var item := items[i];
        FlattenStep(items, i);
        ThenUnit(Success(predictions));
        if item.JObject? && HasKey(item.entries, "predictions") {
          var data := Lookup(item.entries, "predictions").value;
          if data.JObject? && HasKey(data.entries, "predictions") {
            var added := Iterate(Lookup(data.entries, "predictions").value);
            assert added == Contribution(item);
            if added.Failure? {
              FlattenStops(items, i + 1);
              return Failure(added.error);
            }
            predictions := predictions + added.value;
          }
        }
        i := i + 1;
      }
      assert items[..|items|] == items;
    }
    return Success(predictions);
  }

  // ------------------------------------------------------------ properties of the flattening

  /** The empty list is the unit of Then on both sides. */
  lemma ThenUnit(x: Result<seq<Json>, FlattenError>)
    ensures Then(Success([]), x) == x && Then(x, Success([])) == x
  {
    if x.Success? {
      assert [] + x.value == x.value && x.value + [] == x.value;
    }
  }

  lemma ThenAssoc(x: Result<seq<Json>, FlattenError>, y: Result<seq<Json>, FlattenError>, z: Result<seq<Json>, FlattenError>)
    ensures Then(Then(x, y), z) == Then(x, Then(y, z))
  {
    if x.Success? && y.Success? && z.Success? {
      assert (x.value + y.value) + z.value == x.value + (y.value + z.value);
    }
  }

  /** One item alone contributes its contribution. */
  lemma FlattenSingle(x: Json)
    ensures FlattenItems([x]) == Contribution(x)
  {
    assert [x][..0] == [];
    ThenUnit(Contribution(x));
  }

  /** One turn of the loop adds the contribution of item i. */
  lemma FlattenStep(items: seq<Json>, i: nat)
    requires i < |items|
    ensures FlattenItems(items[..i + 1]) == Then(FlattenItems(items[..i]), Contribution(items[i]))
  {
    assert items[..i + 1][..i] == items[..i];
  }

  /** Flattening two runs of items is flattening the first, then the second. */
  lemma {:induction false} FlattenAppend(a: seq<Json>, b: seq<Json>)
    ensures FlattenItems(a + b) == Then(FlattenItems(a), FlattenItems(b))
    decreases |b|
  {
    if b == [] {
      assert a + b == a;
      ThenUnit(FlattenItems(a));
    } else {
      var n := |b| - 1;
      FlattenAppend(a, b[..n]);
      DropLast(a, b);
      ThenAssoc(FlattenItems(a), FlattenItems(b[..n]), Contribution(b[n]));
    }
  }

  lemma DropLast(a: seq<Json>, b: seq<Json>)
    requires b != []
    ensures (a + b)[..|a + b| - 1] == a + b[..|b| - 1]
    ensures (a + b)[|a + b| - 1] == b[|b| - 1]
  {
  }

  /** Once an item raises, the loop ends with that failure. */
  lemma FlattenStops(items: seq<Json>, k: nat)
    requires k <= |items| && FlattenItems(items[..k]).Failure?
    ensures FlattenItems(items) == FlattenItems(items[..k])
  {
    FlattenAppend(items[..k], items[k..]);
    assert items[..k] + items[k..] == items;
  }

  /** Items without the expected shape are skipped wherever they stand. */
  lemma SkipsOtherItems(a: seq<Json>, x: Json, b: seq<Json>)
    requires !Contributes(x)
    ensures FlattenItems(a + [x] + b) == FlattenItems(a + b)
  {
    FlattenAppend(a + [x], b);
    FlattenAppend(a, [x]);
    FlattenAppend(a, b);
    FlattenSingle(x);
    ThenUnit(FlattenItems(a));
  }

  /** The inner lists of the contributing items, concatenated front to back. */
  function InnerLists(items: seq<Json>): seq<Json>
    decreases |items|
  {
    if items == [] then []
    else
      var first := if Contributes(items[0]) && Inner(items[0]).JArray? then Inner(items[0]).elems else [];
      first + InnerLists(items[1..])
  }

  /** When every inner value is a list, the predictions are the in-order concatenation
      of the inner lists. */
  lemma {:induction false} FlattenIsConcat(items: seq<Json>)
    requires forall i :: 0 <= i < |items| && Contributes(items[i]) ==> Inner(items[i]).JArray?
    ensures FlattenItems(items) == Success(InnerLists(items))
    decreases |items|
  {
    if items != [] {
      var rest := items[1..];
      assert forall i :: 0 <= i < |rest| ==> rest[i] == items[i + 1];
      FlattenIsConcat(rest);
      FlattenAppend([items[0]], rest);
      assert [items[0]] + rest == items;
      FlattenSingle(items[0]);
    }
  }

  /** The item has the expected shape, but its inner value cannot be iterated. */
  predicate Raises(item: Json) {
    Contributes(item) && IsScalar(Inner(item))
  }

  /** The loop raises exactly when some item of the expected shape has a number, a
      boolean or null as its inner value. */
  lemma {:induction false} FlattenFails(items: seq<Json>)
    ensures FlattenItems(items).Failure? <==> exists i :: 0 <= i < |items| && Raises(items[i])
    decreases |items|
  {
    if items != [] {
      var n := |items| - 1;
      FlattenFails(items[..n]);
      RaisesSplit(items);
    }
  }

  /** Some item raises exactly when some item before the last one does or the last
      one does. */
  lemma RaisesSplit(items: seq<Json>)
    requires items != []
    ensures var n := |items| - 1;
      (exists i :: 0 <= i < |items| && Raises(items[i]))
        <==> (exists i :: 0 <= i < n && Raises(items[..n][i])) || Raises(items[n])
  {
    var n := |items| - 1;
    if exists i :: 0 <= i < |items| && Raises(items[i]) {
      var i :| 0 <= i < |items| && Raises(items[i]);
      if i < n {
        assert items[..n][i] == items[i];
      }
    }
    if exists i :: 0 <= i < n && Raises(items[..n][i]) {
      var i :| 0 <= i < n && Raises(items[..n][i]);
      assert items[..n][i] == items[i];
    }
  }

  // ------------------------------------------------------------ medical context

  /** A detection as the context reads it; a missing "width" is None. */
  datatype Prediction = Prediction(cls: string, confidence: real, width: Option<real>)

  /** The 'age' entry: the patient's age, or 'Not provided'. */
  datatype AgeField = Age(years: int) | NotProvided

  /** The dictionary build_medical_context returns: `{}` or the six entries. */
  datatype MedicalContext =
    | NoContext
    | Context(condition: string, confidence: real, confidenceLabel: string, boxArea: string,
              age: AgeField, visualFeatures: seq<string>)

  const VisualFeatures: seq<string> := ["Redness detected", "Inflammation visible", "Structural changes"]

  /** The confidence band of a percentage. */
  function ConfidenceLabel(confidence: real): (band: string)
    ensures band == "high" <==> confidence > 85.0
    ensures band == "moderate" <==> 60.0 < confidence <= 85.0
    ensures band == "low" <==> confidence <= 60.0
  {
    if confidence > 85.0 then "high" else if confidence > 60.0 then "moderate" else "low"
  }

  function LabelRank(band: string): nat {
    if band == "high" then 2 else if band == "moderate" then 1 else 0
  }

  /** A higher confidence never gets a lower band. */
  lemma LabelMonotone(c1: real, c2: real)
    requires c1 <= c2
    ensures LabelRank(ConfidenceLabel(c1)) <= LabelRank(ConfidenceLabel(c2))
  {
  }

  /** 'large' exactly when the width, counting a missing one as 0, exceeds 200. */
  function BoxArea(width: Option<real>): (area: string)
    ensures area == "large" <==> width.Some? && width.value > 200.0
    ensures area == "standard" <==> width.None? || width.value <= 200.0
  {
    if width.GetOr(0.0) > 200.0 then "large" else "standard"
  }

  /** `patient_age if patient_age else 'Not provided'`: an age of 0 is falsy too. */
  function AgeOf(patientAge: Option<int>): (a: AgeField)
    ensures a.NotProvided? <==> patientAge.None? || patientAge == Some(0)
    ensures a.Age? ==> a.years == patientAge.value && a.years != 0
  {
    match patientAge
    case Some(n) => if n != 0 then Age(n) else NotProvided
    case None => NotProvided
  }

  /** build_medical_context. */
  function BuildMedicalContext(predictions: seq<Prediction>, patientAge: Option<int>): (r: MedicalContext)
    ensures r.NoContext? <==> predictions == []
    ensures r.Context? ==> r.condition == predictions[0].cls
    ensures r.Context? ==> r.confidence == predictions[0].confidence * 100.0
    ensures r.Context? ==> r.visualFeatures == VisualFeatures
  {
    if predictions == [] then NoContext
    else
      var p := predictions[0];
      var confidence := p.confidence * 100.0;
      Context(p.cls, confidence, ConfidenceLabel(confidence), BoxArea(p.width), AgeOf(patientAge), VisualFeatures)
  }

  /** Only the first prediction is read: lists that agree on it give the same context. */
  lemma OnlyFirstPrediction(ps: seq<Prediction>, qs: seq<Prediction>, patientAge: Option<int>)
    requires ps != [] && qs != [] && ps[0] == qs[0]
    ensures BuildMedicalContext(ps, patientAge) == BuildMedicalContext(qs, patientAge)
  {
  }

  /** The context of a non-empty list, entry by entry, in terms of the first
      prediction's own numbers: the band and the box size follow the thresholds, and
      the age is kept exactly when it is non-zero. */
  lemma ContextEntries(predictions: seq<Prediction>, patientAge: Option<int>)
    requires predictions != []
    ensures var r, p := BuildMedicalContext(predictions, patientAge), predictions[0];
      && (r.confidenceLabel == "high" <==> p.confidence > 0.85)
      && (r.confidenceLabel == "moderate" <==> 0.60 < p.confidence <= 0.85)
      && (r.confidenceLabel == "low" <==> p.confidence <= 0.60)
      && (r.boxArea == "large" <==> p.width.Some? && p.width.value > 200.0)
      && (r.boxArea == "standard" <==> p.width.None? || p.width.value <= 200.0)
      && (r.age.NotProvided? <==> patientAge.None? || patientAge == Some(0))
      && (r.age.Age? ==> patientAge == Some(r.age.years))
  {
  }
}
