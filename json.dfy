/** The value a JSON decoder (Python's json.loads) produces. */
module JsonValue {

  /** A decoded JSON value. Numbers are exact reals; an object is the sequence of its
      key-value assignments in the order they appear, which may repeat a key (reading a
      key then takes its last value). */
  datatype Json =
    | JNull
    | JBool(b: bool)
    | JNumber(n: real)
    | JString(s: string)
    | JArray(elems: seq<Json>)
    | JObject(entries: seq<(string, Json)>)

  /** The empty mapping `{}`. */
  const EmptyObject: Json := JObject([])
}
