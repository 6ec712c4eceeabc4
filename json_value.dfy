/**
 * A decoded JSON body as PHP's `json_decode` (objects mode) yields it, with
 * the PHP rules for reading a property and for truthiness.
 */
module JsonValue {

  /** JSON objects become objects, JSON arrays become PHP arrays. */
  datatype Json =
    | JNull
    | JBool(b: bool)
    | JInt(i: int)
    | JReal(r: real)
    | JString(s: string)
    | JArray(items: seq<Json>)
    | JObject(fields: map<string, Json>)

  /** `$j->name`: the property of an object, and null for a missing
      property or for a value that is not an object (PHP reads those as null
      with a warning). */
  function Property(j: Json, name: string): (r: Json)
    ensures r != JNull ==> j.JObject? && name in j.fields && j.fields[name] == r
    ensures j.JObject? && name in j.fields ==> r == j.fields[name]
  {
    if j.JObject? && name in j.fields then j.fields[name] else JNull
  }

  /** `isset($j->name)`: the property exists and is not null. */
  predicate IsSet(j: Json, name: string) {
    Property(j, name) != JNull
  }

  /** PHP's conversion to bool: null, false, 0, 0.0, "", "0" and the empty
      array are false; everything else, every object included, is true. */
  predicate Truthy(j: Json) {
    match j
    case JNull => false
    case JBool(b) => b
    case JInt(i) => i != 0
    case JReal(r) => r != 0.0
    case JString(s) => s != "" && s != "0"
    case JArray(items) => items != []
    case JObject(_) => true
  }
}
