/** JSON values as `json.load` hands them to the program (objects are dicts, numbers int or float). */
module Json {
  import opened Wrappers

  datatype JValue =
    | JNull
    | JBool(b: bool)
    | JInt(i: int)
    | JFloat(f: real)
    | JString(s: string)
    | JArray(items: seq<JValue>)
    | JObject(fields: map<string, JValue>)

  /** A configuration document: the top-level JSON object of config.json. */
  type Document = map<string, JValue>

  /** `d.get(key)` followed by an `is not None` test: an absent key and an explicit JSON null
      both give None. */
  function Get(d: map<string, JValue>, key: string): (r: Option<JValue>)
    ensures r.Some? <==> key in d && d[key] != JNull
    ensures r.Some? ==> r.value == d[key]
  {
    if key in d && d[key] != JNull then Some(d[key]) else None
  }

  /** Python truthiness of a decoded JSON value. */
  predicate Truthy(v: JValue)
    ensures !Truthy(v) <==> v in {JNull, JBool(false), JInt(0), JFloat(0.0), JString(""), JArray([]), JObject(map[])}
  {
    match v
    case JNull => false
    case JBool(b) => b
    case JInt(i) => i != 0
    case JFloat(f) => f != 0.0
    case JString(s) => s != []
    case JArray(items) => items != []
    case JObject(fields) => fields != map[]
  }
}
