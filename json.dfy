/** JSON values as `JSON.parse` produces them and as the HTTP layer carries them. */
module Json {

  /** A parsed JSON value. Objects are modelled as maps from key to value, so
      the insertion order of their keys is not kept. */
  datatype Json =
    | JNull
    | JBool(b: bool)
    | JNum(n: real)
    | JStr(s: string)
    | JArr(items: seq<Json>)
    | JObj(fields: map<string, Json>)

  /** The name that zod gives to the type of a parsed value in its issues. */
  function TypeName(v: Json): (name: string)
    ensures name == "object" <==> v.JObj?
    ensures name == "string" <==> v.JStr?
    ensures name != "undefined"
  {
    match v
    case JNull => "null"
    case JBool(_) => "boolean"
    case JNum(_) => "number"
    case JStr(_) => "string"
    case JArr(_) => "array"
    case JObj(_) => "object"
  }
}
