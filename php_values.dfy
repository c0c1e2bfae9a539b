/** PHP value semantics that the services and the front controller rely on:
    nullable values, decoded JSON request bodies, and the truthiness rules
    behind `empty(...)`, `if ($x)` and `?:`. */
module PhpValues {

  datatype Option<+T> = None | Some(value: T)

  /** A value produced by `json_decode($body, true)`: objects become
      associative arrays, which are kept here as key/value maps. */
  datatype JsonValue =
    | JNull
    | JBool(b: bool)
    | JInt(i: int)
    | JString(s: string)
    | JList(items: seq<JsonValue>)
    | JObject(fields: map<string, JsonValue>)

  /** A string is falsy in PHP exactly when it is "" or "0". */
  predicate TruthyString(s: string) {
    s != "" && s != "0"
  }

  /** PHP's boolean conversion of a decoded JSON value. */
  predicate Truthy(v: JsonValue) {
    match v
    case JNull => false
    case JBool(b) => b
    case JInt(i) => i != 0
    case JString(s) => TruthyString(s)
    case JList(items) => items != []
    case JObject(fields) => fields != map[]
  }

  /** `empty($data[key])`: the key is missing, or its value is falsy. */
  predicate EmptyField(data: map<string, JsonValue>, key: string) {
    key !in data || !Truthy(data[key])
  }

  /** An exception thrown without a code carries code 0. */
  datatype Failure = Failure(message: string, code: int)

  datatype Outcome = Pass | Fail(failure: Failure)
}
