/**
 * An already-parsed JSON value, as `json.loads` hands it to the scripts.
 * An object keeps its members in document order (Python dicts preserve
 * insertion order); numbers are kept as integers.
 */
module JsonValue {

  datatype Json =
    | JNull
    | JBool(b: bool)
    | JNum(n: int)
    | JStr(s: string)
    | JArr(elems: seq<Json>)
    | JObj(fields: seq<(string, Json)>)

  /** Neither a dict nor a list: `isinstance(v, (dict, list))` is false. */
  predicate IsScalar(j: Json)
  {
    !j.JArr? && !j.JObj?
  }
}
