/**
 * Decoded JSON values as the modules see them after `json.loads`, and Python's
 * truthiness of such a value (what `if x:` tests). Python's None is `JNull`.
 */
module JsonValues {

  datatype Json =
    | JNull
    | JBool(b: bool)
    | JNum(n: int)
    | JStr(s: string)
    | JArr(items: seq<Json>)
    | JObj(fields: map<string, Json>)

  /** Python truthiness: None, False, 0, "", [] and {} are false, everything else is true. */
  predicate Truthy(j: Json)
  {
    match j
    case JNull => false
    case JBool(b) => b
    case JNum(n) => n != 0
    case JStr(s) => s != ""
    case JArr(items) => items != []
    case JObj(fields) => fields != map[]
  }
}
