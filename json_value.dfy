/** Values that cross the service boundary: an Option for dictionary keys that
    may be missing, and the JSON-compatible values that the service stores and
    returns without interpreting them (metadata, timestamps, image paths). */
module JsonValue {

  datatype Option<+T> = None | Some(value: T) {
    /** The value, or `default` when absent (Python's `dict.get(key, default)`). */
    function GetOr(default: T): T {
      match this
      case Some(v) => v
      case None => default
    }
  }

  /** A JSON-compatible Python value. `JNull` is Python's `None`. */
  datatype Json =
    | JNull
    | JBool(b: bool)
    | JNum(n: real)
    | JStr(s: string)
    | JArr(items: seq<Json>)
    | JObj(fields: map<string, Json>)

  /** The empty dictionary `{}`. */
  const EmptyObject: Json := JObj(map[])
}
