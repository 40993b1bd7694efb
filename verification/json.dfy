/** JSON values, used for schema fragments. Objects keep their keys in
    insertion order, as Python dicts do when dumped. */
module Json {
  import opened Wrappers
  import opened Dicts

  datatype Json =
    | JNull
    | JBool(b: bool)
    | JInt(n: int)
    | JStr(s: string)
    | JArr(items: seq<Json>)
    | JObj(fields: Dict<string, Json>)

  /** `obj.get(key)` on an object; `None` for a missing key or a non-object. */
  function Field(j: Json, key: string): Option<Json>
  {
    if j.JObj? then Get(j.fields, key) else None
  }
}
