/** JSON values, as stored in the metadata and outputs columns and exchanged with the kernel. */
module JsonValue {

  datatype Json =
    | Null
    | Bool(b: bool)
    | Num(n: int)
    | Str(s: string)
    | Arr(items: seq<Json>)
    | Obj(fields: map<string, Json>)

  /** A JSON object, such as one output record or a cell's metadata. */
  type Object = map<string, Json>
}
