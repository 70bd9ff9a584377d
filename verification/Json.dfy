/** Decoded JSON values, as encoding/json hands them to the policy code. */
module Json {
  import opened Numbers

  datatype Json =
    | Null
    | Bool(b: bool)
    | Num(n: Number)
    | Str(s: string)
    | Arr(items: seq<Json>)
    | Obj(fields: map<string, Json>)
}
