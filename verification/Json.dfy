/** JSON values, as Go's `any` sees them after `json.Unmarshal`.  Encoding and decoding are taken
    as an inverse pair; the text form is not part of this model. */
module Json {

  datatype Json =
    | Null
    | Bool(b: bool)
    | Number(n: int)
    | Str(s: string)
    | Arr(items: seq<Json>)
    | Obj(fields: map<string, Json>)
}
