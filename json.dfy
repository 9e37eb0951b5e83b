/**
 * JSON values and `web.JSONResponse` (app/lib/web/json_response.go): a
 * string-keyed object of arbitrary JSON values. Serialisation is the foreign
 * `json.Marshal`, given as a function that may fail.
 */
module Json {
  import opened Wrappers
  import opened Strings

  datatype Json =
    | JNull
    | JBool(b: bool)
    | JNumber(n: int)
    | JString(s: string)
    | JArray(items: seq<Json>)
    | JObject(fields: map<string, Json>)

  /** `web.JSONResponse`. */
  type JsonObject = map<string, Json>

  /** `json.Marshal`, which may fail (`None`). */
  type Marshal = JsonObject -> Option<seq<byte>>

  /** `JSONResponse.ByteArray`: the encoded bytes, or no bytes at all when encoding fails (the failure is only logged). */
  function ByteArray(marshal: Marshal, r: JsonObject): (bytes: seq<byte>)
    ensures marshal(r).Some? ==> bytes == marshal(r).value
    ensures marshal(r).None? ==> bytes == []
  {
    match marshal(r)
    case Some(bytes) => bytes
    case None => []
  }
}
