/**
 * The versioned response envelope (app/middlewares/endpoint.go): pure
 * functions from a handler's payload or error to the JSON object written
 * back, and the status code that goes with it.
 */
module Envelope {
  import opened Wrappers
  import opened Json
  import opened Errors

  const APIVersionV1 := 1

  /** `ResponseBuilder`: payload and error in, envelope out. */
  type ResponseBuilder = (Option<JsonObject>, Option<ErrorValue>) -> JsonObject

  /** The `data` member: the payload object, or JSON `null` for a nil payload. */
  function DataValue(data: Option<JsonObject>): Json
  {
    match data
    case None => JNull
    case Some(obj) => JObject(obj)
  }

  /** `successResponse`: exactly `success`, `data` and `api_version`. */
  function SuccessResponse(version: int, data: Option<JsonObject>): (r: JsonObject)
    ensures r.Keys == {"success", "data", "api_version"}
    ensures r["success"] == JBool(true) && r["api_version"] == JNumber(version)
    ensures data.Some? ==> r["data"] == JObject(data.value)
    ensures data.None? ==> r["data"] == JNull
  {
    map["success" := JBool(true), "data" := DataValue(data), "api_version" := JNumber(version)]
  }

  /** The `error` member: the code and the description, and nothing else. */
  function ErrorBody(err: ErrorValue): (r: JsonObject)
    ensures r.Keys == {"code", "message"}
    ensures r["code"] == JString(err.Code()) && r["message"] == JString(err.description)
  {
    map["code" := JString(err.Code()), "message" := JString(err.description)]
  }

  /** `errorResponse`: exactly `success`, `error` and `api_version`; cause and status stay out of it. */
  function ErrorResponse(version: int, err: ErrorValue): (r: JsonObject)
    ensures r.Keys == {"success", "error", "api_version"}
    ensures r["success"] == JBool(false) && r["api_version"] == JNumber(version)
    ensures r["error"] == JObject(map["code" := JString(err.code.Text()), "message" := JString(err.description)])
  {
    map["success" := JBool(false), "error" := JObject(ErrorBody(err)), "api_version" := JNumber(version)]
  }

  /** The builder of `buildResponseBuilder(version)`, applied. */
  function BuildResponse(version: int, data: Option<JsonObject>, err: Option<ErrorValue>): (r: JsonObject)
    ensures "success" in r && r["success"] == JBool(err.None?)
    ensures "data" in r <==> err.None?
    ensures "error" in r <==> err.Some?
    ensures "api_version" in r && r["api_version"] == JNumber(version)
  {
    match err
    case None => SuccessResponse(version, data)
    case Some(e) => ErrorResponse(version, e)
  }

  /** `buildResponseBuilder(version)`. */
  function BuildResponseBuilder(version: int): ResponseBuilder
  {
    (data: Option<JsonObject>, err: Option<ErrorValue>) => BuildResponse(version, data, err)
  }

  /** The builder yields the success envelope exactly when there is no error, and the error envelope otherwise. */
  lemma BuilderChoosesEnvelope(version: int, data: Option<JsonObject>, err: Option<ErrorValue>)
    ensures err.None? ==> BuildResponseBuilder(version)(data, err) == SuccessResponse(version, data)
    ensures err.Some? ==> BuildResponseBuilder(version)(data, err) == ErrorResponse(version, err.value)
  {
  }

  /** `responseCode`: 200 without an error, otherwise the error's own status. */
  function ResponseCode(err: Option<ErrorValue>): (status: int)
    ensures err.None? ==> status == StatusOK
    ensures err.Some? ==> status == err.value.httpStatusCode
  {
    match err
    case None => StatusOK
    case Some(e) => e.httpStatusCode
  }

  /** What a client can read back out of an envelope. */
  datatype Outcome =
    | Succeeded(data: Json, version: int)
    | Failed(code: string, message: string, version: int)

  /** Reads an envelope the way a client would; `None` for anything not shaped like one. */
  function ReadEnvelope(env: JsonObject): Option<Outcome>
  {
    if "success" !in env || "api_version" !in env || !env["api_version"].JNumber? then None
    else if env["success"] == JBool(true) && "data" in env then
      Some(Succeeded(env["data"], env["api_version"].n))
    else if env["success"] == JBool(false) && "error" in env && env["error"].JObject? then
      var e := env["error"].fields;
      if "code" in e && e["code"].JString? && "message" in e && e["message"].JString? then
        Some(Failed(e["code"].s, e["message"].s, env["api_version"].n))
      else None
    else None
  }

  /** Reading an envelope back yields exactly the payload or error code and message, and the version, it was built from. */
  lemma EnvelopeRoundTrip(version: int, data: Option<JsonObject>, err: Option<ErrorValue>)
    ensures err.None? ==> ReadEnvelope(BuildResponse(version, data, err)) == Some(Succeeded(DataValue(data), version))
    ensures err.Some? ==>
              ReadEnvelope(BuildResponse(version, data, err)) ==
              Some(Failed(err.value.Code(), err.value.description, version))
  {
  }

  /** Two errors that differ only in cause and status produce the same envelope: neither reaches the wire. */
  lemma ErrorEnvelopeHidesCauseAndStatus(version: int, e1: ErrorValue, e2: ErrorValue)
    requires e1.code == e2.code && e1.description == e2.description
    ensures ErrorResponse(version, e1) == ErrorResponse(version, e2)
  {
  }
}
