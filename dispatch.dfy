/**
 * The per-request dispatcher (app/middlewares/endpoint.go): wraps the
 * transport request, copies the router's path parameters in, pre-reads and
 * restores the body, calls the handler, turns a panic into an internal
 * server error, and writes status, header and envelope.
 */
module Dispatch {
  import opened Wrappers
  import opened Strings
  import opened Json
  import opened Errors
  import opened Requests
  import opened Controllers
  import opened Envelope

  /** `httprouter.Param`. */
  datatype Param = Param(key: string, value: string)

  /** `json.Unmarshal` into a generic map: a decode error, or the object (`None` for JSON `null`). */
  type Unmarshal = seq<byte> -> Result<Option<JsonObject>, string>

  /**
   * What the client receives: the status passed to `WriteHeader`, whether
   * `Content-Type: application/json` was set first, the envelope that was
   * serialised and the bytes written.
   */
  datatype Response = Response(status: int, jsonContentType: bool, envelope: JsonObject, body: seq<byte>)

  /** The path parameters after copying `ps` in order: a later value for a repeated key wins. */
  function CopiedPathParams(ps: seq<Param>): (m: map<string, string>)
    ensures ps == [] ==> m == map[]
    ensures ps != [] ==> ps[|ps| - 1].key in m && m[ps[|ps| - 1].key] == ps[|ps| - 1].value
  {
    if ps == [] then map[]
    else CopiedPathParams(ps[..|ps| - 1])[ps[|ps| - 1].key := ps[|ps| - 1].value]
  }

  /** Every router parameter's key is present, nothing else is, and each key holds the value of its last occurrence. */
  lemma {:induction false} PathParamsLastWins(ps: seq<Param>, i: nat)
    requires i < |ps|
    requires forall j :: i < j < |ps| ==> ps[j].key != ps[i].key
    ensures ps[i].key in CopiedPathParams(ps)
    ensures CopiedPathParams(ps)[ps[i].key] == ps[i].value
  {
    if i < |ps| - 1 {
      PathParamsLastWins(ps[..|ps| - 1], i);
    }
  }

  /** The keys of the copied map are exactly the router parameters' keys. */
  lemma {:induction false} PathParamKeys(ps: seq<Param>)
    ensures forall k :: k in CopiedPathParams(ps) <==> exists i :: 0 <= i < |ps| && ps[i].key == k
  {
    if ps != [] {
      var init := ps[..|ps| - 1];
      PathParamKeys(init);
      forall k | k in CopiedPathParams(ps) && k != ps[|ps| - 1].key
        ensures exists i :: 0 <= i < |ps| && ps[i].key == k
      {
        assert k in CopiedPathParams(init);
        var i :| 0 <= i < |init| && init[i].key == k;
        assert ps[i].key == k;
      }
      forall k | exists i :: 0 <= i < |ps| && ps[i].key == k
        ensures k in CopiedPathParams(ps)
      {
        var i :| 0 <= i < |ps| && ps[i].key == k;
        if i < |init| {
          assert init[i].key == k;
        }
      }
    }
  }

  /** The error a recovered panic becomes: code `internal_server_error`, the printed value, no cause, status 500. */
  function RecoveredError(printed: string): (e: ErrorValue)
    ensures e.Code() == "internal_server_error" && e.description == printed
    ensures e.cause == "" && e.httpStatusCode == 500
  {
    ErrorValue(InternalServerError, printed, "", StatusInternalServerError)
  }

  /** The response `serve` produces once the handler has ended with `result`. */
  function Respond(responseBuilder: ResponseBuilder, result: HandlerResult, marshal: Marshal): (resp: Response)
    ensures resp.body == ByteArray(marshal, resp.envelope)
    ensures result.Returned? ==>
              resp.status == ResponseCode(result.err) && resp.jsonContentType &&
              resp.envelope == responseBuilder(result.data, result.err)
    ensures result.Panicked? ==>
              resp.status == StatusInternalServerError && !resp.jsonContentType &&
              resp.envelope == responseBuilder(None, Some(RecoveredError(result.printed)))
  {
    match result
    case Returned(data, err) =>
      var env := responseBuilder(data, err);
      Response(ResponseCode(err), true, env, ByteArray(marshal, env))
    case Panicked(printed) =>
      var env := responseBuilder(None, Some(RecoveredError(printed)));
      Response(StatusInternalServerError, false, env, ByteArray(marshal, env))
  }

  /**
   * A panic of any kind ends in exactly one internal-server-error envelope
   * carrying the printed panic value, with status 500.
   */
  lemma PanicBecomesInternalServerError(version: int, printed: string, marshal: Marshal)
    ensures Respond(BuildResponseBuilder(version), Panicked(printed), marshal).status == 500
    ensures ReadEnvelope(Respond(BuildResponseBuilder(version), Panicked(printed), marshal).envelope) ==
            Some(Failed("internal_server_error", printed, version))
  {
    EnvelopeRoundTrip(version, None, Some(RecoveredError(printed)));
  }

  /**
   * For a handler that returns, the status is 200 exactly when the envelope
   * reports success, unless the error itself carries status 200.
   */
  lemma StatusMatchesEnvelope(version: int, data: Option<JsonObject>, err: Option<ErrorValue>, marshal: Marshal)
    ensures var resp := Respond(BuildResponseBuilder(version), Returned(data, err), marshal);
            (err.None? ==> resp.status == 200 && ReadEnvelope(resp.envelope) == Some(Succeeded(DataValue(data), version))) &&
            (err.Some? ==> resp.status == err.value.httpStatusCode &&
                           ReadEnvelope(resp.envelope) == Some(Failed(err.value.Code(), err.value.description, version)))
  {
    EnvelopeRoundTrip(version, data, err);
  }

  /**
   * `readRequestBody`: drains the body and, when it was not empty, puts a
   * buffer with the same bytes in its place, so a later read sees the same
   * content; then tries to decode it as a JSON object.
   */
  method ReadRequestBody(req: HttpRequest, unmarshal: Unmarshal) returns (payload: Option<JsonObject>, decodeErr: Option<string>)
    modifies req`body
    ensures req.body == old(req.body)
    ensures old(req.body).Some? && |old(req.body).value| != 0 ==>
              match unmarshal(old(req.body).value)
              case Failure(e) => payload == None && decodeErr == Some(e)
              case Success(obj) => payload == obj && decodeErr == None
    ensures !(old(req.body).Some? && |old(req.body).value| != 0) ==> payload == None && decodeErr == None
  {
    payload, decodeErr := None, None;
    if req.body.Some? {
      var body := req.body.value;
      req.body := Some([]);
      if |body| != 0 {
        req.body := Some(body);
        match unmarshal(body) {
          case Failure(e) =>
            return None, Some(e);
          case Success(obj) =>
            payload := obj;
        }
      }
    }
  }

  /**
   * `serve`: the handler sees the request with every router parameter
   * copied in and the body unchanged; its result decides the response, and
   * the diagnostic decode of the body never does.
   */
  method Serve(responseBuilder: ResponseBuilder, handler: Controller, req: HttpRequest, ps: seq<Param>,
               unmarshal: Unmarshal, marshal: Marshal)
    returns (resp: Response)
    modifies req`body
    ensures req.body == old(req.body)
    ensures resp == Respond(responseBuilder,
                            handler(RequestView(req.header, req.urlQuery, CopiedPathParams(ps), req.body)),
                            marshal)
  {
    var webReq := new Request(req);
    for i := 0 to |ps|
      invariant webReq.raw == req
      invariant webReq.PathParamMap() == CopiedPathParams(ps[..i])
      invariant req.body == old(req.body)
    {
      assert ps[..i + 1][..i] == ps[..i];
      webReq.SetPathParam(ps[i].key, ps[i].value);
    }
    assert ps[..|ps|] == ps;

    // The decode outcome is only logged.
    var _, _ := ReadRequestBody(req, unmarshal);

    var result := handler(webReq.View());
    match result {
      case Panicked(printed) =>
        var err := new CustomError(InternalServerError, printed, "", StatusInternalServerError);
        var env := responseBuilder(None, Some(err.Value()));
        resp := Response(err.httpStatusCode, false, env, ByteArray(marshal, env));
      case Returned(data, responseErr) =>
        var code := ResponseCode(responseErr);
        var env := responseBuilder(data, responseErr);
        resp := Response(code, true, env, ByteArray(marshal, env));
    }
  }

  /** `ServeV1Endpoint`: `serve` with envelopes of API version 1 around the middleware-wrapped handler. */
  method ServeV1Endpoint(middleware: Middleware, handler: Controller, req: HttpRequest, ps: seq<Param>,
                         unmarshal: Unmarshal, marshal: Marshal)
    returns (resp: Response)
    modifies req`body
    ensures req.body == old(req.body)
    ensures resp == Respond(BuildResponseBuilder(APIVersionV1),
                            middleware(handler)(RequestView(req.header, req.urlQuery, CopiedPathParams(ps), req.body)),
                            marshal)
    ensures "api_version" in resp.envelope && resp.envelope["api_version"] == JNumber(1)
  {
    resp := Serve(BuildResponseBuilder(APIVersionV1), middleware(handler), req, ps, unmarshal, marshal);
  }
}
