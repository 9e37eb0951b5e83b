# Request-processing core of the user service, in Dafny

This project models the part of the Go user service that handles a request,
from the router handing it over to the bytes written back:

- the request wrapper (`web.Request`): path parameters stored on first write,
  last write wins; query parameters joined with `" | "` and cached on first use;
- the translation of JSON decode failures and validator field errors into one
  `ValidationError` with one flattened message, decode failures short-circuiting
  validation, and field display names taken from `json` tags;
- the error value (`customError`): code, description and status fixed at
  construction, a cause trail that `WithCause` extends in place, but only when
  it is already non-empty, and its `Error()` rendering;
- the dispatcher (`serve`, `ServeV1Endpoint`): path-parameter copying, the
  diagnostic pre-read that restores the body, the handler call, panic recovery
  into a 500 `internal_server_error`, the status (200 or the error's own), and
  the versioned success or error envelope;
- the HMAC authentication filter: three headers, a credential map, the
  signed message `nonce-serviceID`, lower-case hex comparison, and
  short-circuiting with a 401 on rejection;
- the credential-string parser `GetMapEnvConfig` (`id:secret|id:secret`);
- the user model: the `required` rules on `CreateUserRequest` and
  `User.PopulateData`.

Foreign code is a parameter:
- HMAC-SHA1 is a function from key and message to bytes;
- `json.Marshal` is a function that may fail;
- `json.Unmarshal` is a function to an object or an error text;
- the handler is a function from what it sees of the request to a result
  (`Returned(data, err)` or `Panicked(printed)`);
- the validator's outcome is its list of (field, tag, param) triples;
- the credential string `app.Env.AllowedOrigins` is passed in.

Objects that the Go code changes in place are classes:
- `HttpRequest`, whose `body` is drained and restored;
- `Request`, with its path-parameter store and query cache;
- `CustomError`, with its cause trail;
- `User`.

Loops that build values are methods proved against specification functions:
- `GetMapEnvConfig` against `CredentialMap`;
- `handleValidationErrors` against `ValidationErrorFor`;
- `QueryParams` against `JoinedQuery`;
- the parameter-copy loop of `serve` against `CopiedPathParams`.

Behaviours of the code worth knowing, all modelled as the code has them:

- On the panic path the dispatcher writes the status and the envelope, but it
  never sets `Content-Type: application/json`, because that header is set only
  after a normal return (app/middlewares/endpoint.go:64-72 against 77-79).
  `Dispatch.Respond` states this as `!jsonContentType` for a panic.
- The body pre-read happens in `serve` before the middleware chain runs, so it
  precedes authentication rather than following it.
- A service id that is not registered is not rejected as such: its key is
  `""` (app/middlewares/auth_middleware.go:49), and anyone can compute an HMAC
  under the empty key. `Auth.UnregisteredIdAcceptedUnderEmptyKey` proves that
  such a signature is accepted.
- The `required` rule rejects only the empty string. A username, password or
  email made of spaces passes (app/models/user.go:16-18), as
  `Users.BlankFieldsPass` shows.
- A field whose tag gives no name (no `json` tag, or `json:"-"`) is reported
  under its Go field name. This fallback belongs to the validator library,
  which keeps the Go name whenever the registered tag-name function returns `""`.
- `WithCause` on an error with an empty cause does nothing, so
  `ErrBadRequest(d).WithCause(c)` keeps an empty cause.

Files: `wrappers.dfy` (Option, Result), `strings.dfy` (Go's `strings.Split`
and `strings.Join`, `%d`), `json.dfy`, `errors.dfy`, `validation.dfy`,
`requests.dfy`, `controllers.dfy`, `envelope.dfy`, `dispatch.dfy`, `hex.dfy`,
`auth.dfy`, `env_config.dfy`, `users.dfy`.

## Model

| member | source | states |
|---|---|---|
| Json.ByteArray | app/lib/web/json_response.go:11-21 | the encoded bytes, or no bytes when encoding fails |
| Strings.Split | app/utils/env_config.go:9-10 | `strings.Split` on one character: at least one part, no part holds the separator, exactly one part iff the separator is absent |
| Strings.SplitJoin | app/utils/env_config.go:9-10 | splitting the join of separator-free parts gives the parts back |
| Strings.JoinSplit | app/utils/env_config.go:9-10 | joining the parts of a split with the separator gives the text back |
| Strings.SplitHead | app/utils/env_config.go:10 | the first part of a split is the text before the first separator |
| Strings.SplitSecond | app/utils/env_config.go:10 | the second part is the text after the first separator, up to the next one |
| Strings.SplitFirstTwo | app/utils/env_config.go:10 | with two parts or more, the text is the first part, the separator, the second part, then the end or another separator |
| Strings.Join | app/middlewares/auth_middleware.go:48 | `strings.Join`: no parts give `""` and one part is itself; `JoinPair` and `JoinCons` give the step for longer lists, for any separator |
| Strings.JoinPair | app/middlewares/auth_middleware.go:48 | `strings.Join` of two strings is the first, the separator, the second |
| Strings.JoinCons | app/lib/web/request.go:174 | for any separator, joining a head before one or more parts is the head, the separator, then the join of the rest |
| Strings.JoinEmpty | app/lib/web/request.go:174 | joining non-empty messages gives `""` only for no messages |
| Strings.IntToDecimal | app/lib/web/error.go:64-67 | `%d`: decimal digits with no leading zero whose value is the integer, after a `-` when negative |
| Strings.CanonicalDecimal | app/lib/web/error.go:64-67 | a numeral without leading zeros is the `%d` spelling of its value, so every number has one spelling |
| Requests.HttpRequest.constructor | app/lib/web/request.go:18-19 | the embedded request keeps the given headers, query and body |
| Requests.JoinedQuery | app/lib/web/request.go:93-95 | one entry per query key; no values give `""` and a single value is kept verbatim |
| Requests.TwoValuesJoined | app/lib/web/request.go:93-95 | a key with two values reads `a | b`, in the order sent |
| Requests.RepeatedKeyJoined | app/lib/web/request.go:93-95 | a key with several values reads its first value, ` | `, then the rest joined the same way |
| Requests.Request.constructor | app/lib/web/request.go:70-72 | `NewRequest` wraps the request with neither map allocated |
| Requests.Request.SetPathParam | app/lib/web/request.go:74-79 | the store (allocated if needed) maps `key` to `value`, later reads of `key` give `value`, every other key reads as before |
| Requests.Request.GetPathParam | app/lib/web/request.go:81-86 | the stored value, or `""` for a key never set, also before any store exists |
| Requests.Request.QueryParams | app/lib/web/request.go:88-97 | the first call fills the cache with the joined query, a later call returns the cache unchanged |
| Validation.TagName | app/lib/web/request.go:130-137 | the registered tag-name function: the tag text before its first comma, `""` exactly when that text is empty or `-` |
| Validation.DisplayName | app/lib/web/request.go:130-137 | the reported field name is the tag-name function's result, or the Go field name when that result is `""` |
| Validation.ErrInvalidType | app/lib/web/request.go:44-50 | type `InvalidType`, message "InvalidType for field: F. Expected: T", wrapping the error |
| Validation.ErrInvalidJson | app/lib/web/request.go:51-57 | type `InvalidJson`, message `InvalidJson: ` and the error's text, wrapping the error |
| Validation.ErrInvalidValue | app/lib/web/request.go:58-67 | `InvalidValue: ` and the message, or the wrapped error's text when the message is empty |
| Validation.FieldMessage | app/lib/web/request.go:157-172 | the message fixed for each of the six tags, and the generic message for any other tag |
| Validation.FieldMessages | app/lib/web/request.go:155-173 | one non-empty message per field error, in field-error order |
| Validation.ValidationErrorFor | app/lib/web/request.go:150-184 | each error kind gets its own type (`InvalidType`, `InvalidValue`, `InvalidJson`, `Unexpected`), in both directions, and wraps the error |
| Validation.InvalidValueMessage | app/lib/web/request.go:154-174 | field errors give `InvalidValue: ` and their messages joined with `, `, and the error's own text only when there are none |
| Validation.DecodeErrorMessages | app/lib/web/request.go:44-57 | type mismatches, syntax errors and other errors keep their fixed messages |
| Validation.HandleValidationErrors | app/lib/web/request.go:150-184 | the message-collecting loop gives exactly `ValidationErrorFor` |
| Validation.ParseAndValidateBody | app/lib/web/request.go:116-122 | a decode failure is classified without consulting the validator, otherwise the validator's verdict decides |
| Errors.ErrorCode.Text | app/lib/web/error.go:11-15 | every code has a non-empty wire spelling |
| Errors.CodeTextInjective | app/lib/web/error.go:11-15 | distinct codes have distinct spellings |
| Errors.ErrorValue.Error | app/lib/web/error.go:63-70 | `code: C description: D httpStatusCode: N cause: K` with N the status as `%d` spells it |
| Errors.StatusRenderingUnique | app/lib/web/error.go:64-67 | a status has exactly one rendering, so the `Error()` text is determined |
| Errors.AppendCause | app/lib/web/error.go:43-47 | a non-empty trail gains `:` and the cause, and an empty trail stays empty |
| Errors.CauseTrail | app/lib/web/error.go:43-49 | repeated `WithCause` calls build the colon-joined list of causes, or leave an empty trail empty |
| Errors.CustomError.constructor | app/lib/web/error.go:32-34 | `NewError` stores code, description, cause and status as given |
| Errors.CustomError.Value | app/lib/web/error.go:51-74 | the accessors read back code, description, cause and status as stored |
| Errors.CustomError.WithCause | app/lib/web/error.go:43-49 | only the cause changes, as `AppendCause` says, and the same object is returned |
| Errors.ErrBadRequest | app/lib/web/error.go:18 | a fresh error with code `bad_request`, the description, no cause, status 400 |
| Envelope.SuccessResponse | app/middlewares/endpoint.go:125-131 | exactly `success=true`, `data` (null for no payload) and `api_version` |
| Envelope.ErrorBody | app/middlewares/endpoint.go:136-139 | exactly `code` and `message`, holding the error's code text and its description |
| Envelope.ErrorResponse | app/middlewares/endpoint.go:133-142 | exactly `success=false`, `error={code, message}` and `api_version` |
| Envelope.BuildResponse | app/middlewares/endpoint.go:30-38 | `data` is present iff there is no error, `error` iff there is one, `success` says which |
| Envelope.BuilderChoosesEnvelope | app/middlewares/endpoint.go:31-37 | the builder gives the success envelope iff the error is nil |
| Envelope.ResponseCode | app/middlewares/endpoint.go:101-106 | 200 without an error, otherwise the error's own status |
| Envelope.EnvelopeRoundTrip | app/middlewares/endpoint.go:125-142 | reading an envelope back gives the payload, or the code and description, and the version |
| Envelope.ErrorEnvelopeHidesCauseAndStatus | app/middlewares/endpoint.go:133-142 | cause and status never reach the envelope |
| Dispatch.CopiedPathParams | app/middlewares/endpoint.go:53-56 | no parameters give an empty map, and the last parameter's key holds its value |
| Dispatch.RecoveredError | app/middlewares/endpoint.go:66-68 | code `internal_server_error`, the printed panic value, an empty cause, status 500 |
| Dispatch.PathParamsLastWins | app/middlewares/endpoint.go:53-56 | every router parameter is copied, and a repeated key holds its last value |
| Dispatch.PathParamKeys | app/middlewares/endpoint.go:53-56 | the copied keys are exactly the router parameters' keys |
| Dispatch.Respond | app/middlewares/endpoint.go:64-81 | a return gives status `responseCode`, the JSON content type and the built envelope; a panic gives 500, no content type and the recovered error's envelope |
| Dispatch.PanicBecomesInternalServerError | app/middlewares/endpoint.go:64-72 | a panic ends in status 500 and an `internal_server_error` envelope carrying the printed value |
| Dispatch.StatusMatchesEnvelope | app/middlewares/endpoint.go:74-81 | the status is 200 with a success envelope, or the error's status with its code and description |
| Dispatch.ReadRequestBody | app/middlewares/endpoint.go:108-123 | the body afterwards is the body before; a non-empty body is decoded, and an empty or absent one gives no payload and no error |
| Dispatch.Serve | app/middlewares/endpoint.go:51-92 | the handler sees every path parameter and the unchanged body, and its result alone decides the response |
| Dispatch.ServeV1Endpoint | app/middlewares/endpoint.go:26-28 | `serve` around the wrapped handler, with `api_version` 1 in every envelope |
| Hex.DigitValue | app/middlewares/auth_middleware.go:57 | only the 16 lower-case digits have a value, and it is the inverse of the digit for a nibble |
| Hex.EncodeToString | app/middlewares/auth_middleware.go:57 | two lower-case hex characters per byte |
| Hex.DecodeEncode | app/middlewares/auth_middleware.go:57 | decoding an encoding gives the bytes back |
| Hex.EncodeDecode | app/middlewares/auth_middleware.go:57 | whatever decodes is the encoding of its bytes |
| Hex.EncodingIff | app/middlewares/auth_middleware.go:57 | a string is the encoding of some bytes iff it decodes to them |
| Auth.GetReqHeader | app/middlewares/auth_middleware.go:35-41 | the header's first value, or `""` when absent or empty |
| Auth.SignedMessage | app/middlewares/auth_middleware.go:48 | the nonce, a hyphen, the service id |
| Auth.CalculateHmacSignature | app/middlewares/auth_middleware.go:54-58 | lower-case hex, twice the digest length, decoding back to the digest |
| Auth.ValidateHmacDigest | app/middlewares/auth_middleware.go:43-52 | accepts iff all three values are non-empty and the signature is the hex digest of `nonce-id` under the id's key (`""` if unregistered) |
| Auth.CorrectSignatureAccepted | app/middlewares/auth_middleware.go:43-52 | a correctly computed signature is accepted |
| Auth.UpperCaseSignatureRejected | app/middlewares/auth_middleware.go:51 | the comparison is case-sensitive: an upper-case hex letter always fails |
| Auth.Sha1SignatureLength | app/middlewares/auth_middleware.go:54-58 | with a 20-byte digest only 40-character signatures are accepted |
| Auth.UnregisteredIdAcceptedUnderEmptyKey | app/middlewares/auth_middleware.go:49-51 | an unregistered id is accepted with the HMAC computed under the empty key |
| Auth.UnauthorizedError | app/middlewares/auth_middleware.go:26-27 | code `unauthorized`, "Failed to authenticate", the id in the cause, status 401 |
| Auth.Authentic | app/middlewares/auth_middleware.go:21-25 | the request passes iff all three headers are present and the signature header is the hex HMAC of `nonce-id` under the id's parsed secret |
| Auth.AuthenticateWithHmacDigest | app/middlewares/auth_middleware.go:19-33 | a rejected request gets no data and the unauthorized error; an accepted one gets exactly the next handler's result |
| Auth.RejectionShortCircuits | app/middlewares/auth_middleware.go:25-28 | a rejected request gets no data and the unauthorized error, whatever the next handler does |
| Auth.AcceptanceIsTransparent | app/middlewares/auth_middleware.go:31 | an accepted request gets exactly the next handler's result |
| EnvConfig.SegmentEntry | app/utils/env_config.go:10-14 | a segment adds an entry iff it holds a `:`; the id is the text before the first `:`, the secret the text up to the next `:` or the end |
| EnvConfig.CredentialMap | app/utils/env_config.go:7-17 | the map of the string's segments, no key or secret holding `|` or `:` |
| EnvConfig.GetMapEnvConfig | app/utils/env_config.go:7-17 | the loop builds exactly `CredentialMap` |
| EnvConfig.NoSeparatorsInEntries | app/utils/env_config.go:9-14 | no key or secret built from `|`-free segments holds `|` or `:` |
| EnvConfig.LastSegmentWins | app/utils/env_config.go:9-14 | an id maps to the secret of its last segment |
| EnvConfig.OnlySegmentIds | app/utils/env_config.go:9-14 | every key comes from some segment holding a `:` |
| EnvConfig.EmptyStringNoCredentials | app/utils/env_config.go:10-13 | the empty string gives the empty map |
| EnvConfig.EmptyIdAccepted | app/utils/env_config.go:10-14 | `:s` maps `""` to `s` |
| EnvConfig.SingleSegment | app/utils/env_config.go:9-14 | a string without `|` is one segment: the map holds that segment's entry or is empty |
| EnvConfig.SecondFieldSecret | app/utils/env_config.go:10-14 | in `id:secret:extra` with `:`-free id and secret, the entry is exactly `(id, secret)` |
| EnvConfig.ThirdFieldDropped | app/utils/env_config.go:10-14 | `id:secret:extra` maps `id` to `secret`, whatever `extra` holds |
| EnvConfig.ThirdFieldDroppedExample | app/utils/env_config.go:10-14 | `a:b:c` maps `a` to `b` |
| EnvConfig.RenderParse | app/utils/env_config.go:7-17 | rendering `id:secret` pairs with `|` and parsing gives the pairs back, a later pair winning |
| Users.FailingPositions | app/models/user.go:15-19 | the positions of exactly the required fields left empty, in increasing order |
| Users.RequiredViolations | app/models/user.go:15-19 | one error per failing position; none iff every required field is filled |
| Users.RequiredViolationsAt | app/models/user.go:15-19 | the `k`-th error is the `required` failure of the `k`-th failing field, under that field's reported name |
| Users.HiddenFieldReportedByGoName | app/lib/web/request.go:130-137 | a required field tagged `-` is reported under its Go field name |
| Users.PlainTagName | app/lib/web/request.go:130-137 | a plain non-empty tag is its own reported name |
| Users.PlainFieldViolations | app/models/user.go:15-19 | for plain tags, the errors name exactly the empty required fields by tag, in order |
| Users.CreateUserViolations | app/models/user.go:15-19 | a `CreateUserRequest` gets one error per empty field, in field order |
| Users.CreateUserValidation | app/models/user.go:15-19 | validation passes iff no field is empty, otherwise the message lists "X is a required field" per empty field, in order |
| Users.BlankFieldsPass | app/models/user.go:16-18 | fields holding only spaces pass the `required` rules |
| Users.User.PopulateData | app/models/user.go:21-25 | email, password and username come from the request, and id, user id and timestamps are unchanged |

## Left out

- Logging (`logger.I`, `logger.E`, `log.Println`) is left out. It has no effect on results.
- `ioutil.ReadAll` read errors and partial reads are left out. A read yields the whole body.
- `Bind`'s closing of the body is left out.
- JSON decoding and encoding are parameters. So are HMAC-SHA1 (RFC 2104 over SHA-1, FIPS 180-4) and the `%v` printing of a panic value.
- The validator library's rules are left out. Its outcome is an input, except for the `required` rule on `CreateUserRequest`. The reflection behind `validate.Struct` is also left out.
- `panic(nil)` is left out. The model assumes Go before 1.21, where `recover` returns nil for it and no response is written. From Go 1.21 on, `recover` returns a `*runtime.PanicNilError` and `serve` writes a 500; the model does not cover that either.
- A handler that writes to the `http.ResponseWriter` itself is left out.
- Panics raised outside the handler are left out. This covers `SetPathParam` and the pre-read, which `serve` does not recover.
- The `ErrorInterface` accessors are read through `CustomError.Value()` and the `ErrorValue` datatype. Handlers return errors as values.
- `Json` numbers are integers. Floating-point JSON numbers are not modelled.
- `QueryParams`' traversal order is a choice. Go ranges over a map in random order, and the result does not depend on it.
- `RequestHeaderId`, route registration, configuration loading, the database and the controller and service layers are not part of this model.
- `User` timestamps are integers. `time.Time` is not modelled.
- Concurrency is not modelled. Each request is handled alone.
