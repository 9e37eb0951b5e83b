/**
 * Body decoding and validation failures (app/lib/web/request.go): how a JSON
 * decode error or the validator's field errors become one `ValidationError`
 * with a single flattened message. JSON decoding and the validator library
 * are foreign: their outcomes are inputs here.
 */
module Validation {
  import opened Wrappers
  import opened Strings

  /** One failed rule as the validator reports it: `Field()` (display name), `Tag()` and `Param()`. */
  datatype FieldError = FieldError(field: string, tag: string, param: string)

  /** The errors `handleValidationErrors` can be handed, each with the text its `Error()` prints. */
  datatype GoError =
    | UnmarshalTypeError(field: string, expected: string, text: string)  // *json.UnmarshalTypeError
    | SyntaxError(text: string)                                          // *json.SyntaxError
    | ValidationErrors(fieldErrors: seq<FieldError>, text: string)       // validator.ValidationErrors
    | OtherError(text: string)                                           // anything else
  {
    function Error(): string
    {
      text
    }
  }

  /** `ValidationError`: its `Type()`, its `Error()` message and the error it wraps (`Unwrap()`). */
  datatype ValidationError = ValidationError(errorType: string, message: string, err: GoError)

  const UnexpectedErr := "Unexpected"

  /**
   * The tag-name function registered with the validator: the `json` tag text
   * before its first comma, except that the name `-` becomes `""`.
   */
  function TagName(jsonTag: string): (name: string)
    ensures ',' !in name
    ensures name != "" ==> name <= jsonTag && (|name| == |jsonTag| || jsonTag[|name|] == ',')
    ensures name == "" <==> IndexOf(jsonTag, ',') == 0 || jsonTag[..IndexOf(jsonTag, ',')] == "-"
  {
    var name := jsonTag[..IndexOf(jsonTag, ',')];
    assert forall i :: 0 <= i < |name| ==> name[i] != ',';
    if name == "-" then "" else name
  }

  /**
   * The name the validator reports for a field (`Field()`): what the
   * tag-name function returns, unless that is empty, in which case the Go
   * field name is kept.
   */
  function DisplayName(goName: string, jsonTag: string): (name: string)
    ensures TagName(jsonTag) != "" ==> name == TagName(jsonTag)
    ensures TagName(jsonTag) == "" ==> name == goName
  {
    var tagName := TagName(jsonTag);
    if |tagName| > 0 then tagName else goName
  }

  /** `ErrInvalidType(field, expectedType, err)`. */
  function ErrInvalidType(field: string, expectedType: string, err: GoError): (v: ValidationError)
    ensures v.errorType == "InvalidType" && v.err == err
    ensures v.message == "InvalidType for field: " + field + ". Expected: " + expectedType
  {
    ValidationError("InvalidType", "InvalidType for field: " + field + ". Expected: " + expectedType, err)
  }

  /** `ErrInvalidJson(err)`. */
  function ErrInvalidJson(err: GoError): (v: ValidationError)
    ensures v.errorType == "InvalidJson" && v.err == err
    ensures v.message == "InvalidJson: " + err.Error()
  {
    ValidationError("InvalidJson", "InvalidJson: " + err.Error(), err)
  }

  /** `ErrInvalidValue(message, err)`: an empty message falls back to the wrapped error's own text. */
  function ErrInvalidValue(message: string, err: GoError): (v: ValidationError)
    ensures v.errorType == "InvalidValue" && v.err == err
    ensures message != "" ==> v.message == "InvalidValue: " + message
    ensures message == "" ==> v.message == "InvalidValue: " + err.Error()
  {
    var m := if message == "" then err.Error() else message;
    ValidationError("InvalidValue", "InvalidValue: " + m, err)
  }

  /** The tags with a message of their own; every other tag gets the generic message. */
  const KnownTags: set<string> := {"required", "notblank", "max", "url", "uuid", "date"}

  /** The message for one field error, chosen by its tag. */
  function FieldMessage(fe: FieldError): (msg: string)
    ensures fe.tag in KnownTags ==> fe.field <= msg && |msg| > |fe.field|
    ensures fe.tag == "required" ==> msg == fe.field + " is a required field"
    ensures fe.tag == "notblank" ==> msg == fe.field + " should not be empty"
    ensures fe.tag == "max" ==> msg == fe.field + " must be a maximum of " + fe.param + " in length"
    ensures fe.tag == "url" ==> msg == fe.field + " must be a valid URL"
    ensures fe.tag == "uuid" ==> msg == fe.field + " must be a valid uuid"
    ensures fe.tag == "date" ==> msg == fe.field + " must be a valid date"
    ensures fe.tag !in KnownTags ==> msg == "validation failed for " + fe.field + " on " + fe.tag
  {
    match fe.tag
    case "required" => fe.field + " is a required field"
    case "notblank" => fe.field + " should not be empty"
    case "max" => fe.field + " must be a maximum of " + fe.param + " in length"
    case "url" => fe.field + " must be a valid URL"
    case "uuid" => fe.field + " must be a valid uuid"
    case "date" => fe.field + " must be a valid date"
    case _ => "validation failed for " + fe.field + " on " + fe.tag
  }

  /** The messages for a list of field errors: exactly one per error, in the same order. */
  function FieldMessages(fes: seq<FieldError>): (msgs: seq<string>)
    ensures |msgs| == |fes|
    ensures forall i :: 0 <= i < |fes| ==> msgs[i] == FieldMessage(fes[i])
    ensures forall i :: 0 <= i < |msgs| ==> msgs[i] != ""
  {
    seq(|fes|, i requires 0 <= i < |fes| => FieldMessage(fes[i]))
  }

  /** The `ValidationError` that `handleValidationErrors` makes of `err`. */
  function ValidationErrorFor(err: GoError): (v: ValidationError)
    ensures v.err == err
    ensures v.errorType == "InvalidType" <==> err.UnmarshalTypeError?
    ensures v.errorType == "InvalidValue" <==> err.ValidationErrors?
    ensures v.errorType == "InvalidJson" <==> err.SyntaxError?
    ensures v.errorType == UnexpectedErr <==> err.OtherError?
  {
    match err
    case UnmarshalTypeError(field, expected, _) => ErrInvalidType(field, expected, err)
    case ValidationErrors(fes, _) => ErrInvalidValue(Join(FieldMessages(fes), ", "), err)
    case SyntaxError(_) => ErrInvalidJson(err)
    case OtherError(text) => ValidationError(UnexpectedErr, text, err)
  }

  /**
   * Field errors become "InvalidValue: " followed by their messages joined
   * with ", " in order; the wrapped error's own text is used only when there
   * are no field errors at all.
   */
  lemma InvalidValueMessage(fes: seq<FieldError>, text: string)
    ensures fes != [] ==> ValidationErrorFor(ValidationErrors(fes, text)).message == "InvalidValue: " + Join(FieldMessages(fes), ", ")
    ensures fes == [] ==> ValidationErrorFor(ValidationErrors(fes, text)).message == "InvalidValue: " + text
  {
    JoinEmpty(FieldMessages(fes), ", ");
  }

  /** Decode failures keep their classification and message whatever else happens. */
  lemma DecodeErrorMessages(field: string, expected: string, text: string)
    ensures ValidationErrorFor(UnmarshalTypeError(field, expected, text)).message ==
            "InvalidType for field: " + field + ". Expected: " + expected
    ensures ValidationErrorFor(SyntaxError(text)).message == "InvalidJson: " + text
    ensures ValidationErrorFor(OtherError(text)).message == text
  {
  }

  /** `handleValidationErrors`: classifies `err`, collecting one message per field error in a loop. */
  method HandleValidationErrors(err: GoError) returns (v: ValidationError)
    ensures v == ValidationErrorFor(err)
  {
    match err {
      case UnmarshalTypeError(field, expected, _) =>
        v := ErrInvalidType(field, expected, err);
      case ValidationErrors(fes, _) =>
        var msgs: seq<string> := [];
        for i := 0 to |fes|
          invariant msgs == FieldMessages(fes[..i])
        {
          assert fes[..i + 1][..i] == fes[..i];
          msgs := msgs + [FieldMessage(fes[i])];
        }
        assert fes[..|fes|] == fes;
        v := ErrInvalidValue(Join(msgs, ", "), err);
      case SyntaxError(_) =>
        v := ErrInvalidJson(err);
      case OtherError(text) =>
        v := ValidationError(UnexpectedErr, text, err);
    }
  }

  /**
   * `ParseAndValidateBody`: a decode failure is classified and the validator
   * is never consulted; otherwise the validator's verdict on the decoded
   * payload decides, and a passing payload yields no error.
   */
  method ParseAndValidateBody<T>(decoded: Result<T, GoError>, validate: T -> Option<GoError>)
    returns (v: Option<ValidationError>)
    ensures decoded.Failure? ==> v == Some(ValidationErrorFor(decoded.error))
    ensures decoded.Success? && validate(decoded.value).None? ==> v == None
    ensures decoded.Success? && validate(decoded.value).Some? ==>
              v == Some(ValidationErrorFor(validate(decoded.value).value))
  {
    match decoded {
      case Failure(bindErr) =>
        var e := HandleValidationErrors(bindErr);
        v := Some(e);
      case Success(payload) =>
        match validate(payload) {
          case None =>
            v := None;
          case Some(validationErr) =>
            var e := HandleValidationErrors(validationErr);
            v := Some(e);
        }
    }
  }
}
