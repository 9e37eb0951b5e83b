/**
 * The service's single error abstraction (app/lib/web/error.go): a code, a
 * description and an HTTP status fixed at construction, and a cause trail
 * that `WithCause` extends in place.
 */
module Errors {
  import opened Strings

  // The `net/http` status codes the service uses.
  const StatusOK := 200
  const StatusBadRequest := 400
  const StatusUnauthorized := 401
  const StatusInternalServerError := 500

  /** The three `errorCode` constants. */
  datatype ErrorCode = UnauthorizedRequest | BadRequest | InternalServerError
  {
    /** The wire spelling of the code, what `Code()` returns. */
    function Text(): (s: string)
      ensures s != ""
    {
      match this
      case UnauthorizedRequest => "unauthorized"
      case BadRequest => "bad_request"
      case InternalServerError => "internal_server_error"
    }
  }

  /** Distinct codes are spelled differently, so the wire code identifies the constant. */
  lemma CodeTextInjective(a: ErrorCode, b: ErrorCode)
    ensures a.Text() == b.Text() ==> a == b
  {
  }

  /**
   * What the accessors of an error observe at one moment: `Code()`,
   * `Description()`, `Cause()` and `HTTPStatusCode()`. Handlers hand errors to
   * the dispatcher as such values.
   */
  datatype ErrorValue = ErrorValue(code: ErrorCode, description: string, cause: string, httpStatusCode: int)
  {
    function Code(): string
    {
      code.Text()
    }

    /** `Error()`: "code: C description: D httpStatusCode: N cause: K", with N the status as `%d` spells it. */
    function Error(): (s: string)
      ensures exists n: string ::
                IsStatusRendering(n, httpStatusCode) &&
                s == "code: " + Code() + " description: " + description + " httpStatusCode: " + n + " cause: " + cause
    {
      var n := IntToDecimal(httpStatusCode);
      assert IsStatusRendering(n, httpStatusCode);
      "code: " + Code() + " description: " + description + " httpStatusCode: " + n + " cause: " + cause
    }
  }

  /** `n` is the `%d` rendering of `status`: its decimal digits without a leading zero, after a minus sign when negative. */
  ghost predicate IsStatusRendering(n: string, status: int)
  {
    if status >= 0 then IsCanonicalDecimal(n) && DecimalValue(n) == status
    else |n| >= 2 && n[0] == '-' && IsCanonicalDecimal(n[1..]) && n[1] != '0' && DecimalValue(n[1..]) == -status
  }

  /** Each status has exactly one rendering, so `Error()` names its status in one way only. */
  lemma StatusRenderingUnique(n: string, m: string, status: int)
    requires IsStatusRendering(n, status) && IsStatusRendering(m, status)
    ensures n == m
  {
    if status >= 0 {
      CanonicalDecimal(n);
      CanonicalDecimal(m);
    } else {
      CanonicalDecimal(n[1..]);
      CanonicalDecimal(m[1..]);
      assert n == [n[0]] + n[1..] && m == [m[0]] + m[1..];
    }
  }

  /** The cause trail after `WithCause(c)`: `c` is appended after a colon, unless the trail is empty. */
  function AppendCause(trail: string, c: string): (r: string)
    ensures trail == "" ==> r == ""
    ensures trail != "" ==> r == trail + ":" + c
  {
    JoinPair(trail, c, ":");
    if trail != "" then Join([trail, c], ":") else trail
  }

  /** The trail after a series of `WithCause` calls, first call first. */
  function AppendCauses(trail: string, cs: seq<string>): string
    decreases |cs|
  {
    if cs == [] then trail else AppendCauses(AppendCause(trail, cs[0]), cs[1..])
  }

  /**
   * A non-empty trail grows into the colon-joined list of all causes; an
   * empty trail never grows.
   */
  lemma {:induction false} CauseTrail(trail: string, cs: seq<string>)
    ensures trail == "" ==> AppendCauses(trail, cs) == ""
    ensures trail != "" ==> AppendCauses(trail, cs) == Join([trail] + cs, ":")
    decreases |cs|
  {
    if cs != [] {
      var next := AppendCause(trail, cs[0]);
      CauseTrail(next, cs[1..]);
      if trail != "" {
        var rest := cs[1..];
        if rest == [] {
          assert [trail] + cs == [trail, cs[0]];
        } else {
          calc {
            Join([trail] + cs, ":");
            { assert ([trail] + cs)[1..] == cs; }
            trail + ":" + Join(cs, ":");
            { assert cs == [cs[0]] + rest; JoinCons(cs[0], rest, ":"); }
            trail + ":" + (cs[0] + ":" + Join(rest, ":"));
            { assert ([next] + rest)[1..] == rest; }
            Join([next] + rest, ":");
          }
        }
      }
    }
  }

  /** `customError`: the object every `ErrorInterface` value points to. */
  class CustomError {
    const code: ErrorCode
    const description: string
    const httpStatusCode: int
    var cause: string

    /** `NewError`: every part stored exactly as given. */
    constructor (code: ErrorCode, description: string, cause: string, httpStatusCode: int)
      ensures Value() == ErrorValue(code, description, cause, httpStatusCode)
    {
      this.code := code;
      this.description := description;
      this.cause := cause;
      this.httpStatusCode := httpStatusCode;
    }

    /** The values the accessors `Code()`, `Description()`, `Cause()`, `HTTPStatusCode()` and `Error()` read. */
    function Value(): (v: ErrorValue)
      reads this
      ensures v.Code() == code.Text() && v.description == description
      ensures v.cause == cause && v.httpStatusCode == httpStatusCode
    {
      ErrorValue(code, description, cause, httpStatusCode)
    }

    /** `WithCause`: extends the trail in place (only when it is already non-empty) and returns the same object. */
    method WithCause(c: string) returns (self: CustomError)
      modifies this`cause
      ensures self == this
      ensures cause == AppendCause(old(cause), c)
      ensures Value() == old(Value()).(cause := AppendCause(old(cause), c))
    {
      if cause != "" {
        JoinPair(cause, c, ":");
        cause := Join([cause, c], ":");
      }
      self := this;
    }
  }

  /** `ErrBadRequest(desc)`: code `bad_request`, the given description, no cause, status 400. */
  method ErrBadRequest(desc: string) returns (e: CustomError)
    ensures fresh(e)
    ensures e.Value() == ErrorValue(BadRequest, desc, "", StatusBadRequest)
  {
    e := new CustomError(BadRequest, desc, "", StatusBadRequest);
  }
}
