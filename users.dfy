/**
 * The user record and the create-user request (app/models/user.go): the
 * request's declared `required` rules and the copy of its fields into a
 * user.
 */
module Users {
  import opened Wrappers
  import opened Strings
  import opened Validation

  /** `CreateUserRequest`. */
  datatype CreateUserRequest = CreateUserRequest(username: string, password: string, email: string)

  /** A declared struct field: its Go name, its `json` tag and its `validate` tag. */
  datatype FieldDecl = FieldDecl(name: string, jsonTag: string, rules: string)

  /** The fields of `CreateUserRequest` in declaration order, each `required`. */
  const CreateUserRequestFields: seq<FieldDecl> := [
    FieldDecl("Username", "username", "required"),
    FieldDecl("Password", "password", "required"),
    FieldDecl("Email", "email", "required")
  ]

  /** The request's field values, in declaration order. */
  function FieldValues(r: CreateUserRequest): seq<string>
  {
    [r.username, r.password, r.email]
  }

  /** Whether the validator's `required` rule fails on this field: it is declared and the value is empty. */
  predicate RequiredFails(d: FieldDecl, value: string)
  {
    d.rules == "required" && value == ""
  }

  /** The positions of the fields whose `required` rule fails, in increasing order. */
  function FailingPositions(decls: seq<FieldDecl>, values: seq<string>): (idx: seq<nat>)
    requires |decls| == |values|
    ensures forall k :: 0 <= k < |idx| ==> idx[k] < |decls| && RequiredFails(decls[idx[k]], values[idx[k]])
    ensures forall k, l :: 0 <= k < l < |idx| ==> idx[k] < idx[l]
    ensures forall i :: 0 <= i < |decls| && RequiredFails(decls[i], values[i]) ==> i in idx
  {
    if decls == [] then []
    else
      var n := |decls| - 1;
      FailingPositions(decls[..n], values[..n]) + (if RequiredFails(decls[n], values[n]) then [n] else [])
  }

  /** The `required` failure of a field, under the field's reported name. */
  function RequiredError(d: FieldDecl): FieldError
  {
    FieldError(DisplayName(d.name, d.jsonTag), "required", "")
  }

  /**
   * The field errors the validator reports for declared fields and their
   * values: for every field whose `required` rule fails, in declaration
   * order, one `required` error under the field's reported name.
   */
  function RequiredViolations(decls: seq<FieldDecl>, values: seq<string>): (fes: seq<FieldError>)
    requires |decls| == |values|
    ensures |fes| == |FailingPositions(decls, values)|
    ensures fes == [] <==> forall i :: 0 <= i < |decls| ==> !RequiredFails(decls[i], values[i])
  {
    if decls == [] then []
    else
      var n := |decls| - 1;
      var init := RequiredViolations(decls[..n], values[..n]);
      if RequiredFails(decls[n], values[n]) then
        init + [RequiredError(decls[n])]
      else init
  }

  /** The `k`-th reported error is the `required` failure of the `k`-th failing field. */
  lemma {:induction false} RequiredViolationsAt(decls: seq<FieldDecl>, values: seq<string>)
    requires |decls| == |values|
    ensures forall k :: 0 <= k < |RequiredViolations(decls, values)| ==>
              RequiredViolations(decls, values)[k] == RequiredError(decls[FailingPositions(decls, values)[k]])
  {
    if decls != [] {
      var n := |decls| - 1;
      var fes, idx := RequiredViolations(decls, values), FailingPositions(decls, values);
      var init, idx0 := RequiredViolations(decls[..n], values[..n]), FailingPositions(decls[..n], values[..n]);
      RequiredViolationsAt(decls[..n], values[..n]);
      if RequiredFails(decls[n], values[n]) {
        assert fes == init + [RequiredError(decls[n])] && idx == idx0 + [n];
      } else {
        assert fes == init && idx == idx0;
      }
      forall k | 0 <= k < |init|
        ensures fes[k] == RequiredError(decls[idx[k]])
      {
        assert fes[k] == init[k] == RequiredError(decls[..n][idx0[k]]);
        assert idx[k] == idx0[k] < n;
        assert decls[..n][idx0[k]] == decls[idx0[k]];
      }
    }
  }

  /** A `required` field whose tag gives no name, such as `json:"-"`, is reported under its Go field name. */
  lemma HiddenFieldReportedByGoName(name: string, value: string)
    requires value == ""
    ensures RequiredViolations([FieldDecl(name, "-", "required")], [value]) == [FieldError(name, "required", "")]
  {
    assert TagName("-") == "";
  }

  /** The validator's verdict on a decoded `CreateUserRequest`; `text` is what the foreign error type prints. */
  function ValidateCreateUserRequest(r: CreateUserRequest, text: string): Option<GoError>
  {
    var fes := RequiredViolations(CreateUserRequestFields, FieldValues(r));
    if fes == [] then None else Some(ValidationErrors(fes, text))
  }

  /** The names of the empty fields, in declaration order. */
  function MissingFields(r: CreateUserRequest): seq<string>
  {
    (if r.username == "" then ["username"] else []) +
    (if r.password == "" then ["password"] else []) +
    (if r.email == "" then ["email"] else [])
  }

  /** One `required` failure per named field. */
  function RequiredErrors(names: seq<string>): seq<FieldError>
  {
    seq(|names|, i requires 0 <= i < |names| => FieldError(names[i], "required", ""))
  }

  /** A non-empty tag with no comma that is not `-` names the field by the whole tag. */
  lemma PlainTagName(goName: string, jsonTag: string)
    requires ',' !in jsonTag && jsonTag != "" && jsonTag != "-"
    ensures TagName(jsonTag) == jsonTag && DisplayName(goName, jsonTag) == jsonTag
  {
    IndexOfAbsent(jsonTag, ',');
  }

  /** The tags of the required fields left empty, in declaration order. */
  function EmptyRequiredTags(decls: seq<FieldDecl>, values: seq<string>): seq<string>
    requires |decls| == |values|
  {
    if decls == [] then []
    else
      var n := |decls| - 1;
      EmptyRequiredTags(decls[..n], values[..n]) + (if RequiredFails(decls[n], values[n]) then [decls[n].jsonTag] else [])
  }

  /** For fields whose tags are plain names, the validator reports exactly the empty required fields by tag, in order. */
  lemma {:induction false} PlainFieldViolations(decls: seq<FieldDecl>, values: seq<string>)
    requires |decls| == |values|
    requires forall i :: 0 <= i < |decls| ==> ',' !in decls[i].jsonTag && decls[i].jsonTag != "" && decls[i].jsonTag != "-"
    ensures RequiredViolations(decls, values) == RequiredErrors(EmptyRequiredTags(decls, values))
  {
    if decls != [] {
      var n := |decls| - 1;
      var init := EmptyRequiredTags(decls[..n], values[..n]);
      PlainFieldViolations(decls[..n], values[..n]);
      if RequiredFails(decls[n], values[n]) {
        PlainTagName(decls[n].name, decls[n].jsonTag);
        RequiredErrorsAppend(init, [decls[n].jsonTag]);
        assert RequiredErrors([decls[n].jsonTag]) == [FieldError(decls[n].jsonTag, "required", "")];
      } else {
        assert EmptyRequiredTags(decls, values) == init + [];
      }
    }
  }

  lemma RequiredErrorsAppend(a: seq<string>, b: seq<string>)
    ensures RequiredErrors(a + b) == RequiredErrors(a) + RequiredErrors(b)
  {
  }

  /** The empty fields of a `CreateUserRequest`, by tag, in field order. */
  lemma CreateUserEmptyTags(r: CreateUserRequest)
    ensures EmptyRequiredTags(CreateUserRequestFields, FieldValues(r)) == MissingFields(r)
  {
    var d := CreateUserRequestFields;
    var vs := FieldValues(r);
    assert d[..2] == [d[0], d[1]] && vs[..2] == [vs[0], vs[1]];
    assert d[..2][..1] == [d[0]] && vs[..2][..1] == [vs[0]];
    var e := if r.email == "" then ["email"] else [];
    var p := if r.password == "" then ["password"] else [];
    var u := if r.username == "" then ["username"] else [];
    assert EmptyRequiredTags(d[..2][..1], vs[..2][..1]) == [] + u;
    assert EmptyRequiredTags(d[..2], vs[..2]) == u + p;
  }

  /** The validator reports exactly the empty fields of a `CreateUserRequest`, in field order. */
  lemma CreateUserViolations(r: CreateUserRequest)
    ensures RequiredViolations(CreateUserRequestFields, FieldValues(r)) == RequiredErrors(MissingFields(r))
  {
    PlainFieldViolations(CreateUserRequestFields, FieldValues(r));
    CreateUserEmptyTags(r);
  }

  /** "X is a required field" for each named field, in order. */
  function RequiredMessages(names: seq<string>): seq<string>
  {
    seq(|names|, i requires 0 <= i < |names| => names[i] + " is a required field")
  }

  /** The messages of `required` failures name their fields, in order. */
  lemma RequiredErrorMessages(names: seq<string>)
    ensures FieldMessages(RequiredErrors(names)) == RequiredMessages(names)
  {
  }

  /**
   * Validation passes exactly when no field is empty; otherwise the message
   * names each empty field as "X is a required field", in field order.
   */
  lemma CreateUserValidation(r: CreateUserRequest, text: string)
    ensures ValidateCreateUserRequest(r, text).None? <==> r.username != "" && r.password != "" && r.email != ""
    ensures ValidateCreateUserRequest(r, text).Some? ==>
              ValidationErrorFor(ValidateCreateUserRequest(r, text).value).message ==
              "InvalidValue: " + Join(RequiredMessages(MissingFields(r)), ", ")
  {
    CreateUserViolations(r);
    var fes := RequiredErrors(MissingFields(r));
    assert fes == [] <==> MissingFields(r) == [];
    if fes != [] {
      InvalidValueMessage(fes, text);
      RequiredErrorMessages(MissingFields(r));
    }
  }

  /** `required` only rejects the empty string: fields holding nothing but spaces pass. */
  lemma BlankFieldsPass(text: string)
    ensures ValidateCreateUserRequest(CreateUserRequest(" ", " ", " "), text) == None
  {
    CreateUserValidation(CreateUserRequest(" ", " ", " "), text);
  }

  /** `models.User`; the timestamps are kept opaque. */
  class User {
    var id: string
    var userID: string
    var username: string
    var password: string
    var email: string
    var createdAt: int
    var updatedAt: int

    constructor ()
      ensures id == "" && userID == "" && username == "" && password == "" && email == ""
    {
      id, userID, username, password, email := "", "", "", "", "";
      createdAt, updatedAt := 0, 0;
    }

    /** `PopulateData`: copies email, password and username from the request; nothing else changes. */
    method PopulateData(request: CreateUserRequest)
      modifies this`email, this`password, this`username
      ensures email == request.email && password == request.password && username == request.username
      ensures id == old(id) && userID == old(userID) && createdAt == old(createdAt) && updatedAt == old(updatedAt)
    {
      email := request.email;
      password := request.password;
      username := request.username;
    }
  }
}
