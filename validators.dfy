/**
 * The three request-body validators of validators.py: advertisement create,
 * advertisement update and user create. Each field validator either returns
 * its value unchanged or reports one error; the model collects every field's
 * error, in field order, as pydantic does.
 */
module Validators {
  import opened Wrappers

  /**
   * One field of a decoded JSON body: absent, an explicit null, a string, or
   * any other JSON value (a number, a boolean, a list or an object), which
   * pydantic's strict `str` type refuses rather than converts.
   */
  datatype JsonField = Missing | Null | Str(value: string) | NonString

  /** A field that carries no value: `Optional[str] = None` reads it as None. */
  predicate Absent(v: JsonField) { v.Missing? || v.Null? }

  /** The three kinds of field error these models can raise. */
  datatype ErrorKind =
    | FieldRequired   // a required field is absent
    | NotAString      // a required `str` field is null
    | ValueError      // a field validator raised ValueError

  datatype FieldError = FieldError(kind: ErrorKind, field: string, message: string)

  /** Request bodies of POST/PATCH /ads/ and POST /register/. */
  datatype AdPayload = AdPayload(title: JsonField, description: JsonField)
  datatype UserPayload = UserPayload(email: JsonField, password: JsonField)

  /**
   * Validated data after `model_dump(exclude_none=True)`: an update field is
   * `Some` exactly when it is a key of the dumped dict.
   */
  datatype AdCreate = AdCreate(title: string, description: string)
  datatype AdUpdate = AdUpdate(title: Option<string>, description: Option<string>)
  datatype UserCreate = UserCreate(email: string, password: string)

  const MaxTitleLength: nat := 200
  const MinPasswordLength: nat := 6

  const TitleMessage := "Title must be between 1 and 200 characters"
  const DescriptionMessage := "Description cannot be empty"
  const EmailMessage := "Invalid email format"
  const PasswordMessage := "Password must be at least 6 characters long"
  const FieldRequiredMessage := "Field required"
  const NotAStringMessage := "Input should be a valid string"

  predicate TitleOk(t: string) { 1 <= |t| <= MaxTitleLength }
  predicate DescriptionOk(d: string) { 1 <= |d| }
  predicate EmailOk(e: string) { '@' in e }
  predicate PasswordOk(p: string) { |p| >= MinPasswordLength }

  /** True when some error in `errs` is about `field`. */
  predicate Reports(errs: seq<FieldError>, field: string) {
    exists i :: 0 <= i < |errs| && errs[i].field == field
  }

  /** The errors of a required `str` field whose validator accepts the strings `valid` holds of. */
  function RequiredErrors(field: string, v: JsonField, valid: string -> bool, message: string): (errs: seq<FieldError>)
    ensures |errs| <= 1
    ensures errs == [] <==> v.Str? && valid(v.value)
    ensures forall i | 0 <= i < |errs| :: errs[i].field == field
    ensures v.Str? && errs != [] ==> errs[0] == FieldError(ValueError, field, message)
    ensures v.Missing? ==> errs == [FieldError(FieldRequired, field, FieldRequiredMessage)]
    ensures v.Null? || v.NonString? ==> errs == [FieldError(NotAString, field, NotAStringMessage)]
  {
    match v
    case Missing => [FieldError(FieldRequired, field, FieldRequiredMessage)]
    case Null => [FieldError(NotAString, field, NotAStringMessage)]
    case NonString => [FieldError(NotAString, field, NotAStringMessage)]
    case Str(s) => if valid(s) then [] else [FieldError(ValueError, field, message)]
  }

  /**
   * The errors of an `Optional[str] = None` field: absent and null are both
   * None and always pass; a non-string value is refused as not a string.
   */
  function OptionalErrors(field: string, v: JsonField, valid: string -> bool, message: string): (errs: seq<FieldError>)
    ensures |errs| <= 1
    ensures errs == [] <==> Absent(v) || (v.Str? && valid(v.value))
    ensures v.Str? && errs != [] ==> errs == [FieldError(ValueError, field, message)]
    ensures v.NonString? ==> errs == [FieldError(NotAString, field, NotAStringMessage)]
  {
    match v
    case Str(s) => if valid(s) then [] else [FieldError(ValueError, field, message)]
    case NonString => [FieldError(NotAString, field, NotAStringMessage)]
    case _ => []
  }

  /** The value an optional field is dumped as; None is dropped by `exclude_none`. */
  function Present(v: JsonField): (r: Option<string>)
    ensures r.Some? <==> v.Str?
    ensures r.Some? ==> r.value == v.value
  {
    if v.Str? then Some(v.value) else None
  }

  /** AdvertisementCreateValidator: a 1..200-character title and a non-empty description. */
  function ValidateAdCreate(p: AdPayload): (r: Result<AdCreate, seq<FieldError>>)
    ensures r.Ok? <==>
      p.title.Str? && TitleOk(p.title.value) && p.description.Str? && DescriptionOk(p.description.value)
    ensures r.Ok? ==> r.value == AdCreate(p.title.value, p.description.value)
    ensures r.Err? ==> 1 <= |r.error| <= 2
    ensures r.Err? ==> (Reports(r.error, "title") <==> !(p.title.Str? && TitleOk(p.title.value)))
    ensures r.Err? ==>
      (Reports(r.error, "description") <==> !(p.description.Str? && DescriptionOk(p.description.value)))
    ensures r.Err? ==> forall i | 0 <= i < |r.error| :: r.error[i].field in {"title", "description"}
    ensures r.Err? ==>
      r.error == RequiredErrors("title", p.title, TitleOk, TitleMessage)
        + RequiredErrors("description", p.description, DescriptionOk, DescriptionMessage)
  {
    var titleErrs := RequiredErrors("title", p.title, TitleOk, TitleMessage);
    var descErrs := RequiredErrors("description", p.description, DescriptionOk, DescriptionMessage);
    var errs := titleErrs + descErrs;
    if errs == [] then
      Ok(AdCreate(p.title.value, p.description.value))
    else
      assert titleErrs != [] ==> errs[0] == titleErrs[0];
      assert descErrs != [] ==> errs[|titleErrs|] == descErrs[0];
      Err(errs)
  }

  /** AdvertisementUpdateValidator: each field optional; a present field meets the create bound. */
  function ValidateAdUpdate(p: AdPayload): (r: Result<AdUpdate, seq<FieldError>>)
    ensures r.Ok? <==>
      (Absent(p.title) || (p.title.Str? && TitleOk(p.title.value)))
      && (Absent(p.description) || (p.description.Str? && DescriptionOk(p.description.value)))
    ensures r.Ok? ==> r.value == AdUpdate(Present(p.title), Present(p.description))
    ensures r.Err? ==> 1 <= |r.error| <= 2
    ensures r.Err? ==>
      (Reports(r.error, "title") <==> !(Absent(p.title) || (p.title.Str? && TitleOk(p.title.value))))
    ensures r.Err? ==>
      (Reports(r.error, "description") <==>
        !(Absent(p.description) || (p.description.Str? && DescriptionOk(p.description.value))))
    ensures r.Err? ==> forall i | 0 <= i < |r.error| :: r.error[i].field in {"title", "description"}
    ensures r.Err? ==>
      r.error == OptionalErrors("title", p.title, TitleOk, TitleMessage)
        + OptionalErrors("description", p.description, DescriptionOk, DescriptionMessage)
  {
    var titleErrs := OptionalErrors("title", p.title, TitleOk, TitleMessage);
    var descErrs := OptionalErrors("description", p.description, DescriptionOk, DescriptionMessage);
    var errs := titleErrs + descErrs;
    if errs == [] then
      Ok(AdUpdate(Present(p.title), Present(p.description)))
    else
      assert titleErrs != [] ==> errs[0] == titleErrs[0];
      assert descErrs != [] ==> errs[|titleErrs|] == descErrs[0];
      Err(errs)
  }

  /** UserCreateValidator: the email must contain '@' and the password have 6 or more characters. */
  function ValidateUserCreate(p: UserPayload): (r: Result<UserCreate, seq<FieldError>>)
    ensures r.Ok? <==>
      p.email.Str? && EmailOk(p.email.value) && p.password.Str? && PasswordOk(p.password.value)
    ensures r.Ok? ==> r.value == UserCreate(p.email.value, p.password.value)
    ensures r.Err? ==> 1 <= |r.error| <= 2
    ensures r.Err? ==> (Reports(r.error, "email") <==> !(p.email.Str? && EmailOk(p.email.value)))
    ensures r.Err? ==> (Reports(r.error, "password") <==> !(p.password.Str? && PasswordOk(p.password.value)))
    ensures r.Err? ==> forall i | 0 <= i < |r.error| :: r.error[i].field in {"email", "password"}
    ensures r.Err? ==>
      r.error == RequiredErrors("email", p.email, EmailOk, EmailMessage)
        + RequiredErrors("password", p.password, PasswordOk, PasswordMessage)
  {
    var emailErrs := RequiredErrors("email", p.email, EmailOk, EmailMessage);
    var passwordErrs := RequiredErrors("password", p.password, PasswordOk, PasswordMessage);
    var errs := emailErrs + passwordErrs;
    if errs == [] then
      Ok(UserCreate(p.email.value, p.password.value))
    else
      assert emailErrs != [] ==> errs[0] == emailErrs[0];
      assert passwordErrs != [] ==> errs[|emailErrs|] == passwordErrs[0];
      Err(errs)
  }

  /** An update that names neither field is accepted and changes nothing. */
  lemma EmptyUpdateAccepted(title: JsonField, description: JsonField)
    requires Absent(title) && Absent(description)
    ensures ValidateAdUpdate(AdPayload(title, description)) == Ok(AdUpdate(None, None))
  {
  }

  /** A present update field is accepted exactly when the create validator would accept it. */
  lemma UpdateBoundsMatchCreate(t: string, d: string)
    ensures ValidateAdUpdate(AdPayload(Str(t), Str(d))).Ok? <==> ValidateAdCreate(AdPayload(Str(t), Str(d))).Ok?
    ensures ValidateAdUpdate(AdPayload(Str(t), Missing)).Ok? <==> TitleOk(t)
    ensures ValidateAdUpdate(AdPayload(Missing, Str(d))).Ok? <==> DescriptionOk(d)
  {
  }
}
