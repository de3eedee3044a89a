# Classified-ads service: a verified model in Dafny

This project models the request-handling core of a small Flask service for
classified advertisements. Users register with an email and a password, then
authenticate with HTTP Basic credentials to create, patch and delete the
advertisements they own. Anyone may list the advertisements or fetch one of
them.

The model has four parts, one per source file:

- `validators.dfy` (module `Validators`) covers the three pydantic request
  models. Each is a function from the JSON body's fields to the validated
  value or to the list of every violated field, in field order.
- `models.dfy` (module `Models`) covers the `users` and `advertisements`
  records, `Advertisement.to_dict`, `set_password`/`check_password`, and the
  column constraints as a table invariant: primary keys from 1, unique emails
  that fit `String(120)`, owners that exist, and the cascade from a user to
  that user's advertisements.
- `auth.dfy` (module `Auth`) covers the `basic_auth_required` decorator as
  one function, from the `Authorization` header to the authenticated user or
  a 401 with one of three fixed messages. It also models Python's
  `str.split(' ')` and `str.split(':', 1)`, with their inverses. Basic
  authentication is the scheme of section 2 of RFC 7617.
- `app.dfy` (module `App`) covers the `HttpError` envelope, `validate_data`,
  and a `Store` class. The class holds both tables as maps plus their id
  counters, and has one method per handler: `Get`, `Create`, `Patch`,
  `Delete` and `Register`. It also has `DeleteUser`, the cascade the ORM
  performs.

Every handler returns the response it would send instead of raising. A
failed validation gets the intended 400 envelope; the code as written
answers most of them with a 500, which the model states separately (see
"## Findings"). Each handler's
postcondition gives the complete new state of both tables for each outcome,
in the order the source checks them: 401 from the decorator, then 404, then
403, then 400, then the change.

`wrappers.dfy` holds `Option` and `Result`. `responses.dfy` holds the JSON
value and response types that `jsonify` would encode.

Calls into code outside the core become parameters:

- `bcrypt.hashpw` and `bcrypt.checkpw` are the store's `hashpw` and
  `checkpw` constants.
- `bcrypt.gensalt()` is the `salt` argument of `Register`.
- `base64.b64decode(...).decode('utf-8')` is the `decode` argument, a
  partial function.
- `datetime.utcnow()` is the `now` argument, an opaque `Timestamp` whose
  ISO-8601 text is all that is ever shown.

## Model

| member | source | states |
|---|---|---|
| `Validators.RequiredErrors` | validators.py:12-22 | A required string field has no error exactly when it is a string that passes its check. Otherwise it has exactly one error: missing for an absent field, string_type ("Input should be a valid string") for null or any other non-string value, or the validator's value_error with its message. |
| `Validators.OptionalErrors` | validators.py:31-41 | An optional field that is absent or null never has an error. A non-string value has the one string_type error. A string has at most one error, the validator's value_error with its message, and has none exactly when it passes the check. |
| `Validators.ValidateAdCreate` | validators.py:6-22 | A create payload is accepted iff the title is a string with 1 <= len <= 200 and the description a non-empty string. When accepted, both values are returned unchanged. When rejected, the errors are the title's entry followed by the description's, each with its kind and message, so they name exactly the violated fields in field order. |
| `Validators.ValidateAdUpdate` | validators.py:25-41 | An update is accepted iff every field is absent, null, or a string meeting the create bound. Absent and null fields become None, as `exclude_none` drops them. When rejected, the errors are the title's entry followed by the description's, naming exactly the fields that fail. |
| `Validators.ValidateUserCreate` | validators.py:44-60 | A user payload is accepted iff the email is a string containing '@' and the password a string of at least 6 characters. No other rule applies. When accepted, both values are returned unchanged. When rejected, the errors are the email's entry followed by the password's, each with its kind and message. |
| `Validators.Present` | app.py:39 | `model_dump(exclude_none=True)` keeps an optional field exactly when it was given as a string, with its value unchanged. |
| `Validators.EmptyUpdateAccepted` | validators.py:25-27 | An update whose two fields are both absent or null is accepted as the empty update. |
| `Validators.UpdateBoundsMatchCreate` | validators.py:29-41 | A present update field is accepted exactly when the create validator accepts it, field by field. |
| `Models.SetPassword` | models.py:16-17 | The stored hash is `hashpw(password, salt)`. Id, email and created_at are unchanged. |
| `Models.CheckPassword` | models.py:19-20 | A password is accepted exactly when bcrypt's check accepts it against the stored hash. |
| `Models.SetPasswordThenCheck` | models.py:16-20 | If bcrypt accepts a password against every hash made from it, then a password set with `set_password` passes `check_password`. |
| `Models.ToDict` | models.py:35-42 | The dict has exactly the keys id, title, description, created_at and owner_id. Title and description are copied verbatim. |
| `Models.ToDictInjective` | models.py:35-42 | The projection loses nothing: equal dicts come only from equal records. |
| `Models.ToDictHidesPasswords` | models.py:35-42 | Neither "password" nor "password_hash" is a key of the projection. |
| `Models.EmailColumnValue` | models.py:10 | The `String(120)` column keeps an email that fits as it is. An over-long email is cut to its first 120 characters when only spaces are cut, and refused otherwise. |
| `Models.FindUserByEmail` | app.py:131 | The email lookup returns the id of a stored user with that email. It returns None only when no user below the bound has that email. |
| `Models.FindUserByEmailExact` | models.py:10 | With unique emails, the lookup returns None exactly when the email is free. When a user has that email, it returns that user's id. |
| `Models.WithoutOwner` | models.py:33 | An advertisement survives exactly when its owner is not the deleted user. Survivors are unchanged. |
| `Models.CascadeKeepsTablesValid` | models.py:14 | Deleting a user together with that user's advertisements keeps every table constraint. No survivor belongs to the deleted user. |
| `Auth.Split` | auth.py:17 | `split(' ')` returns at least one part. No part contains the separator. Joining the parts with the separator gives back the input. |
| `Auth.SplitAfterWord` | auth.py:17 | A separator-free word followed by the separator splits off as the first part. |
| `Auth.SplitWithoutSeparator` | auth.py:17 | A separator-free string splits into itself alone. |
| `Auth.SplitAtFirst` | auth.py:19 | `split(':', 1)` fails (the ValueError) iff there is no colon. Otherwise the two halves rejoin to the input and the first half contains no colon. |
| `Auth.SplitAtFirstJoin` | auth.py:19 | Splitting "email:password" with a colon-free email gives back (email, password), even when the password contains colons. |
| `Auth.SchemeHasSecondToken` | auth.py:12-17 | After the "Basic " prefix check there is always a second token, so the IndexError cannot occur. That token is the text after the prefix, up to the next space. |
| `Auth.HasBasicScheme` | auth.py:12 | The first test passes exactly when the header is present and starts with "Basic "; the emptiness test adds nothing. A header that passes splits into "Basic" and at least one more token. |
| `Auth.Credentials` | auth.py:15-19 | Credentials parse exactly when there is a second space-separated token and it decodes to text containing a colon. Parsed credentials are that text split at its first colon, so the email contains no colon. |
| `Auth.ExtraTokensIgnored` | auth.py:17 | Only the second token is read: "Basic <token> <anything>" parses like "Basic <token>". |
| `Auth.Authenticate` | auth.py:10-30 | A missing, empty or non-Basic header gives 'Authorization required', and only such a header does. An undecodable token or one without a colon gives 'Invalid authorization header', and only that case does. A success returns a stored user whose email and password are the parsed credentials. An authenticated email never contains a colon. |
| `Auth.AuthenticatedUserIsStored` | auth.py:22-27 | The authenticated user is the row stored under its own id. |
| `Auth.CredentialsRefusedAlike` | auth.py:22-24 | An unknown email and a wrong password both give 'Invalid credentials'. |
| `Auth.StoredCredentialsAuthenticate` | auth.py:12-27 | For any header that passes the scheme test, credentials parsing to a stored user's email and a password that user's hash accepts authenticate exactly that user. |
| `Auth.RegisteredUserAuthenticates` | auth.py:10-27 | The round trip: "Basic <token>", where the token decodes to a stored user's email:password and the password is accepted, authenticates exactly that user. |
| `Auth.CurrentUser` | auth.py:37-38 | `get_current_user` returns a user iff the decorator authenticated one, and None otherwise. |
| `Auth.DeniedResponse` | auth.py:13 | The decorator's refusals are status 401 with an `{"error": message}` body. |
| `App.KindName` | app.py:41 | Each error kind has its own pydantic type name: missing, string_type or value_error. |
| `App.FieldErrorJson` | app.py:41 | An entry of `error.errors()` has the keys type, loc and msg, with loc the one failing field. The ctx, input and url keys are not modelled. |
| `App.MessageJson` | app.py:41 | A validation failure's message is the error list, one entry per field error and in the same order. A text message stays a string. As written, a list with a value_error entry is never sent (see Findings). |
| `App.ErrorResponse` | app.py:29-34 | The intended `error_handler`: every HttpError renders as exactly `{status: "error", message}` with exactly the error's status code. The handlers use it (see Findings). |
| `App.ErrorHandlerAsWritten` | app.py:29-41 | The handler as written fails (a 500) exactly when the message holds a value_error entry. Otherwise it gives the envelope. |
| `App.EmptyTitleCreateIsServerError` | app.py:29-41 | A create with an empty title is a 500 as written, where the intended answer is the 400 envelope. |
| `App.ValidationFailuresAsWritten` | app.py:29-41 | As written, a create, update or register failure is a 500 exactly when some string fails its field's check. Failures only of absent, null or non-string fields reach the 400 envelope. |
| `App.DeniedIsNotAnEnvelope` | app.py:29-34 | The decorator's 401 body is never the HttpError envelope: it has no "status" key. |
| `App.ValidateData` | app.py:37-41 | Validation succeeds iff the validator does, and passes the validated value through. A failure is HttpError 400 carrying the validator's error list. |
| `App.ApplyUpdate` | app.py:98-101 | Patch changes only the fields present in the validated payload. id, owner_id and created_at are kept. |
| `App.ApplyUpdateKeepsBounds` | app.py:96-101 | A validated update keeps a stored advertisement within the create bounds. |
| `App.InsertAdKeepsValid` | app.py:72-79 | Inserting a validated advertisement of an existing user under the next id keeps every table constraint. |
| `App.AdsBelowIsTable` | app.py:61-62 | The list holds every stored advertisement and nothing else, each once, in strictly increasing id order. |
| `App.Serialize` | app.py:62 | The list comprehension produces one `to_dict` per advertisement, in the same order. |
| `App.SerializedListing` | app.py:61-62 | Serialising a listing of every stored advertisement and nothing else gives every stored advertisement's dict and only such dicts. |
| `App.Store.Authorize` | auth.py:9-32 | The decorator on the three protected handlers (app.py:64, 83 and 107), run against the current users table. The user it authenticates is the row stored under that user's id. |
| `App.Store.ListAds` | app.py:60-62 | The loop returns the serialised advertisements in id order. Every stored advertisement appears, and every entry is a stored advertisement. |
| `App.Store.Get` | app.py:54-62 | A non-zero id returns its advertisement with 200, or 404 when it is absent. No id, and also id 0 (which `if ad_id:` treats as false), returns the full list. |
| `App.Store.Create` | app.py:64-81 | The order is 401, then 400 with the intended envelope (a 500 as written when a string fails its check; see Findings). On success, one new advertisement is stored under a fresh id, owned by the authenticated user, with the validated title and description, and the response is 201 with its dict. Users are unchanged. |
| `App.Store.Patch` | app.py:83-105 | The order is 401, then 404, then 403, then 400 with the intended envelope (a 500 as written when a string fails its check; see Findings), so a non-owner with an invalid body gets 403. On success, only the present fields change; every other advertisement and all users are unchanged. |
| `App.Store.Delete` | app.py:107-123 | The order is 401, then 404, then 403. On success, exactly the target advertisement is removed and the fixed confirmation message is returned. |
| `App.Store.Register` | app.py:126-143 | The order is 400 for validation (the intended envelope; a 500 as written when a string fails its check, see Findings), then 400 'User with this email already exists' with no user added. An over-long email is stored cut to 120 characters when only spaces are cut. It fails unhandled, with no user added, when more would be cut or when another user already has the cut email. On success, one user is stored with the password's hash, and the response is 201 with only message and user_id. |
| `App.Store.DeleteUser` | models.py:14 | Deleting a user removes exactly that user and every advertisement the user owns. The other records are unchanged. |
| `App.RegisterTwice` | app.py:131-138 | Two registrations of one valid payload add at most one user. When the email fits its column, the second is the duplicate-email 400. When it does not, the lookup never matches the stored copy and the second fails unhandled; when more than spaces would be cut, both fail and no user is added. |

Every `Store` method keeps `Valid()`. This invariant says:

- primary keys equal the records' ids and lie below the id counters, which
  start at 1;
- emails are unique and fit their column;
- every advertisement's owner exists;
- every stored advertisement meets the validator's bounds.

## Behaviours of the code worth knowing

- `patch` validates its body only after the 404 and 403 checks.
- The decorator answers `{"error": ...}`, not the HttpError envelope, with
  one of three messages. Only the unknown-email and wrong-password cases
  share a message.
- A patch or delete of a missing id without valid credentials gets 401,
  because the decorator runs first.

- An email containing ':' passes the validator, but such a user can never
  authenticate, because the credentials are split at the first colon
  (`Auth.Authenticate`).
- An email longer than 120 characters passes the validator. PostgreSQL cuts
  it to 120 characters when everything past them is spaces, and Register
  answers 201; otherwise the insert fails with an unhandled database error
  (a 500) instead of a 400. A repeated registration of a cut email is not
  caught by the duplicate check, which compares the uncut text, and fails at
  the unique constraint (`App.Store.Register`, `App.RegisterTwice`).

## Findings

| source | as written | input that shows it | evidently intended | confidence | as-written member | corrected member |
|---|---|---|---|---|---|---|
| app.py:29-41 | `validate_data` raises HttpError(400, `error.errors()`). Pydantic puts the validator's ValueError object in the `ctx` of every value_error entry, and `jsonify` in `error_handler` cannot encode it, so the request ends in a 500. | POST /ads/ with `{"title": "", "description": "x"}` | 400 with `{"status": "error", "message": [...]}` listing the failing fields | not executed | `App.ErrorHandlerAsWritten`, `App.EmptyTitleCreateIsServerError`, `App.ValidationFailuresAsWritten` | `App.ErrorResponse` |

## Left out

- Flask routing, `MethodView` dispatch, JSON encoding, `JSON_AS_ASCII`,
  pretty-printing and the Content-Type rewriting (app.py:13-17, 44-49,
  147-162) are framework plumbing. Handlers return a status and a JSON value.
- database.py (environment variables, the connection URI, pool settings,
  `create_all`, console output) is configuration. The model starts from
  empty tables.
- bcrypt internals, salt randomness and constant-time comparison are
  abstract. `hashpw` and `checkpw` are parameters, and `checkpw` is total: a
  ValueError from bcrypt inside the decorator's try block (a malformed stored
  hash, or an over-long password in recent bcrypt releases) is not modelled.
- base64 and UTF-8 decoding are one abstract partial function, `decode`.
- Timestamps are opaque values supplied by the caller.
- A field that is a JSON number, boolean, list or object is one value,
  `NonString`, whatever its content. Pydantic's `str` type refuses all of
  them alike with a string_type error, which the model states.
- Request bodies that are not JSON objects are not modelled. `request.json`
  (app.py:70, 96, 129) itself aborts the request when the body is not JSON or
  lacks a JSON Content-Type (a 4xx, 415 in current Flask releases), and when
  the JSON is malformed (400); `validate_data` never runs. A JSON body that is
  not an object (`null`, a list, a number) does reach
  `validator_class(**data)`, where `**` raises TypeError: an unhandled 500.
- Of pydantic's error entries, only type, loc and msg are modelled, and msg
  is the validator's own text. The input, ctx and url keys, and the
  "Value error, " prefix pydantic adds to a validator's message, are left out.
  What the ctx key does to the response is modelled (see Findings). The
  input key hides one consequence: for a missing field pydantic's `input` is
  the whole request body, and such an entry has no ctx, so it reaches the 400
  envelope. POST /register/ with `{"password": "secret1"}` is therefore
  answered 400 with the plaintext password echoed in the body. The model's
  envelope (`App.ErrorResponse`, `App.FieldErrorJson`) carries no input key
  and does not show this.
- The `if not current_user` checks after the decorator (app.py:67-68,
  86-87, 110-111) cannot fire, because an authenticated outcome always
  carries a user. They are omitted.
- `App.Store.ListAds`: the source's `Advertisement.query.all()` has no ORDER
  BY, so its order is whatever PostgreSQL returns. The model lists in id
  order, and its contract about the source is only "every advertisement,
  each once".
- `App.Store.Register`: on the unhandled-error path PostgreSQL may consume a
  sequence value. The model leaves `nextUserId` unchanged; only the ids later
  users receive would differ.
- `__repr__` (models.py:22-23, 44-45) is for debugging only.
- Auth.Authenticate: PostgreSQL text cannot hold U+0000, and the driver
  raises ValueError for such a parameter. An email containing it therefore
  gives 'Invalid authorization header' in the source (the try block catches
  it) where the model gives 'Invalid credentials'. The model has no notion
  of text the database refuses.
- App.Store.Create: a title or description containing U+0000 makes the
  insert raise, an unhandled 500, where the model answers 201.
- App.Store.Patch: a new title or description containing U+0000 makes the
  commit raise, an unhandled 500, where the model answers 200.
- App.Store.Create: a title or description holding a lone surrogate
  (`"\ud800"` in the JSON body) passes the validator, but the driver cannot
  encode it as UTF-8, so the insert raises: an unhandled 500 where the model
  answers 201. Dafny's `char` cannot hold a surrogate, so the model cannot
  show this.
- App.Store.Patch: a new title or description holding a lone surrogate makes
  the commit raise the same way: a 500 where the model answers 200.
- App.Store.Register: an email holding a lone surrogate makes the duplicate
  lookup raise, and a password holding one makes `password.encode('utf-8')`
  in `set_password` (models.py:17) raise: a 500 where the model answers 201.
- App.Store.Create: `db.Integer` primary keys are a 32-bit SERIAL, so an
  insert after id 2147483647 fails with an unhandled 500. The counter
  `nextAdId` is unbounded.
- App.Store.Register: likewise for the users' 32-bit id; `nextUserId` is
  unbounded.
- App.Store.Register: an email containing U+0000 makes the duplicate lookup
  raise, an unhandled 500. `hashpw` is total in the model, but recent bcrypt
  releases raise ValueError for a password over 72 bytes, also an unhandled
  500. The model answers 201 or 400 in both cases.
- Sessions, transactions and concurrent requests are not modelled. This
  includes last-writer-wins patches and a duplicate registration racing past
  the email check into the unique constraint. Each handler is one atomic step.
- `DeleteUser` has no HTTP endpoint. It models what the relationship's
  cascade and the foreign key's ON DELETE CASCADE do when a user row is
  deleted.
