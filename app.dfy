/**
 * The request handlers of app.py over the two tables: list, get, create,
 * patch and delete advertisements, and register users. Every handler
 * returns the response it would send; an HttpError becomes the
 * `{"status": "error", "message": ...}` envelope of `error_handler`.
 */
module App {
  import opened Wrappers
  import opened Responses
  import opened Validators
  import opened Models
  import opened Auth

  /** HttpError's message: a plain string or the validation error list. */
  datatype ErrorMessage = Text(text: string) | Details(errors: seq<FieldError>)

  datatype HttpError = HttpError(status: int, message: ErrorMessage)

  const AdNotFound := "Advertisement not found"
  const EditForbidden := "You can only edit your own advertisements"
  const DeleteForbidden := "You can only delete your own advertisements"
  const AdDeleted := "Advertisement deleted successfully"
  const DuplicateEmail := "User with this email already exists"
  const UserCreated := "User created successfully"

  /** The `type` pydantic gives each kind of error: one name per kind. */
  function KindName(k: ErrorKind): (r: string)
    ensures r == "missing" <==> k == FieldRequired
    ensures r == "string_type" <==> k == NotAString
    ensures r == "value_error" <==> k == ValueError
  {
    match k
    case FieldRequired => "missing"
    case NotAString => "string_type"
    case ValueError => "value_error"
  }

  /** One entry of `error.errors()`: its type, its location (the one field) and its message. */
  function FieldErrorJson(e: FieldError): (j: Json)
    ensures j.JObject? && j.fields.Keys == {"type", "loc", "msg"}
    ensures j.fields["loc"] == JList([JStr(e.field)]) && j.fields["msg"] == JStr(e.message)
    ensures j.fields["type"] == JStr(KindName(e.kind))
  {
    JObject(map["type" := JStr(KindName(e.kind)), "loc" := JList([JStr(e.field)]), "msg" := JStr(e.message)])
  }

  function MessageJson(m: ErrorMessage): (j: Json)
    ensures m.Text? ==> j == JStr(m.text)
    ensures m.Details? ==> j.JList? && |j.items| == |m.errors|
    ensures m.Details? ==> forall i | 0 <= i < |m.errors| :: j.items[i] == FieldErrorJson(m.errors[i])
  {
    match m
    case Text(t) => JStr(t)
    case Details(errs) => JList(seq(|errs|, i requires 0 <= i < |errs| => FieldErrorJson(errs[i])))
  }

  /**
   * error_handler as intended: the uniform envelope, with exactly the error's
   * status code. The handlers below answer every HttpError with it.
   */
  function ErrorResponse(e: HttpError): (r: Response)
    ensures r.Response? && r.status == e.status
    ensures r.body.JObject? && r.body.fields.Keys == {"status", "message"}
    ensures r.body.fields["status"] == JStr("error") && r.body.fields["message"] == MessageJson(e.message)
  {
    Response(e.status, JObject(map["status" := JStr("error"), "message" := MessageJson(e.message)]))
  }

  /**
   * The message holds a value_error entry. pydantic gives such an entry a
   * `ctx` whose value is the validator's ValueError object itself.
   */
  predicate CarriesException(m: ErrorMessage) {
    m.Details? && exists i | 0 <= i < |m.errors| :: m.errors[i].kind == ValueError
  }

  /**
   * error_handler as written: `jsonify` cannot encode the exception object in
   * a value_error entry's `ctx`, so it raises inside the handler and the
   * request ends in an unhandled error (a 500). Every other error gets the
   * envelope.
   */
  function ErrorHandlerAsWritten(e: HttpError): (r: Response)
    ensures r == Unhandled <==> CarriesException(e.message)
    ensures r.Response? ==> r == ErrorResponse(e)
  {
    if CarriesException(e.message) then Unhandled else ErrorResponse(e)
  }

  /**
   * The failure the create validator exists for, an empty title, is a 500 in
   * the code as written and the 400 envelope as intended.
   */
  lemma EmptyTitleCreateIsServerError(description: JsonField)
    ensures ValidateData(ValidateAdCreate(AdPayload(Str(""), description))).Err?
    ensures var e := ValidateData(ValidateAdCreate(AdPayload(Str(""), description))).error;
      ErrorHandlerAsWritten(e) == Unhandled && ErrorResponse(e).status == 400
  {
  }

  /**
   * Which validation failures reach the 400 envelope in the code as written:
   * only those where no string fails its field's check. A string that fails
   * its check makes the request a 500; an absent field, a null or a value
   * that is not a string is reported without an exception object.
   */
  lemma ValidationFailuresAsWritten(ad: AdPayload, user: UserPayload)
    ensures ValidateAdCreate(ad).Err? ==>
      (ErrorHandlerAsWritten(ValidateData(ValidateAdCreate(ad)).error) == Unhandled <==>
        (ad.title.Str? && !TitleOk(ad.title.value)) || (ad.description.Str? && !DescriptionOk(ad.description.value)))
    ensures ValidateAdUpdate(ad).Err? ==>
      (ErrorHandlerAsWritten(ValidateData(ValidateAdUpdate(ad)).error) == Unhandled <==>
        (ad.title.Str? && !TitleOk(ad.title.value)) || (ad.description.Str? && !DescriptionOk(ad.description.value)))
    ensures ValidateUserCreate(user).Err? ==>
      (ErrorHandlerAsWritten(ValidateData(ValidateUserCreate(user)).error) == Unhandled <==>
        (user.email.Str? && !EmailOk(user.email.value)) || (user.password.Str? && !PasswordOk(user.password.value)))
  {
  }

  /** The decorator's 401 bodies and the HttpError envelope never coincide. */
  lemma DeniedIsNotAnEnvelope(message: string, e: HttpError)
    ensures DeniedResponse(message) != ErrorResponse(e)
    ensures "status" !in DeniedResponse(message).body.fields
  {
  }

  /** validate_data: a failed validation is an HttpError 400 carrying the validator's error list. */
  function ValidateData<T>(v: Result<T, seq<FieldError>>): (r: Result<T, HttpError>)
    ensures r.Ok? <==> v.Ok?
    ensures r.Ok? ==> r.value == v.value
    ensures r.Err? ==> r.error.status == 400 && r.error.message == Details(v.error)
  {
    match v
    case Ok(value) => Ok(value)
    case Err(errs) => Err(HttpError(400, Details(errs)))
  }

  /** The assignments of `patch`: a field present in the validated update replaces the stored one. */
  function ApplyUpdate(ad: Ad, upd: AdUpdate): (r: Ad)
    ensures r.title == (if upd.title.Some? then upd.title.value else ad.title)
    ensures r.description == (if upd.description.Some? then upd.description.value else ad.description)
    ensures r.id == ad.id && r.ownerId == ad.ownerId && r.createdAt == ad.createdAt
  {
    var withTitle := if upd.title.Some? then ad.(title := upd.title.value) else ad;
    if upd.description.Some? then withTitle.(description := upd.description.value) else withTitle
  }

  /** A validated update keeps a stored advertisement within the create bounds. */
  lemma ApplyUpdateKeepsBounds(ad: Ad, p: AdPayload)
    requires TitleOk(ad.title) && DescriptionOk(ad.description)
    requires ValidateAdUpdate(p).Ok?
    ensures TitleOk(ApplyUpdate(ad, ValidateAdUpdate(p).value).title)
    ensures DescriptionOk(ApplyUpdate(ad, ValidateAdUpdate(p).value).description)
  {
  }

  /** The advertisements with primary key below `n`, in key order: what the list view serialises. */
  function AdsBelow(ads: map<int, Ad>, n: int): seq<Ad>
    decreases n
  {
    if n <= 0 then [] else AdsBelow(ads, n - 1) + (if n - 1 in ads then [ads[n - 1]] else [])
  }

  /**
   * AdsBelow lists each stored advertisement with key below `n` once, in
   * increasing id order, and nothing else.
   */
  lemma {:induction false} AdsBelowIsTable(ads: map<int, Ad>, n: int)
    requires forall id | id in ads :: ads[id].id == id
    ensures forall id | 0 <= id < n && id in ads :: ads[id] in AdsBelow(ads, n)
    ensures forall k | 0 <= k < |AdsBelow(ads, n)| ::
      AdsBelow(ads, n)[k].id in ads && ads[AdsBelow(ads, n)[k].id] == AdsBelow(ads, n)[k] && AdsBelow(ads, n)[k].id < n
    ensures forall i, j | 0 <= i < j < |AdsBelow(ads, n)| :: AdsBelow(ads, n)[i].id < AdsBelow(ads, n)[j].id
    decreases n
  {
    if n > 0 {
      AdsBelowIsTable(ads, n - 1);
    }
  }

  /** `[ad.to_dict() for ad in advertisements]`. */
  function Serialize(s: seq<Ad>): (r: seq<Json>)
    ensures |r| == |s|
    ensures forall i | 0 <= i < |s| :: r[i] == JObject(ToDict(s[i]))
  {
    seq(|s|, i requires 0 <= i < |s| => JObject(ToDict(s[i])))
  }

  /** `j` is the dict of some advertisement stored in `ads`. */
  ghost predicate DictOfStored(ads: map<int, Ad>, j: Json) {
    exists id :: id in ads && j == JObject(ToDict(ads[id]))
  }

  /**
   * Serialising a listing that holds every record of a table and only its
   * records gives every record's dict, and only records' dicts.
   */
  lemma SerializedListing(listed: seq<Ad>, ads: map<int, Ad>)
    requires forall id | id in ads :: ads[id] in listed
    requires forall k | 0 <= k < |listed| :: listed[k].id in ads && ads[listed[k].id] == listed[k]
    ensures forall id | id in ads :: JObject(ToDict(ads[id])) in Serialize(listed)
    ensures forall k | 0 <= k < |listed| :: DictOfStored(ads, Serialize(listed)[k])
  {
    forall id | id in ads
      ensures JObject(ToDict(ads[id])) in Serialize(listed)
    {
      var k :| 0 <= k < |listed| && listed[k] == ads[id];
      assert Serialize(listed)[k] == JObject(ToDict(listed[k]));
    }
    forall k | 0 <= k < |listed|
      ensures DictOfStored(ads, Serialize(listed)[k])
    {
      var id := listed[k].id;
      assert id in ads && Serialize(listed)[k] == JObject(ToDict(ads[id]));
    }
  }

  /** The advertisements table with every record inside the validator's bounds. */
  ghost predicate AdsInBounds(ads: map<int, Ad>) {
    forall id | id in ads :: TitleOk(ads[id].title) && DescriptionOk(ads[id].description)
  }

  /** Inserting a validated advertisement of an existing user under the next id keeps every constraint. */
  lemma InsertAdKeepsValid(users: map<int, User>, ads: map<int, Ad>, nextUserId: int, nextAdId: int, ad: Ad)
    requires TablesValid(users, ads, nextUserId, nextAdId) && AdsInBounds(ads)
    requires ad.id == nextAdId && ad.ownerId in users && TitleOk(ad.title) && DescriptionOk(ad.description)
    ensures ad.id !in ads
    ensures TablesValid(users, ads[ad.id := ad], nextUserId, nextAdId + 1) && AdsInBounds(ads[ad.id := ad])
  {
  }

  /** The session: the users and advertisements tables and their id sequences. */
  class Store {
    var users: map<int, User>
    var ads: map<int, Ad>
    var nextUserId: nat
    var nextAdId: nat
    const hashpw: HashFn
    const checkpw: VerifyFn

    /** The table constraints, and every stored advertisement within the validator's bounds. */
    ghost predicate Valid()
      reads this
    {
      && TablesValid(users, ads, nextUserId, nextAdId)
      && AdsInBounds(ads)
    }

    constructor (hashpw: HashFn, checkpw: VerifyFn)
      ensures Valid()
      ensures users == map[] && ads == map[] && nextUserId == 1 && nextAdId == 1
      ensures this.hashpw == hashpw && this.checkpw == checkpw
    {
      users := map[];
      ads := map[];
      nextUserId := 1;
      nextAdId := 1;
      this.hashpw := hashpw;
      this.checkpw := checkpw;
    }

    /**
     * The decorator run against the current users table; the user it
     * authenticates is the row stored under that user's id.
     */
    function Authorize(header: Option<string>, decode: Decoder): (r: AuthOutcome)
      requires Valid()
      reads this
      ensures r.Authenticated? ==> r.user.id in users && users[r.user.id] == r.user
    {
      AuthenticatedUserIsStored(header, decode, users, nextUserId, checkpw);
      Authenticate(header, decode, users, nextUserId, checkpw)
    }

    /** The list branch of `get`: every advertisement's dict, in id order. */
    method ListAds() returns (items: seq<Json>)
      requires Valid()
      ensures items == Serialize(AdsBelow(ads, nextAdId))
      ensures forall id | id in ads :: JObject(ToDict(ads[id])) in items
      ensures forall k | 0 <= k < |items| :: DictOfStored(ads, items[k])
    {
      items := [];
      var id := 0;
      while id < nextAdId
        invariant 0 <= id <= nextAdId
        invariant |items| == |AdsBelow(ads, id)|
        invariant forall k | 0 <= k < |items| :: items[k] == JObject(ToDict(AdsBelow(ads, id)[k]))
      {
        if id in ads {
          items := items + [JObject(ToDict(ads[id]))];
        }
        id := id + 1;
      }
      var listed := AdsBelow(ads, nextAdId);
      assert items == Serialize(listed);
      AdsBelowIsTable(ads, nextAdId);
      SerializedListing(listed, ads);
    }

    /**
     * AdvertisementView.get. A non-zero id looks the advertisement up; no id,
     * and also the id 0 (which `if ad_id:` treats as false), lists them all.
     */
    method Get(adId: Option<nat>) returns (resp: Response)
      requires Valid()
      ensures adId.Some? && adId.value != 0 && adId.value !in ads ==>
        resp == ErrorResponse(HttpError(404, Text(AdNotFound)))
      ensures adId.Some? && adId.value != 0 && adId.value in ads ==>
        resp == Response(200, JObject(ToDict(ads[adId.value])))
      ensures adId.None? || adId.value == 0 ==>
        resp == Response(200, JList(Serialize(AdsBelow(ads, nextAdId))))
    {
      if adId.Some? && adId.value != 0 {
        if adId.value !in ads {
          return ErrorResponse(HttpError(404, Text(AdNotFound)));
        }
        resp := Response(200, JObject(ToDict(ads[adId.value])));
      } else {
        var items := ListAds();
        resp := Response(200, JList(items));
      }
    }

    /** AdvertisementView.post: a new advertisement owned by the authenticated user. */
    method Create(header: Option<string>, decode: Decoder, payload: AdPayload, now: Timestamp)
      returns (resp: Response)
      requires Valid()
      modifies this
      ensures Valid()
      ensures users == old(users) && nextUserId == old(nextUserId)
      ensures match old(Authorize(header, decode))
        case Denied(m) => resp == DeniedResponse(m) && ads == old(ads) && nextAdId == old(nextAdId)
        case Authenticated(u) =>
          match ValidateData(ValidateAdCreate(payload))
          case Err(e) => resp == ErrorResponse(e) && ads == old(ads) && nextAdId == old(nextAdId)
          case Ok(v) =>
            var ad := Ad(old(nextAdId), v.title, v.description, now, u.id);
            && ad.id !in old(ads)
            && ads == old(ads)[ad.id := ad]
            && nextAdId == old(nextAdId) + 1
            && resp == Response(201, JObject(ToDict(ad)))
    {
      var auth := Authorize(header, decode);
      if auth.Denied? {
        return DeniedResponse(auth.message);
      }
      var current := auth.user;
      var validated := ValidateData(ValidateAdCreate(payload));
      if validated.Err? {
        return ErrorResponse(validated.error);
      }
      var ad := Ad(nextAdId, validated.value.title, validated.value.description, now, current.id);
      InsertAdKeepsValid(users, ads, nextUserId, nextAdId, ad);
      ads := ads[ad.id := ad];
      nextAdId := nextAdId + 1;
      resp := Response(201, JObject(ToDict(ad)));
    }

    /**
     * AdvertisementView.patch: 401 from the decorator, then 404, then 403,
     * then 400; only then the fields present in the update are assigned.
     */
    method Patch(header: Option<string>, decode: Decoder, adId: nat, payload: AdPayload)
      returns (resp: Response)
      requires Valid()
      modifies this
      ensures Valid()
      ensures users == old(users) && nextUserId == old(nextUserId) && nextAdId == old(nextAdId)
      ensures match old(Authorize(header, decode))
        case Denied(m) => resp == DeniedResponse(m) && ads == old(ads)
        case Authenticated(u) =>
          if adId !in old(ads) then
            resp == ErrorResponse(HttpError(404, Text(AdNotFound))) && ads == old(ads)
          else if old(ads)[adId].ownerId != u.id then
            resp == ErrorResponse(HttpError(403, Text(EditForbidden))) && ads == old(ads)
          else
            match ValidateData(ValidateAdUpdate(payload))
            case Err(e) => resp == ErrorResponse(e) && ads == old(ads)
            case Ok(upd) =>
              var ad := ApplyUpdate(old(ads)[adId], upd);
              ads == old(ads)[adId := ad] && resp == Response(200, JObject(ToDict(ad)))
    {
      var auth := Authorize(header, decode);
      if auth.Denied? {
        return DeniedResponse(auth.message);
      }
      var current := auth.user;
      if adId !in ads {
        return ErrorResponse(HttpError(404, Text(AdNotFound)));
      }
      var ad := ads[adId];
      if ad.ownerId != current.id {
        return ErrorResponse(HttpError(403, Text(EditForbidden)));
      }
      var validated := ValidateData(ValidateAdUpdate(payload));
      if validated.Err? {
        return ErrorResponse(validated.error);
      }
      ApplyUpdateKeepsBounds(ad, payload);
      ad := ApplyUpdate(ad, validated.value);
      ads := ads[adId := ad];
      resp := Response(200, JObject(ToDict(ad)));
    }

    /** AdvertisementView.delete: 401, then 404, then 403; otherwise exactly that advertisement goes. */
    method Delete(header: Option<string>, decode: Decoder, adId: nat) returns (resp: Response)
      requires Valid()
      modifies this
      ensures Valid()
      ensures users == old(users) && nextUserId == old(nextUserId) && nextAdId == old(nextAdId)
      ensures match old(Authorize(header, decode))
        case Denied(m) => resp == DeniedResponse(m) && ads == old(ads)
        case Authenticated(u) =>
          if adId !in old(ads) then
            resp == ErrorResponse(HttpError(404, Text(AdNotFound))) && ads == old(ads)
          else if old(ads)[adId].ownerId != u.id then
            resp == ErrorResponse(HttpError(403, Text(DeleteForbidden))) && ads == old(ads)
          else
            ads == old(ads) - {adId} && resp == Response(200, JObject(map["message" := JStr(AdDeleted)]))
    {
      var auth := Authorize(header, decode);
      if auth.Denied? {
        return DeniedResponse(auth.message);
      }
      var current := auth.user;
      if adId !in ads {
        return ErrorResponse(HttpError(404, Text(AdNotFound)));
      }
      if ads[adId].ownerId != current.id {
        return ErrorResponse(HttpError(403, Text(DeleteForbidden)));
      }
      ads := ads - {adId};
      resp := Response(200, JObject(map["message" := JStr(AdDeleted)]));
    }

    /**
     * UserView.post: validation, then the duplicate-email check (400, not
     * 409), then the insert. The validator does not bound the email's length:
     * the varchar(120) column stores an over-long email cut to 120 characters
     * when only spaces are cut, and refuses it otherwise. A refused insert, or
     * a cut email that another user already has, is a database error nothing
     * catches.
     */
    method Register(payload: UserPayload, salt: string, now: Timestamp) returns (resp: Response)
      requires Valid()
      modifies this
      ensures Valid()
      ensures ads == old(ads) && nextAdId == old(nextAdId)
      ensures match ValidateData(ValidateUserCreate(payload))
        case Err(e) => resp == ErrorResponse(e) && users == old(users) && nextUserId == old(nextUserId)
        case Ok(v) =>
          if EmailTaken(old(users), v.email) then
            && resp == ErrorResponse(HttpError(400, Text(DuplicateEmail)))
            && users == old(users) && nextUserId == old(nextUserId)
          else
            match EmailColumnValue(v.email)
            case None => resp == Unhandled && users == old(users) && nextUserId == old(nextUserId)
            case Some(stored) =>
              if EmailTaken(old(users), stored) then
                resp == Unhandled && users == old(users) && nextUserId == old(nextUserId)
              else
                var u := User(old(nextUserId), stored, hashpw(v.password, salt), now);
                && u.id !in old(users)
                && users == old(users)[u.id := u]
                && nextUserId == old(nextUserId) + 1
                && resp == Response(201, JObject(map["message" := JStr(UserCreated), "user_id" := JInt(u.id)]))
    {
      var validated := ValidateData(ValidateUserCreate(payload));
      if validated.Err? {
        return ErrorResponse(validated.error);
      }
      var v := validated.value;
      FindUserByEmailExact(users, v.email, nextUserId);
      if FindUserByEmail(users, v.email, nextUserId).Some? {
        return ErrorResponse(HttpError(400, Text(DuplicateEmail)));
      }
      var u := SetPassword(User(nextUserId, v.email, "", now), v.password, salt, hashpw);
      var stored := EmailColumnValue(u.email);
      if stored.None? {
        return Unhandled;
      }
      FindUserByEmailExact(users, stored.value, nextUserId);
      if FindUserByEmail(users, stored.value, nextUserId).Some? {
        return Unhandled;
      }
      u := u.(email := stored.value);
      users := users[u.id := u];
      nextUserId := nextUserId + 1;
      resp := Response(201, JObject(map["message" := JStr(UserCreated), "user_id" := JInt(u.id)]));
    }

    /**
     * Deleting a user row: the `cascade='all, delete-orphan'` relationship and
     * the ON DELETE CASCADE foreign key take that user's advertisements too.
     */
    method DeleteUser(userId: int)
      requires Valid()
      modifies this
      ensures Valid()
      ensures users == old(users) - {userId}
      ensures ads == WithoutOwner(old(ads), userId)
      ensures nextUserId == old(nextUserId) && nextAdId == old(nextAdId)
    {
      CascadeKeepsTablesValid(users, ads, nextUserId, nextAdId, userId);
      var remainingAds, remainingUsers := WithoutOwner(ads, userId), users - {userId};
      ads, users := remainingAds, remainingUsers;
    }
  }
  /**
   * Registering one valid payload twice adds at most one user. The second
   * request is the duplicate-email 400 when the email fits its column. An
   * over-long email never matches the stored, cut copy, so its second request
   * fails at the unique constraint instead; and when more than spaces would
   * be cut, both requests fail.
   */
  method RegisterTwice(store: Store, payload: UserPayload, salt1: string, salt2: string, now1: Timestamp,
                       now2: Timestamp) returns (first: Response, second: Response)
    requires store.Valid() && ValidateUserCreate(payload).Ok?
    modifies store
    ensures store.Valid()
    ensures store.users.Keys <= old(store.users).Keys + {old(store.nextUserId)}
    ensures |payload.email.value| <= EmailColumnLength ==>
      second == ErrorResponse(HttpError(400, Text(DuplicateEmail)))
    ensures |payload.email.value| > EmailColumnLength ==> second == Unhandled
    ensures EmailColumnValue(payload.email.value).None? ==> first == Unhandled && store.users == old(store.users)
  {
    var email := payload.email.value;
    first := store.Register(payload, salt1, now1);
    assert EmailColumnValue(email).Some? ==> EmailTaken(store.users, EmailColumnValue(email).value) by {
      if EmailColumnValue(email).Some? && !EmailTaken(old(store.users), email) {
        var stored := EmailColumnValue(email).value;
        if !EmailTaken(old(store.users), stored) {
          var id := old(store.nextUserId);
          assert id in store.users && store.users[id].email == stored;
        }
      }
    }
    assert |email| > EmailColumnLength ==> !EmailTaken(store.users, email);
    second := store.Register(payload, salt2, now2);
  }
}
