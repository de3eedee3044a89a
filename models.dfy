/**
 * The two tables of models.py, `users` and `advertisements`, as records kept
 * in maps keyed by primary key, with the column constraints as an invariant:
 * unique non-null emails, owners that exist, and deletion of a user cascading
 * to that user's advertisements.
 */
module Models {
  import opened Wrappers
  import opened Responses

  /** A `created_at` value; only its ISO-8601 rendering is ever observed. */
  datatype Timestamp = Timestamp(iso: string)

  datatype User = User(id: int, email: string, passwordHash: string, createdAt: Timestamp)

  datatype Ad = Ad(id: int, title: string, description: string, createdAt: Timestamp, ownerId: int)

  /** Width of the `users.email` column, String(120). */
  const EmailColumnLength: nat := 120

  /**
   * The value PostgreSQL stores for an email in its varchar(120) column: the
   * text itself when it fits; its first 120 characters when everything past
   * them is spaces, which are dropped silently; otherwise None, the insert's
   * "value too long" error.
   */
  function EmailColumnValue(email: string): (r: Option<string>)
    ensures r.None? <==> exists i | EmailColumnLength <= i < |email| :: email[i] != ' '
    ensures |email| <= EmailColumnLength ==> r == Some(email)
    ensures r.Some? ==> |r.value| <= EmailColumnLength && r.value <= email
    ensures r.Some? ==> forall i | |r.value| <= i < |email| :: email[i] == ' '
    ensures r.Some? && |email| > EmailColumnLength ==> r.value == email[..EmailColumnLength]
  {
    if |email| <= EmailColumnLength then Some(email)
    else if forall i | EmailColumnLength <= i < |email| :: email[i] == ' ' then Some(email[..EmailColumnLength])
    else None
  }

  /** bcrypt.hashpw(password, salt) and bcrypt.checkpw(password, hash), supplied from outside. */
  type HashFn = (string, string) -> string
  type VerifyFn = (string, string) -> bool

  /** What bcrypt promises: a password verifies against every hash made from it. */
  ghost predicate HashVerifies(hashpw: HashFn, checkpw: VerifyFn) {
    forall password, salt :: checkpw(password, hashpw(password, salt))
  }

  /** User.set_password: stores the hash of the password, never the password itself. */
  function SetPassword(u: User, password: string, salt: string, hashpw: HashFn): (r: User)
    ensures r.passwordHash == hashpw(password, salt)
    ensures r.id == u.id && r.email == u.email && r.createdAt == u.createdAt
  {
    u.(passwordHash := hashpw(password, salt))
  }

  /** User.check_password: bcrypt's verdict on the password against the stored hash, the only place a password is compared. */
  predicate CheckPassword(u: User, password: string, checkpw: VerifyFn)
    ensures CheckPassword(u, password, checkpw) <==> checkpw(password, u.passwordHash)
  {
    checkpw(password, u.passwordHash)
  }

  /** A password set with SetPassword is accepted by CheckPassword, whatever the salt and the earlier hash. */
  lemma SetPasswordThenCheck(u: User, password: string, salt: string, hashpw: HashFn, checkpw: VerifyFn)
    requires HashVerifies(hashpw, checkpw)
    ensures CheckPassword(SetPassword(u, password, salt, hashpw), password, checkpw)
  {
  }

  const AdKeys: set<string> := {"id", "title", "description", "created_at", "owner_id"}

  /** Advertisement.to_dict: the one record projection the service serialises. */
  function ToDict(ad: Ad): (r: map<string, Json>)
    ensures r.Keys == AdKeys
    ensures r["id"] == JInt(ad.id) && r["owner_id"] == JInt(ad.ownerId)
    ensures r["title"] == JStr(ad.title) && r["description"] == JStr(ad.description)
    ensures r["created_at"] == JStr(ad.createdAt.iso)
  {
    map["id" := JInt(ad.id), "title" := JStr(ad.title), "description" := JStr(ad.description),
        "created_at" := JStr(ad.createdAt.iso), "owner_id" := JInt(ad.ownerId)]
  }

  /** The projection loses nothing: two advertisements with the same dict are the same record. */
  lemma ToDictInjective(a: Ad, b: Ad)
    requires ToDict(a) == ToDict(b)
    ensures a == b
  {
  }

  /** No key of the projection carries a password or a password hash. */
  lemma ToDictHidesPasswords(ad: Ad)
    ensures "password" !in ToDict(ad) && "password_hash" !in ToDict(ad)
  {
  }

  /** The primary keys are the records' ids, all in 1 .. next - 1 (ids start at 1). */
  ghost predicate UserIdsBelow(users: map<int, User>, nextUserId: int) {
    forall id | id in users :: 0 < id < nextUserId && users[id].id == id
  }

  ghost predicate AdIdsBelow(ads: map<int, Ad>, nextAdId: int) {
    forall id | id in ads :: 0 < id < nextAdId && ads[id].id == id
  }

  /** `unique=True` on users.email. */
  ghost predicate EmailsUnique(users: map<int, User>) {
    forall i, j | i in users && j in users && users[i].email == users[j].email :: i == j
  }

  /** `nullable=False` foreign key advertisements.owner_id -> users.id. */
  ghost predicate OwnersExist(users: map<int, User>, ads: map<int, Ad>) {
    forall id | id in ads :: ads[id].ownerId in users
  }

  /** Every email fits its String(120) column. */
  ghost predicate EmailsFit(users: map<int, User>) {
    forall id | id in users :: |users[id].email| <= EmailColumnLength
  }

  ghost predicate TablesValid(users: map<int, User>, ads: map<int, Ad>, nextUserId: int, nextAdId: int) {
    && 0 < nextUserId && 0 < nextAdId
    && UserIdsBelow(users, nextUserId)
    && AdIdsBelow(ads, nextAdId)
    && EmailsUnique(users)
    && EmailsFit(users)
    && OwnersExist(users, ads)
  }

  ghost predicate EmailTaken(users: map<int, User>, email: string) {
    exists id :: id in users && users[id].email == email
  }

  /**
   * `User.query.filter_by(email=email).first()` over the rows with id below
   * `bound`: the id of a user with that email, or None when there is none.
   */
  function FindUserByEmail(users: map<int, User>, email: string, bound: int): (r: Option<int>)
    ensures r.Some? ==> r.value in users && users[r.value].email == email && 0 <= r.value < bound
    ensures r.None? ==> forall id | 0 <= id < bound && id in users :: users[id].email != email
    decreases bound
  {
    if bound <= 0 then None
    else if bound - 1 in users && users[bound - 1].email == email then Some(bound - 1)
    else FindUserByEmail(users, email, bound - 1)
  }

  /** On a valid users table the lookup finds the one user with that email, and finds nothing exactly when the email is free. */
  lemma FindUserByEmailExact(users: map<int, User>, email: string, nextUserId: int)
    requires UserIdsBelow(users, nextUserId) && EmailsUnique(users)
    ensures FindUserByEmail(users, email, nextUserId).None? <==> !EmailTaken(users, email)
    ensures forall id | id in users && users[id].email == email :: FindUserByEmail(users, email, nextUserId) == Some(id)
  {
  }

  /** The advertisements that survive deleting user `userId`: the ON DELETE CASCADE of owner_id. */
  function WithoutOwner(ads: map<int, Ad>, userId: int): (r: map<int, Ad>)
    ensures forall id :: id in r <==> id in ads && ads[id].ownerId != userId
    ensures forall id | id in r :: r[id] == ads[id]
  {
    map id | id in ads && ads[id].ownerId != userId :: ads[id]
  }

  /** Deleting a user together with that user's advertisements keeps every table constraint. */
  lemma CascadeKeepsTablesValid(users: map<int, User>, ads: map<int, Ad>, nextUserId: int, nextAdId: int, userId: int)
    requires TablesValid(users, ads, nextUserId, nextAdId)
    ensures TablesValid(users - {userId}, WithoutOwner(ads, userId), nextUserId, nextAdId)
    ensures forall id | id in WithoutOwner(ads, userId) :: WithoutOwner(ads, userId)[id].ownerId != userId
  {
  }
}
