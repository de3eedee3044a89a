/**
 * The `basic_auth_required` decorator of auth.py: HTTP Basic authentication
 * (section 2 of RFC 7617). The header must start with "Basic "; its second
 * space-separated token is base64-decoded to "email:password", split at the
 * first colon, and the user with that email must accept the password. The
 * outcome is the authenticated user (what the decorator stores as the
 * request's current user) or a 401 with one of three fixed messages.
 */
module Auth {
  import opened Wrappers
  import opened Responses
  import opened Models

  const AuthorizationRequired := "Authorization required"
  const InvalidCredentials := "Invalid credentials"
  const InvalidHeader := "Invalid authorization header"
  const Scheme := "Basic "

  /**
   * `base64.b64decode(token).decode('utf-8')`, supplied from outside: None
   * where the token is not base64 or its bytes are not UTF-8.
   */
  type Decoder = string -> Option<string>

  datatype AuthOutcome = Authenticated(user: User) | Denied(message: string)

  predicate StartsWith(s: string, prefix: string) {
    |prefix| <= |s| && s[..|prefix|] == prefix
  }

  /** The inverse of Split: the parts joined with `sep` between them. */
  function Join(parts: seq<string>, sep: char): string
    requires |parts| >= 1
  {
    if |parts| == 1 then parts[0] else parts[0] + [sep] + Join(parts[1..], sep)
  }

  /** Python's `s.split(sep)` with an explicit separator: every separator cuts, empty parts are kept. */
  function Split(s: string, sep: char): (parts: seq<string>)
    ensures |parts| >= 1
    ensures forall i | 0 <= i < |parts| :: sep !in parts[i]
    ensures Join(parts, sep) == s
    decreases |s|
  {
    if |s| == 0 then [""]
    else
      var rest := Split(s[1..], sep);
      if s[0] == sep then
        assert ([""] + rest)[1..] == rest;
        [""] + rest
      else
        var parts := [[s[0]] + rest[0]] + rest[1..];
        assert parts[1..] == rest[1..];
        assert |rest| > 1 ==> Join(rest, sep) == rest[0] + [sep] + Join(rest[1..], sep);
        assert s == [s[0]] + s[1..];
        parts
  }

  /** Splitting a string that starts with a separator-free word and a separator. */
  lemma {:induction false} SplitAfterWord(w: string, sep: char, rest: string)
    requires sep !in w
    ensures Split(w + [sep] + rest, sep) == [w] + Split(rest, sep)
    decreases |w|
  {
    if w == [] {
      assert w + [sep] + rest == [sep] + rest;
      assert ([sep] + rest)[1..] == rest;
    } else {
      var s := w + [sep] + rest;
      assert s[0] == w[0] && s[1..] == w[1..] + [sep] + rest;
      SplitAfterWord(w[1..], sep, rest);
      assert [w[0]] + w[1..] == w;
    }
  }

  /** A separator-free string is one part. */
  lemma SplitWithoutSeparator(s: string, sep: char)
    requires sep !in s
    ensures Split(s, sep) == [s]
  {
  }

  /** `s.split(c, 1)` unpacked into two names: None where `c` does not occur (the ValueError). */
  function SplitAtFirst(s: string, c: char): (r: Option<(string, string)>)
    ensures r.None? <==> c !in s
    ensures r.Some? ==> r.value.0 + [c] + r.value.1 == s && c !in r.value.0
    decreases |s|
  {
    if |s| == 0 then None
    else if s[0] == c then
      assert s == [] + [c] + s[1..];
      Some(([], s[1..]))
    else
      match SplitAtFirst(s[1..], c)
      case None => None
      case Some((a, b)) =>
        assert s == [s[0]] + s[1..];
        Some(([s[0]] + a, b))
  }

  /** The second part may hold further colons: only the first one separates. */
  lemma {:induction false} SplitAtFirstJoin(a: string, c: char, b: string)
    requires c !in a
    ensures SplitAtFirst(a + [c] + b, c) == Some((a, b))
    decreases |a|
  {
    var s := a + [c] + b;
    if a == [] {
      assert s[1..] == b;
    } else {
      assert s[0] == a[0] && s[1..] == a[1..] + [c] + b;
      SplitAtFirstJoin(a[1..], c, b);
      assert [a[0]] + a[1..] == a;
    }
  }

  /**
   * The header passes the first test of the decorator: present, non-empty,
   * scheme "Basic ". The emptiness test is subsumed by the prefix test, and a
   * header that passes always splits into "Basic" and at least one token more.
   */
  predicate HasBasicScheme(header: Option<string>)
    ensures HasBasicScheme(header) <==> header.Some? && StartsWith(header.value, Scheme)
    ensures HasBasicScheme(header) ==>
      |Split(header.value, ' ')| >= 2 && Split(header.value, ' ')[0] == "Basic"
  {
    if header.Some? && header.value != "" && StartsWith(header.value, Scheme) then
      SchemeHasSecondToken(header.value);
      true
    else
      false
  }

  /**
   * The try block up to the user lookup: the second token, decoded and split
   * at its first colon into (email, password). None is every case the
   * decorator catches as ValueError or IndexError.
   */
  function Credentials(header: string, decode: Decoder): (r: Option<(string, string)>)
    ensures r.Some? ==>
      |Split(header, ' ')| >= 2 && decode(Split(header, ' ')[1]) == Some(r.value.0 + [':'] + r.value.1)
    ensures r.Some? ==> ':' !in r.value.0
    ensures r.None? <==>
      |Split(header, ' ')| < 2 || decode(Split(header, ' ')[1]).None? || ':' !in decode(Split(header, ' ')[1]).value
  {
    var parts := Split(header, ' ');
    if |parts| < 2 then None
    else
      match decode(parts[1])
      case None => None
      case Some(decoded) => SplitAtFirst(decoded, ':')
  }

  /** After the "Basic " prefix there is always a second token, so the IndexError cannot occur. */
  lemma SchemeHasSecondToken(header: string)
    requires StartsWith(header, Scheme)
    ensures |Split(header, ' ')| >= 2 && Split(header, ' ')[0] == "Basic"
    ensures Split(header, ' ')[1] == Split(header[|Scheme|..], ' ')[0]
  {
    assert header == "Basic" + [' '] + header[|Scheme|..];
    SplitAfterWord("Basic", ' ', header[|Scheme|..]);
  }

  /**
   * basic_auth_required up to the call of the wrapped handler. `users` is the
   * users table, whose ids are all below `nextUserId`.
   */
  function Authenticate(header: Option<string>, decode: Decoder, users: map<int, User>, nextUserId: int,
                        checkpw: VerifyFn): (r: AuthOutcome)
    ensures r == Denied(AuthorizationRequired) <==> !HasBasicScheme(header)
    ensures r == Denied(InvalidHeader) <==> HasBasicScheme(header) && Credentials(header.value, decode).None?
    ensures r.Denied? ==> r.message in {AuthorizationRequired, InvalidHeader, InvalidCredentials}
    ensures r.Authenticated? ==>
      && HasBasicScheme(header)
      && Credentials(header.value, decode).Some?
      && r.user in users.Values
      && r.user.email == Credentials(header.value, decode).value.0
      && CheckPassword(r.user, Credentials(header.value, decode).value.1, checkpw)
    ensures r.Authenticated? ==> ':' !in r.user.email
  {
    if header.None? || header.value == "" || !StartsWith(header.value, Scheme) then
      Denied(AuthorizationRequired)
    else
      match Credentials(header.value, decode)
      case None => Denied(InvalidHeader)
      case Some((email, password)) =>
        match FindUserByEmail(users, email, nextUserId)
        case None => Denied(InvalidCredentials)
        case Some(id) =>
          if !CheckPassword(users[id], password, checkpw) then Denied(InvalidCredentials)
          else Authenticated(users[id])
  }

  /** On a table whose keys are the users' ids, the authenticated user is the row stored under its id. */
  lemma AuthenticatedUserIsStored(header: Option<string>, decode: Decoder, users: map<int, User>, nextUserId: int,
                                  checkpw: VerifyFn)
    requires UserIdsBelow(users, nextUserId)
    ensures Authenticate(header, decode, users, nextUserId, checkpw).Authenticated? ==>
      var u := Authenticate(header, decode, users, nextUserId, checkpw).user;
      u.id in users && users[u.id] == u
  {
  }

  /**
   * An unknown email and a wrong password are refused alike, with
   * "Invalid credentials", so a caller cannot tell which of the two failed.
   */
  lemma CredentialsRefusedAlike(header: Option<string>, decode: Decoder, users: map<int, User>, nextUserId: int,
                                checkpw: VerifyFn, email: string, password: string)
    requires UserIdsBelow(users, nextUserId) && EmailsUnique(users)
    requires HasBasicScheme(header) && Credentials(header.value, decode) == Some((email, password))
    ensures !EmailTaken(users, email) ==>
      Authenticate(header, decode, users, nextUserId, checkpw) == Denied(InvalidCredentials)
    ensures forall id | id in users && users[id].email == email && !CheckPassword(users[id], password, checkpw) ::
      Authenticate(header, decode, users, nextUserId, checkpw) == Denied(InvalidCredentials)
  {
  }

  /**
   * Basic authentication completes its round trip: a header "Basic <token>"
   * whose token decodes to "email:password" of a stored user whose hash
   * accepts the password authenticates exactly that user.
   */
  lemma RegisteredUserAuthenticates(users: map<int, User>, nextUserId: int, u: User, password: string,
                                    token: string, decode: Decoder, checkpw: VerifyFn)
    requires UserIdsBelow(users, nextUserId) && EmailsUnique(users)
    requires u.id in users && users[u.id] == u
    requires ':' !in u.email && ' ' !in token
    requires decode(token) == Some(u.email + [':'] + password)
    requires CheckPassword(u, password, checkpw)
    ensures Authenticate(Some(Scheme + token), decode, users, nextUserId, checkpw) == Authenticated(u)
  {
    var header := Scheme + token;
    assert header[..|Scheme|] == Scheme && header[|Scheme|..] == token;
    SchemeHasSecondToken(header);
    SplitWithoutSeparator(token, ' ');
    SplitAtFirstJoin(u.email, ':', password);
    assert Credentials(header, decode) == Some((u.email, password));
    FindUserByEmailExact(users, u.email, nextUserId);
  }

  /** Only the second token is read: anything after it does not change the credentials. */
  lemma ExtraTokensIgnored(token: string, extra: string, decode: Decoder)
    requires ' ' !in token
    ensures Credentials(Scheme + token + " " + extra, decode) == Credentials(Scheme + token, decode)
  {
    var long, short := Scheme + token + " " + extra, Scheme + token;
    assert long[..|Scheme|] == Scheme && long[|Scheme|..] == token + [' '] + extra;
    assert short[..|Scheme|] == Scheme && short[|Scheme|..] == token;
    SchemeHasSecondToken(long);
    SchemeHasSecondToken(short);
    SplitAfterWord(token, ' ', extra);
    SplitWithoutSeparator(token, ' ');
  }

  /**
   * Whatever else the header holds after its second token, credentials that
   * parse to a stored user's email and a password the user's hash accepts
   * authenticate exactly that user.
   */
  lemma StoredCredentialsAuthenticate(header: Option<string>, decode: Decoder, users: map<int, User>,
                                      nextUserId: int, u: User, password: string, checkpw: VerifyFn)
    requires UserIdsBelow(users, nextUserId) && EmailsUnique(users)
    requires u.id in users && users[u.id] == u
    requires HasBasicScheme(header) && Credentials(header.value, decode) == Some((u.email, password))
    requires CheckPassword(u, password, checkpw)
    ensures Authenticate(header, decode, users, nextUserId, checkpw) == Authenticated(u)
  {
    FindUserByEmailExact(users, u.email, nextUserId);
  }

  /** get_current_user: the user the decorator stored for this request, None when it stored none. */
  function CurrentUser(outcome: AuthOutcome): (r: Option<User>)
    ensures r.Some? <==> outcome.Authenticated?
    ensures r.Some? ==> r.value == outcome.user
  {
    match outcome
    case Authenticated(u) => Some(u)
    case Denied(_) => None
  }

  /** The decorator's own 401 answer: an `{"error": message}` body, not the HttpError envelope. */
  function DeniedResponse(message: string): (r: Response)
    ensures r.Response? && r.status == 401
    ensures r.body == JObject(map["error" := JStr(message)])
  {
    Response(401, JObject(map["error" := JStr(message)]))
  }
}
