/**
  * The authentication decisions of auth.py: checking a username and password
  * against the fixed user table, building the claims of an access token, and
  * resolving a bearer token to a user or rejecting it with one 401 error.
  *
  * Signing and verifying are left to a `JwtCodec`, a pair of functions the
  * model knows nothing about except what a lemma explicitly requires of them.
  * Times are whole seconds since the epoch.
  */
module Auth {
  import opened Wrappers

  /** A JSON value inside a token payload. */
  datatype ClaimValue = Null | Text(s: string) | Number(n: int)

  type Claims = map<string, ClaimValue>

  datatype User = User(username: string, password: string)

  /** ACCESS_TOKEN_EXPIRE_MINUTES. */
  const ACCESS_TOKEN_EXPIRE_MINUTES: int := 30

  /** The default token lifetime in seconds. */
  const DEFAULT_LIFETIME: int := ACCESS_TOKEN_EXPIRE_MINUTES * 60

  /** FAKE_USER_DATA: the only account is admin / secret. */
  const FAKE_USER_DATA: map<string, User> := map["admin" := User("admin", "secret")]

  /** The exception every failed token check raises. */
  datatype HttpException = HttpException(statusCode: int, detail: string, headers: map<string, string>)

  const CREDENTIALS_EXCEPTION: HttpException :=
    HttpException(401, "Could not validate credentials", map["WWW-Authenticate" := "Bearer"])

  /**
    * `jwt.encode` and `jwt.decode` under the fixed secret key and algorithm.
    * `decode(token, now)` is None when the library raises (bad signature,
    * malformed token, expired at `now`).
    */
  datatype JwtCodec = JwtCodec(encode: Claims -> string, decode: (string, int) -> Option<Claims>)

  /** Liveness of a payload the service issues: `exp`, if present, is a number after `now`. */
  predicate Unexpired(claims: Claims, now: int)
  {
    "exp" in claims ==> claims["exp"].Number? && claims["exp"].n > now
  }

  /**
    * A payload the library hands back unchanged while it is live: no claim
    * other than `sub` and `exp` (an `aud`, `nbf`, `iat` or `iss` is checked by
    * the library too), and a `sub`, if present, that is a string.
    */
  predicate PlainPayload(claims: Claims)
  {
    && claims.Keys <= {"sub", "exp"}
    && ("sub" in claims ==> claims["sub"].Text?)
  }

  /**
    * What the model assumes of the library, wherever a lemma needs it:
    * decoding a token this codec produced fails once its numeric `exp` has
    * passed, and gives the payload back while it is live if it is plain.
    */
  ghost predicate Faithful(codec: JwtCodec)
  {
    forall claims: Claims, now: int {:trigger codec.decode(codec.encode(claims), now)} ::
      && ("exp" in claims && claims["exp"].Number? && claims["exp"].n <= now ==>
            codec.decode(codec.encode(claims), now) == None)
      && (Unexpired(claims, now) && PlainPayload(claims) ==> codec.decode(codec.encode(claims), now) == Some(claims))
  }

  /** `authenticate_user`: the user record, or None where the source returns False. */
  function AuthenticateUser(username: string, password: string): (r: Option<User>)
    ensures r.Some? <==> username in FAKE_USER_DATA && password == FAKE_USER_DATA[username].password
    ensures r.Some? ==> r.value == FAKE_USER_DATA[username] && r.value.username == username
  {
    if username !in FAKE_USER_DATA || password != FAKE_USER_DATA[username].password then None
    else Some(FAKE_USER_DATA[username])
  }

  /** The only accepted pair is admin / secret; an unknown user and a wrong password are refused alike. */
  lemma OnlyAdminSecret(username: string, password: string)
    ensures AuthenticateUser(username, password).Some? <==> username == "admin" && password == "secret"
    ensures username != "admin" ==> AuthenticateUser(username, password) == AuthenticateUser("admin", "wrong")
  {
  }

  /**
    * The lifetime `expires_delta or timedelta(minutes=30)` picks: a missing or
    * zero delta (both falsy) gives the default; any other delta, negative
    * ones included, is used as it is.
    */
  function Lifetime(expiresDelta: Option<int>): (d: int)
    ensures expiresDelta.None? || expiresDelta == Some(0) ==> d == 30 * 60
    ensures expiresDelta.Some? && expiresDelta.value != 0 ==> d == expiresDelta.value
    ensures d != 0
  {
    if expiresDelta.None? || expiresDelta.value == 0 then DEFAULT_LIFETIME else expiresDelta.value
  }

  /**
    * The payload `create_access_token` signs: a copy of `data` with `exp` set
    * to `now` plus the lifetime, replacing any `exp` the caller put there.
    */
  function AccessTokenClaims(data: Claims, expiresDelta: Option<int>, now: int): (c: Claims)
    ensures c.Keys == data.Keys + {"exp"}
    ensures c["exp"] == Number(now + Lifetime(expiresDelta))
    ensures forall k :: k in data && k != "exp" ==> c[k] == data[k]
  {
    data["exp" := Number(now + Lifetime(expiresDelta))]
  }

  /**
    * `create_access_token`: sign the payload. With a faithful codec the token
    * is refused from its `exp` on, and before that decodes to the payload
    * when the caller's data is plain.
    */
  function CreateAccessToken(codec: JwtCodec, data: Claims, expiresDelta: Option<int>, now: int): (token: string)
    ensures Faithful(codec) ==>
              forall later :: later >= now + Lifetime(expiresDelta) ==> codec.decode(token, later).None?
    ensures Faithful(codec) && PlainPayload(data) ==>
              forall later :: later < now + Lifetime(expiresDelta) ==>
                codec.decode(token, later) == Some(AccessTokenClaims(data, expiresDelta, now))
  {
    codec.encode(AccessTokenClaims(data, expiresDelta, now))
  }

  /** `payload.get("sub")` when it is a string; a missing, null or numeric `sub` names nobody. */
  function Subject(payload: Claims): (r: Option<string>)
    ensures r.Some? <==> "sub" in payload && payload["sub"].Text?
    ensures r.Some? ==> r.value == payload["sub"].s
  {
    if "sub" in payload && payload["sub"].Text? then Some(payload["sub"].s) else None
  }

  /**
    * `get_current_user`: decode the token, read `sub`, look the user up.
    * Each of the three failures raises the same 401 exception.
    */
  function GetCurrentUser(codec: JwtCodec, token: string, now: int): (r: Result<User, HttpException>)
    ensures r.Failure? ==> r.error == CREDENTIALS_EXCEPTION
    ensures codec.decode(token, now).None? ==> r == Failure(CREDENTIALS_EXCEPTION)
    ensures codec.decode(token, now).Some? && Subject(codec.decode(token, now).value).None? ==>
              r == Failure(CREDENTIALS_EXCEPTION)
    ensures codec.decode(token, now).Some? && Subject(codec.decode(token, now).value).Some? ==>
              var name := Subject(codec.decode(token, now).value).value;
              r == if name in FAKE_USER_DATA then Success(FAKE_USER_DATA[name]) else Failure(CREDENTIALS_EXCEPTION)
  {
    match codec.decode(token, now)
    case None => Failure(CREDENTIALS_EXCEPTION)
    case Some(payload) =>
      match Subject(payload)
      case None => Failure(CREDENTIALS_EXCEPTION)
      case Some(name) =>
        if name !in FAKE_USER_DATA then Failure(CREDENTIALS_EXCEPTION)
        else Success(FAKE_USER_DATA[name])
  }

  /**
    * A token issued for a known user resolves to that user's record at any
    * time before it expires, given a codec that decodes what it encodes.
    */
  lemma IssuedTokenResolves(codec: JwtCodec, username: string, expiresDelta: Option<int>, issuedAt: int, now: int)
    requires Faithful(codec)
    requires username in FAKE_USER_DATA
    requires now < issuedAt + Lifetime(expiresDelta)
    ensures GetCurrentUser(codec, CreateAccessToken(codec, map["sub" := Text(username)], expiresDelta, issuedAt), now)
            == Success(FAKE_USER_DATA[username])
  {
  }

  /** Once its `exp` has passed, every token `create_access_token` issued is rejected with the 401. */
  lemma ExpiredTokenRejected(codec: JwtCodec, data: Claims, expiresDelta: Option<int>, issuedAt: int, now: int)
    requires Faithful(codec)
    requires now >= issuedAt + Lifetime(expiresDelta)
    ensures GetCurrentUser(codec, CreateAccessToken(codec, data, expiresDelta, issuedAt), now)
            == Failure(CREDENTIALS_EXCEPTION)
  {
  }

  /** The login route's flow: a correct password yields a token that resolves to the same user for 30 minutes. */
  lemma LoginTokenResolves(codec: JwtCodec, username: string, password: string, issuedAt: int, now: int)
    requires Faithful(codec)
    requires AuthenticateUser(username, password).Some?
    requires issuedAt <= now < issuedAt + 30 * 60
    ensures var user := AuthenticateUser(username, password).value;
            GetCurrentUser(codec, CreateAccessToken(codec, map["sub" := Text(user.username)], Some(30 * 60), issuedAt), now)
            == Success(user)
  {
  }
}
