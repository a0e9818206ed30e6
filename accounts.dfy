/** The account side of the auth service: looking a user up by e-mail,
    checking a password, and the claims put into an access token. Password
    hashing and token signing are foreign primitives; they enter as function
    values, and the only thing assumed of them is that a password verifies
    against its own hash. */
module Accounts {
  import opened Schema
  import opened Keys

  /** bcrypt's `hash` and `verify`, left uninterpreted. */
  datatype Crypt = Crypt(hash: string -> string, verify: (string, string) -> bool)

  /** The contract of the password primitives: verify(p, hash(p)). */
  ghost predicate Sound(crypt: Crypt) {
    forall p :: crypt.verify(p, crypt.hash(p))
  }

  /** `get_user_by_email`: the user whose e-mail it is, if any. */
  function GetUserByEmail(users: map<string, User>, email: string): (r: Option<User>)
    requires UsersKeyed(users)
    ensures r.Some? <==> email in users
    ensures r.Some? ==> r.value in users.Values && r.value.email == email
  {
    if email in users then Some(users[email]) else None
  }

  /** `authenticate_user`: the stored user when the e-mail is registered and
      the password verifies against the stored hash; otherwise the one
      failure value (None stands for the `False` the source returns), the
      same whichever check failed. */
  function AuthenticateUser(users: map<string, User>, email: string, password: string, crypt: Crypt): (r: Option<User>)
    requires UsersKeyed(users)
    ensures r.Some? <==> email in users && crypt.verify(password, users[email].password)
    ensures r.Some? ==> r.value in users.Values && r.value.email == email
  {
    match GetUserByEmail(users, email)
    case None => None
    case Some(user) => if crypt.verify(password, user.password) then Some(user) else None
  }

  /** The row that signup stores: the password is kept only as its hash. */
  function NewUser(id: int, email: string, password: string, nickname: string, crypt: Crypt): (u: User)
    ensures u.email == email && u.nickname == nickname && u.id == id
    ensures u.password == crypt.hash(password)
    ensures Sound(crypt) ==> crypt.verify(password, u.password)
  {
    User(id, email, crypt.hash(password), nickname)
  }

  /** Signup followed by login: a user stored under a fresh e-mail with the
      hash of `password` authenticates with `password`, given the hash and
      verify contract, and no other registered user is affected. */
  lemma {:induction false} SignupThenLogin(users: map<string, User>, id: int, email: string, password: string, nickname: string, crypt: Crypt)
    requires UsersKeyed(users) && email !in users && Sound(crypt)
    ensures var u := NewUser(id, email, password, nickname, crypt);
      var users' := users[email := u];
      UsersKeyed(users') &&
      AuthenticateUser(users', email, password, crypt) == Some(u) &&
      forall e, p :: e in users ==> AuthenticateUser(users', e, p, crypt) == AuthenticateUser(users, e, p, crypt)
  {
    var u := NewUser(id, email, password, nickname, crypt);
    assert crypt.verify(password, crypt.hash(password));
    var users' := users[email := u];
    forall e, p | e in users
      ensures AuthenticateUser(users', e, p, crypt) == AuthenticateUser(users, e, p, crypt)
    {
      assert users'[e] == users[e];
    }
  }

  /** A claim value: a string, or an instant in seconds. */
  datatype Claim = Text(text: string) | Instant(seconds: int)

  /** `timedelta(days=1)` in seconds. */
  const SecondsPerDay := 86400
  const SecretKey := "ThisIsTheSecretKeyOfFastAPIApplicationWithSQLAlchemyAndPydantic"
  const Algorithm := "HS256"

  /** The claims `create_access_token` encodes: a copy of the caller's
      claims with "exp" set one day after `now` (the caller's own map is a
      value and stays as it was). */
  function AccessTokenClaims(data: map<string, Claim>, now: int): (claims: map<string, Claim>)
    ensures claims.Keys == data.Keys + {"exp"}
    ensures claims["exp"] == Instant(now + SecondsPerDay)
    ensures forall k :: k in data && k != "exp" ==> claims[k] == data[k]
  {
    data["exp" := Instant(now + SecondsPerDay)]
  }

  /** `create_access_token`: the opaque JWT encoding, under the fixed secret
      and HS256, of the claims above. */
  function CreateAccessToken(data: map<string, Claim>, now: int, encode: (map<string, Claim>, string, string) -> string): (token: string)
    ensures exists claims ::
              && token == encode(claims, SecretKey, Algorithm)
              && "exp" in claims && claims["exp"] == Instant(now + SecondsPerDay)
              && claims - {"exp"} == data - {"exp"}
  {
    var claims := AccessTokenClaims(data, now);
    assert claims - {"exp"} == data - {"exp"};
    encode(claims, SecretKey, Algorithm)
  }

  /** The token issued at login carries the e-mail as subject and the
      one-day expiry, and nothing else. */
  lemma LoginTokenClaims(email: string, now: int)
    ensures var claims := AccessTokenClaims(map["sub" := Text(email)], now);
      claims == map["sub" := Text(email), "exp" := Instant(now + SecondsPerDay)]
  {
  }
}
