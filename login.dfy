/**
 * `loginUser`: a decision over the user table. `compare` stands for `bcrypt.compare`
 * and `sign` for `jwt.sign` with the server's secret; neither is interpreted.
 */
module Login {
  import opened Basics
  import opened Users

  /** `expiresIn: '30d'`, in seconds. */
  const TokenLifetimeSeconds: int := 30 * 24 * 60 * 60
  /** The cookie's `maxAge`: thirty days in milliseconds. */
  const CookieMaxAgeMs: int := 30 * 24 * 60 * 60 * 1000

  /** The payload the token carries. */
  datatype Claims = Claims(userId: nat, phoneNumber: string)

  datatype Cookie = Cookie(name: string, value: string, httpOnly: bool, secure: bool, sameSite: string, maxAge: int)

  datatype Outcome = CredentialsRequired | InvalidCredentials | LoggedIn(token: string, cookie: Cookie)
  {
    function Status(): int {
      match this
      case CredentialsRequired => 400
      case InvalidCredentials => 401
      case LoggedIn(_, _) => 200
    }

    /** The `message` field of a refusal; a successful login answers `{token}` instead. */
    function Message(): string
      requires !LoggedIn?
    {
      match this
      case CredentialsRequired => "Phone number and password are required"
      case InvalidCredentials => "Invalid phone number or password"
    }
  }

  /** The cookie set on success; `secure` only in production. */
  function TokenCookie(token: string, production: bool): (c: Cookie)
    ensures c.name == "token" && c.value == token && c.httpOnly && c.secure == production
    ensures c.sameSite == "strict" && c.maxAge == 2592000000
  {
    Cookie("token", token, true, production, "strict", CookieMaxAgeMs)
  }

  /**
   * The response to a login attempt. An unknown phone number and a wrong password give
   * the same refusal, and the user table is only read.
   */
  function LoginUser(users: seq<User>, phone: string, password: string,
                     compare: (string, string) -> bool, sign: (Claims, int) -> string, production: bool)
    : (o: Outcome)
    ensures phone == "" || password == "" ==> o == CredentialsRequired
    ensures var found := FindByPhone(users, phone);
            o.LoggedIn? <==> phone != "" && password != "" && found.Some? && compare(password, users[found.value].password)
    ensures phone != "" && password != "" && !o.LoggedIn? ==> o == InvalidCredentials
    ensures o.LoggedIn? ==>
              var u := users[FindByPhone(users, phone).value];
              && o.token == sign(Claims(u.id, u.phoneNumber), TokenLifetimeSeconds)
              && o.cookie == TokenCookie(o.token, production)
    ensures IdsArePositions(users) && o.LoggedIn? ==>
              o.token == sign(Claims(FindByPhone(users, phone).value, phone), TokenLifetimeSeconds)
    ensures PhonesUnique(users) ==>
              (o.LoggedIn? <==>
                 (phone != "" && password != "" &&
                  exists i :: 0 <= i < |users| && users[i].phoneNumber == phone && compare(password, users[i].password)))
  {
    if phone == "" || password == "" then
      CredentialsRequired
    else
      match FindByPhone(users, phone)
      case None => InvalidCredentials
      case Some(i) =>
        var u := users[i];
        if !compare(password, u.password) then
          InvalidCredentials
        else
          var token := sign(Claims(u.id, u.phoneNumber), TokenLifetimeSeconds);
          LoggedIn(token, TokenCookie(token, production))
  }

  /** bcrypt's contract: a hash accepts the plaintext it was made from. */
  ghost predicate HashAccepts(hash: string -> string, compare: (string, string) -> bool) {
    forall p :: compare(p, hash(p))
  }

  /** A user just registered can log in with the password given at registration. */
  lemma RegisteredUserCanLogIn(users: seq<User>, username: string, email: string, password: string, phone: string,
                               hash: string -> string, compare: (string, string) -> bool,
                               sign: (Claims, int) -> string, production: bool)
    requires phone != "" && password != "" && FindByPhone(users, phone).None?
    requires HashAccepts(hash, compare)
    ensures var after := users + [User(|users|, username, email, hash(password), phone)];
            var token := sign(Claims(|users|, phone), TokenLifetimeSeconds);
            LoginUser(after, phone, password, compare, sign, production) == LoggedIn(token, TokenCookie(token, production))
  {
    var after := users + [User(|users|, username, email, hash(password), phone)];
    assert after[|users|].phoneNumber == phone;
  }

  /** After a password reset the new password logs the user in, with a token naming that user's position. */
  lemma ResetUserCanLogIn(users: seq<User>, i: nat, newPassword: string,
                          hash: string -> string, compare: (string, string) -> bool,
                          sign: (Claims, int) -> string, production: bool)
    requires PhonesUnique(users) && IdsArePositions(users) && i < |users| && users[i].phoneNumber != "" && newPassword != ""
    requires HashAccepts(hash, compare)
    ensures var after := users[i := users[i].(password := hash(newPassword))];
            var token := sign(Claims(i, users[i].phoneNumber), TokenLifetimeSeconds);
            LoginUser(after, users[i].phoneNumber, newPassword, compare, sign, production)
              == LoggedIn(token, TokenCookie(token, production))
  {
    var after := users[i := users[i].(password := hash(newPassword))];
    assert PhonesUnique(after) by {
      forall a, b | 0 <= a < b < |after| ensures after[a].phoneNumber != after[b].phoneNumber {
        assert after[a].phoneNumber == users[a].phoneNumber && after[b].phoneNumber == users[b].phoneNumber;
      }
    }
    FindByPhoneUnique(after, i);
  }
}
