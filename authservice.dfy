/** Registration, login, logout and password change of forumApi/features/auth/auth.service.js. */
module AuthService {

  import opened Base
  import opened Strings
  import opened Errors
  import opened Credentials
  import Csrf
  import AuthMiddleware

  const BcryptCost := 10
  const RegisterConflict := "Mot de passe ou identifiant incorrect."
  const InvalidCredentials := "Identifiants invalides."
  const UserNotFound := "Utilisateur non trouvé."
  const WrongCurrentPassword := "Mot de passe actuel incorrect."
  /** The hash compared against when the email is unknown. */
  const DummyHash := "$2b$10$abcdefghijklmnopqrstuv"
  const AuthCookie := "auth_token"
  const CsrfCookie := "csrf_token"

  /** A cookie written on the response. */
  datatype CookieOp = SetCookie(name: string, value: string) | ClearCookie(name: string)

  /** The response, as far as the service writes it: the cookie operations in order. */
  class Response {
    var cookies: seq<CookieOp>

    constructor ()
      ensures cookies == []
    {
      cookies := [];
    }
  }

  /** The token payload `{ user: { id }, sub: id }`. */
  function Payload(id: int): (p: AuthMiddleware.Claims)
    ensures p.user == Some(AuthMiddleware.UserClaim(Num(id))) && p.sub == Num(id)
  {
    AuthMiddleware.Claims(Some(AuthMiddleware.UserClaim(Num(id))), Num(id))
  }

  /** Who a login lets in: the row with that email, when its hash matches the password. */
  function LoginOutcome(rows: seq<UserRow>, email: string, password: string,
                        compare: (string, string) -> bool): (r: Result<UserRow>)
    ensures r.Err? ==> r.error == Unauthenticated(InvalidCredentials)
    ensures r.Ok? ==> Some(r.value) == ByEmail(rows, email) && compare(password, r.value.passwordHash)
    ensures ByEmail(rows, email).Some? && compare(password, ByEmail(rows, email).value.passwordHash) ==> r.Ok?
  {
    match ByEmail(rows, email)
    case None => Err(Unauthenticated(InvalidCredentials))
    case Some(u) => if compare(password, u.passwordHash) then Ok(u) else Err(Unauthenticated(InvalidCredentials))
  }

  /** The hash the single `compare` of a login is made against. */
  function ComparedHash(rows: seq<UserRow>, email: string): string
  {
    match ByEmail(rows, email)
    case None => DummyHash
    case Some(u) => u.passwordHash
  }

  /** `registerUser({username, email, password})`: the password is hashed at cost 10 first;
      every failure of `create` becomes the same ConflictError, which names no field. */
  method RegisterUser(store: UserStore, bcrypt: Bcrypt, username: string, email: string, password: string,
                      salt: string) returns (r: Result<Account>)
    requires store.Valid()
    modifies store
    ensures store.Valid()
    ensures ByEmailOrUsername(old(store.rows), email, username).Some? ==>
      r == Err(Conflict(RegisterConflict)) && store.rows == old(store.rows)
    ensures ByEmailOrUsername(old(store.rows), email, username).None? ==>
      && r == Ok(Account(old(store.nextId), username, email))
      && store.rows == old(store.rows) + [UserRow(old(store.nextId), username, email,
                                                  bcrypt.hash(password, BcryptCost, salt))]
  {
    var hashedPassword := bcrypt.Hash(password, BcryptCost, salt);
    var created := store.Create(username, email, hashedPassword);
    if created.Err? {
      return Err(Conflict(RegisterConflict));
    }
    return created;
  }

  /** `loginUser({email, password}, res)`: exactly one `compare` either way, the dummy hash
      standing in for an unknown email; on success the auth cookie and then the signed CSRF
      token are set. `seal` signs and encrypts the payload; `random` holds the CSRF bytes. */
  method LoginUser(store: UserStore, bcrypt: Bcrypt, res: Response, email: string, password: string,
                   seal: AuthMiddleware.Claims -> string, hmac: Csrf.Hmac, random: seq<byte>)
    returns (r: Result<Value>)
    requires |random| == 32
    modifies bcrypt, res
    ensures bcrypt.compares == old(bcrypt.compares) + [(password, ComparedHash(store.rows, email))]
    ensures var o := LoginOutcome(store.rows, email, password, bcrypt.compare);
      && (o.Err? ==> r == Err(o.error) && res.cookies == old(res.cookies))
      && (o.Ok? ==> r == Ok(Undefined))
      && (o.Ok? ==> res.cookies == old(res.cookies) + [SetCookie(AuthCookie, seal(Payload(o.value.id))),
                                                       SetCookie(CsrfCookie, Csrf.GenerateCsrfToken(hmac, random).signed)])
  {
    var user := ByEmail(store.rows, email);
    if user.None? {
      var _ := bcrypt.Compare(password, DummyHash);
      return Err(Unauthenticated(InvalidCredentials));
    }
    var isValid := bcrypt.Compare(password, user.value.passwordHash);
    if !isValid {
      return Err(Unauthenticated(InvalidCredentials));
    }
    var jwtToken := seal(Payload(user.value.id));
    var csrf := Csrf.GenerateCsrfToken(hmac, random);
    res.cookies := res.cookies + [SetCookie(AuthCookie, jwtToken)];
    res.cookies := res.cookies + [SetCookie(CsrfCookie, csrf.signed)];
    return Ok(Undefined);
  }

  /** `logoutUser(userId, res)`: a falsy id is refused and nothing is cleared. */
  method LogoutUser(userId: Value, res: Response) returns (r: Result<Value>)
    modifies res
    ensures !Truthy(userId) ==> r == Err(Unauthenticated(InvalidCredentials)) && res.cookies == old(res.cookies)
    ensures Truthy(userId) ==> r == Ok(Undefined) && res.cookies == old(res.cookies) + [ClearCookie(AuthCookie)]
  {
    if !Truthy(userId) {
      return Err(Unauthenticated(InvalidCredentials));
    }
    res.cookies := res.cookies + [ClearCookie(AuthCookie)];
    return Ok(Undefined);
  }

  /** `changeUserPasswordWithVerification(userId, currentPassword, newPassword)`. The source
      stores the new hash through `AuthModel.changeUserPassword`, which auth.model.js does not
      export; the model performs the update that module does export, `updatePassword`. */
  method ChangeUserPasswordWithVerification(store: UserStore, bcrypt: Bcrypt, userId: int,
                                            currentPassword: string, newPassword: string, salt: string)
    returns (r: Result<Value>)
    requires store.Valid()
    modifies store, bcrypt
    ensures store.Valid()
    ensures var u := ById(old(store.rows), userId);
      && (u.None? ==> r == Err(NotFound(UserNotFound)) && store.rows == old(store.rows)
                      && bcrypt.compares == old(bcrypt.compares))
      && (u.Some? ==> bcrypt.compares == old(bcrypt.compares) + [(currentPassword, u.value.passwordHash)])
      && (u.Some? && !bcrypt.compare(currentPassword, u.value.passwordHash) ==>
            r == Err(Unauthenticated(WrongCurrentPassword)) && store.rows == old(store.rows))
      && (u.Some? && bcrypt.compare(currentPassword, u.value.passwordHash) ==>
            r == Ok(Bool(true))
            && store.rows == SetHash(old(store.rows), userId, bcrypt.hash(newPassword, BcryptCost, salt)))
  {
    var password := ById(store.rows, userId);
    if password.None? {
      return Err(NotFound(UserNotFound));
    }
    var isPasswordValid := bcrypt.Compare(currentPassword, password.value.passwordHash);
    if !isPasswordValid {
      return Err(Unauthenticated(WrongCurrentPassword));
    }
    var newPasswordHash := bcrypt.Hash(newPassword, BcryptCost, salt);
    var _ := store.UpdatePassword(userId, newPasswordHash);
    return Ok(Bool(true));
  }

  /** An unknown email and a wrong password are told apart by nothing: same error, and in
      both cases one `compare`. */
  lemma LoginFailuresAlike(rows: seq<UserRow>, email1: string, password1: string, email2: string,
                           password2: string, compare: (string, string) -> bool)
    requires LoginOutcome(rows, email1, password1, compare).Err?
    requires LoginOutcome(rows, email2, password2, compare).Err?
    ensures LoginOutcome(rows, email1, password1, compare) == LoginOutcome(rows, email2, password2, compare)
  {
  }

  /** With a sound bcrypt, a registered user logs in with the password given at registration. */
  lemma RegisterThenLogin(rows: seq<UserRow>, nextId: int, username: string, email: string, password: string,
                          salt: string, hash: (string, int, string) -> string, compare: (string, string) -> bool)
    requires Unique(rows) && HashSound(hash, compare)
    requires ByEmailOrUsername(rows, email, username).None?
    requires forall k :: 0 <= k < |rows| ==> rows[k].id < nextId
    ensures var row := UserRow(nextId, username, email, hash(password, BcryptCost, salt));
      LoginOutcome(rows + [row], email, password, compare) == Ok(row)
  {
    var row := UserRow(nextId, username, email, hash(password, BcryptCost, salt));
    var rows' := rows + [row];
    assert Unique(rows');
    LookupsFind(rows', |rows|);
    assert compare(password, hash(password, BcryptCost, salt));
  }

  /** With a sound bcrypt, after a password change the new password lets the user in. */
  lemma ChangeThenLogin(rows: seq<UserRow>, userId: int, newPassword: string, salt: string,
                        hash: (string, int, string) -> string, compare: (string, string) -> bool)
    requires Unique(rows) && HashSound(hash, compare) && ById(rows, userId).Some?
    ensures var u := ById(rows, userId).value;
      var h := hash(newPassword, BcryptCost, salt);
      LoginOutcome(SetHash(rows, userId, h), u.email, newPassword, compare) == Ok(u.(passwordHash := h))
  {
    var h := hash(newPassword, BcryptCost, salt);
    SetHashLookup(rows, userId, h);
    assert compare(newPassword, h);
  }
}

/** Registration and login of the older forumApi/services/auth.service.js. */
module LegacyAuthService {

  import opened Base
  import opened Errors
  import opened Credentials
  import AuthMiddleware

  const BcryptCost := 10
  const RegisterConflict := "Cet email ou ce nom d'utilisateur est déjà utilisé."
  const InvalidCredentials := "Identifiants invalides."
  const DefaultExpiry := "1d"

  /** The user part of the login result: the id and username, no email and no hash. */
  datatype PublicUser = PublicUser(id: int, username: string)

  /** What `loginUser` returns: `{ token, user: { id, username } }`. */
  datatype Session = Session(token: string, user: PublicUser)

  /** The legacy token payload `{ user: { id } }`, with no `sub`. */
  function Payload(id: int): (p: AuthMiddleware.Claims)
    ensures p.user == Some(AuthMiddleware.UserClaim(Num(id))) && p.sub == Undefined
  {
    AuthMiddleware.Claims(Some(AuthMiddleware.UserClaim(Num(id))), Undefined)
  }

  /** `registerUser({username, email, password})`: a taken email or username is refused
      before anything is hashed or written; otherwise a salted cost-10 hash is stored. */
  method RegisterUser(store: UserStore, bcrypt: Bcrypt, username: string, email: string, password: string,
                      salt: string) returns (r: Result<Value>)
    requires store.Valid()
    modifies store
    ensures store.Valid()
    ensures ByEmailOrUsername(old(store.rows), email, username).Some? ==>
      r == Err(Conflict(RegisterConflict)) && store.rows == old(store.rows) && store.nextId == old(store.nextId)
    ensures ByEmailOrUsername(old(store.rows), email, username).None? ==>
      && r == Ok(Undefined)
      && store.rows == old(store.rows) + [UserRow(old(store.nextId), username, email,
                                                  bcrypt.hash(password, BcryptCost, salt))]
  {
    var existingUser := ByEmailOrUsername(store.rows, email, username);
    if existingUser.Some? {
      return Err(Conflict(RegisterConflict));
    }
    var hashedPassword := bcrypt.Hash(password, BcryptCost, salt);
    var _ := store.Create(username, email, hashedPassword);
    return Ok(Undefined);
  }

  /** `loginUser({email, password})`: an unknown email is refused without any `compare`;
      `sign` is `jwt.sign` with the secret, and `expiresIn` the environment's setting. */
  method LoginUser(store: UserStore, bcrypt: Bcrypt, email: string, password: string,
                   sign: (AuthMiddleware.Claims, string) -> string, expiresIn: Option<string>)
    returns (r: Result<Session>)
    modifies bcrypt
    ensures ByEmail(store.rows, email).None? ==>
      r == Err(Unauthenticated(InvalidCredentials)) && bcrypt.compares == old(bcrypt.compares)
    ensures ByEmail(store.rows, email).Some? ==>
      var u := ByEmail(store.rows, email).value;
      && bcrypt.compares == old(bcrypt.compares) + [(password, u.passwordHash)]
      && (!bcrypt.compare(password, u.passwordHash) ==> r == Err(Unauthenticated(InvalidCredentials)))
      && (bcrypt.compare(password, u.passwordHash) ==>
            r == Ok(Session(sign(Payload(u.id), StrOr(expiresIn, DefaultExpiry)), PublicUser(u.id, u.username))))
  {
    var user := ByEmail(store.rows, email);
    if user.None? {
      return Err(Unauthenticated(InvalidCredentials));
    }
    var isMatch := bcrypt.Compare(password, user.value.passwordHash);
    if !isMatch {
      return Err(Unauthenticated(InvalidCredentials));
    }
    var token := sign(Payload(user.value.id), StrOr(expiresIn, DefaultExpiry));
    return Ok(Session(token, PublicUser(user.value.id, user.value.username)));
  }
}
