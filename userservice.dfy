/** Profile reads and profile update of forumApi/features/users/user.service.js. A row of
    `users` as the service receives it is a record of named fields. */
module UserService {

  import opened Base
  import opened Errors
  import opened Credentials
  import ServerMaskEmail

  /** A row as a JavaScript object: field name to value. */
  type Row = map<string, Value>

  const UserNotFound := "Utilisateur non trouvé."
  const FieldsRequired := "Le nom d'utilisateur et l'email sont requis."
  const EmailTaken := "Cet email est déjà utilisé."
  /** The source writes this message with a typographic apostrophe (U+2019). */
  const UsernameTaken := "Ce nom d\U{2019}utilisateur est déjà pris."

  /** `toPublicProfile(user)`: no row gives `null`; otherwise the row with its email replaced
      by the masked email (the masker may throw) and every other field kept. */
  function ToPublicProfile(user: Option<Row>): (r: Result<Option<Row>>)
    ensures user.None? ==> r == Ok(None)
    ensures user.Some? ==> (r.Err? <==> ServerMaskEmail.MaskEmail(Field(user.value, "email")).Err?)
    ensures user.Some? && r.Ok? ==>
      && r.value.Some?
      && r.value.value.Keys == user.value.Keys + {"email"}
      && r.value.value["email"] == ServerMaskEmail.MaskEmail(Field(user.value, "email")).value
      && forall k :: k in user.value && k != "email" ==> r.value.value[k] == user.value[k]
  {
    if user.None? then Ok(None)
    else
      var email := Field(user.value, "email");
      var publicData := user.value - {"email"};
      match ServerMaskEmail.MaskEmail(email)
      case Err(e) => Err(e)
      case Ok(masked) => Ok(Some(publicData["email" := masked]))
  }

  /** `getUserProfile(userId)`, given what `findById` returned: the row itself, or NotFoundError. */
  function GetUserProfile(found: Option<Row>): (r: Result<Row>)
    ensures found.None? <==> r == Err(NotFound(UserNotFound))
    ensures found.Some? ==> r == Ok(found.value)
  {
    if found.None? then Err(NotFound(UserNotFound)) else Ok(found.value)
  }

  /** `getPublicUserProfile(userId)`, given what `findById` returned. */
  function GetPublicUserProfile(found: Option<Row>): (r: Result<Option<Row>>)
    ensures found.None? ==> r == Err(NotFound(UserNotFound))
    ensures found.Some? ==> r == ToPublicProfile(found)
  {
    if found.None? then Err(NotFound(UserNotFound)) else ToPublicProfile(found)
  }

  /** The public profile is the own profile with the email masked: same fields, same values,
      but the email. A plain stored address ('ab@c') shows only its first character and its
      domain verbatim. */
  lemma PublicMasksOwn(found: Option<Row>, local: string, domain: string)
    requires found.Some? && "email" in found.value
    requires found.value["email"] == Str(local + "@" + domain)
    requires local != "" && '@' !in local && '@' !in domain
    ensures var own := GetUserProfile(found).value;
      var pub := GetPublicUserProfile(found).value.value;
      && pub.Keys == own.Keys
      && (forall k :: k in own && k != "email" ==> pub[k] == own[k])
      && pub["email"] == Str(ServerMaskEmail.MaskLocal(local).value + "@" + domain)
      && pub["email"].s[0] == local[0]
  {
    var row := found.value;
    var masked := ServerMaskEmail.MaskLocal(local).value;
    ServerMaskEmail.SingleAtKeepsDomain(local, domain);
    ServerMaskEmail.MaskLocalShape(local);
    assert Field(row, "email") == Str(local + "@" + domain);
    assert ToPublicProfile(found) == Ok(Some((row - {"email"})["email" := Str(masked + "@" + domain)]));
    assert (masked + "@" + domain)[0] == masked[0];
  }

  /** The catch block of `updateUserProfile`: a unique violation on the email or on the
      username becomes a ConflictError; every other error is rethrown as it was. */
  function MapUpdateError(e: Error): (m: Error)
    ensures e.DbError? && e.code == UniqueViolation && e.constraint == EmailKey ==> m == Conflict(EmailTaken)
    ensures e.DbError? && e.code == UniqueViolation && e.constraint == UsernameKey ==> m == Conflict(UsernameTaken)
    ensures !(e.DbError? && e.code == UniqueViolation && e.constraint in {EmailKey, UsernameKey}) ==> m == e
  {
    if e.DbError? && e.code == UniqueViolation then
      if e.constraint == EmailKey then Conflict(EmailTaken)
      else if e.constraint == UsernameKey then Conflict(UsernameTaken)
      else e
    else e
  }

  /** What the handler answers for a mapped error: 409 for the two duplicates, and otherwise
      the same answer as for the error before mapping. */
  lemma MappedStatus(e: Error)
    ensures e.DbError? && e.code == UniqueViolation && e.constraint in {EmailKey, UsernameKey} ==>
      StatusCodeOf(MapUpdateError(e)) == Some(409)
    ensures !(e.DbError? && e.code == UniqueViolation && e.constraint in {EmailKey, UsernameKey}) ==>
      StatusCodeOf(MapUpdateError(e)) == StatusCodeOf(e)
  {
  }

  /** `updateUserProfile(userId, {username, email})`: both fields are required before the
      store is touched; the store's errors go through `MapUpdateError`. */
  method UpdateUserProfile(store: UserStore, userId: int, username: Option<string>, email: Option<string>)
    returns (r: Result<Account>)
    requires store.Valid()
    modifies store
    ensures store.Valid()
    ensures r.Err? ==> store.rows == old(store.rows)
    ensures StrOr(username, "") == "" || StrOr(email, "") == "" ==> r == Err(PlainError(FieldsRequired))
    ensures StrOr(username, "") != "" && StrOr(email, "") != "" ==>
      var u := username.value;
      var m := email.value;
      && (ById(old(store.rows), userId).None? ==> r == Err(NotFound("Utilisateur non trouvé")))
      && (ById(old(store.rows), userId).Some? && OtherWithEmail(old(store.rows), userId, m).Some? ==>
            r == Err(Conflict(EmailTaken)))
      && ((ById(old(store.rows), userId).Some? && OtherWithEmail(old(store.rows), userId, m).None?
           && OtherWithUsername(old(store.rows), userId, u).Some?) ==> r == Err(Conflict(UsernameTaken)))
      && (r.Ok? <==> ById(old(store.rows), userId).Some? && OtherWithEmail(old(store.rows), userId, m).None?
                     && OtherWithUsername(old(store.rows), userId, u).None?)
      && (r.Ok? ==> store.rows == SetProfile(old(store.rows), userId, u, m)
                    && r.value == Account(userId, u, m))
  {
    if StrOr(username, "") == "" || StrOr(email, "") == "" {
      return Err(PlainError(FieldsRequired));
    }
    var updated := store.UpdateProfile(userId, username.value, email.value);
    if updated.Err? {
      return Err(MapUpdateError(updated.error));
    }
    return updated;
  }
}

/** The profile projections of the older forumApi/services/user.service.js. */
module LegacyUserService {

  import opened Base
  import opened Errors
  import UserService

  type Row = UserService.Row

  const UserNotFound := "Utilisateur non trouvé."

  /** `toPublicProfile(user)`: `null` for no row; otherwise the row without `password_hash`
      and `email`, every other field identical. */
  function ToPublicProfile(user: Option<Row>): (r: Option<Row>)
    ensures user.None? <==> r.None?
    ensures user.Some? ==>
      && r.value.Keys == user.value.Keys - {"password_hash", "email"}
      && forall k :: k in r.value ==> r.value[k] == user.value[k]
  {
    if user.None? then None else Some(user.value - {"password_hash", "email"})
  }

  /** `getUserProfile(userId)`, given what `findById` returned: NotFoundError, or the row
      without `password_hash` (the email is kept). */
  function GetUserProfile(found: Option<Row>): (r: Result<Row>)
    ensures found.None? <==> r == Err(NotFound(UserNotFound))
    ensures found.Some? ==>
      && r.Ok? && r.value.Keys == found.value.Keys - {"password_hash"}
      && forall k :: k in r.value ==> r.value[k] == found.value[k]
  {
    if found.None? then Err(NotFound(UserNotFound)) else Ok(found.value - {"password_hash"})
  }

  /** `getPublicUserProfile(userId)`, given what `findById` returned. */
  function GetPublicUserProfile(found: Option<Row>): (r: Result<Option<Row>>)
    ensures found.None? ==> r == Err(NotFound(UserNotFound))
    ensures found.Some? ==> r == Ok(ToPublicProfile(found))
  {
    if found.None? then Err(NotFound(UserNotFound)) else Ok(ToPublicProfile(found))
  }

  /** The public profile is the own profile less the email: it shows neither secret, and
      what the two share is the same. */
  lemma PublicIsOwnWithoutEmail(found: Option<Row>)
    requires found.Some?
    ensures GetPublicUserProfile(found).value.value == GetUserProfile(found).value - {"email"}
    ensures "email" !in GetPublicUserProfile(found).value.value
    ensures "password_hash" !in GetUserProfile(found).value
  {
  }
}
