/** The `users` table as the authentication and profile services see it, and the bcrypt
    hasher they call. The SQL behind the store is not modelled; the store keeps the table's
    unique constraints on `email` (`users_email_key`) and `username` (`users_username_key`). */
module Credentials {

  import opened Base
  import opened Errors

  /** A row of `users`. */
  datatype UserRow = UserRow(id: int, username: string, email: string, passwordHash: string)

  /** The columns an INSERT or UPDATE of `users` hands back with `RETURNING`: the row without
      its hash. */
  datatype Account = Account(id: int, username: string, email: string)

  /** The SQLSTATE of a unique violation, and the two unique constraints of `users`. */
  const UniqueViolation := "23505"
  const EmailKey := "users_email_key"
  const UsernameKey := "users_username_key"

  /** The position of the first row satisfying `p`, or -1. */
  function FirstWhere(rows: seq<UserRow>, p: UserRow -> bool): (k: int)
    ensures -1 <= k < |rows|
    ensures k >= 0 ==> p(rows[k])
    ensures forall j :: 0 <= j < |rows| && (k < 0 || j < k) ==> !p(rows[j])
  {
    if |rows| == 0 then -1
    else if p(rows[0]) then 0
    else
      var k := FirstWhere(rows[1..], p);
      assert forall j :: 1 <= j < |rows| ==> rows[j] == rows[1..][j - 1];
      if k < 0 then -1 else k + 1
  }

  /** `rows[0]` of a query whose WHERE clause is `p`. */
  function FirstRow(rows: seq<UserRow>, p: UserRow -> bool): (r: Option<UserRow>)
    ensures r.Some? ==> p(r.value) && exists k :: 0 <= k < |rows| && rows[k] == r.value
    ensures r.None? <==> forall j :: 0 <= j < |rows| ==> !p(rows[j])
  {
    var k := FirstWhere(rows, p);
    if k < 0 then None else Some(rows[k])
  }

  /** `findByEmail(email)`. */
  function ByEmail(rows: seq<UserRow>, email: string): Option<UserRow>
  {
    FirstRow(rows, (u: UserRow) => u.email == email)
  }

  /** `findById(id)`. */
  function ById(rows: seq<UserRow>, id: int): Option<UserRow>
  {
    FirstRow(rows, (u: UserRow) => u.id == id)
  }

  /** `findByEmailOrUsername(email, username)`. */
  function ByEmailOrUsername(rows: seq<UserRow>, email: string, username: string): Option<UserRow>
  {
    FirstRow(rows, (u: UserRow) => u.email == email || u.username == username)
  }

  /** Another row holding that email. */
  function OtherWithEmail(rows: seq<UserRow>, id: int, email: string): Option<UserRow>
  {
    FirstRow(rows, (u: UserRow) => u.id != id && u.email == email)
  }

  /** Another row holding that username. */
  function OtherWithUsername(rows: seq<UserRow>, id: int, username: string): Option<UserRow>
  {
    FirstRow(rows, (u: UserRow) => u.id != id && u.username == username)
  }

  /** Ids, emails and usernames are each unique. */
  ghost predicate Unique(rows: seq<UserRow>)
  {
    forall i, j :: 0 <= i < j < |rows| ==>
      rows[i].id != rows[j].id && rows[i].email != rows[j].email && rows[i].username != rows[j].username
  }

  /** With unique columns, each lookup finds the row at any position that matches. */
  lemma LookupsFind(rows: seq<UserRow>, k: int)
    requires Unique(rows) && 0 <= k < |rows|
    ensures ById(rows, rows[k].id) == Some(rows[k])
    ensures ByEmail(rows, rows[k].email) == Some(rows[k])
  {
    var i := FirstWhere(rows, (u: UserRow) => u.id == rows[k].id);
    assert i == k;
    var e := FirstWhere(rows, (u: UserRow) => u.email == rows[k].email);
    assert e == k;
  }

  /** The table with one row's password hash replaced. */
  function SetHash(rows: seq<UserRow>, id: int, hash: string): (r: seq<UserRow>)
    ensures |r| == |rows|
    ensures forall k :: 0 <= k < |rows| ==>
      r[k] == if rows[k].id == id then rows[k].(passwordHash := hash) else rows[k]
  {
    seq(|rows|, k requires 0 <= k < |rows| => if rows[k].id == id then rows[k].(passwordHash := hash) else rows[k])
  }

  /** The table with one row's username and email replaced. */
  function SetProfile(rows: seq<UserRow>, id: int, username: string, email: string): (r: seq<UserRow>)
    ensures |r| == |rows|
    ensures forall k :: 0 <= k < |rows| ==>
      r[k] == if rows[k].id == id then rows[k].(username := username, email := email) else rows[k]
  {
    seq(|rows|, k requires 0 <= k < |rows| =>
      if rows[k].id == id then rows[k].(username := username, email := email) else rows[k])
  }

  /** Replacing a hash keeps every column but that one, so the constraints still hold, and
      the row reads back by id and by email with the new hash. */
  lemma SetHashLookup(rows: seq<UserRow>, id: int, hash: string)
    requires Unique(rows) && ById(rows, id).Some?
    ensures Unique(SetHash(rows, id, hash))
    ensures ById(SetHash(rows, id, hash), id) == Some(ById(rows, id).value.(passwordHash := hash))
    ensures ByEmail(SetHash(rows, id, hash), ById(rows, id).value.email)
         == Some(ById(rows, id).value.(passwordHash := hash))
  {
    var r := SetHash(rows, id, hash);
    var k := FirstWhere(rows, (u: UserRow) => u.id == id);
    assert r[k] == rows[k].(passwordHash := hash);
    assert Unique(r);
    LookupsFind(r, k);
  }

  /** The source writes this message with a typographic apostrophe (U+2019). */
  const ProfileMismatch := "Les informations ne correspondent pas à l\U{2019}état actuel."

  /** `SELECT id FROM users WHERE id = $1 FOR UPDATE`: the row found holds its id and nothing
      else. */
  function SelectIdForUpdate(rows: seq<UserRow>, id: int): (r: Option<map<string, Value>>)
    ensures r.Some? <==> ById(rows, id).Some?
    ensures r.Some? ==> r.value.Keys == {"id"}
  {
    if ById(rows, id).None? then None else Some(map["id" := Num(id)])
  }

  /** The guard `updateProfile` runs on that row before its UPDATE, as written: NotFoundError
      without the row, and an AuthenticationError when `user.email !== email` or
      `user.username !== username`. */
  function ProfileGuardAsWritten(selected: Option<map<string, Value>>, username: string, email: string)
    : (r: Result<()>)
    ensures selected.None? ==> r == Err(NotFound("Utilisateur non trouvé"))
    ensures selected.Some? ==> (r.Ok? <==>
      Field(selected.value, "email") == Str(email) && Field(selected.value, "username") == Str(username))
    ensures r.Err? && selected.Some? ==> r == Err(Unauthenticated(ProfileMismatch))
  {
    if selected.None? then Err(NotFound("Utilisateur non trouvé"))
    else if Field(selected.value, "email") != Str(email) || Field(selected.value, "username") != Str(username)
    then Err(Unauthenticated(ProfileMismatch))
    else Ok(())
  }

  /** As written, the guard refuses every update of an existing user: the selected row has no
      `email`, so `user.email` is `undefined`, which is never `===` a string. */
  lemma ProfileUpdateAlwaysRefused(rows: seq<UserRow>, id: int, username: string, email: string)
    requires ById(rows, id).Some?
    ensures ProfileGuardAsWritten(SelectIdForUpdate(rows, id), username, email)
         == Err(Unauthenticated(ProfileMismatch))
  {
    assert "email" !in SelectIdForUpdate(rows, id).value;
  }

  /** The store behind the services. */
  class UserStore {
    var rows: seq<UserRow>
    var nextId: int

    ghost predicate Valid()
      reads this
    {
      Unique(rows) && forall k :: 0 <= k < |rows| ==> rows[k].id < nextId
    }

    constructor ()
      ensures Valid() && rows == [] && nextId == 1
    {
      rows := [];
      nextId := 1;
    }

    /** `INSERT INTO users ...`: refused with a unique violation when the email, and otherwise
        the username, is already used; otherwise the new row, with the next serial id, is
        appended and the columns `RETURNING` names come back, without the hash. */
    method Create(username: string, email: string, passwordHash: string) returns (r: Result<Account>)
      requires Valid()
      modifies this
      ensures Valid()
      ensures ByEmail(old(rows), email).Some? ==>
        r == Err(DbError(UniqueViolation, EmailKey, "duplicate key")) && rows == old(rows) && nextId == old(nextId)
      ensures ByEmail(old(rows), email).None? && ByEmailOrUsername(old(rows), email, username).Some? ==>
        r == Err(DbError(UniqueViolation, UsernameKey, "duplicate key")) && rows == old(rows) && nextId == old(nextId)
      ensures ByEmailOrUsername(old(rows), email, username).None? ==>
        r == Ok(Account(old(nextId), username, email))
        && rows == old(rows) + [UserRow(old(nextId), username, email, passwordHash)] && nextId == old(nextId) + 1
    {
      if ByEmail(rows, email).Some? {
        return Err(DbError(UniqueViolation, EmailKey, "duplicate key"));
      }
      if ByEmailOrUsername(rows, email, username).Some? {
        return Err(DbError(UniqueViolation, UsernameKey, "duplicate key"));
      }
      var row := UserRow(nextId, username, email, passwordHash);
      assert forall k :: 0 <= k < |rows| ==> rows[k].email != email && rows[k].username != username;
      rows := rows + [row];
      nextId := nextId + 1;
      return Ok(Account(row.id, row.username, row.email));
    }

    /** `updatePassword(id, hash)`: the row's hash replaced, or NotFoundError without the row. */
    method UpdatePassword(id: int, passwordHash: string) returns (r: Result<Value>)
      requires Valid()
      modifies this
      ensures Valid() && nextId == old(nextId)
      ensures ById(old(rows), id).None? ==>
        r == Err(NotFound("Utilisateur non trouvé")) && rows == old(rows)
      ensures ById(old(rows), id).Some? ==> r == Ok(Num(id)) && rows == SetHash(old(rows), id, passwordHash)
    {
      if ById(rows, id).None? {
        return Err(NotFound("Utilisateur non trouvé"));
      }
      SetHashLookup(rows, id, passwordHash);
      rows := SetHash(rows, id, passwordHash);
      return Ok(Num(id));
    }

    /** `updateProfile(id, {username, email})` as its UPDATE statement does it: NotFoundError
        without the row, a unique violation when another row holds the email or else the
        username, and otherwise the columns `RETURNING` names (`created_at` is not modelled).
        The guard in front of the UPDATE is left out: see `ProfileGuardAsWritten`. */
    method UpdateProfile(id: int, username: string, email: string) returns (r: Result<Account>)
      requires Valid()
      modifies this
      ensures Valid() && nextId == old(nextId)
      ensures r.Err? ==> rows == old(rows)
      ensures ById(old(rows), id).None? ==> r == Err(NotFound("Utilisateur non trouvé"))
      ensures ById(old(rows), id).Some? && OtherWithEmail(old(rows), id, email).Some? ==>
        r == Err(DbError(UniqueViolation, EmailKey, "duplicate key"))
      ensures (ById(old(rows), id).Some? && OtherWithEmail(old(rows), id, email).None?
               && OtherWithUsername(old(rows), id, username).Some?) ==>
        r == Err(DbError(UniqueViolation, UsernameKey, "duplicate key"))
      ensures r.Ok? <==> (ById(old(rows), id).Some? && OtherWithEmail(old(rows), id, email).None?
                          && OtherWithUsername(old(rows), id, username).None?)
      ensures r.Ok? ==> rows == SetProfile(old(rows), id, username, email)
      ensures r.Ok? ==> r.value == Account(id, username, email)
    {
      var current := ById(rows, id);
      if current.None? {
        return Err(NotFound("Utilisateur non trouvé"));
      }
      if OtherWithEmail(rows, id, email).Some? {
        return Err(DbError(UniqueViolation, EmailKey, "duplicate key"));
      }
      if OtherWithUsername(rows, id, username).Some? {
        return Err(DbError(UniqueViolation, UsernameKey, "duplicate key"));
      }
      var k := FirstWhere(rows, (u: UserRow) => u.id == id);
      var updated := SetProfile(rows, id, username, email);
      assert Unique(updated) by {
        forall i, j | 0 <= i < j < |updated|
          ensures updated[i].id != updated[j].id && updated[i].email != updated[j].email
               && updated[i].username != updated[j].username
        {
          assert rows[i].id != rows[j].id;
        }
      }
      rows := updated;
      return Ok(Account(id, username, email));
    }
  }

  /** What bcrypt guarantees: a password matches every hash made from it. */
  ghost predicate HashSound(hash: (string, int, string) -> string, compare: (string, string) -> bool)
  {
    forall p, cost, salt :: compare(p, hash(p, cost, salt))
  }

  /** bcrypt, left uninterpreted: `hash(password, cost, salt)` and `compare(password, hash)`,
      with the trace of the `compare` calls made. */
  class Bcrypt {
    const hash: (string, int, string) -> string
    const compare: (string, string) -> bool
    ghost var compares: seq<(string, string)>

    constructor (hash: (string, int, string) -> string, compare: (string, string) -> bool)
      ensures this.hash == hash && this.compare == compare && compares == []
    {
      this.hash := hash;
      this.compare := compare;
      compares := [];
    }

    /** What bcrypt guarantees of itself. */
    ghost predicate Sound()
    {
      HashSound(hash, compare)
    }

    /** `bcrypt.hash(password, cost)`; the salt it draws is a parameter. */
    method Hash(password: string, cost: int, salt: string) returns (h: string)
      ensures h == hash(password, cost, salt)
    {
      h := hash(password, cost, salt);
    }

    /** `bcrypt.compare(password, hash)`, recorded in the trace. */
    method Compare(password: string, passwordHash: string) returns (ok: bool)
      modifies this
      ensures ok == compare(password, passwordHash)
      ensures compares == old(compares) + [(password, passwordHash)]
    {
      compares := compares + [(password, passwordHash)];
      ok := compare(password, passwordHash);
    }
  }
}
