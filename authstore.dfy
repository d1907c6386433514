/** The session store of forumClient/src/stores/auth.ts. Each action's API call is replaced by
    its outcome, given as a parameter; a ghost trace records the endpoints called and the
    router navigations made. */
module AuthStore {

  import opened Base

  /** A user as the API returns it. */
  datatype User = User(id: int, username: string, email: string, role: string)

  /** What `useApi(...).execute()` leaves in its `data` and `error` refs. */
  datatype Outcome<T> = Outcome(data: Option<T>, error: Option<string>)

  const MeEndpoint := "/users/me"
  const LoginEndpoint := "/auth/login"
  const RegisterEndpoint := "/auth/register"
  const LogoutEndpoint := "/auth/logout"
  const ProfileEndpoint := "/users/profile"
  const PasswordEndpoint := "/users/change-password"

  /** The user after `fetchUser`: the data when there is some, no user after an error, and
      otherwise the user as it was. */
  function Fetched(user: Option<User>, outcome: Outcome<User>): (u: Option<User>)
    ensures outcome.data.Some? ==> u == outcome.data
    ensures outcome.data.None? && outcome.error.Some? ==> u.None?
    ensures outcome.data.None? && outcome.error.None? ==> u == user
  {
    if outcome.data.Some? then outcome.data
    else if outcome.error.Some? then None
    else user
  }

  /** After `fetchUser` the store is authenticated exactly when data came back, or nothing came
      back and it already was; fetching the same outcome twice changes nothing more. */
  lemma FetchedAuthentication(user: Option<User>, outcome: Outcome<User>)
    ensures Fetched(user, outcome).Some? <==> outcome.data.Some? || (outcome.error.None? && user.Some?)
    ensures Fetched(Fetched(user, outcome), outcome) == Fetched(user, outcome)
  {
  }

  class Store {
    var user: Option<User>
    ghost var requests: seq<string>
    ghost var navigations: seq<string>

    constructor ()
      ensures user.None? && requests == [] && navigations == []
    {
      user := None;
      requests := [];
      navigations := [];
    }

    /** `isAuthenticated`: `!!user`. */
    function IsAuthenticated(): (b: bool)
      reads this
      ensures b <==> user.Some?
    {
      user.Some?
    }

    /** `userRole`: the user's role, or `null`. */
    function UserRole(): (r: Option<string>)
      reads this
      ensures r.Some? <==> user.Some?
      ensures r.Some? ==> r.value == user.value.role
    {
      if user.Some? then Some(user.value.role) else None
    }

    /** `fetchUser()`. */
    method FetchUser(outcome: Outcome<User>)
      modifies this
      ensures user == Fetched(old(user), outcome)
      ensures requests == old(requests) + [MeEndpoint] && navigations == old(navigations)
    {
      requests := requests + [MeEndpoint];
      if outcome.data.Some? {
        user := outcome.data;
      } else if outcome.error.Some? {
        user := None;
      }
    }

    /** `login(credentials)`: a failed login rethrows its error, leaves the user alone and does
      not fetch the user; a successful one fetches the user. */
    method Login(loginError: Option<string>, me: Outcome<User>) returns (thrown: Option<string>)
      modifies this
      ensures navigations == old(navigations)
      ensures loginError.Some? ==>
        thrown == loginError && user == old(user) && requests == old(requests) + [LoginEndpoint]
      ensures loginError.None? ==>
        thrown.None? && user == Fetched(old(user), me) && requests == old(requests) + [LoginEndpoint, MeEndpoint]
    {
      requests := requests + [LoginEndpoint];
      if loginError.None? {
        FetchUser(me);
        return None;
      }
      return loginError;
    }

    /** `register(userData)`: rethrows the error; never touches the user. */
    method Register(error: Option<string>) returns (thrown: Option<string>)
      modifies this
      ensures thrown == error && user == old(user)
      ensures requests == old(requests) + [RegisterEndpoint] && navigations == old(navigations)
    {
      requests := requests + [RegisterEndpoint];
      return error;
    }

    /** `logout()`: whatever the server answers, the user is dropped and the router goes to
      /login; a server error is only logged. */
    method Logout(error: Option<string>)
      modifies this
      ensures user.None?
      ensures requests == old(requests) + [LogoutEndpoint] && navigations == old(navigations) + ["/login"]
    {
      requests := requests + [LogoutEndpoint];
      user := None;
      navigations := navigations + ["/login"];
    }

    /** `updateProfile(profileData)`: returned data replaces the user; otherwise an error is
      thrown and the user is kept. */
    method UpdateProfile(outcome: Outcome<User>) returns (thrown: Option<string>)
      modifies this
      ensures requests == old(requests) + [ProfileEndpoint] && navigations == old(navigations)
      ensures outcome.data.Some? ==> user == outcome.data && thrown.None?
      ensures outcome.data.None? ==> user == old(user) && thrown == outcome.error
    {
      requests := requests + [ProfileEndpoint];
      if outcome.data.Some? {
        user := outcome.data;
        return None;
      }
      return outcome.error;
    }

    /** `changePassword(passwordData)`: rethrows the error; never touches the user. */
    method ChangePassword(error: Option<string>) returns (thrown: Option<string>)
      modifies this
      ensures thrown == error && user == old(user)
      ensures requests == old(requests) + [PasswordEndpoint] && navigations == old(navigations)
    {
      requests := requests + [PasswordEndpoint];
      return error;
    }
  }
}
