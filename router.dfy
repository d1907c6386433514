/** The route table and the global navigation guard of forumClient/src/router/index.ts. */
module Router {

  import opened Base

  /** A named route and its `meta`: `requiresAuth` (`undefined` when the route has no meta)
      and `roles`, which no route of the table defines. */
  datatype Route = Route(name: string, requiresAuth: Value, roles: Option<seq<Value>>)

  /** What the guard passes to `next`: no argument, or a named redirect. */
  datatype Decision = Proceed | Redirect(target: string)

  /** The route table. */
  const Routes: seq<Route> := [
    Route("home", Undefined, None),
    Route("login", Bool(false), None),
    Route("register", Bool(false), None),
    Route("forum", Bool(true), None),
    Route("profile", Bool(true), None),
    Route("post-detail", Bool(true), None),
    Route("unauthorized", Bool(true), None)
  ]

  /** The route of the table with that name. */
  function Named(name: string): (r: Option<Route>)
    ensures r.Some? ==> r.value in Routes && r.value.name == name
    ensures r.None? ==> forall k :: 0 <= k < |Routes| ==> Routes[k].name != name
  {
    if name == "home" then Some(Routes[0])
    else if name == "login" then Some(Routes[1])
    else if name == "register" then Some(Routes[2])
    else if name == "forum" then Some(Routes[3])
    else if name == "profile" then Some(Routes[4])
    else if name == "post-detail" then Some(Routes[5])
    else if name == "unauthorized" then Some(Routes[6])
    else None
  }

  /** `router.beforeEach`: the one call to `next` for a navigation to `to`, given whether a user
      is loaded and that user's role. */
  function Guard(to: Route, isAuthenticated: bool, userRole: Value): (d: Decision)
    ensures Truthy(to.requiresAuth) && !isAuthenticated ==> d == Redirect("login")
    ensures (to.name == "login" || to.name == "register") && isAuthenticated ==> d == Redirect("forum")
    ensures d == Redirect("unauthorized") ==>
      Truthy(to.requiresAuth) && isAuthenticated && to.roles.Some? && userRole !in to.roles.value
    ensures (Truthy(to.requiresAuth) && isAuthenticated && to.name != "login" && to.name != "register"
             && to.roles.Some? && userRole !in to.roles.value) ==> d == Redirect("unauthorized")
    ensures (Truthy(to.requiresAuth) && isAuthenticated && to.name != "login" && to.name != "register"
             && (to.roles.None? || userRole in to.roles.value)) ==> d == Proceed
    ensures d.Redirect? ==> d.target in {"login", "forum", "unauthorized"}
    ensures !Truthy(to.requiresAuth) && ((to.name != "login" && to.name != "register") || !isAuthenticated) ==>
      d == Proceed
  {
    if Truthy(to.requiresAuth) && !isAuthenticated then Redirect("login")
    else if (to.name == "login" || to.name == "register") && isAuthenticated then Redirect("forum")
    else if Truthy(to.requiresAuth) && to.roles.Some? && userRole !in to.roles.value then Redirect("unauthorized")
    else Proceed
  }

  /** No route of the table declares roles, so the 'unauthorized' branch is never taken. */
  lemma RolesBranchUnreachable(k: int, isAuthenticated: bool, userRole: Value)
    requires 0 <= k < |Routes|
    ensures Guard(Routes[k], isAuthenticated, userRole) != Redirect("unauthorized")
  {
  }

  /** 'home' has no meta and is always reached. */
  lemma HomeAlwaysProceeds(isAuthenticated: bool, userRole: Value)
    ensures Guard(Named("home").value, isAuthenticated, userRole) == Proceed
  {
  }

  /** The guard cannot loop: every redirect it makes from a route of the table names a route of
      the table that the same user reaches without a further redirect. */
  lemma NoRedirectLoop(k: int, isAuthenticated: bool, userRole: Value)
    requires 0 <= k < |Routes|
    ensures var d := Guard(Routes[k], isAuthenticated, userRole);
      d.Redirect? ==> Named(d.target).Some? && Guard(Named(d.target).value, isAuthenticated, userRole) == Proceed
  {
  }
}
