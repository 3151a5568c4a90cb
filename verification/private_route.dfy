/** The route guard wrapped around the administration pages: an ordered
    decision over the loading flag, the authentication state and the roles
    a route requires. */
module PrivateRoute {
  import opened Wrappers
  import opened JsValue
  import opened AuthContext

  /** What the guard renders: the loading placeholder, a redirect, the
      protected page, or the TypeError raised by reading `role` of a `null`
      user. */
  datatype Outcome = Placeholder | Redirect(to: string) | Children | TypeError

  /** The roles the administration routes require. */
  const AdminRoles: seq<Value> := [Str("ADMIN"), Str("SUPER")]

  /** `PrivateRoute({ children, requiredRoles })`; `None` stands for an
      absent `requiredRoles` (any array, even an empty one, is truthy). */
  function Decide(loading: bool, state: AuthState, requiredRoles: Option<seq<Value>>): (o: Outcome)
    ensures loading ==> o == Placeholder
    ensures !loading && !state.isAuthenticated ==> o == Redirect("/login")
    ensures o == Children <==>
      !loading && state.isAuthenticated
      && (requiredRoles.None? || (state.user.Some? && state.user.value.role in requiredRoles.value))
    ensures o == Redirect("/") <==>
      !loading && state.isAuthenticated && requiredRoles.Some?
      && state.user.Some? && state.user.value.role !in requiredRoles.value
    ensures o == TypeError <==>
      !loading && state.isAuthenticated && requiredRoles.Some? && state.user.None?
  {
    if loading then Placeholder
    else if !state.isAuthenticated then Redirect("/login")
    else if requiredRoles.Some? then
      match state.user
      case None => TypeError
      case Some(user) => if user.role in requiredRoles.value then Children else Redirect("/")
    else Children
  }

  /** An administration page is shown exactly to a loaded, authenticated
      session whose user has the role 'ADMIN' or 'SUPER'. */
  lemma AdminPagesNeedAdminRole(loading: bool, state: AuthState)
    ensures Decide(loading, state, Some(AdminRoles)) == Children <==>
      !loading && state.isAuthenticated && state.user.Some?
      && (state.user.value.role == Str("ADMIN") || state.user.value.role == Str("SUPER"))
  {
  }

  /** After a logout every protected route, whatever roles it requires,
      redirects to the login page once loading is over. */
  lemma LoggedOutGoesToLogin(state: AuthState, requiredRoles: Option<seq<Value>>)
    ensures Decide(false, Reduce(state, Logout), requiredRoles) == Redirect("/login")
  {
  }

  /** A session restored from a store whose user is the string 'null' (which
      parses to `null`) is authenticated without a user, and a route with
      required roles then raises a TypeError instead of redirecting. */
  lemma NullUserSessionFailsRoleCheck(state: AuthState, token: string, parse: string -> ParseResult)
    requires token != "" && parse("null") == Parsed(None)
    ensures var storage := map[UserKey := "null", TokenKey := token];
      var a := RestoreAction(storage, parse);
      && a == Some(Login(None, token, false))
      && Decide(false, Reduce(state, a.value), Some(AdminRoles)) == TypeError
  {
    var storage := map[UserKey := "null", TokenKey := token];
    assert Present(storage, UserKey) && Present(storage, TokenKey);
  }
}
