/** The navigation guard of registry/modules/auth/guards/authGuard.ts. With
    a token but no user it first fetches the user (the outcome of
    `authService.getCurrentUser()` is a parameter: the user, or None when
    the call fails) and logs out on failure; then it applies the route's
    auth and guest requirements. */
module AuthGuard {
  import opened Wrappers
  import opened Routing
  import opened AuthStore

  /** `authRouteNames.login` and `authRouteNames.dashboard`. */
  const LoginName := "Login"
  const DashboardName := "Dashboard"

  /** The decision once it is known whether the session is authenticated. */
  function AuthDecision(to: Route, isAuthenticated: bool): (nav: Navigation)
    ensures nav == Proceed || nav == ToName(LoginName, Some(to.fullPath)) || nav == ToName(DashboardName, None)
  {
    if RequiresAuth(to) && !isAuthenticated then ToName(LoginName, Some(to.fullPath))
    else if RequiresGuest(to) && isAuthenticated then ToName(DashboardName, None)
    else Proceed
  }

  /** The decision table: an unauthenticated session is sent to login from
      every route that requires auth, even a guest route (the auth check
      comes first); an authenticated one is sent to the dashboard from
      guest routes; everything else passes. */
  lemma AuthDecisions(to: Route, isAuthenticated: bool)
    ensures AuthDecision(to, isAuthenticated) == ToName(LoginName, Some(to.fullPath)) <==>
      RequiresAuth(to) && !isAuthenticated
    ensures AuthDecision(to, isAuthenticated) == ToName(DashboardName, None) <==>
      RequiresGuest(to) && isAuthenticated
    ensures AuthDecision(to, isAuthenticated) == Proceed <==>
      (isAuthenticated ==> !RequiresGuest(to)) && (!isAuthenticated ==> !RequiresAuth(to))
  {
  }

  /** authGuard. The decision it returns is the one for the store's state
      after the guard ran: a fetched user authenticates the session, a
      failed fetch logs out, and a store that had a user or no token is
      left untouched. */
  method AuthGuard(to: Route, store: AuthStore, fetched: Option<User>) returns (nav: Navigation)
    requires store.Valid()
    modifies store
    ensures store.Valid()
    ensures nav == AuthDecision(to, store.IsAuthenticated())
    ensures old(Truthy(store.token) && store.user.None?) && fetched.Some? ==>
      store.user == fetched && store.token == old(store.token) && store.storage == old(store.storage) &&
      store.IsAuthenticated()
    ensures old(Truthy(store.token) && store.user.None?) && fetched.None? ==>
      store.user.None? && store.token.None? && store.storage == old(store.storage) - {JwtStoreKey}
    ensures !old(Truthy(store.token) && store.user.None?) ==>
      store.user == old(store.user) && store.token == old(store.token) && store.storage == old(store.storage)
  {
    var requiresAuth := RequiresAuth(to);
    var requiresGuest := RequiresGuest(to);
    var hasToken := Truthy(store.token);
    var hasUser := store.user.Some?;
    var isAuthenticated := hasToken && hasUser;

    if hasToken && !hasUser {
      if fetched.Some? {
        store.SetUser(fetched);
        isAuthenticated := true;
      } else {
        store.Logout();
        isAuthenticated := false;
      }
    }

    if requiresAuth && !isAuthenticated {
      return ToName(LoginName, Some(to.fullPath));
    }
    if requiresGuest && isAuthenticated {
      return ToName(DashboardName, None);
    }
    return Proceed;
  }
}
