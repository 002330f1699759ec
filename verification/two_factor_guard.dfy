/** The navigation guard of registry/modules/auth/guards/twoFactorGuard.ts:
    a token holder whose token says verification is pending is kept on the
    verification page until it is done. */
module TwoFactorGuard {
  import opened Wrappers
  import opened Routing
  import opened TwoFactorJwt

  const VerifyRoute := "/auth/2fa/verify"
  const SetupRoute := "/auth/2fa/setup"
  const DashboardPath := "/dashboard"

  /** The decision for `to`, given the store's token. */
  function TwoFactorGuard(to: Route, token: Option<string>, jwtDecode: string -> Option<TwoFactorClaims>): (nav: Navigation)
    ensures nav == Proceed || nav == ToPath(VerifyRoute, Some(to.fullPath)) || nav == ToPath(DashboardPath, None)
  {
    if !Truthy(token) then Proceed
    else if to.path == SetupRoute then Proceed
    else if RequiresTwoFactorVerification(token.value, jwtDecode) then
      if to.path == VerifyRoute then Proceed
      else ToPath(VerifyRoute, Some(to.fullPath))
    else if to.path == VerifyRoute then ToPath(DashboardPath, None)
    else Proceed
  }

  /** The decision table: no token or the setup page pass; with
      verification pending only the verification page passes and every
      other path goes there with `redirectTo`; otherwise only the
      verification page is turned away, to the dashboard. */
  lemma TwoFactorDecisions(to: Route, token: Option<string>, jwtDecode: string -> Option<TwoFactorClaims>)
    ensures !Truthy(token) || to.path == SetupRoute ==> TwoFactorGuard(to, token, jwtDecode) == Proceed
    ensures Truthy(token) && to.path != SetupRoute && RequiresTwoFactorVerification(token.value, jwtDecode) ==>
      (TwoFactorGuard(to, token, jwtDecode) == Proceed <==> to.path == VerifyRoute)
    ensures (Truthy(token) && to.path != SetupRoute && RequiresTwoFactorVerification(token.value, jwtDecode) &&
             to.path != VerifyRoute) ==> TwoFactorGuard(to, token, jwtDecode) == ToPath(VerifyRoute, Some(to.fullPath))
    ensures Truthy(token) && !RequiresTwoFactorVerification(token.value, jwtDecode) ==>
      (TwoFactorGuard(to, token, jwtDecode) == Proceed <==> to.path != VerifyRoute) &&
      (to.path == VerifyRoute ==> TwoFactorGuard(to, token, jwtDecode) == ToPath(DashboardPath, None))
  {
  }

  /** A redirect never loops: with the same token, the guard lets the
      navigation to the redirect target through. */
  lemma RedirectSettles(to: Route, token: Option<string>, jwtDecode: string -> Option<TwoFactorClaims>, to': Route)
    requires TwoFactorGuard(to, token, jwtDecode).ToPath?
    requires to'.path == TwoFactorGuard(to, token, jwtDecode).path
    ensures TwoFactorGuard(to', token, jwtDecode) == Proceed
  {
  }

  /** A token that cannot be decoded never sees the verification page
      enforced; it is only turned away from that page. */
  lemma UndecodableToken(to: Route, token: Option<string>, jwtDecode: string -> Option<TwoFactorClaims>)
    requires Truthy(token) && jwtDecode(token.value).None?
    ensures TwoFactorGuard(to, token, jwtDecode) == (if to.path == VerifyRoute then ToPath(DashboardPath, None) else Proceed)
  {
    NeutralOnFailure(token.value, jwtDecode);
  }
}
