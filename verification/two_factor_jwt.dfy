/** The two-factor claim helpers of registry/modules/auth/lib/jwtDecoder.ts.
    Tokens are decoded by the `jwtDecode` library, a parameter here (None
    where it throws). A claim is whatever JSON value the token carries, so
    the helpers that compare with `=== true` are modelled over any value. */
module TwoFactorJwt {
  import opened Wrappers

  /** A JSON claim value. */
  datatype Claim = Boolean(b: bool) | Text(s: string) | Number(n: int) | Null

  /** The two-factor claims of a payload; None is an absent claim. */
  datatype TwoFactorClaims = TwoFactorClaims(tfaPending: Option<Claim>, tfaVerified: Option<Claim>, tfaMethod: Option<Claim>)

  /** The status object of a token that cannot be decoded: `{}`. */
  const NoClaims := TwoFactorClaims(None, None, None)

  function GetTwoFactorStatusFromToken(token: string, jwtDecode: string -> Option<TwoFactorClaims>): (s: TwoFactorClaims)
    ensures jwtDecode(token).None? ==> s == NoClaims
  {
    match jwtDecode(token)
    case None => NoClaims
    case Some(p) => TwoFactorClaims(p.tfaPending, p.tfaVerified, p.tfaMethod)
  }

  predicate IsTwoFactorPending(token: string, jwtDecode: string -> Option<TwoFactorClaims>) {
    match jwtDecode(token)
    case None => false
    case Some(p) => p.tfaPending == Some(Boolean(true))
  }

  predicate IsTwoFactorVerified(token: string, jwtDecode: string -> Option<TwoFactorClaims>) {
    match jwtDecode(token)
    case None => false
    case Some(p) => p.tfaVerified == Some(Boolean(true))
  }

  /** `payload.tfaMethod ?? null`: absent and null both read as null. */
  function GetTwoFactorMethod(token: string, jwtDecode: string -> Option<TwoFactorClaims>): (m: Option<Claim>)
    ensures m != Some(Null)
  {
    match jwtDecode(token)
    case None => None
    case Some(p) => if p.tfaMethod == Some(Null) then None else p.tfaMethod
  }

  predicate RequiresTwoFactorVerification(token: string, jwtDecode: string -> Option<TwoFactorClaims>) {
    IsTwoFactorPending(token, jwtDecode) && !IsTwoFactorVerified(token, jwtDecode)
  }

  /** A token that cannot be decoded gets the neutral answer from every
      helper, so it never requires verification. */
  lemma NeutralOnFailure(token: string, jwtDecode: string -> Option<TwoFactorClaims>)
    requires jwtDecode(token).None?
    ensures GetTwoFactorStatusFromToken(token, jwtDecode) == NoClaims
    ensures !IsTwoFactorPending(token, jwtDecode) && !IsTwoFactorVerified(token, jwtDecode)
    ensures GetTwoFactorMethod(token, jwtDecode).None?
    ensures !RequiresTwoFactorVerification(token, jwtDecode)
  {
  }

  /** The predicates read the same claims as the status object, and hold
      only for the value `true` itself: a string "true" or a 1 does not
      count. */
  lemma HelpersAgreeWithStatus(token: string, jwtDecode: string -> Option<TwoFactorClaims>)
    ensures var s := GetTwoFactorStatusFromToken(token, jwtDecode);
      (IsTwoFactorPending(token, jwtDecode) <==> s.tfaPending == Some(Boolean(true))) &&
      (IsTwoFactorVerified(token, jwtDecode) <==> s.tfaVerified == Some(Boolean(true))) &&
      GetTwoFactorMethod(token, jwtDecode) == (if s.tfaMethod == Some(Null) then None else s.tfaMethod)
  {
  }

  /** Verification is required exactly for a decodable token whose pending
      claim is `true` and whose verified claim is anything but `true`. */
  lemma RequiresVerificationIff(token: string, jwtDecode: string -> Option<TwoFactorClaims>)
    ensures RequiresTwoFactorVerification(token, jwtDecode) <==>
      jwtDecode(token).Some? &&
      jwtDecode(token).value.tfaPending == Some(Boolean(true)) &&
      jwtDecode(token).value.tfaVerified != Some(Boolean(true))
  {
  }
}
