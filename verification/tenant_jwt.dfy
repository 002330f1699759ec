/** The tenant-claim reader of registry/features/tenantFeat/lib/jwtDecoder.ts.
    A demo token `mock_jwt_<email>[_<tenantId>_<tenantRole>]_<timestamp>` is
    parsed by hand; any other token goes to the `jwtDecode` library, which is
    a parameter here (None where it throws). The two `Date.now()` readings
    of the mock parser are parameters. */
module TenantJwt {
  import opened Wrappers
  import opened Seqs
  import opened Text
  import MockHelpers

  const MockPrefix := "mock_jwt_"
  const InvalidMockFormat := "Invalid mock token format"
  const InvalidJwt := "Invalid JWT token"

  /** The two `Date.now()` readings of the mock parser, in milliseconds:
      the first gives `iat`, the second `exp`. */
  datatype Clock = Clock(first: nat, second: nat)

  /** The claims of a tenant token. */
  datatype JwtPayload = JwtPayload(sub: string, email: string, tid: Option<string>, trol: Option<string>, iat: int, exp: int)

  /** What decodeJWT gives: a payload, or the message of the Error it throws. */
  datatype Decoded = Payload(payload: JwtPayload) | Thrown(message: string)

  predicate IsMockToken(token: string) {
    StartsWith(token, MockPrefix)
  }

  /** The `_`-separated pieces after the first `mock_jwt_` is removed. */
  function MockPieces(token: string): seq<string> {
    Split(ReplaceFirst(token, MockPrefix, ""), '_')
  }

  /** parseMockToken: the first piece is the email and must not be empty;
      pieces 1 and 2 are the tenant id and role when there are at least
      four pieces. `iat` and `exp` come from two clock readings, so `exp`
      is an hour after `iat`, or an hour and a second when the readings
      straddle a second boundary. */
  function ParseMockToken(token: string, now: Clock): (d: Decoded)
    ensures d.Thrown? <==> MockPieces(token)[0] == ""
    ensures d.Thrown? ==> d.message == InvalidMockFormat
    ensures d.Payload? ==>
      var p := d.payload;
      p.email == MockPieces(token)[0] && p.email != "" && '_' !in p.email &&
      p.sub == MockHelpers.UserId(p.email) &&
      p.iat == now.first / 1000 && p.exp == now.second / 1000 + 3600 &&
      (now.first <= now.second ==> p.iat + 3600 <= p.exp) &&
      (now.second < now.first + 1000 ==> p.exp <= p.iat + 3601) &&
      (p.tid.Some? <==> |MockPieces(token)| >= 4) && (p.trol.Some? <==> p.tid.Some?)
  {
    var parts := MockPieces(token);
    var email := parts[0];
    if email == "" then Thrown(InvalidMockFormat)
    else
      var tenantId := if |parts| >= 4 then Some(parts[1]) else None;
      var tenantRole := if |parts| >= 4 then Some(parts[2]) else None;
      Payload(JwtPayload(MockHelpers.UserId(email), email, tenantId, tenantRole,
                         now.first / 1000, now.second / 1000 + 3600))
  }

  /** decodeJWT: the mock parser for mock tokens, the library otherwise. */
  function DecodeJwt(token: string, now: Clock, jwtDecode: string -> Option<JwtPayload>): Decoded {
    if IsMockToken(token) then ParseMockToken(token, now)
    else
      match jwtDecode(token)
      case None => Thrown(InvalidJwt)
      case Some(p) => Payload(p)
  }

  /** `payload.tid ?? null`, and null when decoding throws. */
  function GetTenantIdFromToken(token: string, now: Clock, jwtDecode: string -> Option<JwtPayload>): Option<string> {
    match DecodeJwt(token, now, jwtDecode)
    case Thrown(_) => None
    case Payload(p) => p.tid
  }

  function GetTenantRoleFromToken(token: string, now: Clock, jwtDecode: string -> Option<JwtPayload>): Option<string> {
    match DecodeJwt(token, now, jwtDecode)
    case Thrown(_) => None
    case Payload(p) => p.trol
  }

  predicate HasTenantContext(token: string, now: Clock, jwtDecode: string -> Option<JwtPayload>) {
    GetTenantIdFromToken(token, now, jwtDecode).Some?
  }

  /** The mock parser is used for exactly the tokens with the prefix: the
      library's answer never matters for them, and a library failure is
      reported as `Invalid JWT token` for all others. */
  lemma DecoderChoice(token: string, now: Clock, jwtDecode: string -> Option<JwtPayload>,
                      jwtDecode': string -> Option<JwtPayload>)
    ensures IsMockToken(token) ==> DecodeJwt(token, now, jwtDecode) == DecodeJwt(token, now, jwtDecode')
    ensures !IsMockToken(token) ==>
      (DecodeJwt(token, now, jwtDecode) == Thrown(InvalidJwt) <==> jwtDecode(token).None?)
  {
  }

  /** Any failure, and any payload without the claim, reads as no tenant:
      the tenant helpers never throw. */
  lemma TenantClaims(token: string, now: Clock, jwtDecode: string -> Option<JwtPayload>)
    ensures DecodeJwt(token, now, jwtDecode).Thrown? ==>
      GetTenantIdFromToken(token, now, jwtDecode).None? &&
      GetTenantRoleFromToken(token, now, jwtDecode).None? &&
      !HasTenantContext(token, now, jwtDecode)
    ensures HasTenantContext(token, now, jwtDecode) <==>
      DecodeJwt(token, now, jwtDecode).Payload? && DecodeJwt(token, now, jwtDecode).payload.tid.Some?
  {
  }

  lemma StripPrefix(rest: string)
    ensures IsMockToken(MockPrefix + rest)
    ensures ReplaceFirst(MockPrefix + rest, MockPrefix, "") == rest
  {
    var t := MockPrefix + rest;
    assert t[..|MockPrefix|] == MockPrefix;
    assert t[|MockPrefix|..] == rest;
  }

  lemma PiecesOf(rest: string, pieces: seq<string>)
    requires |pieces| > 0 && forall i :: 0 <= i < |pieces| ==> '_' !in pieces[i]
    requires rest == JoinWith(pieces, "_")
    ensures IsMockToken(MockPrefix + rest) && MockPieces(MockPrefix + rest) == pieces
  {
    StripPrefix(rest);
    JoinSplitRoundTrip(pieces, '_');
  }

  lemma JoinTwo(a: string, b: string)
    ensures JoinWith([a, b], "_") == a + "_" + b
  {
    assert [a, b][1..] == [b];
  }

  lemma JoinFour(a: string, b: string, c: string, d: string)
    ensures JoinWith([a, b, c, d], "_") == a + "_" + b + "_" + c + "_" + d
  {
    assert [a, b, c, d][1..] == [b, c, d];
    assert [b, c, d][1..] == [c, d];
    JoinTwo(c, d);
    assert a + "_" + (b + "_" + (c + "_" + d)) == a + "_" + b + "_" + c + "_" + d;
  }

  /** What the readers make of a mock token with a non-empty email piece. */
  lemma ReadPieces(token: string, pieces: seq<string>, now: Clock, jwtDecode: string -> Option<JwtPayload>)
    requires IsMockToken(token) && MockPieces(token) == pieces && pieces[0] != ""
    ensures DecodeJwt(token, now, jwtDecode).Payload?
    ensures DecodeJwt(token, now, jwtDecode).payload.email == pieces[0]
    ensures GetTenantIdFromToken(token, now, jwtDecode) == (if |pieces| >= 4 then Some(pieces[1]) else None)
    ensures GetTenantRoleFromToken(token, now, jwtDecode) == (if |pieces| >= 4 then Some(pieces[2]) else None)
  {
  }

  lemma FourPieces(email: string, tid: string, role: string, stamp: string)
    ensures MockPrefix + email + "_" + tid + "_" + role + "_" + stamp == MockPrefix + JoinWith([email, tid, role, stamp], "_")
  {
    JoinFour(email, tid, role, stamp);
  }

  /** A tenant token `mock_jwt_<email>_<tenantId>_<tenantRole>_<timestamp>`
      gives back its email, tenant id and role, whatever the library does.
      Pieces must be free of `_`: an email such as `a_b_c@x.io` in a
      two-piece token is read as email `a` with tenant `b` and role
      `c@x.io`. */
  lemma MockTenantToken(email: string, tid: string, role: string, stamp: string, now: Clock,
                        jwtDecode: string -> Option<JwtPayload>)
    requires email != ""
    requires '_' !in email && '_' !in tid && '_' !in role && '_' !in stamp
    ensures var token := MockPrefix + email + "_" + tid + "_" + role + "_" + stamp;
      DecodeJwt(token, now, jwtDecode).Payload? &&
      DecodeJwt(token, now, jwtDecode).payload.email == email &&
      GetTenantIdFromToken(token, now, jwtDecode) == Some(tid) &&
      GetTenantRoleFromToken(token, now, jwtDecode) == Some(role) &&
      HasTenantContext(token, now, jwtDecode)
  {
    var pieces := [email, tid, role, stamp];
    FourPieces(email, tid, role, stamp);
    PiecesOf(JoinWith(pieces, "_"), pieces);
    ReadPieces(MockPrefix + JoinWith(pieces, "_"), pieces, now, jwtDecode);
  }

  lemma TwoPieces(email: string, stamp: string)
    ensures MockPrefix + email + "_" + stamp == MockPrefix + JoinWith([email, stamp], "_")
  {
    JoinTwo(email, stamp);
  }

  /** The tokens of the mock login, `mock_jwt_<email>_<timestamp>`, carry
      no tenant context. */
  lemma TwoPieceNoTenant(email: string, stamp: string, now: Clock, jwtDecode: string -> Option<JwtPayload>)
    requires email != "" && '_' !in email && '_' !in stamp
    ensures var token := MockPrefix + email + "_" + stamp;
      DecodeJwt(token, now, jwtDecode).Payload? &&
      DecodeJwt(token, now, jwtDecode).payload.email == email &&
      GetTenantIdFromToken(token, now, jwtDecode).None? &&
      GetTenantRoleFromToken(token, now, jwtDecode).None? &&
      !HasTenantContext(token, now, jwtDecode)
  {
    var pieces := [email, stamp];
    TwoPieces(email, stamp);
    PiecesOf(JoinWith(pieces, "_"), pieces);
    ReadPieces(MockPrefix + JoinWith(pieces, "_"), pieces, now, jwtDecode);
  }

  /** A mock token whose email piece is empty throws `Invalid mock token
      format`, so it has no tenant context either. */
  lemma EmptyEmailRejected(rest: string, now: Clock, jwtDecode: string -> Option<JwtPayload>)
    requires rest == "" || rest[0] == '_'
    ensures DecodeJwt(MockPrefix + rest, now, jwtDecode) == Thrown(InvalidMockFormat)
    ensures !HasTenantContext(MockPrefix + rest, now, jwtDecode)
  {
    StripPrefix(rest);
    SplitFirst(rest, '_');
    if rest != "" {
      assert IndexOf(rest, '_') == 0;
    }
  }

  /** A mock token and the mock JWT built for the same email carry the
      same subject. */
  lemma SameSubject(token: string, now: Clock, options: MockHelpers.MockJwtOptions, now': nat)
    requires ParseMockToken(token, now).Payload?
    requires options.email == ParseMockToken(token, now).payload.email
    ensures MockHelpers.MockPayload(options, now').sub == ParseMockToken(token, now).payload.sub
  {
  }
}
