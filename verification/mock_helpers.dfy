/** The demo helpers of registry/shared/utils/mockHelpers.ts: base64url
    encoding through `btoa`, the mock JWT the demo backends hand out, and the
    HTTP error object they throw. `btoa` is written out as standard base64
    (section 4 of RFC 4648); `JSON.stringify` of the payload, `Date.now()`
    and `Math.random()` are parameters. */
module MockHelpers {
  import opened Wrappers
  import opened Text
  import QueryUtils

  // ---------------------------------------------------------------------
  // Base64 (section 4 of RFC 4648) and base64url (section 5)

  /** `btoa` accepts a string only when every character is below 256. */
  predicate Latin1(s: string) {
    forall i :: 0 <= i < |s| ==> s[i] as int < 256
  }

  predicate Bytes(b: seq<int>) {
    forall i :: 0 <= i < |b| ==> 0 <= b[i] < 256
  }

  predicate Sextets(x: seq<int>) {
    forall i :: 0 <= i < |x| ==> 0 <= x[i] < 64
  }

  function Octets(s: string): (b: seq<int>)
    requires Latin1(s)
    ensures |b| == |s| && Bytes(b)
  {
    seq(|s|, i requires 0 <= i < |s| => s[i] as int)
  }

  function Chars(b: seq<int>): (s: string)
    requires Bytes(b)
    ensures |s| == |b| && Latin1(s)
  {
    seq(|b|, i requires 0 <= i < |b| => b[i] as char)
  }

  /** The sextets of one group of one to three bytes, most significant
      bits first, the zero bits that fill the last sextet included. */
  function Encode(g: seq<int>): (x: seq<int>)
    requires Bytes(g) && 1 <= |g| <= 3
    ensures Sextets(x) && |x| == |g| + 1
  {
    if |g| == 1 then [g[0] / 4, g[0] % 4 * 16]
    else if |g| == 2 then [g[0] / 4, g[0] % 4 * 16 + g[1] / 16, g[1] % 16 * 4]
    else [g[0] / 4, g[0] % 4 * 16 + g[1] / 16, g[1] % 16 * 4 + g[2] / 64, g[2] % 64]
  }

  /** The bytes carried by two to four sextets. */
  function Decode(x: seq<int>): (g: seq<int>)
    requires Sextets(x) && 2 <= |x| <= 4
    ensures Bytes(g) && |g| == |x| - 1
  {
    if |x| == 2 then [x[0] * 4 + x[1] / 16]
    else if |x| == 3 then [x[0] * 4 + x[1] / 16, x[1] % 16 * 16 + x[2] / 4]
    else [x[0] * 4 + x[1] / 16, x[1] % 16 * 16 + x[2] / 4, x[2] % 4 * 64 + x[3]]
  }

  /** The 6-bit groups of b: four for every three bytes, and two or three
      for a final group of one or two bytes. */
  function Split6(b: seq<int>): (x: seq<int>)
    requires Bytes(b)
    ensures Sextets(x) && |x| == (4 * |b| + 2) / 3
    decreases |b|
  {
    if |b| == 0 then []
    else if |b| <= 2 then Encode(b)
    else Encode(b[..3]) + Split6(b[3..])
  }

  /** The bytes a run of sextets carries: the inverse of Split6. A single
      left-over sextet holds no whole byte and is rejected. */
  function Join6(x: seq<int>): (r: Option<seq<int>>)
    requires Sextets(x)
    ensures r.Some? ==> Bytes(r.value)
    decreases |x|
  {
    if |x| == 0 then Some([])
    else if |x| == 1 then None
    else if |x| <= 4 then Some(Decode(x))
    else
      match Join6(x[4..])
      case None => None
      case Some(rest) => Some(Decode(x[..4]) + rest)
  }

  /** Value v in the standard alphabet. */
  function StdDigit(v: int): char
    requires 0 <= v < 64
  {
    if v < 26 then (65 + v) as char
    else if v < 52 then (97 + v - 26) as char
    else if v < 62 then (48 + v - 52) as char
    else if v == 62 then '+'
    else '/'
  }

  /** Value v in the URL and filename safe alphabet. */
  function UrlDigit(v: int): char
    requires 0 <= v < 64
  {
    if v == 62 then '-' else if v == 63 then '_' else StdDigit(v)
  }

  /** The characters of the URL and filename safe alphabet. */
  predicate UrlChar(c: char) {
    'A' <= c <= 'Z' || 'a' <= c <= 'z' || '0' <= c <= '9' || c == '-' || c == '_'
  }

  /** The value of a character of the URL and filename safe alphabet. */
  function UrlValue(c: char): (r: Option<int>)
    ensures r.Some? <==> UrlChar(c)
    ensures r.Some? ==> 0 <= r.value < 64 && UrlDigit(r.value) == c
  {
    if 'A' <= c <= 'Z' then Some(c as int - 65)
    else if 'a' <= c <= 'z' then Some(c as int - 97 + 26)
    else if '0' <= c <= '9' then Some(c as int - 48 + 52)
    else if c == '-' then Some(62)
    else if c == '_' then Some(63)
    else None
  }

  function StdChars(x: seq<int>): (s: string)
    requires Sextets(x)
    ensures |s| == |x|
  {
    if |x| == 0 then "" else [StdDigit(x[0])] + StdChars(x[1..])
  }

  function UrlChars(x: seq<int>): (s: string)
    requires Sextets(x)
    ensures |s| == |x| && forall i :: 0 <= i < |s| ==> UrlChar(s[i])
  {
    if |x| == 0 then "" else [UrlDigit(x[0])] + UrlChars(x[1..])
  }

  function UrlValues(s: string): (r: Option<seq<int>>)
    ensures r.Some? ==> Sextets(r.value)
  {
    if |s| == 0 then Some([])
    else match (UrlValue(s[0]), UrlValues(s[1..]))
      case (Some(v), Some(rest)) => Some([v] + rest)
      case _ => None
  }

  /** `=` padding up to a multiple of four characters. */
  function Padding(n: nat): string {
    if n % 3 == 1 then "==" else if n % 3 == 2 then "=" else ""
  }

  /** Standard base64 with padding, as `btoa` returns it; a character
      above 255 makes `btoa` throw, modelled as None. */
  function Btoa(s: string): (r: Option<string>)
    ensures r.Some? <==> Latin1(s)
    ensures r.Some? ==> |r.value| % 4 == 0 && |r.value| == 4 * ((|s| + 2) / 3)
  {
    if Latin1(s) then
      PaddedLength(|s|);
      Some(StdChars(Split6(Octets(s))) + Padding(|s|))
    else None
  }

  lemma PaddedLength(n: nat)
    ensures (4 * n + 2) / 3 + |Padding(n)| == 4 * ((n + 2) / 3)
  {
    var q, r := n / 3, n % 3;
    assert n == 3 * q + r;
    if r == 0 {
      assert (4 * n + 2) / 3 == 4 * q;
      assert (n + 2) / 3 == q;
    } else if r == 1 {
      assert (4 * n + 2) / 3 == 4 * q + 2;
      assert (n + 2) / 3 == q + 1;
    } else {
      assert (4 * n + 2) / 3 == 4 * q + 3;
      assert (n + 2) / 3 == q + 1;
    }
  }

  /** Unpadded base64url, section 5 of RFC 4648 with the padding of section
      3.2 omitted: the reference for base64UrlEncode. */
  function Base64Url(s: string): string
    requires Latin1(s)
  {
    UrlChars(Split6(Octets(s)))
  }

  /** Decoding unpadded base64url back to the characters it encodes. */
  function Base64UrlDecode(t: string): Option<string> {
    match UrlValues(t)
    case None => None
    case Some(x) =>
      match Join6(x)
      case None => None
      case Some(b) => Some(Chars(b))
  }

  /** The three global replaces of base64UrlEncode. */
  function UrlSafe(b: string): string {
    ReplaceAll(ReplaceAll(ReplaceAll(b, "+", "-"), "/", "_"), "=", "")
  }

  function Base64UrlEncode(str: string): Option<string> {
    match Btoa(str)
    case None => None
    case Some(b) => Some(UrlSafe(b))
  }

  lemma UrlSafeAppend(a: string, b: string)
    ensures UrlSafe(a + b) == UrlSafe(a) + UrlSafe(b)
  {
    ReplaceCharAppend(a, b, '+', "-");
    ReplaceCharAppend(ReplaceAll(a, "+", "-"), ReplaceAll(b, "+", "-"), '/', "_");
    ReplaceCharAppend(ReplaceAll(ReplaceAll(a, "+", "-"), "/", "_"),
                      ReplaceAll(ReplaceAll(b, "+", "-"), "/", "_"), '=', "");
  }

  lemma UrlSafeDigit(v: int)
    requires 0 <= v < 64
    ensures UrlSafe([StdDigit(v)]) == [UrlDigit(v)]
  {
    var c := StdDigit(v);
    assert [c][1..] == "";
    var c1 := if c == '+' then '-' else c;
    assert ReplaceAll([c], "+", "-") == [c1];
    var c2 := if c1 == '/' then '_' else c1;
    assert [c1][1..] == "";
    assert ReplaceAll([c1], "/", "_") == [c2];
    assert [c2][1..] == "";
    assert c2 != '=';
    assert ReplaceAll([c2], "=", "") == [c2];
  }

  lemma UrlSafePadding(n: nat)
    ensures UrlSafe(Padding(n)) == ""
  {
    assert "="[1..] == "";
    assert "=="[1..] == "=";
  }

  lemma {:induction false} UrlSafeChars(x: seq<int>)
    requires Sextets(x)
    ensures UrlSafe(StdChars(x)) == UrlChars(x)
    decreases |x|
  {
    if |x| > 0 {
      UrlSafeAppend([StdDigit(x[0])], StdChars(x[1..]));
      UrlSafeDigit(x[0]);
      UrlSafeChars(x[1..]);
    }
  }

  /** base64UrlEncode is `btoa` followed by the section 5 alphabet and no
      padding: it equals unpadded base64url, and it fails exactly where
      `btoa` throws. */
  lemma EncodeIsBase64Url(s: string)
    ensures Base64UrlEncode(s).Some? <==> Latin1(s)
    ensures Latin1(s) ==> Base64UrlEncode(s) == Some(Base64Url(s))
  {
    if Latin1(s) {
      var x := Split6(Octets(s));
      assert Btoa(s) == Some(StdChars(x) + Padding(|s|));
      UrlSafeAppend(StdChars(x), Padding(|s|));
      UrlSafeChars(x);
      UrlSafePadding(|s|);
      assert UrlChars(x) + "" == UrlChars(x);
    }
  }

  /** Its output uses only letters, digits, `-` and `_`: no `+`, `/`, `=`
      or `.`, and it is about four characters for every three. */
  lemma Base64UrlAlphabet(s: string)
    requires Latin1(s)
    ensures forall i :: 0 <= i < |Base64Url(s)| ==> UrlChar(Base64Url(s)[i])
    ensures '+' !in Base64Url(s) && '/' !in Base64Url(s) && '=' !in Base64Url(s) && '.' !in Base64Url(s)
    ensures |Base64Url(s)| == (4 * |s| + 2) / 3
  {
  }

  lemma {:induction false} UrlValuesChars(x: seq<int>)
    requires Sextets(x)
    ensures UrlValues(UrlChars(x)) == Some(x)
    decreases |x|
  {
    if |x| > 0 {
      var s := UrlChars(x);
      assert s[0] == UrlDigit(x[0]) && s[1..] == UrlChars(x[1..]);
      UrlDigitValue(x[0]);
      UrlValuesChars(x[1..]);
      assert x == [x[0]] + x[1..];
    }
  }

  lemma UrlDigitValue(v: int)
    requires 0 <= v < 64
    ensures UrlValue(UrlDigit(v)) == Some(v)
  {
  }

  /** Decoding a group's sextets gives the group back. */
  lemma DecodeEncode(g: seq<int>)
    requires Bytes(g) && 1 <= |g| <= 3
    ensures Decode(Encode(g)) == g
  {
    var b0 := g[0];
    if |g| == 1 {
      assert (b0 / 4) * 4 + (b0 % 4 * 16) / 16 == b0;
    } else if |g| == 2 {
      var b1 := g[1];
      assert (b0 / 4) * 4 + (b0 % 4 * 16 + b1 / 16) / 16 == b0;
      assert (b0 % 4 * 16 + b1 / 16) % 16 * 16 + (b1 % 16 * 4) / 4 == b1;
    } else {
      var b1, b2 := g[1], g[2];
      assert (b0 / 4) * 4 + (b0 % 4 * 16 + b1 / 16) / 16 == b0;
      assert (b0 % 4 * 16 + b1 / 16) % 16 * 16 + (b1 % 16 * 4 + b2 / 64) / 4 == b1;
      assert (b1 % 16 * 4 + b2 / 64) % 4 * 64 + b2 % 64 == b2;
    }
  }

  lemma {:induction false} Join6Split6(b: seq<int>)
    requires Bytes(b)
    ensures Join6(Split6(b)) == Some(b)
    decreases |b|
  {
    if 1 <= |b| <= 2 {
      DecodeEncode(b);
    } else if |b| > 2 {
      var x := Split6(b);
      var e := Encode(b[..3]);
      assert x == e + Split6(b[3..]);
      assert x[..4] == e && x[4..] == Split6(b[3..]);
      DecodeEncode(b[..3]);
      if |b| == 3 {
        assert x == e;
        assert b == b[..3];
      } else {
        Join6Split6(b[3..]);
        assert b == b[..3] + b[3..];
      }
    }
  }

  lemma CharsOctets(s: string)
    requires Latin1(s)
    ensures Chars(Octets(s)) == s
  {
  }

  /** Decoding the encoding gives the string back, so an encoded segment
      determines the text it carries. */
  lemma Base64UrlRoundTrip(s: string)
    requires Latin1(s)
    ensures Base64UrlDecode(Base64Url(s)) == Some(s)
  {
    UrlValuesChars(Split6(Octets(s)));
    Join6Split6(Octets(s));
    CharsOctets(s);
  }

  // ---------------------------------------------------------------------
  // The mock JWT

  datatype TfaMethod = Totp | WebAuthn | NullMethod

  /** MockJWTPayloadOptions: the email and the optional claims. */
  datatype MockJwtOptions = MockJwtOptions(
    email: string, tid: Option<string>, trol: Option<string>,
    tfaPending: Option<bool>, tfaVerified: Option<bool>, tfaMethod: Option<TfaMethod>)

  datatype MockJwtPayload = MockJwtPayload(
    sub: string, email: string, tid: Option<string>, trol: Option<string>,
    iat: int, exp: int,
    tfaPending: Option<bool>, tfaVerified: Option<bool>, tfaMethod: Option<TfaMethod>)

  const HeaderJson: string := "{\"alg\":\"none\",\"typ\":\"JWT\"}"
  /** One hour, in seconds. */
  const TokenLifetime := 3600

  /** `usr_` followed by the email text before the first `@`. */
  function UserId(email: string): (id: string)
    ensures id == "usr_" + Split(email, '@')[0]
    ensures '@' !in id[4..] && id[4..] <= email
  {
    SplitFirst(email, '@');
    "usr_" + Split(email, '@')[0]
  }

  /** The payload: every option field, then `sub`, `iat` (the clock in
      whole seconds) and `exp` one hour later. */
  function MockPayload(options: MockJwtOptions, nowMs: nat): (p: MockJwtPayload)
    ensures p.sub == UserId(options.email) && p.email == options.email
    ensures p.tid == options.tid && p.trol == options.trol
    ensures p.tfaPending == options.tfaPending && p.tfaVerified == options.tfaVerified
    ensures p.tfaMethod == options.tfaMethod
    ensures p.iat * 1000 <= nowMs < p.iat * 1000 + 1000
    ensures p.exp - p.iat == TokenLifetime
  {
    var now := nowMs / 1000;
    MockJwtPayload(UserId(options.email), options.email, options.tid, options.trol,
                   now, now + TokenLifetime, options.tfaPending, options.tfaVerified, options.tfaMethod)
  }

  function Base36Digit(d: nat): char
    requires d < 36
  {
    if d < 10 then (48 + d) as char else (97 + d - 10) as char
  }

  function Base36Value(c: char): nat {
    if '0' <= c <= '9' then c as int - 48
    else if 'a' <= c <= 'z' then c as int - 97 + 10
    else 0
  }

  /** `n.toString(36)` for a whole number. */
  function ToBase36(n: nat): (r: string)
    ensures |r| > 0 && forall i :: 0 <= i < |r| ==> r[i] as int < 128
  {
    if n < 36 then [Base36Digit(n)] else ToBase36(n / 36) + [Base36Digit(n % 36)]
  }

  function FromBase36(s: string): nat {
    if |s| == 0 then 0 else FromBase36(s[..|s| - 1]) * 36 + Base36Value(s[|s| - 1])
  }

  /** The digits read back give the number. */
  lemma {:induction false} Base36RoundTrip(n: nat)
    ensures FromBase36(ToBase36(n)) == n
  {
    if n >= 36 {
      Base36RoundTrip(n / 36);
      var r := ToBase36(n);
      assert r[..|r| - 1] == ToBase36(n / 36);
    }
  }

  /** generateMockJWT: header, payload and signature segments joined by
      dots. `stringify` stands for `JSON.stringify` of the payload,
      `randomText` for `Math.random().toString(36)`, and nowMs and
      signatureMs for the two `Date.now()` readings. A segment that `btoa`
      rejects makes the call throw, modelled as None. */
  function GenerateMockJwt(options: MockJwtOptions, nowMs: nat, signatureMs: nat, randomText: string,
                           stringify: MockJwtPayload -> string): Option<string>
  {
    var payload := MockPayload(options, nowMs);
    match (Base64UrlEncode(HeaderJson), Base64UrlEncode(stringify(payload)),
           Base64UrlEncode(randomText + ToBase36(signatureMs)))
    case (Some(h), Some(p), Some(s)) => Some(h + "." + p + "." + s)
    case _ => None
  }

  lemma HeaderLatin1()
    ensures Latin1(HeaderJson)
  {
  }

  lemma {:induction false} Latin1Append(a: string, b: string)
    requires Latin1(a) && Latin1(b)
    ensures Latin1(a + b)
  {
    assert forall i :: 0 <= i < |a + b| ==> (a + b)[i] == if i < |a| then a[i] else b[i - |a|];
  }

  lemma JoinThree(h: string, p: string, s: string)
    ensures JoinWith([h, p, s], ".") == h + "." + p + "." + s
  {
    assert [h, p, s][1..] == [p, s];
    assert [p, s][1..] == [s];
    assert JoinWith([p, s], ".") == p + "." + s;
    assert h + "." + (p + "." + s) == h + "." + p + "." + s;
  }

  /** Three dot-free segments joined by dots split back into themselves. */
  lemma TokenSplit(h: string, p: string, s: string)
    requires '.' !in h && '.' !in p && '.' !in s
    ensures Split(h + "." + p + "." + s, '.') == [h, p, s]
  {
    JoinThree(h, p, s);
    JoinSplitRoundTrip([h, p, s], '.');
  }

  /** The clock digits are ASCII, so the signature text passes `btoa`
      exactly when the random text does. */
  lemma SignatureLatin1(randomText: string, ms: nat)
    ensures Latin1(randomText + ToBase36(ms)) <==> Latin1(randomText)
  {
    var sig := randomText + ToBase36(ms);
    if Latin1(randomText) {
      Latin1Append(randomText, ToBase36(ms));
    } else {
      var i :| 0 <= i < |randomText| && randomText[i] as int >= 256;
      assert sig[i] == randomText[i];
    }
  }

  /** The token is the three unpadded base64url segments, or nothing when
      the payload or the random text is outside Latin-1. */
  lemma GeneratedToken(options: MockJwtOptions, nowMs: nat, signatureMs: nat, randomText: string,
                       stringify: MockJwtPayload -> string)
    ensures var json := stringify(MockPayload(options, nowMs));
            var sig := randomText + ToBase36(signatureMs);
            GenerateMockJwt(options, nowMs, signatureMs, randomText, stringify) ==
              if Latin1(json) && Latin1(randomText) then
                Some(Base64Url(HeaderJson) + "." + Base64Url(json) + "." + Base64Url(sig))
              else None
  {
    var json := stringify(MockPayload(options, nowMs));
    var sig := randomText + ToBase36(signatureMs);
    HeaderLatin1();
    EncodeIsBase64Url(HeaderJson);
    EncodeIsBase64Url(json);
    EncodeIsBase64Url(sig);
    SignatureLatin1(randomText, signatureMs);
  }

  /** The token has exactly three dot-separated segments: the first
      decodes to `{"alg":"none","typ":"JWT"}`, the second to the
      stringified payload, and the third is not empty, so despite `alg`
      being `none` the token is not an Unsecured JWT (section 6 of RFC
      7519). It is produced exactly when the payload and the random text
      pass `btoa`. */
  lemma MockJwtShape(options: MockJwtOptions, nowMs: nat, signatureMs: nat, randomText: string,
                     stringify: MockJwtPayload -> string)
    ensures GenerateMockJwt(options, nowMs, signatureMs, randomText, stringify).Some? <==>
              Latin1(stringify(MockPayload(options, nowMs))) && Latin1(randomText)
    ensures GenerateMockJwt(options, nowMs, signatureMs, randomText, stringify).Some? ==>
              var parts := Split(GenerateMockJwt(options, nowMs, signatureMs, randomText, stringify).value, '.');
              |parts| == 3 &&
              Base64UrlDecode(parts[0]) == Some(HeaderJson) &&
              Base64UrlDecode(parts[1]) == Some(stringify(MockPayload(options, nowMs))) &&
              parts[2] != ""
  {
    GeneratedToken(options, nowMs, signatureMs, randomText, stringify);
    var json := stringify(MockPayload(options, nowMs));
    var sig := randomText + ToBase36(signatureMs);
    if Latin1(json) && Latin1(randomText) {
      HeaderLatin1();
      SignatureLatin1(randomText, signatureMs);
      Base64UrlAlphabet(HeaderJson);
      Base64UrlAlphabet(json);
      Base64UrlAlphabet(sig);
      TokenSplit(Base64Url(HeaderJson), Base64Url(json), Base64Url(sig));
      Base64UrlRoundTrip(HeaderJson);
      Base64UrlRoundTrip(json);
    }
  }

  // ---------------------------------------------------------------------
  // createHttpError

  /** An Error with the message and a `response` of status and body. */
  function CreateHttpError(status: int, message: string, errors: Option<map<string, seq<string>>>): (e: QueryUtils.ErrorValue)
    ensures e.ErrorObject? && e.message == message
    ensures QueryUtils.StatusOf(e) == Some(status)
    ensures e.response.value.data == Some(QueryUtils.ErrorData(message, errors))
  {
    QueryUtils.ErrorObject(message, Some(QueryUtils.ErrorResponse(Some(status), Some(QueryUtils.ErrorData(message, errors)))))
  }

  /** What the retry rules make of a mock error: an authentication error
      exactly for 401 and 403, a client error exactly for 400 to 499, in
      both spellings of the predicates. */
  lemma HttpErrorClassified(status: int, message: string, errors: Option<map<string, seq<string>>>)
    ensures QueryUtils.IsAuthError(CreateHttpError(status, message, errors)) == Some(status == 401 || status == 403)
    ensures QueryUtils.IsClientError(CreateHttpError(status, message, errors)) == Some(400 <= status < 500)
    ensures QueryUtils.AuthIsAuthError(CreateHttpError(status, message, errors)) <==> status == 401 || status == 403
    ensures QueryUtils.AuthIsClientError(CreateHttpError(status, message, errors)) <==> 400 <= status < 500
  {
  }
}
