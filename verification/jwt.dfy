/**
 * The JSON Web Tokens (RFC 7519) the handlers issue and check. Parsing and HS256 signing
 * (section 3.2 of RFC 7518) are an oracle: a handler is given what parsing its token
 * produced, and the token it issues is represented by the claims it carries.
 */
module Jwt {
  import opened Records
  import opened Strconv

  /** The registered claims used: iss, sub, iat and exp (sections 4.1.1, 4.1.2, 4.1.6, 4.1.4 of RFC 7519). */
  datatype Claims = Claims(issuer: string, subject: string, issuedAt: Option<int>, expiresAt: Option<int>)

  /**
   * What jwt.ParseWithClaims gives for a token string: an error, or the claims together with
   * whether the token's method is an HMAC one and whether it checked out as valid.
   */
  datatype Parse = Malformed | Parsed(claims: Claims, hmac: bool, valid: bool)

  /** The server configuration the handlers read. */
  datatype Config = Config(jwtSecret: string, apiKey: string)

  const AccessIssuer := "chirpy-access"
  const RefreshIssuer := "chirpy-refresh"
  /** One hour, in seconds. */
  const AccessLifetime := 3600
  /** Sixty days, in seconds. */
  const RefreshLifetime := 60 * 24 * 3600

  /** strings.TrimPrefix: `s` without a leading `prefix`, or `s` itself when it does not start with it. */
  function TrimPrefix(s: string, prefix: string): (r: string)
    ensures |s| >= |prefix| && s[..|prefix|] == prefix ==> s == prefix + r
    ensures !(|s| >= |prefix| && s[..|prefix|] == prefix) ==> r == s
  {
    if |s| >= |prefix| && s[..|prefix|] == prefix then s[|prefix|..] else s
  }

  /** The token string a handler parses: the Authorization header without a leading "Bearer ". */
  function BearerToken(header: string): string {
    TrimPrefix(header, "Bearer ")
  }

  /** Parsing succeeded with an HMAC method, and the token is valid: the first gate of every token handler. */
  predicate Verified(p: Parse) {
    p.Parsed? && p.hmac && p.valid
  }

  /** There is no expiry, or it lies strictly before `now` (time.Time.Before). */
  predicate Expired(c: Claims, now: int) {
    c.expiresAt.None? || c.expiresAt.value < now
  }

  /** The access token LoginHandler issues at `now` for user `id`. */
  function AccessClaims(id: int, now: int): (c: Claims)
    ensures c.issuer == AccessIssuer && c.subject == Itoa(id)
    ensures c.issuedAt == Some(now)
    ensures !Expired(c, now + AccessLifetime) && Expired(c, now + AccessLifetime + 1)
  {
    Claims(AccessIssuer, Itoa(id), Some(now), Some(now + AccessLifetime))
  }

  /** The refresh token LoginHandler issues at `now` for user `id`. */
  function RefreshClaims(id: int, now: int): (c: Claims)
    ensures c.issuer == RefreshIssuer && c.subject == Itoa(id)
    ensures c.issuedAt == Some(now)
    ensures !Expired(c, now + RefreshLifetime) && Expired(c, now + RefreshLifetime + 1)
  {
    Claims(RefreshIssuer, Itoa(id), Some(now), Some(now + RefreshLifetime))
  }

  /** The token AccessTokenHandler issues at `now`: an expiry one hour on, and nothing else. */
  function RefreshedClaims(now: int): (c: Claims)
    ensures c.issuer == "" && c.subject == "" && c.issuedAt.None?
    ensures !Expired(c, now + AccessLifetime) && Expired(c, now + AccessLifetime + 1)
  {
    Claims("", "", None, Some(now + AccessLifetime))
  }
}
