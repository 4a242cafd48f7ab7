/** The claim set of the signed assertion used for the service-account
    token request: issuer, scope, audience, issue time and expiry, the
    registered claims of section 4.1 of RFC 7519 plus the OAuth scope. */
module Claims {

  /** The fields of the service-account key file the program reads. */
  datatype ServiceAccountKey = ServiceAccountKey(privateKey: string, clientEmail: string, tokenUri: string)

  /** The claims of the assertion; times are seconds since the Unix epoch. */
  datatype Claims = Claims(iss: string, scope: string, aud: string, exp: nat, iat: nat)

  /** Read-only access to spreadsheets, the only scope requested. */
  const SpreadsheetsReadonly: string := "https://www.googleapis.com/auth/spreadsheets.readonly"

  /** Seconds between issue and expiry: one hour. */
  const Lifetime: nat := 3600

  /** The claims for key `sa` issued at `iat` (the clock reading). */
  function BuildClaims(sa: ServiceAccountKey, iat: nat): (c: Claims)
    ensures c.iss == sa.clientEmail && c.aud == sa.tokenUri
    ensures c.scope == SpreadsheetsReadonly
    ensures c.iat == iat && c.exp - c.iat == Lifetime
  {
    Claims(sa.clientEmail, SpreadsheetsReadonly, sa.tokenUri, iat + Lifetime, iat)
  }

  /** The assertion is usable at time `now` when it has not yet expired
      (section 4.1.4 of RFC 7519) and, as this model assumes, was issued no
      later than `now`. */
  predicate AcceptableAt(c: Claims, now: nat)
  {
    c.iat <= now < c.exp
  }

  /** Claims that name `sa` as issuer and its token endpoint as audience,
      ask for the read-only scope and live exactly one hour. */
  predicate ForKey(c: Claims, sa: ServiceAccountKey)
  {
    c.iss == sa.clientEmail && c.aud == sa.tokenUri &&
    c.scope == SpreadsheetsReadonly && c.exp == c.iat + Lifetime
  }

  /** Built claims are usable for exactly the hour after their issue time. */
  lemma AcceptableForOneHour(sa: ServiceAccountKey, iat: nat, now: nat)
    ensures AcceptableAt(BuildClaims(sa, iat), now) <==> iat <= now < iat + 3600
  {
  }

  /** Building is the only way to get claims for a key: any claims for
      `sa` are the ones built at their own issue time, and built claims are
      for `sa`. */
  lemma BuildClaimsUnique(sa: ServiceAccountKey, c: Claims)
    ensures ForKey(c, sa) <==> c == BuildClaims(sa, c.iat)
  {
  }
}
