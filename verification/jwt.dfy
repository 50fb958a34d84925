/** The part of the JWT library the service uses: HS256 signing of
    `{sub, exp}` claims and `jwt.Parse` with the service's key function. */
module Jwt {

  import opened Results
  import opened Errors

  datatype Alg = HS256 | HS384 | HS512 | RS256 | ES256 | Unsigned

  /** The key function accepts only the HMAC family (`*jwt.SigningMethodHMAC`). */
  predicate IsHmac(alg: Alg)
  {
    alg == HS256 || alg == HS384 || alg == HS512
  }

  /** Subject (the user's email) and expiry (unix seconds). */
  datatype Claims = Claims(sub: string, exp: int)

  /** A bearer token: the exact `text` a client presents, together with what
      that text decodes to. A `Signed` token records the algorithm, the claims
      and the key its signature was made with. `key` stands for the signing
      key up to HMAC's key equivalence: HMAC zero-pads a short key and hashes
      a long one, so distinct byte strings can act as one key. With HMAC taken
      to be unforgeable, a signature verifies under a key exactly when it was
      made with an equivalent key. Text that does not decode to a signed token
      is `Garbled`. Several
      texts may decode to the same signed content: the library encodes one
      canonical text per content but also accepts other spellings of it. */
  datatype Token = Garbled(text: string) | Signed(text: string, alg: Alg, claims: Claims, key: string)

  function AlgName(alg: Alg): string
  {
    match alg
    case HS256 => "HS256"
    case HS384 => "HS384"
    case HS512 => "HS512"
    case RS256 => "RS256"
    case ES256 => "ES256"
    case Unsigned => "none"
  }

  /** Decimal digits of a natural number. */
  function Digits(n: nat): string
  {
    if n < 10 then [('0' as int + n) as char] else Digits(n / 10) + [('0' as int + n % 10) as char]
  }

  function IntText(i: int): string
  {
    if i < 0 then "-" + Digits(-i) else Digits(i)
  }

  /** The canonical `header.payload.signature` text the library produces for
      a signed content. The base64url layer is not modelled, and the signature
      segment is represented by the key that made it. The service relies only
      on this text being a function of the content. */
  function Compact(alg: Alg, claims: Claims, key: string): string
  {
    AlgName(alg) + "." + claims.sub + "." + IntText(claims.exp) + "." + key
  }

  /** `jwt.NewWithClaims(jwt.SigningMethodHS256, {sub, exp}).SignedString(secret)`. */
  function Issue(sub: string, exp: int, secret: string): (t: Token)
    ensures t.Signed? && t.alg == HS256 && t.key == secret && t.claims == Claims(sub, exp)
    ensures t.text == Compact(HS256, Claims(sub, exp), secret)
  {
    var claims := Claims(sub, exp);
    Signed(Compact(HS256, claims, secret), HS256, claims, secret)
  }

  /** `jwt.Parse` with the key function of the logout path: the token must be
      well formed, HMAC-signed with the service secret and not yet expired
      (the library accepts the expiry second itself). */
  function Parse(t: Token, secret: string, now: int): (r: Result<Claims, JwtError>)
    ensures r.Success? <==> t.Signed? && IsHmac(t.alg) && t.key == secret && now <= t.claims.exp
    ensures r.Success? ==> r.value == t.claims
  {
    match t
    case Garbled(_) => Failure(Malformed)
    case Signed(_, alg, claims, key) =>
      if !IsHmac(alg) then Failure(UnexpectedSigningMethod)
      else if key != secret then Failure(SignatureInvalid)
      else if now > claims.exp then Failure(Expired)
      else Success(claims)
  }

  /** Round trip: a token the service issued parses back to its claims until
      its expiry, and as expired afterwards. */
  lemma ParseIssued(sub: string, exp: int, secret: string, now: int)
    ensures Parse(Issue(sub, exp, secret), secret, now)
         == if now <= exp then Success(Claims(sub, exp)) else Failure(Expired)
  {
  }

  /** A token signed with any key not equivalent to the secret is refused,
      whatever its claims. */
  lemma ParseRejectsForeignKey(sub: string, exp: int, key: string, secret: string, now: int)
    requires key != secret
    ensures Parse(Issue(sub, exp, key), secret, now) == Failure(SignatureInvalid)
  {
  }

  /** `Parse` looks only at what a text decodes to: every spelling of one
      signed content gets the same verdict. */
  lemma ParseIgnoresSpelling(t: Token, u: Token, secret: string, now: int)
    requires t.Signed? && u.Signed?
    requires t.alg == u.alg && t.claims == u.claims && t.key == u.key
    ensures Parse(t, secret, now) == Parse(u, secret, now)
  {
  }
}
