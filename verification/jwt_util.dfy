/**
 * The token issuer (JwtUtil). Signing, compact serialisation and parsing belong
 * to the JWT library and are modelled symbolically: a well-formed token carries
 * its claims and the key that signed it, and parsing with a key yields the
 * claims exactly when that key signed them and the token has not expired.
 *
 * Dates in a JWT are NumericDates, whole seconds: the library writes
 * `getTime() / 1000` and reads the value back as that many seconds, so the
 * claims below hold milliseconds truncated to a whole second.
 */
module JwtUtil {
  import opened Wrappers

  /** A symmetric HS256 key; one is generated per process, in the JwtUtil constructor. */
  type Key = nat

  /** The claims of a token as the parser returns them. `subject` is absent when the token was built with a null subject. */
  datatype Claims = Claims(custom: map<string, string>, subject: Option<string>, issuedAt: int, expiration: int)

  /** A bearer token: a signed compact JWS, or any other string a client may present. */
  datatype Token = Jws(claims: Claims, signedWith: Key) | Malformed(text: string)

  /**
   * Why reading a token fails: the library's parser refuses it (malformed, a
   * signature by another key, an expiration already passed), or the caller
   * dereferences a null subject.
   */
  datatype JwtError = MalformedJwt | SignatureMismatch | ExpiredJwt | NullSubject

  /** The component's state, fixed at construction: the key and the two configured lifetimes (ms). */
  datatype Config = Config(secretKey: Key, accessTokenExpiration: int, refreshTokenExpiration: int)

  /**
   * An instant (ms) as a NumericDate stores it: Java's `/ 1000` truncates
   * toward zero, and the seconds are read back as seconds × 1000.
   */
  function WholeSeconds(ms: int): (r: int)
    ensures r % 1000 == 0
    ensures 0 <= ms ==> 0 <= r <= ms < r + 1000
    ensures ms < 0 ==> r - 1000 < ms <= r <= 0
  {
    if 0 <= ms then ms / 1000 * 1000 else -((-ms) / 1000 * 1000)
  }

  /** The library's builder: sign the claims with the key and serialise them. */
  function Sign(key: Key, claims: Claims): Token
  {
    Jws(claims, key)
  }

  /**
   * The library's parser with a verifying key, at instant `now`: the signature
   * is checked first, then the expiration, with no allowed clock skew.
   */
  function ParseClaims(key: Key, token: Token, now: int): (r: Result<Claims, JwtError>)
    ensures r.Success? <==> token.Jws? && token.signedWith == key && now <= token.claims.expiration
    ensures r.Success? ==> token == Sign(key, r.value)
    ensures r == Failure(ExpiredJwt) <==> token.Jws? && token.signedWith == key && token.claims.expiration < now
  {
    match token
    case Malformed(_) => Failure(MalformedJwt)
    case Jws(claims, k) =>
      if k != key then Failure(SignatureMismatch)
      else if token.claims.expiration < now then Failure(ExpiredJwt)
      else Success(claims)
  }

  /**
   * createToken: the given claims and subject, issued now and expiring
   * `expiration` ms later, both truncated to whole seconds. Parsed at any later
   * instant up to that second, the token yields exactly these claims; after it,
   * the parser refuses it as expired.
   */
  function CreateToken(jwt: Config, claims: map<string, string>, subject: Option<string>, expiration: int, now: int): (t: Token)
    ensures forall at :: (ParseClaims(jwt.secretKey, t, at) ==
      if at <= WholeSeconds(now + expiration)
      then Success(Claims(claims, subject, WholeSeconds(now), WholeSeconds(now + expiration)))
      else Failure(ExpiredJwt))
  {
    Sign(jwt.secretKey, Claims(claims, subject, WholeSeconds(now), WholeSeconds(now + expiration)))
  }

  /** generateAccessToken: no custom claims, the access-token lifetime. */
  function GenerateAccessToken(jwt: Config, email: Option<string>, now: int): (t: Token)
    ensures forall at :: (ParseClaims(jwt.secretKey, t, at) ==
      if at <= WholeSeconds(now + jwt.accessTokenExpiration)
      then Success(Claims(map[], email, WholeSeconds(now), WholeSeconds(now + jwt.accessTokenExpiration)))
      else Failure(ExpiredJwt))
  {
    CreateToken(jwt, map[], email, jwt.accessTokenExpiration, now)
  }

  /** generateRefreshToken: no custom claims, the refresh-token lifetime. */
  function GenerateRefreshToken(jwt: Config, email: Option<string>, now: int): (t: Token)
    ensures forall at :: (ParseClaims(jwt.secretKey, t, at) ==
      if at <= WholeSeconds(now + jwt.refreshTokenExpiration)
      then Success(Claims(map[], email, WholeSeconds(now), WholeSeconds(now + jwt.refreshTokenExpiration)))
      else Failure(ExpiredJwt))
  {
    CreateToken(jwt, map[], email, jwt.refreshTokenExpiration, now)
  }

  /** extractEmail: the subject of an unexpired token this process signed (absent if it was built without one). */
  function ExtractEmail(jwt: Config, token: Token, now: int): (r: Result<Option<string>, JwtError>)
    ensures r.Success? <==> token.Jws? && token.signedWith == jwt.secretKey && now <= token.claims.expiration
    ensures r.Success? ==> r.value == token.claims.subject
  {
    match ParseClaims(jwt.secretKey, token, now)
    case Success(claims) => Success(claims.subject)
    case Failure(e) => Failure(e)
  }

  /**
   * isTokenExpired: parse, then compare the expiration with now. The parser
   * already refuses an expired token, so at one instant the answer is never
   * true: an expired token makes the call fail instead.
   */
  function IsTokenExpired(jwt: Config, token: Token, now: int): (r: Result<bool, JwtError>)
    ensures r.Success? <==> token.Jws? && token.signedWith == jwt.secretKey && now <= token.claims.expiration
    ensures r.Success? ==> r == Success(false)
    ensures r == Failure(ExpiredJwt) <==> token.Jws? && token.signedWith == jwt.secretKey && token.claims.expiration < now
  {
    match ParseClaims(jwt.secretKey, token, now)
    case Success(claims) => Success(claims.expiration < now)
    case Failure(e) => Failure(e)
  }

  /**
   * validateToken: the subject equals `email` and the token has not expired.
   * A token without a subject makes `extractedEmail.equals` dereference null;
   * a null `email` is never equal; `&&` skips the expiry check on a mismatch.
   */
  function ValidateToken(jwt: Config, token: Token, email: Option<string>, now: int): (r: Result<bool, JwtError>)
  {
    match ExtractEmail(jwt, token, now)
    case Failure(e) => Failure(e)
    case Success(None) => Failure(NullSubject)
    case Success(Some(extracted)) =>
      if Some(extracted) != email then Success(false)
      else
        match IsTokenExpired(jwt, token, now)
        case Failure(e) => Failure(e)
        case Success(expired) => Success(!expired)
  }

  /**
   * validateToken accepts exactly the unexpired tokens signed by this
   * process's key whose subject is the (non-null) email, and fails, rather
   * than answering false, on every expired one.
   */
  lemma ValidateTokenMeaning(jwt: Config, token: Token, email: Option<string>, now: int)
    ensures ValidateToken(jwt, token, email, now) == Success(true) <==>
      && token.Jws? && token.signedWith == jwt.secretKey
      && email.Some? && token.claims.subject == email
      && now <= token.claims.expiration
    ensures ValidateToken(jwt, token, email, now) == Failure(ExpiredJwt) <==>
      token.Jws? && token.signedWith == jwt.secretKey && token.claims.expiration < now
    ensures email.None? ==> ValidateToken(jwt, token, email, now) != Success(true)
  {
  }

  /** The two generators differ only in the lifetime they put in the expiration claim. */
  lemma GeneratorsDifferOnlyInLifetime(jwt: Config, email: Option<string>, now: int)
    ensures GenerateRefreshToken(jwt, email, now) ==
      GenerateAccessToken(Config(jwt.secretKey, jwt.refreshTokenExpiration, jwt.refreshTokenExpiration), email, now)
    ensures jwt.accessTokenExpiration == jwt.refreshTokenExpiration ==>
      GenerateAccessToken(jwt, email, now) == GenerateRefreshToken(jwt, email, now)
  {
  }

  /**
   * Round trip: the subject read back from an access token is the email it was
   * issued for, at every instant up to its expiration second.
   */
  lemma AccessTokenRoundTrip(jwt: Config, email: Option<string>, now: int, at: int)
    ensures ExtractEmail(jwt, GenerateAccessToken(jwt, email, now), at) ==
      if at <= WholeSeconds(now + jwt.accessTokenExpiration) then Success(email) else Failure(ExpiredJwt)
  {
  }

  /**
   * An access token validates for its email at every instant up to and
   * including its truncated expiration, and fails as expired at every later one.
   */
  lemma AccessTokenLifetime(jwt: Config, email: string, issued: int, at: int)
    ensures var t := GenerateAccessToken(jwt, Some(email), issued);
      ValidateToken(jwt, t, Some(email), at) ==
        if at <= WholeSeconds(issued + jwt.accessTokenExpiration) then Success(true) else Failure(ExpiredJwt)
  {
  }

  /**
   * With a lifetime shorter than a second, a token is refused in the very
   * millisecond it was issued exactly when that instant is not on a whole
   * second and issue + lifetime stays within the same second: the truncated
   * expiration then falls below the issue instant.
   */
  lemma SubSecondLifetimeExpiresAtIssue(jwt: Config, email: string, issued: int)
    requires 0 <= issued && 0 <= jwt.accessTokenExpiration < 1000
    ensures var t := GenerateAccessToken(jwt, Some(email), issued);
      ValidateToken(jwt, t, Some(email), issued) ==
        if issued % 1000 + jwt.accessTokenExpiration < 1000 && issued % 1000 != 0 then Failure(ExpiredJwt)
        else Success(true)
  {
  }

  /** A token signed with any other key (for instance by the process before a restart) is refused. */
  lemma ForeignKeyRefused(jwt: Config, other: Key, claims: Claims, email: Option<string>, now: int)
    requires other != jwt.secretKey
    ensures ExtractEmail(jwt, Sign(other, claims), now) == Failure(SignatureMismatch)
    ensures ValidateToken(jwt, Sign(other, claims), email, now) == Failure(SignatureMismatch)
  {
  }
}
