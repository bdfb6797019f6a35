/**
 * The repository's token utility: it builds the claims for a user, signs them
 * into a compact token, reads the subject and the expiry back, and decides
 * whether a token is currently good for a user.
 *
 * Every operation takes the library codec as a parameter, and the operations
 * that read the system clock take the instants they would read as parameters
 * (milliseconds since the epoch). The operations that read a token take the
 * instant `now` at which they run: the library's parser checks the expiry
 * against it, and isTokenExpired compares the expiry with it.
 */
module JwtUtil {

  import opened JwtCodec
  import opened UserDetailsService

  /** The key used both to sign and to verify; the field is never reassigned. */
  const SecretKey: Key := "secret"

  /** Ten hours, in milliseconds; computed in 32-bit arithmetic, which it fits. */
  const ValidityMillis: nat := 1000 * 60 * 60 * 10

  // ---------------------------------------------------------------------------
  // Issuing tokens
  // ---------------------------------------------------------------------------

  /**
   * The claims of a new token: the given extra claims, with the subject, the
   * issue time (first clock read) and the expiry (second clock read plus ten
   * hours) set over them; a registered name in `extra` is overwritten, so
   * the claims are one JSON object unless `extra` names a not-before claim.
   */
  function BuildClaims(extra: map<string, string>, subject: string, issuedAt: Millis, expiryBase: Millis): (cl: Claims)
    ensures ClaimNames(cl) == extra.Keys + Registered
    ensures forall name :: name in cl.extra ==> name !in Registered && cl.extra[name] == extra[name]
    ensures cl.sub == Some(subject) && cl.iat == Some(issuedAt) && cl.exp == Some(expiryBase + ValidityMillis)
    ensures issuedAt <= expiryBase ==> cl.iat.value + ValidityMillis <= cl.exp.value
    ensures WellFormed(cl) <==> "nbf" !in extra
  {
    Claims(Some(subject), Some(issuedAt), Some(expiryBase + ValidityMillis), extra - Registered)
  }

  /**
   * Signs the built claims with HS256 under the secret key; under the
   * library's round trip, parsing the token at any time gives those claims
   * back or fails, and it does not fail before their expiry. The only caller
   * passes an empty map, so no extra not-before claim reaches the parser.
   */
  function CreateToken(codec: Codec, extra: map<string, string>, subject: string, issuedAt: Millis, expiryBase: Millis): (token: Token)
    requires "nbf" !in extra
    ensures RoundTrips(codec) ==> forall now ::
      ParsesBack(ExtractAllClaims(codec, token, now), BuildClaims(extra, subject, issuedAt, expiryBase), now)
  {
    codec.sign(HS256, SecretKey, BuildClaims(extra, subject, issuedAt, expiryBase))
  }

  /**
   * The claims generateToken builds for a user: exactly the three registered
   * claims, with the user's name as subject, the first clock read as issue
   * time and ten hours after the second clock read as expiry.
   */
  function GeneratedClaims(user: UserDetails, issuedAt: Millis, expiryBase: Millis): (cl: Claims)
    ensures ClaimNames(cl) == Registered && cl.extra == map[] && WellFormed(cl)
    ensures cl.sub == Some(user.username) && cl.iat == Some(issuedAt)
    ensures cl.exp == Some(expiryBase + ValidityMillis)
  {
    BuildClaims(map[], user.username, issuedAt, expiryBase)
  }

  /**
   * A token for the user, from an empty claims map and the user's name as
   * subject; it parses back under the secret key to the generated claims.
   */
  function GenerateToken(codec: Codec, user: UserDetails, issuedAt: Millis, expiryBase: Millis): (token: Token)
    ensures token == codec.sign(HS256, SecretKey, GeneratedClaims(user, issuedAt, expiryBase))
    ensures RoundTrips(codec) ==> forall now ::
      ParsesBack(ExtractAllClaims(codec, token, now), GeneratedClaims(user, issuedAt, expiryBase), now)
  {
    CreateToken(codec, map[], user.username, issuedAt, expiryBase)
  }

  // ---------------------------------------------------------------------------
  // Reading tokens
  // ---------------------------------------------------------------------------

  /**
   * Parses and verifies the token at `now` under the secret key, the key
   * tokens are signed with; so a token signed under it from well-formed
   * claims gives back those claims when the parse succeeds, and the parse
   * succeeds until they expire.
   */
  function ExtractAllClaims(codec: Codec, token: Token, now: Millis): (r: Result<Claims>)
    ensures RoundTrips(codec) ==>
      forall alg, cl | WellFormed(cl) :: token == codec.sign(alg, SecretKey, cl) ==> ParsesBack(r, cl, now)
  {
    codec.parse(SecretKey, token, now)
  }

  /**
   * Applies the resolver to claims freshly parsed from the token; a parse
   * failure is passed on unchanged, and nothing is cached between calls.
   */
  function ExtractClaim<T>(codec: Codec, token: Token, resolver: Claims -> T, now: Millis): (r: Result<T>)
    ensures r.Err? <==> ExtractAllClaims(codec, token, now).Err?
    ensures r.Err? ==> r.error == ExtractAllClaims(codec, token, now).error
    ensures r.Ok? ==> r.value == resolver(ExtractAllClaims(codec, token, now).value)
  {
    match ExtractAllClaims(codec, token, now)
    case Err(e) => Err(e)
    case Ok(cl) => Ok(resolver(cl))
  }

  /** The subject claim; `None` stands for the null the getter returns when it is absent. */
  function ExtractUsername(codec: Codec, token: Token, now: Millis): (r: Result<Option<string>>)
    ensures r.Err? <==> ExtractAllClaims(codec, token, now).Err?
    ensures r.Ok? ==> r.value == ExtractAllClaims(codec, token, now).value.sub
  {
    ExtractClaim(codec, token, (cl: Claims) => cl.sub, now)
  }

  /** The expiry claim; `None` stands for the null the getter returns when it is absent. */
  function ExtractExpiration(codec: Codec, token: Token, now: Millis): (r: Result<Option<Millis>>)
    ensures r.Err? <==> ExtractAllClaims(codec, token, now).Err?
    ensures r.Ok? ==> r.value == ExtractAllClaims(codec, token, now).value.exp
  {
    ExtractClaim(codec, token, (cl: Claims) => cl.exp, now)
  }

  // ---------------------------------------------------------------------------
  // Checking tokens
  // ---------------------------------------------------------------------------

  /**
   * Whether the expiry lies strictly before `now`. A missing expiry is
   * dereferenced as null and throws.
   */
  function IsTokenExpired(codec: Codec, token: Token, now: Millis): (r: Result<bool>)
    ensures r.Ok? <==> ExtractAllClaims(codec, token, now).Ok? && ExtractAllClaims(codec, token, now).value.exp.Some?
    ensures r.Ok? ==> (r.value <==> ExtractAllClaims(codec, token, now).value.exp.value < now)
    ensures ExtractAllClaims(codec, token, now).Err? ==> r == Err(ExtractAllClaims(codec, token, now).error)
  {
    match ExtractExpiration(codec, token, now)
    case Err(e) => Err(e)
    case Ok(None) => Err(NullPointerException)
    case Ok(Some(exp)) => Ok(exp < now)
  }

  /**
   * The reference for validation, on one set of claims: the subject is the
   * user's name and the expiry is present and not before `now`.
   */
  predicate Accepts(cl: Claims, user: UserDetails, now: Millis)
  {
    cl.sub == Some(user.username) && cl.exp.Some? && now <= cl.exp.value
  }

  /**
   * Whether the token is good for the user at `now`. The subject is compared
   * first; only when it matches is the token parsed again for its expiry.
   * Both parses and the expiry comparison happen at the one instant `now`.
   */
  function ValidateToken(codec: Codec, token: Token, user: UserDetails, now: Millis): (r: Result<bool>)
    ensures r == Ok(true) <==> ExtractAllClaims(codec, token, now).Ok? && Accepts(ExtractAllClaims(codec, token, now).value, user, now)
    ensures ExtractAllClaims(codec, token, now).Err? ==> r == Err(ExtractAllClaims(codec, token, now).error)
  {
    match ExtractUsername(codec, token, now)
    case Err(e) => Err(e)
    case Ok(None) => Err(NullPointerException)
    case Ok(Some(username)) =>
      if username != user.username then Ok(false)
      else
        match IsTokenExpired(codec, token, now)
        case Err(e) => Err(e)
        case Ok(expired) => Ok(!expired)
  }
}
