/**
 * The compact-token library the repository delegates to, seen from outside.
 *
 * Signing (HMAC, section 3.2 of RFC 7518), JSON and base64url serialisation
 * (section 7.1 of RFC 7515) are not modelled. A codec is a pair of functions
 * passed in as a value. The parser is given the instant at which it runs,
 * because it checks the expiry claim itself. The one property the repository
 * relies on, that parsing with the signing key gives back the claims that
 * were signed, is the predicate RoundTrips, taken as a hypothesis by the
 * lemmas that need it.
 */
module JwtCodec {

  type Key = string
  type Token = string

  /** Times are java.util.Date values: milliseconds since the epoch. */
  type Millis = nat

  /** What the library's parser rejects a token for; which of these a given token draws is the library's business. */
  datatype JwtRejection =
    | Malformed          // not three base64url parts of JSON
    | SignatureMismatch  // the signature does not verify under the key
    | Expired            // the library's own expiry check
    | Premature          // a not-before claim still in the future
    | Unsupported        // an unsigned or otherwise unexpected token

  /** The exceptions that reach a caller of the token utility. */
  datatype Failure =
    | JwtException(rejection: JwtRejection)
    | IllegalArgumentException  // an empty token, refused before any parsing
    | NullPointerException

  datatype Result<+T> = Ok(value: T) | Err(error: Failure)

  datatype Option<+T> = None | Some(value: T)

  /** The HMAC algorithms of section 3.2 of RFC 7518. */
  datatype SignatureAlgorithm = HS256 | HS384 | HS512

  /**
   * A claims set. The registered claims `sub`, `iat` and `exp`
   * (sections 4.1.2, 4.1.6 and 4.1.4 of RFC 7519) may be absent, as the
   * library's getters then return null; every other claim sits in `extra`.
   */
  datatype Claims = Claims(
    sub: Option<string>,
    iat: Option<Millis>,
    exp: Option<Millis>,
    extra: map<string, string>)

  const Registered: set<string> := {"sub", "iat", "exp"}

  /**
   * A claims set that is one JSON object: no extra claim repeats a registered
   * name, and none is the not-before claim (section 4.1.5 of RFC 7519), which
   * the parser checks against the clock as it does the expiry.
   */
  predicate WellFormed(cl: Claims)
  {
    cl.extra.Keys !! (Registered + {"nbf"})
  }

  /** The names of the claims a token's payload carries. */
  function ClaimNames(cl: Claims): (names: set<string>)
    ensures names >= cl.extra.Keys
    ensures "sub" in names <==> cl.sub.Some? || "sub" in cl.extra
  {
    cl.extra.Keys
      + (if cl.sub.Some? then {"sub"} else {})
      + (if cl.iat.Some? then {"iat"} else {})
      + (if cl.exp.Some? then {"exp"} else {})
  }

  /**
   * A NumericDate (section 2 of RFC 7519) counts whole seconds, so a date
   * written into a token and read back loses its milliseconds.
   */
  function NumericDate(t: Millis): (r: Millis)
    ensures r <= t < r + 1000
    ensures r % 1000 == 0
  {
    (t / 1000) * 1000
  }

  /** Cutting to whole seconds keeps the order of dates. */
  lemma NumericDateMonotone(s: Millis, t: Millis)
    requires s <= t
    ensures NumericDate(s) <= NumericDate(t)
  {
    assert s / 1000 <= t / 1000;
  }

  function NumericDateOpt(t: Option<Millis>): (r: Option<Millis>)
    ensures r.Some? <==> t.Some?
    ensures t.Some? ==> r.value <= t.value < r.value + 1000 && r.value % 1000 == 0
  {
    match t
    case None => None
    case Some(v) => Some(NumericDate(v))
  }

  /** The claims as a parser sees them once they have been through a token. */
  function Serialised(cl: Claims): (r: Claims)
    ensures r.sub == cl.sub && r.extra == cl.extra
    ensures r.iat.Some? <==> cl.iat.Some?
    ensures r.exp.Some? <==> cl.exp.Some?
    ensures cl.iat.Some? ==> r.iat.value % 1000 == 0 && r.iat.value <= cl.iat.value < r.iat.value + 1000
    ensures cl.exp.Some? ==> r.exp.value % 1000 == 0 && r.exp.value <= cl.exp.value < r.exp.value + 1000
  {
    cl.(iat := NumericDateOpt(cl.iat), exp := NumericDateOpt(cl.exp))
  }

  /** Whether claims with this expiry are still current at `now`: no expiry, or not after it. */
  predicate NotExpiredAt(cl: Claims, now: Millis)
  {
    cl.exp.None? || now <= cl.exp.value
  }

  /** The library: a signer producing compact tokens and a verifying parser that reads the clock. */
  datatype Codec = Codec(
    sign: (SignatureAlgorithm, Key, Claims) -> Token,
    parse: (Key, Token, Millis) -> Result<Claims>)

  /**
   * What parsing a signed token at `now` may give: when it succeeds, the
   * signed claims with dates in whole seconds; and it does succeed as long as
   * those claims are not yet expired.
   */
  predicate ParsesBack(r: Result<Claims>, cl: Claims, now: Millis)
  {
    && (r.Ok? ==> r.value == Serialised(cl))
    && (NotExpiredAt(Serialised(cl), now) ==> r.Ok?)
  }

  /**
   * The library's promise: a token signed with an HMAC algorithm and a key
   * from a well-formed claims set parses under the same key as ParsesBack
   * says. Once the claims have expired, the parse may fail or succeed;
   * nothing is assumed about any other token.
   */
  ghost predicate RoundTrips(c: Codec) {
    forall alg, k, cl, now | WellFormed(cl) :: ParsesBack(c.parse(k, c.sign(alg, k, cl), now), cl, now)
  }

  /**
   * Under the round trip, two tokens signed with one key from well-formed
   * claims differ whenever the claims they carry differ once serialised.
   */
  lemma SignIsInjective(c: Codec, alg: SignatureAlgorithm, k: Key, a: Claims, b: Claims)
    requires RoundTrips(c)
    requires WellFormed(a) && WellFormed(b)
    requires Serialised(a) != Serialised(b)
    ensures c.sign(alg, k, a) != c.sign(alg, k, b)
  {
    assert ParsesBack(c.parse(k, c.sign(alg, k, a), 0), a, 0);
    assert ParsesBack(c.parse(k, c.sign(alg, k, b), 0), b, 0);
  }
}
