/**
 * What the token utility guarantees: the shape of the claims it issues, the
 * expiry arithmetic, the strict expiry test, the meaning of validation, the
 * propagation of parse failures, and the issue-then-validate round trip that
 * holds whenever the library's parser inverts its signer.
 *
 * Past a token's expiry the library's parser may itself refuse the token, so
 * what is promised there is that the token is not accepted: validation
 * answers false or fails, and which one is left to the library.
 */
module JwtUtilProperties {

  import opened JwtCodec
  import opened UserDetailsService
  import opened JwtUtil

  // ---------------------------------------------------------------------------
  // Issuing
  // ---------------------------------------------------------------------------

  /**
   * With one clock value the expiry is the issue time plus ten hours; with two
   * reads of a clock that does not go back it is at least that, so the expiry
   * always lies after the issue time.
   */
  lemma ExpiryFollowsIssue(user: UserDetails, issuedAt: Millis, expiryBase: Millis)
    ensures var cl := GeneratedClaims(user, issuedAt, expiryBase);
      && (issuedAt == expiryBase ==> cl.exp.value == cl.iat.value + 36_000_000)
      && (issuedAt <= expiryBase ==> cl.exp.value >= cl.iat.value + 36_000_000 > cl.iat.value)
  {
  }

  // ---------------------------------------------------------------------------
  // Reading back what was issued
  // ---------------------------------------------------------------------------

  /**
   * The subject read back from a generated token is the user's name, and it
   * is read back without fail until the token's whole-second expiry.
   */
  lemma ExtractUsernameOfGenerated(codec: Codec, user: UserDetails, issuedAt: Millis, expiryBase: Millis, now: Millis)
    requires RoundTrips(codec)
    ensures var r := ExtractUsername(codec, GenerateToken(codec, user, issuedAt, expiryBase), now);
      && (r.Ok? ==> r == Ok(Some(user.username)))
      && (now <= NumericDate(expiryBase + ValidityMillis) ==> r.Ok?)
  {
  }

  /**
   * The expiry read back from a generated token is ten hours after the second
   * clock read, cut to whole seconds: less than a second early, never late
   * (the second ensures is that corollary of NumericDate, spelt out at this
   * argument).
   */
  lemma ExtractExpirationOfGenerated(codec: Codec, user: UserDetails, issuedAt: Millis, expiryBase: Millis, now: Millis)
    requires RoundTrips(codec)
    ensures var r := ExtractExpiration(codec, GenerateToken(codec, user, issuedAt, expiryBase), now);
      && (r.Ok? ==> r == Ok(Some(NumericDate(expiryBase + ValidityMillis))))
      && (now <= NumericDate(expiryBase + ValidityMillis) ==> r.Ok?)
    ensures expiryBase + ValidityMillis - 999 <= NumericDate(expiryBase + ValidityMillis) <= expiryBase + ValidityMillis
  {
  }

  /**
   * Under the same key, tokens whose well-formed claims differ once
   * serialised are different strings, and whenever the first parses, the two
   * parse differently.
   */
  lemma DistinctClaimsGiveDistinctTokens(codec: Codec, a: Claims, b: Claims)
    requires RoundTrips(codec)
    requires WellFormed(a) && WellFormed(b)
    requires Serialised(a) != Serialised(b)
    ensures codec.sign(HS256, SecretKey, a) != codec.sign(HS256, SecretKey, b)
    ensures forall now :: ExtractAllClaims(codec, codec.sign(HS256, SecretKey, a), now).Ok? ==>
      ExtractAllClaims(codec, codec.sign(HS256, SecretKey, a), now) != ExtractAllClaims(codec, codec.sign(HS256, SecretKey, b), now)
  {
    SignIsInjective(codec, HS256, SecretKey, a, b);
  }

  // ---------------------------------------------------------------------------
  // The expiry test
  // ---------------------------------------------------------------------------

  /**
   * A token is expired exactly when its expiry lies strictly before the check
   * time; checked at the expiry instant itself it is not expired.
   */
  lemma ExpiredExactlyWhenBefore(codec: Codec, token: Token, cl: Claims, now: Millis)
    requires ExtractAllClaims(codec, token, now) == Ok(cl)
    requires cl.exp.Some?
    ensures IsTokenExpired(codec, token, now) == Ok(cl.exp.value < now)
    ensures now == cl.exp.value ==> IsTokenExpired(codec, token, now) == Ok(false)
  {
  }

  // ---------------------------------------------------------------------------
  // Validation
  // ---------------------------------------------------------------------------

  /**
   * Validation on one parse: what the utility computes with its two parses
   * of the token equals this decision taken on claims parsed once.
   */
  function ValidateClaims(cl: Claims, user: UserDetails, now: Millis): (r: Result<bool>)
    ensures r == Ok(true) <==> Accepts(cl, user, now)
    ensures r.Err? ==> r.error == NullPointerException
  {
    match cl.sub
    case None => Err(NullPointerException)
    case Some(username) =>
      if username != user.username then Ok(false)
      else if cl.exp.None? then Err(NullPointerException)
      else Ok(now <= cl.exp.value)
  }

  lemma ValidateTokenParsesOnce(codec: Codec, token: Token, user: UserDetails, now: Millis)
    ensures ValidateToken(codec, token, user, now)
         == match ExtractAllClaims(codec, token, now)
            case Err(e) => Err(e)
            case Ok(cl) => ValidateClaims(cl, user, now)
  {
  }

  /**
   * On a token that parses with a subject and an expiry, validation answers
   * (without failing) whether the subject is the user's name and the expiry
   * is not before the check time.
   */
  lemma ValidateTokenMeaning(codec: Codec, token: Token, cl: Claims, user: UserDetails, now: Millis)
    requires ExtractAllClaims(codec, token, now) == Ok(cl)
    requires cl.sub.Some? && cl.exp.Some?
    ensures ValidateToken(codec, token, user, now) == Ok(cl.sub.value == user.username && now <= cl.exp.value)
  {
  }

  /**
   * On a token that parses, a subject other than the user's name is refused
   * with false whether or not the token has an expiry, and a matching but
   * expired token is refused with false.
   */
  lemma MismatchOrExpiryRejects(codec: Codec, token: Token, cl: Claims, user: UserDetails, now: Millis)
    requires ExtractAllClaims(codec, token, now) == Ok(cl)
    ensures cl.sub.Some? && cl.sub.value != user.username ==> ValidateToken(codec, token, user, now) == Ok(false)
    ensures cl.sub.Some? && cl.exp.Some? && cl.exp.value < now ==> ValidateToken(codec, token, user, now) == Ok(false)
  {
  }

  /**
   * Validation fails, rather than answering false, exactly when the token does
   * not parse, has no subject, or has the user's name as subject and no expiry.
   */
  lemma ValidateTokenFailsExactly(codec: Codec, token: Token, user: UserDetails, now: Millis)
    ensures ValidateToken(codec, token, user, now).Err?
        <==> || ExtractAllClaims(codec, token, now).Err?
             || ExtractAllClaims(codec, token, now).value.sub.None?
             || (ExtractAllClaims(codec, token, now).value.sub == Some(user.username)
                 && ExtractAllClaims(codec, token, now).value.exp.None?)
  {
  }

  /** A parse failure reaches every caller as the same failure: none of them turns it into an answer. */
  lemma ParseFailurePropagates(codec: Codec, token: Token, user: UserDetails, now: Millis, f: Failure)
    requires ExtractAllClaims(codec, token, now) == Err(f)
    ensures ExtractUsername(codec, token, now) == Err(f)
    ensures ExtractExpiration(codec, token, now) == Err(f)
    ensures IsTokenExpired(codec, token, now) == Err(f)
    ensures ValidateToken(codec, token, user, now) == Err(f)
  {
  }

  // ---------------------------------------------------------------------------
  // Issue, then validate
  // ---------------------------------------------------------------------------

  /**
   * A generated token is accepted for its user exactly up to and including
   * its expiry as read back, that is, ten hours after the second clock read
   * cut to whole seconds; whenever validation answers at all, that is its answer.
   */
  lemma GeneratedTokenValidUntilExpiry(codec: Codec, user: UserDetails, issuedAt: Millis, expiryBase: Millis, now: Millis)
    requires RoundTrips(codec)
    ensures var r := ValidateToken(codec, GenerateToken(codec, user, issuedAt, expiryBase), user, now);
      && (r == Ok(true) <==> now <= NumericDate(expiryBase + ValidityMillis))
      && (r.Ok? ==> r == Ok(now <= NumericDate(expiryBase + ValidityMillis)))
  {
    var token := GenerateToken(codec, user, issuedAt, expiryBase);
    var cl := GeneratedClaims(user, issuedAt, expiryBase);
    assert ParsesBack(ExtractAllClaims(codec, token, now), cl, now);
    if ExtractAllClaims(codec, token, now).Ok? {
      ValidateTokenMeaning(codec, token, Serialised(cl), user, now);
    }
  }

  /**
   * With a clock that does not go back between the two reads, a generated
   * token validates for its user at any time up to ten hours after issue,
   * cut to whole seconds.
   */
  lemma FreshTokenValidates(codec: Codec, user: UserDetails, issuedAt: Millis, expiryBase: Millis, now: Millis)
    requires RoundTrips(codec)
    requires issuedAt <= expiryBase
    requires now <= NumericDate(issuedAt + ValidityMillis)
    ensures ValidateToken(codec, GenerateToken(codec, user, issuedAt, expiryBase), user, now) == Ok(true)
  {
    NumericDateMonotone(issuedAt + ValidityMillis, expiryBase + ValidityMillis);
    GeneratedTokenValidUntilExpiry(codec, user, issuedAt, expiryBase, now);
  }

  /**
   * A generated token is never accepted for a user with a different name,
   * and up to its expiry the answer is false rather than a failure.
   */
  lemma GeneratedTokenRejectsOtherUser(codec: Codec, user: UserDetails, other: UserDetails, issuedAt: Millis, expiryBase: Millis, now: Millis)
    requires RoundTrips(codec)
    requires other.username != user.username
    ensures ValidateToken(codec, GenerateToken(codec, user, issuedAt, expiryBase), other, now) != Ok(true)
    ensures now <= NumericDate(expiryBase + ValidityMillis) ==>
      ValidateToken(codec, GenerateToken(codec, user, issuedAt, expiryBase), other, now) == Ok(false)
  {
  }

  /**
   * Tokens are not single-use: two tokens issued to one user in different
   * seconds are different strings, and both validate at any time inside both
   * windows.
   */
  lemma TwoTokensBothValid(codec: Codec, user: UserDetails, t0: Millis, t1: Millis, s0: Millis, s1: Millis, now: Millis)
    requires RoundTrips(codec)
    requires t0 <= t1 && s0 <= s1
    requires NumericDate(t0) != NumericDate(s0)
    requires now <= NumericDate(t0 + ValidityMillis) && now <= NumericDate(s0 + ValidityMillis)
    ensures GenerateToken(codec, user, t0, t1) != GenerateToken(codec, user, s0, s1)
    ensures ValidateToken(codec, GenerateToken(codec, user, t0, t1), user, now) == Ok(true)
    ensures ValidateToken(codec, GenerateToken(codec, user, s0, s1), user, now) == Ok(true)
  {
    var a, b := GeneratedClaims(user, t0, t1), GeneratedClaims(user, s0, s1);
    assert Serialised(a).iat != Serialised(b).iat;
    DistinctClaimsGiveDistinctTokens(codec, a, b);
    FreshTokenValidates(codec, user, t0, t1, now);
    FreshTokenValidates(codec, user, s0, s1, now);
  }

  /**
   * No token lives for ever: a token signed under the secret key from
   * well-formed claims is, for every user, not accepted at some time; with
   * an expiry, at every time after it, and without one, never.
   */
  lemma EveryTokenExpires(codec: Codec, alg: SignatureAlgorithm, cl: Claims, user: UserDetails)
    requires RoundTrips(codec)
    requires WellFormed(cl)
    ensures exists now: Millis :: ValidateToken(codec, codec.sign(alg, SecretKey, cl), user, now) != Ok(true)
    ensures forall now: Millis :: !NotExpiredAt(Serialised(cl), now) || cl.exp.None? ==>
      ValidateToken(codec, codec.sign(alg, SecretKey, cl), user, now) != Ok(true)
  {
    var token := codec.sign(alg, SecretKey, cl);
    var late := if cl.exp.Some? then cl.exp.value + 1 else 0;
    assert ParsesBack(ExtractAllClaims(codec, token, late), cl, late);
    assert ValidateToken(codec, token, user, late) != Ok(true);
  }

  /**
   * The validity window of a generated token is neither empty nor endless:
   * the token validates for its user at the second clock read, and is not
   * accepted one millisecond after its whole-second expiry.
   */
  lemma GeneratedTokenWindow(codec: Codec, user: UserDetails, issuedAt: Millis, expiryBase: Millis)
    requires RoundTrips(codec)
    ensures exists early: Millis, late: Millis ::
      && early < late
      && ValidateToken(codec, GenerateToken(codec, user, issuedAt, expiryBase), user, early) == Ok(true)
      && ValidateToken(codec, GenerateToken(codec, user, issuedAt, expiryBase), user, late) != Ok(true)
  {
    var deadline := NumericDate(expiryBase + ValidityMillis);
    GeneratedTokenValidUntilExpiry(codec, user, issuedAt, expiryBase, expiryBase);
    GeneratedTokenValidUntilExpiry(codec, user, issuedAt, expiryBase, deadline + 1);
  }

  /**
   * The authenticate endpoint issues a token for whatever user the lookup
   * returns for the requested name. With the stub lookup that is always "foo",
   * whatever name was requested, and the token is accepted against the
   * lookup's answer for its own subject exactly until its expiry.
   */
  lemma AuthenticateThenValidate(codec: Codec, requested: string, issuedAt: Millis, expiryBase: Millis, now: Millis)
    requires RoundTrips(codec)
    ensures var token := GenerateToken(codec, LoadUserByUsername(requested), issuedAt, expiryBase);
      && (ExtractUsername(codec, token, now).Ok? ==> ExtractUsername(codec, token, now) == Ok(Some("foo")))
      && (now <= NumericDate(expiryBase + ValidityMillis) ==> ExtractUsername(codec, token, now) == Ok(Some("foo")))
      && (ValidateToken(codec, token, LoadUserByUsername("foo"), now) == Ok(true)
          <==> now <= NumericDate(expiryBase + ValidityMillis))
  {
    var user := LoadUserByUsername(requested);
    ExtractUsernameOfGenerated(codec, user, issuedAt, expiryBase, now);
    GeneratedTokenValidUntilExpiry(codec, user, issuedAt, expiryBase, now);
  }
}
