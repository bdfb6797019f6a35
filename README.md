# Token utility of a Spring Security JWT service, in Dafny

The service exchanges a user's credentials for a signed bearer token (a JSON
Web Token, RFC 7519) and accepts that token on later requests. Its own logic
lives in `JwtUtil`:

- it builds a token's claims: the user's name as subject (`sub`), the current
  time as issue time (`iat`), and ten hours later as expiry (`exp`), over an
  empty map of extra claims;
- it signs them with HS256 under the fixed key `"secret"` into a compact token;
- it parses a token under the same key and reads its subject and expiry back;
- it decides whether a token is valid for a user at a given time: the subject
  must be the user's name and the expiry must not lie strictly before that time.

Signing and parsing are done by the jjwt library, whose code is not part of
this model. The model treats it abstractly. A `Codec` is a pair of functions,
`sign` and `parse`, passed to every operation. `parse` is also given the time
at which it runs, because the library checks the expiry claim itself. The one
property the repository relies on is the predicate `RoundTrips`, about
well-formed claims sets: one JSON object, with no extra claim named like a
registered claim or like the not-before claim `nbf`. It says two
things about parsing a token under the key it was signed with. When the
parse succeeds, it gives back the signed claims, with dates cut to whole
seconds (a NumericDate counts seconds, section 2 of RFC 7519). And the parse
does succeed as long as those claims have not expired. Past the expiry, the
parse may fail or succeed. This predicate is a hypothesis of the lemmas that
need it. It is not an axiom. Nothing is assumed about how `parse` treats any
other token.

Because the library may refuse an expired token, the lemmas promise two
things past a token's expiry. The token is not accepted: `validateToken`
answers false or throws, and which of the two depends on the library. The
code's own `false` for an expired token is reached only when the parse
succeeds even though the expiry has passed.

The system clock is not read. The instants the code would read are
parameters, as milliseconds since the epoch. `generateToken` reads the clock
twice: `issuedAt` is the first read and becomes `iat`. `expiryBase` is the
second read, and `exp` is ten hours after it. Reading a token happens at an
instant `now`. One call of `validateToken` parses the token twice and reads
the clock in `isTokenExpired`; all three happen at that one instant.

Java exceptions become the `Err` case of `Result`. The parser raises a
`JwtException`, or an `IllegalArgumentException` for an empty token. A
`NullPointerException` is raised when a validly signed token
lacks `sub` (in `validateToken`) or `exp` (in `isTokenExpired`), because the
getters return null and the code dereferences the result.

Files:

- `codec.dfy`, module `JwtCodec`: claims, failures, the abstract codec,
  whole-second dates and the round-trip hypothesis.
- `user_details.dfy`, module `UserDetailsService`: the user record, and the
  lookup stub that returns the user `"foo"` for every name.
- `jwt_util.dfy`, module `JwtUtil`: the class's operations.
- `jwt_properties.dfy`, module `JwtUtilProperties`: the lemmas about them.

## Model

| member | source | states |
|---|---|---|
| `JwtCodec.NumericDate` | src/main/java/io/javabrains/springsecurityjwt/util/JwtUtil.java:54-55 | a date written into a token keeps only whole seconds: the result is a multiple of 1000 within 999 ms below the input |
| `JwtCodec.Serialised` | src/main/java/io/javabrains/springsecurityjwt/util/JwtUtil.java:54-56 | the claims a parser sees after signing keep the subject and extra claims and keep which dates are present; each date becomes whole seconds, at most 999 ms below the date that was signed |
| `JwtCodec.SignIsInjective` | src/main/java/io/javabrains/springsecurityjwt/util/JwtUtil.java:56 | under the round trip, well-formed claims that differ once serialised give different tokens under one key |
| `UserDetailsService.LoadUserByUsername` | src/main/java/io/javabrains/springsecurityjwt/MyUserDetailsService.java:15-21 | every name is answered with the user "foo" with no authorities |
| `JwtUtil.BuildClaims` | src/main/java/io/javabrains/springsecurityjwt/util/JwtUtil.java:53-55 | the subject is the given subject, issue time the first clock read and expiry the second read plus 36,000,000 ms; the token carries the extra claims plus `sub`, `iat` and `exp`; a registered name in the extras is overwritten and the other extras are kept unchanged; the result is well-formed exactly when the extras carry no `nbf` |
| `JwtUtil.CreateToken` | src/main/java/io/javabrains/springsecurityjwt/util/JwtUtil.java:53-57 | for extras without `nbf` (the only caller passes none), under the round trip, parsing the signed token under the secret key at any time gives the built claims (dates in whole seconds) or fails, and it does not fail before their expiry |
| `JwtUtil.GeneratedClaims` | src/main/java/io/javabrains/springsecurityjwt/util/JwtUtil.java:47-49 | the claims of a generated token are exactly `sub`, `iat` and `exp`, with no extra claims, so they are well-formed: the user's name as subject, the first clock read as issue time and the second read plus ten hours as expiry |
| `JwtUtil.GenerateToken` | src/main/java/io/javabrains/springsecurityjwt/util/JwtUtil.java:47-50 | the token is the HS256 signature of the generated claims under the secret key; under the round trip, parsing it gives them back or fails, and it does not fail before their expiry |
| `JwtUtil.ExtractAllClaims` | src/main/java/io/javabrains/springsecurityjwt/util/JwtUtil.java:37-39 | parsing uses the signing key, so under the round trip a token signed under the secret key from well-formed claims gives back those claims whenever the parse succeeds, and the parse succeeds until they expire |
| `JwtUtil.ExtractClaim` | src/main/java/io/javabrains/springsecurityjwt/util/JwtUtil.java:31-34 | fails exactly when parsing fails, with the same failure; otherwise the result is the resolver applied to the parsed claims |
| `JwtUtil.ExtractUsername` | src/main/java/io/javabrains/springsecurityjwt/util/JwtUtil.java:21-23 | fails exactly when parsing fails; otherwise gives the parsed subject, which may be absent |
| `JwtUtil.ExtractExpiration` | src/main/java/io/javabrains/springsecurityjwt/util/JwtUtil.java:26-28 | fails exactly when parsing fails; otherwise gives the parsed expiry, which may be absent |
| `JwtUtil.IsTokenExpired` | src/main/java/io/javabrains/springsecurityjwt/util/JwtUtil.java:42-44 | answers exactly when the token parses with an expiry, and then answers whether the expiry is strictly before `now`; a parse failure is passed on |
| `JwtUtil.ValidateToken` | src/main/java/io/javabrains/springsecurityjwt/util/JwtUtil.java:60-63 | true exactly when the token parses and its claims are accepted for the user (subject equal to the user's name, expiry present and not before `now`); a parse failure is passed on |
| `JwtUtilProperties.ExpiryFollowsIssue` | src/main/java/io/javabrains/springsecurityjwt/util/JwtUtil.java:54-55 | with one clock value the expiry is the issue time plus 36,000,000 ms; with a clock that does not go back it is at least that, so it is after the issue time |
| `JwtUtilProperties.ExtractUsernameOfGenerated` | src/main/java/io/javabrains/springsecurityjwt/util/JwtUtil.java:18-23 | under the round trip, the subject read back from a generated token is the user's name, and the read does not fail before the whole-second expiry |
| `JwtUtilProperties.ExtractExpirationOfGenerated` | src/main/java/io/javabrains/springsecurityjwt/util/JwtUtil.java:25-28 | under the round trip, the expiry read back from a generated token is ten hours after the second clock read, cut to whole seconds; the read does not fail before it; the 999 ms bound is `NumericDate`'s own, spelt out at that expiry |
| `JwtUtilProperties.DistinctClaimsGiveDistinctTokens` | src/main/java/io/javabrains/springsecurityjwt/util/JwtUtil.java:53-56 | under the round trip, HS256 tokens under the secret key for well-formed claims that differ once serialised are different strings, and whenever the first parses, the two parse to different results |
| `JwtUtilProperties.ExpiredExactlyWhenBefore` | src/main/java/io/javabrains/springsecurityjwt/util/JwtUtil.java:42-44 | for a token that parses with expiry `exp`, expired exactly when `exp < now`; not expired at `now == exp` |
| `JwtUtilProperties.ValidateClaims` | src/main/java/io/javabrains/springsecurityjwt/util/JwtUtil.java:60-62 | the validation decision on one set of claims: true exactly when the claims are accepted for the user; it fails only with a null dereference |
| `JwtUtilProperties.ValidateTokenParsesOnce` | src/main/java/io/javabrains/springsecurityjwt/util/JwtUtil.java:59-63 | validating with its two parses of the token equals validating the claims of one parse, so caching the parsed claims does not change the outcome |
| `JwtUtilProperties.ValidateTokenMeaning` | src/main/java/io/javabrains/springsecurityjwt/util/JwtUtil.java:60-62 | on a token that parses with a subject and an expiry, the result is exactly `sub == username && !(exp < now)` |
| `JwtUtilProperties.MismatchOrExpiryRejects` | src/main/java/io/javabrains/springsecurityjwt/util/JwtUtil.java:62 | a parsed token whose subject differs from the user's name is refused with false even without an expiry; a parsed token with a subject and an expired expiry is refused with false |
| `JwtUtilProperties.ValidateTokenFailsExactly` | src/main/java/io/javabrains/springsecurityjwt/util/JwtUtil.java:60-62 | validation fails, rather than answering, exactly when parsing fails, the subject is absent, or the subject matches and the expiry is absent |
| `JwtUtilProperties.ParseFailurePropagates` | src/main/java/io/javabrains/springsecurityjwt/util/JwtUtil.java:21-44 | a parse failure comes out of both extractors, the expiry test and validation as the same failure, never as an answer |
| `JwtUtilProperties.GeneratedTokenValidUntilExpiry` | src/main/java/io/javabrains/springsecurityjwt/util/JwtUtil.java:47-62 | under the round trip, a generated token is accepted for its user exactly when `now` is not after ten hours past the second clock read, cut to whole seconds; whenever validation answers, that is its answer |
| `JwtUtilProperties.FreshTokenValidates` | src/main/java/io/javabrains/springsecurityjwt/util/JwtUtil.java:47-62 | under the round trip and with a clock that does not go back, a generated token validates for its user at any `now` up to ten hours after issue, cut to whole seconds |
| `JwtUtilProperties.GeneratedTokenRejectsOtherUser` | src/main/java/io/javabrains/springsecurityjwt/util/JwtUtil.java:60-62 | under the round trip, a generated token is never accepted for a user with another name, and up to its expiry the answer is false |
| `JwtUtilProperties.TwoTokensBothValid` | src/main/java/io/javabrains/springsecurityjwt/util/JwtUtil.java:47-62 | tokens are not single-use: two tokens for one user issued in different seconds are different strings and both validate inside both windows |
| `JwtUtilProperties.EveryTokenExpires` | src/main/java/io/javabrains/springsecurityjwt/util/JwtUtil.java:42-44 | under the round trip, a token signed under the secret key from well-formed claims is not accepted for any user at some time: at every time past its expiry, and never if it has none |
| `JwtUtilProperties.GeneratedTokenWindow` | src/main/java/io/javabrains/springsecurityjwt/util/JwtUtil.java:47-62 | under the round trip, a generated token validates for its user at some time and is not accepted at some later time |
| `JwtUtilProperties.AuthenticateThenValidate` | src/main/java/io/javabrains/springsecurityjwt/SpringSecurityJwtApplication.java:69-74 | the token issued for the looked-up user has subject "foo" whatever name was requested, and it is accepted against the lookup's answer exactly until its expiry |

## Left out

- HMAC-SHA256, JSON and base64url inside the jjwt library are not modelled. Signing and parsing are the abstract `Codec`, constrained only by the round-trip hypothesis `RoundTrips`. So tamper detection (a changed signature or payload fails to parse) is not stated.
- Which tokens the library refuses is not modelled. `parse` may fail on any token not signed under the same key. It may also fail on a signed token past its expiry. jjwt refuses such a token itself, so in the running service `validateToken` then throws instead of returning false. The lemmas about times past the expiry therefore say only that the token is not accepted: `EveryTokenExpires`, `GeneratedTokenWindow`, `GeneratedTokenValidUntilExpiry`, `GeneratedTokenRejectsOtherUser` and `AuthenticateThenValidate`. `MismatchOrExpiryRejects` gives `false` for an expired token only when the parse at that time succeeded.
- The two parses and the `new Date()` inside one `validateToken` call are taken at one instant. So the millisecond race is not represented: the parse succeeding just before the expiry, and the clock read in `isTokenExpired` falling after it.
- JwtUtilProperties.FreshTokenValidates: the window ends at ten hours after issue cut to whole seconds, not at the expiry in milliseconds. The expiry read back is cut to whole seconds, so a check between that second and the millisecond expiry finds the token expired. `GeneratedTokenValidUntilExpiry` states the exact bound.
- Claims sets that are not one JSON object are outside the round trip. In jjwt a claims set is a single map, so a `sub`, `iat` or `exp` among the extras is the registered claim itself, and an `nbf` makes the parser check a not-before time. `RoundTrips` is therefore assumed only for well-formed claims. `JwtCodec.SignIsInjective`, `JwtUtilProperties.DistinctClaimsGiveDistinctTokens` and `JwtUtilProperties.EveryTokenExpires` require well-formed claims, and `JwtUtil.CreateToken` requires extras without `nbf`; the not-before check itself is not modelled.
- The system clock is not read: its readings are parameters. Times are non-negative milliseconds. Dates before 1970 and 64-bit overflow of `currentTimeMillis() + 36000000` are not modelled; the latter needs a clock near 2^63 ms.
- Extra claim values are strings. Java allows any object there, but the only map this code passes is empty.
- The `/authenticate` handler's credential check, the Spring Boot start-up, the security configuration, the no-op password encoder and the request filter are not modelled. They are framework wiring, and the filter's source is not part of this model. `AuthenticateThenValidate` states only what the handler does with the token utility after authentication succeeds.
