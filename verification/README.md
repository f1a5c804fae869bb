# Stateless sessions, ciphertext envelopes and route matching, in Dafny

This project models three pieces of a small Rust HTTP/2 framework and proves
properties of them.

- **Tokens** (`src/tokens.rs`). A token records its owner, its issue time in
  Unix seconds and a random nonce. It is serialized as JSON and encrypted into
  a cookie value. A session is an access token and a refresh token issued
  together. `Session::from_request` reads both cookies and decodes them. It
  then checks that the two tokens have the same owner, that the refresh token
  is not newer than the access token, and that the refresh token has not
  expired. It may also rotate the pair. `Session::to_response` writes both
  cookies back. The process-wide configuration (passphrase and `Secure` flag)
  is the `config` field of the class `TokenSystem`. It starts absent and is
  replaced wholesale by `TokenConfig::set`.
- **The envelope** (`src/encrypt.rs`). The envelope is the base64 of the
  12-byte AES-GCM nonce followed by the AES-256-GCM output. The key is the
  SHA3-256 of the passphrase.
- **Routes** (`src/route.rs`). `match_route` follows the non-empty
  `/`-separated segments of a path through a tree of named routes.
  `configure_all` and `shutdown_all` run a hook on the root and then on its
  direct children.

The cryptographic and library primitives are not modelled. They are the
function-valued fields of `Crypto.Primitives`: SHA3-256 (FIPS 202),
AES-256-GCM seal and open (NIST SP 800-38D), base64 with the standard padded
alphabet (section 4 of RFC 4648), and UTF-8. serde_json's pair of functions
is `Tokens.JsonCodec`. The predicates `Crypto.Sound` and `Tokens.JsonSound`
state the only facts the proofs use about them:

- the digest is 32 bytes long;
- AES-GCM opens what it sealed under the same key and nonce, and adds a
  16-byte tag;
- base64 decoding inverts base64 encoding;
- UTF-8 decoding inverts UTF-8 encoding;
- JSON parsing inverts JSON serialization.

The clock and the random sources are parameters:

- `now` is an `Instant`: whole seconds plus a nanosecond part, as `Utc::now()` has.
- The token nonces from `rand::random` are `i64` arguments.
- The AES nonce from `OsRng` is a 12-byte argument.

The request's cookies are a map from cookie name to value. This map stands in
for `read_cookie`.

Time is modelled the way chrono computes it. `signed_duration_since` gives a
`TimeDelta` whose nanosecond part is normalised by Euclidean division.
`num_seconds` rounds toward zero, and `num_days` and `num_minutes` divide with
Rust's truncating `/`. `TruncDiv` writes that division out explicitly.

## How the code differs from its comments

- **Expiry and rotation look at the future, not the past.**
  `refresh_token.timestamp().signed_duration_since(now)` is `ts - now`. So
  "Refresh token expired" fires only when the refresh timestamp lies at least
  91 days after `now`. Rotation happens only when the access timestamp lies at
  least 16 minutes after `now`. A pair issued 91 days ago is accepted
  unchanged, and so is a pair issued 16 minutes ago. This is proved as
  `Tokens.AgedPairAcceptedUnchanged`. The model follows the code.
- **`decrypt` has no length guard.** Input that is valid base64 but shorter
  than 12 bytes reaches `split_at(12)`, which panics; no error is returned.
  This is a precondition in the model (`Crypto.WellFramed`). It propagates to
  `Token::from` (`Tokens.Decodable`) and to `from_request`
  (`Tokens.FromRequestDefined`). The precondition covers exactly the cookies
  the code actually decodes.
- **`to_response` does not report a missing configuration.** It unwraps the
  configuration (tokens.rs:243), so an unset configuration is a panic. The
  model makes `config.Some?` a precondition.

## Model

| member | source | states |
|---|---|---|
| `Crypto.Digest` | src/encrypt.rs:9-11 | the key derived from a passphrase is 32 bytes, so `Key::from_slice` never panics; encrypt and decrypt both use this derivation |
| `Crypto.SplitAt` | src/encrypt.rs:39 | the split's first part has exactly the requested length, and the two parts concatenate back to the input |
| `Crypto.Encrypt` | src/encrypt.rs:18-31 | the result is that of the envelope specification `Encrypted`; on success, the text base64-decodes to the nonce followed by an AEAD output 16 bytes longer than the plaintext |
| `Crypto.SplitFrame` | src/encrypt.rs:39-40 | splitting `nonce ++ c` at `AES_NONCE_SIZE` gives back `(nonce, c)` for any 12-byte nonce |
| `Crypto.EnvelopeLayout` | src/encrypt.rs:22-30 | before base64 the envelope is exactly the 12-byte nonce followed by the AEAD output, `12 + n + 16` bytes for an `n`-byte plaintext |
| `Crypto.Encrypted` | src/encrypt.rs:18-31 | encryption fails exactly when the AEAD seal fails; on success the text base64-decodes to the given nonce followed by an AEAD output 16 bytes longer than the plaintext |
| `Crypto.Decrypt` | src/encrypt.rs:33-46 | a base64 error is returned as is; a plaintext is returned only when the base64 decodes, the AEAD authenticates the body under the derived key and nonce, and the opened bytes decode as UTF-8 to that plaintext |
| `Crypto.DecodeErrorFirst` | src/encrypt.rs:34 | a base64 failure is returned as is, for every key, without reaching key derivation or the AEAD |
| `Crypto.AuthenticationFailureIsError` | src/encrypt.rs:43 | when the AEAD rejects the ciphertext, decrypt returns the AEAD's error, never a plaintext |
| `Crypto.InvalidUtf8IsError` | src/encrypt.rs:45 | when the opened plaintext is not UTF-8, decrypt returns the UTF-8 decoder's error |
| `Crypto.DecryptEncrypted` | src/encrypt.rs:18-46 | decrypting what encrypt produced under the same passphrase does not panic and returns the original plaintext |
| `Tokens.SignedDurationSince` | src/tokens.rs:223 | the delta's seconds and normalised nanoseconds add up to exactly `ts - now` |
| `Tokens.NumSeconds` | src/tokens.rs:223-227 | `num_seconds` rounds the delta toward zero: its whole seconds never overshoot the exact delta, and are less than a second short of it |
| `Tokens.NumMinutes` | src/tokens.rs:227 | `num_minutes` is the whole seconds divided by 60, rounded toward zero, for negative deltas as well |
| `Tokens.NumDays` | src/tokens.rs:223 | `num_days` is the whole seconds divided by 86400, rounded toward zero, for negative deltas as well |
| `Tokens.TruncDiv` | src/tokens.rs:223 | the quotient is rounded toward zero (what `num_days`/`num_minutes` do), for negative dividends as well |
| `Tokens.NumSecondsTruncates` | src/tokens.rs:223 | `num_seconds` of `ts - now` is the exact difference rounded toward zero |
| `Tokens.RefreshExpiryThreshold` | src/tokens.rs:223 | `num_days(ts - now) > 90` holds iff `ts - now` is at least 91 days |
| `Tokens.RotationThreshold` | src/tokens.rs:227 | `num_minutes(ts - now) > 15` holds iff `ts - now` is at least 16 minutes |
| `Tokens.TokenFrom` | src/tokens.rs:82-92 | with no configuration, the result is "Token system not configured" |
| `Tokens.TokenString` | src/tokens.rs:94-104 | with no configuration, the result is "Token system not configured" |
| `Tokens.AccessFrom` | src/tokens.rs:114-118 | `AccessToken::from` is `Token::from` in the access role: unconfigured gives "Token system not configured"; otherwise it succeeds exactly when `Token::from` does, with the same token, and fails with the same error |
| `Tokens.RefreshFrom` | src/tokens.rs:146-150 | `RefreshToken::from` is `Token::from` in the refresh role, with the same success, token and error |
| `Tokens.AccessToken.Who` | src/tokens.rs:127-129 | the owner of the wrapped token |
| `Tokens.AccessToken.Timestamp` | src/tokens.rs:134-136 | the issue time of the wrapped token, in Unix seconds |
| `Tokens.RefreshToken.Who` | src/tokens.rs:159-161 | the owner of the wrapped token |
| `Tokens.RefreshToken.Timestamp` | src/tokens.rs:166-168 | the issue time of the wrapped token, in Unix seconds |
| `Tokens.TokenRoundTrip` | src/tokens.rs:82-104 | under a set configuration, `from` applied to the output of `to_string` does not panic and returns the same token: owner, timestamp and nonce |
| `Tokens.NewSession` | src/tokens.rs:189-196 | both new tokens belong to the given owner and carry the same timestamp |
| `Tokens.Validate` | src/tokens.rs:212-236 | every accepted pair has a single owner, the access token's, and a refresh timestamp no later than the access timestamp |
| `Tokens.SessionToResponse` | src/tokens.rs:242-250 | on success there are two cookies, access then refresh, both `HttpOnly`, with `Secure` equal to the configured flag |
| `Tokens.SessionFromRequest` | src/tokens.rs:201-237 | a missing access cookie gives "Missing access token"; an access cookie without a configuration gives "Token system not configured"; a session is returned only when the refresh cookie is present, and it has one owner and `refresh.ts <= access.ts` |
| `Tokens.MissingAccessFirst` | src/tokens.rs:202-203 | a missing access cookie is reported as "Missing access token" before anything else |
| `Tokens.AccessErrorBeforeRefresh` | src/tokens.rs:202-208 | an access-token decode error is returned whatever the refresh cookie holds, or whether it is present |
| `Tokens.RefreshErrorsAfterAccess` | src/tokens.rs:206-208 | once the access token decodes, a missing refresh cookie gives "Missing refresh token", then a refresh decode error is returned as is |
| `Tokens.UnconfiguredRejected` | src/tokens.rs:82-87 | without a configuration, every request carrying an access cookie is refused with "Token system not configured" |
| `Tokens.OwnerMismatchIff` | src/tokens.rs:212-214 | "Token owner mismatched" is returned iff the two owners differ, before any timestamp check |
| `Tokens.RefreshReusedIff` | src/tokens.rs:219-221 | "Refresh token reused" iff the owners agree and the refresh timestamp is strictly later; equal timestamps pass |
| `Tokens.RefreshExpiredIff` | src/tokens.rs:223-225 | "Refresh token expired" iff the earlier checks pass and the refresh timestamp is at least 91 days after now |
| `Tokens.PastRefreshNeverExpires` | src/tokens.rs:223-225 | a refresh token stamped at or before now is never reported expired |
| `Tokens.AcceptedIff` | src/tokens.rs:223-236 | a pair is accepted iff no check fires; the accepted pair is a fresh pair for the same owner stamped `now` when the access timestamp is at least 16 minutes after now, and the decoded pair unchanged otherwise |
| `Tokens.NewSessionAccepted` | src/tokens.rs:189-236 | a freshly issued pair presented no more than 15 minutes before its issue second is accepted unchanged |
| `Tokens.StaleAccessReplayRejected` | src/tokens.rs:216-221 | an access token from `t0` with a refresh token of the same owner from a later `t1` is refused as reused |
| `Tokens.AgedPairAcceptedUnchanged` | src/tokens.rs:223-231 | as written, a pair issued 91 days or 16 minutes before now is accepted and not rotated |
| `Tokens.FuturePairRotated` | src/tokens.rs:227-231 | as written, a pair stamped 16 minutes after now is rotated to a fresh pair stamped `now` |
| `Tokens.ResponseRoundTrip` | src/tokens.rs:201-250 | the cookies `to_response` writes, sent back unchanged, decode into the same pair: `from_request` then validates exactly that session |
| `Tokens.TokenSystem.constructor` | src/tokens.rs:22-24 | the configuration starts out absent |
| `Tokens.TokenSystem.Set` | src/tokens.rs:45-47 | the whole configuration is replaced by the given one, and the system stays valid |
| `Tokens.TokenSystem.FromRequest` | src/tokens.rs:201-237 | the method with its reassigned tokens computes the specification `SessionFromRequest`; every accepted session has one owner and `refresh.ts <= access.ts` |
| `Tokens.TokenSystem.ToResponse` | src/tokens.rs:242-250 | the method computes `SessionToResponse`; both cookies are `HttpOnly` with the configured `Secure` flag |
| `Routes.Split` | src/route.rs:54 | `split("/")` yields at least one piece, so `skip(1)` is always defined |
| `Routes.SplitCountsSlashes` | src/route.rs:54 | `split("/")` yields one piece more than there are slashes |
| `Routes.SplitJoin` | src/route.rs:54 | `split("/")` is undone by joining with `/`, and no piece contains a slash |
| `Routes.SplitAtSlash` | src/route.rs:54 | splitting `x + "/" + y` yields the pieces of `x` followed by the pieces of `y` |
| `Routes.NonEmpty` | src/route.rs:57-60 | the kept segments are non-empty and come from the pieces, and every non-empty piece is kept |
| `Routes.Segments` | src/route.rs:54-60 | a string is followed as a segment iff it is non-empty and is one of the pieces after the first |
| `Routes.SegmentsWellFormed` | src/route.rs:54-60 | every followed segment is non-empty and contains no slash |
| `Routes.TrailingSlashIgnored` | src/route.rs:58-60 | a trailing slash does not change the segments followed |
| `Routes.DoubledSlashIgnored` | src/route.rs:58-60 | doubling any slash in the path does not change the segments followed |
| `Routes.FirstSegmentDropped` | src/route.rs:54 | `skip(1)` drops the text before the first slash: `seg/rest` is matched as `/rest` |
| `Routes.FirstMatch` | src/route.rs:63-69 | the chosen child is the first one, in order, whose name equals the segment; `|children|` means none matches |
| `Routes.WalkAppend` | src/route.rs:56-76 | following `a + b` is following `a`, then `b` from where `a` ended |
| `Routes.WalkStopsAtMissing` | src/route.rs:71-73 | once a segment has no matching child, the result is None whatever follows |
| `Routes.Walk` | src/route.rs:56-76 | no segments leave the walk at its starting route; a successful walk over segments ends at a route named after the last one |
| `Routes.MatchRoute` | src/route.rs:52-77 | the loops return the route reached from the root by following exactly the non-empty segments after the first piece, taking the first matching child each time |
| `Routes.VisitAll` | src/route.rs:32-50 | the hook runs on a prefix of `[root] + children`, never on grandchildren; all visited before the last pass; the result is the last one's outcome, and Pass only after every target |
| `Routes.ConfigureAll` | src/route.rs:32-40 | `configure` is called on the root, then on each direct child in order, stopping at the first failure, which is returned |
| `Routes.ShutdownAll` | src/route.rs:42-50 | `shutdown` is called on the root, then on each direct child in order, stopping at the first failure, which is returned |
| `Routes.TestTree` | src/route.rs:83-144 | the unit tests' tree: a root named "" whose only child `a` has the only child `b`, a leaf |
| `Routes.RouteRootTest` | src/route.rs:146-153 | on the unit tests' tree (root "" with child `a`, which has child `b`), "/" gives the root |
| `Routes.RouteATest` | src/route.rs:155-162 | on the same tree, "/a/" gives the route `a` |
| `Routes.RouteBTest` | src/route.rs:164-171 | on the same tree, "/a/b" gives the route `b` |

## Left out

- The cryptographic primitives themselves. Only their correctness is assumed. Tamper detection, wrong-key rejection and nonce freshness are properties of AES-GCM and `OsRng`, not of this code, and are not stated.
- `DateTime::from_timestamp(ts, 0).unwrap()` in `timestamp()` panics for timestamps outside chrono's representable range. The model treats every `i64` timestamp as representable.
- Cookie header parsing (`headers::Cookie`) is a map lookup. The `CookieBuilder` text of the `Set-Cookie` headers is reduced to name, value, `HttpOnly` and `Secure`. The default headers that `ResponseBuilder::new()` adds (src/response.rs) are not part of this model.
- The `RwLock` around the configuration and all async scheduling are not modelled. The configuration is one field, read and written without concurrency.
- Route hooks (`configure`, `shutdown`) are pure functions from route to outcome. Side effects of a hook on later hooks are not modelled. `handle` and request dispatch (src/lib.rs) are not part of this model.
- Rust strings are Dafny strings of Unicode scalar values. Byte-level UTF-8 is visible only through the `utf8Encode`/`utf8Decode` primitives.
- Error messages from the libraries (base64, AES-GCM, UTF-8, serde_json) are whatever the primitives return. Only the fixed messages of src/tokens.rs are spelled out.
