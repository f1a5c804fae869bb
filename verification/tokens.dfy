/**
 * Stateless session tokens: a `Token` (owner, issue time in Unix seconds,
 * random nonce) is serialized as JSON and encrypted into a cookie value; a
 * `Session` is an access token and a refresh token issued together, checked
 * together on every request and re-issued (rotated) together.
 *
 * The process-wide `CONFIG` is the `config` field of `TokenSystem`; the pure
 * functions below take it as a parameter. Randomness (the token nonces, the
 * AEAD nonces) and the clock (`now`) are parameters too.
 */
module Tokens {
  import opened Errors
  import opened Crypto

  /** Rust's `i64`. */
  type i64 = x: int | -0x8000_0000_0000_0000 <= x < 0x8000_0000_0000_0000

  const ACCESS_COOKIE: string := "__HT_ACCESS_TOKEN"
  const REFRESH_COOKIE: string := "__HT_REFRESH_TOKEN"

  const NOT_CONFIGURED: Error := Error("Token system not configured")
  const MISSING_ACCESS: Error := Error("Missing access token")
  const MISSING_REFRESH: Error := Error("Missing refresh token")
  const OWNER_MISMATCH: Error := Error("Token owner mismatched")
  const REFRESH_REUSED: Error := Error("Refresh token reused")
  const REFRESH_EXPIRED: Error := Error("Refresh token expired")

  const NANOS_PER_SEC: int := 1_000_000_000
  const SECS_PER_MINUTE: int := 60
  const SECS_PER_DAY: int := 86_400
  /** A refresh token is expired once the elapsed whole days exceed this. */
  const REFRESH_LIFETIME_DAYS: int := 90
  /** An access token is rotated once the elapsed whole minutes exceed this. */
  const ACCESS_LIFETIME_MINUTES: int := 15

  // ---------------------------------------------------------------- data

  /** `TokenConfig`: the passphrase and whether cookies carry the `Secure` attribute. */
  datatype TokenConfig = TokenConfig(key: string, secureCookie: bool)

  /** `Token`: the JSON payload `{who, timestamp, nonce}`. */
  datatype Token = Token(who: string, timestamp: i64, nonce: i64)

  /** serde_json's `to_string` (infallible for `Token`) and `from_str::<Token>`. */
  datatype JsonCodec = JsonCodec(serialize: Token -> string, deserialize: string -> Result<Token>)

  /** The assumed property of serde_json: parsing what was serialized gives the token back. */
  ghost predicate JsonSound(j: JsonCodec) {
    forall t :: j.deserialize(j.serialize(t)) == Ok(t)
  }

  /** `AccessToken`: a token in the access-cookie role. */
  datatype AccessToken = AccessToken(inner: Token) {
    /** `who()`: the owner of the wrapped token. */
    function Who(): (w: string)
      ensures w == inner.who
    {
      inner.who
    }

    /** `timestamp()`: the issue time of the wrapped token, in Unix seconds. */
    function Timestamp(): (ts: i64)
      ensures ts == inner.timestamp
    {
      inner.timestamp
    }
  }

  /** `RefreshToken`: a token in the refresh-cookie role. */
  datatype RefreshToken = RefreshToken(inner: Token) {
    /** `who()`: the owner of the wrapped token. */
    function Who(): (w: string)
      ensures w == inner.who
    {
      inner.who
    }

    /** `timestamp()`: the issue time of the wrapped token, in Unix seconds. */
    function Timestamp(): (ts: i64)
      ensures ts == inner.timestamp
    {
      inner.timestamp
    }
  }

  /** `Session`: the pair of tokens. */
  datatype Session = Session(access: AccessToken, refresh: RefreshToken)

  /** One `Set-Cookie` header of the response (the cookie text itself is not modelled). */
  datatype SetCookie = SetCookie(name: string, value: string, httpOnly: bool, secure: bool)

  // ---------------------------------------------------------------- time

  type Nanos = n: int | 0 <= n < 1_000_000_000

  /** `Utc::now()`: whole Unix seconds (what `timestamp()` returns) and the sub-second part. */
  datatype Instant = Instant(seconds: i64, nanos: Nanos)

  /** chrono's `TimeDelta`: seconds and a nanosecond part normalised into `[0, 10^9)`. */
  datatype TimeDelta = TimeDelta(secs: int, nanos: Nanos)

  /** The exact value of `ts - now`, in nanoseconds. */
  function DeltaNanos(ts: i64, now: Instant): int {
    (ts - now.seconds) * 1_000_000_000 - now.nanos
  }

  /**
   * `DateTime::from_timestamp(ts, 0).signed_duration_since(now)`, i.e. `ts - now`
   * (not `now - ts`), with the nanoseconds borrowed by Euclidean division as
   * chrono does.
   */
  function SignedDurationSince(ts: i64, now: Instant): (d: TimeDelta)
    ensures d.secs * 1_000_000_000 + d.nanos == DeltaNanos(ts, now)
  {
    var frac := 0 - now.nanos;
    TimeDelta(ts - now.seconds + frac / 1_000_000_000, frac % 1_000_000_000)
  }

  /** Rust's `/` on `i64`: the quotient truncated toward zero (Dafny's `/` is Euclidean). */
  function TruncDiv(a: int, b: int): (q: int)
    requires b > 0
    ensures a >= 0 ==> 0 <= q * b <= a < q * b + b
    ensures a < 0 ==> q * b - b < a <= q * b <= 0
  {
    if a >= 0 then
      EuclideanQuotient(a, b); a / b
    else
      EuclideanQuotient(-a, b); -((-a) / b)
  }

  lemma EuclideanQuotient(a: int, b: int)
    requires a >= 0 && b > 0
    ensures 0 <= (a / b) * b <= a < (a / b) * b + b
  {
    assert a == (a / b) * b + a % b;
    if a / b < 0 {
      MulMonotone(a / b, -1, b);
    }
  }

  /** `TimeDelta::num_seconds`: whole seconds, rounded toward zero. */
  function NumSeconds(d: TimeDelta): (n: int)
    ensures d.secs >= 0 ==> 0 <= n * NANOS_PER_SEC <= d.secs * NANOS_PER_SEC + d.nanos < n * NANOS_PER_SEC + NANOS_PER_SEC
    ensures d.secs < 0 ==> n * NANOS_PER_SEC - NANOS_PER_SEC < d.secs * NANOS_PER_SEC + d.nanos <= n * NANOS_PER_SEC <= 0
  {
    if d.secs < 0 && d.nanos > 0 then d.secs + 1 else d.secs
  }

  /** `TimeDelta::num_minutes`. */
  function NumMinutes(d: TimeDelta): (n: int)
    ensures NumSeconds(d) >= 0 ==> 0 <= n * SECS_PER_MINUTE <= NumSeconds(d) < n * SECS_PER_MINUTE + SECS_PER_MINUTE
    ensures NumSeconds(d) < 0 ==> n * SECS_PER_MINUTE - SECS_PER_MINUTE < NumSeconds(d) <= n * SECS_PER_MINUTE <= 0
  {
    TruncDiv(NumSeconds(d), SECS_PER_MINUTE)
  }

  /** `TimeDelta::num_days`. */
  function NumDays(d: TimeDelta): (n: int)
    ensures NumSeconds(d) >= 0 ==> 0 <= n * SECS_PER_DAY <= NumSeconds(d) < n * SECS_PER_DAY + SECS_PER_DAY
    ensures NumSeconds(d) < 0 ==> n * SECS_PER_DAY - SECS_PER_DAY < NumSeconds(d) <= n * SECS_PER_DAY <= 0
  {
    TruncDiv(NumSeconds(d), SECS_PER_DAY)
  }

  lemma MulMonotone(x: int, y: int, u: int)
    requires x <= y && u > 0
    ensures x * u <= y * u
  {
    assert y * u - x * u == (y - x) * u;
  }

  /** A truncated quotient exceeds `limit >= 0` exactly when the dividend reaches `(limit + 1) * unit`. */
  lemma TruncDivExceeds(d: int, unit: int, limit: int)
    requires unit > 0 && limit >= 0
    ensures TruncDiv(d, unit) > limit <==> d >= (limit + 1) * unit
  {
    var q := TruncDiv(d, unit);
    if d >= 0 {
      if q > limit {
        MulMonotone(limit + 1, q, unit);
      } else {
        MulMonotone(q + 1, limit + 1, unit);
        assert (q + 1) * unit == q * unit + unit;
      }
    } else {
      assert 0 <= (limit + 1) * unit;
      if q > 0 {
        MulMonotone(1, q, unit);
      }
    }
  }

  /** `num_seconds` of `ts - now` is the exact difference truncated toward zero. */
  lemma NumSecondsTruncates(ts: i64, now: Instant)
    ensures NumSeconds(SignedDurationSince(ts, now)) == TruncDiv(DeltaNanos(ts, now), NANOS_PER_SEC)
  {
    var x := DeltaNanos(ts, now);
    var k := ts - now.seconds;
    var q := TruncDiv(x, NANOS_PER_SEC);
    if now.nanos == 0 {
      if x >= 0 {
        assert k * 1_000_000_000 <= x < k * 1_000_000_000 + 1_000_000_000;
        TruncDivUnique(x, NANOS_PER_SEC, q, k);
      } else {
        TruncDivUnique(x, NANOS_PER_SEC, q, k);
      }
    } else if k >= 1 {
      TruncDivUnique(x, NANOS_PER_SEC, q, k - 1);
    } else {
      TruncDivUnique(x, NANOS_PER_SEC, q, k);
    }
  }

  /** The truncated quotient is determined by its contract. */
  lemma TruncDivUnique(a: int, b: int, q: int, c: int)
    requires b > 0 && q == TruncDiv(a, b)
    requires a >= 0 ==> 0 <= c * b <= a < c * b + b
    requires a < 0 ==> c * b - b < a <= c * b <= 0
    ensures q == c
  {
    if q < c {
      MulMonotone(q + 1, c, b);
    } else if q > c {
      MulMonotone(c + 1, q, b);
    }
  }

  /**
   * As written, a refresh token counts as expired when `num_days` of `ts - now`
   * exceeds 90: exactly when the timestamp lies at least 91 days AFTER now.
   */
  lemma RefreshExpiryThreshold(ts: i64, now: Instant)
    ensures NumDays(SignedDurationSince(ts, now)) > REFRESH_LIFETIME_DAYS
        <==> DeltaNanos(ts, now) >= (REFRESH_LIFETIME_DAYS + 1) * SECS_PER_DAY * NANOS_PER_SEC
  {
    var s := NumSeconds(SignedDurationSince(ts, now));
    NumSecondsTruncates(ts, now);
    TruncDivExceeds(s, SECS_PER_DAY, REFRESH_LIFETIME_DAYS);
    TruncDivExceeds(DeltaNanos(ts, now), NANOS_PER_SEC, (REFRESH_LIFETIME_DAYS + 1) * SECS_PER_DAY - 1);
  }

  /**
   * As written, an access token is rotated when `num_minutes` of `ts - now`
   * exceeds 15: exactly when the timestamp lies at least 16 minutes AFTER now.
   */
  lemma RotationThreshold(ts: i64, now: Instant)
    ensures NumMinutes(SignedDurationSince(ts, now)) > ACCESS_LIFETIME_MINUTES
        <==> DeltaNanos(ts, now) >= (ACCESS_LIFETIME_MINUTES + 1) * SECS_PER_MINUTE * NANOS_PER_SEC
  {
    var s := NumSeconds(SignedDurationSince(ts, now));
    NumSecondsTruncates(ts, now);
    TruncDivExceeds(s, SECS_PER_MINUTE, ACCESS_LIFETIME_MINUTES);
    TruncDivExceeds(DeltaNanos(ts, now), NANOS_PER_SEC, (ACCESS_LIFETIME_MINUTES + 1) * SECS_PER_MINUTE - 1);
  }

  // ---------------------------------------------------------------- token codec

  /** `Token::from` does not panic: when configured, the cookie value is well framed. */
  predicate Decodable(p: Primitives, config: Option<TokenConfig>, encrypted: string) {
    config.Some? ==> WellFramed(p, encrypted)
  }

  /** `Token::from`: refuse when unconfigured, otherwise decrypt under the passphrase and parse the JSON. */
  function TokenFrom(p: Primitives, j: JsonCodec, config: Option<TokenConfig>, encrypted: string): (r: Result<Token>)
    requires Sound(p) && Decodable(p, config, encrypted)
    ensures config.None? ==> r == Err(NOT_CONFIGURED)
  {
    match config
    case None => Err(NOT_CONFIGURED)
    case Some(c) =>
      match Decrypt(p, encrypted, c.key)
      case Err(e) => Err(e)
      case Ok(text) => j.deserialize(text)
  }

  /** `Token::to_string`: refuse when unconfigured, otherwise serialize to JSON and encrypt. */
  function TokenString(p: Primitives, j: JsonCodec, config: Option<TokenConfig>, t: Token, aesNonce: seq<byte>): (r: Result<string>)
    requires Sound(p) && |aesNonce| == AES_NONCE_SIZE
    ensures config.None? ==> r == Err(NOT_CONFIGURED)
  {
    match config
    case None => Err(NOT_CONFIGURED)
    case Some(c) => Encrypted(p, j.serialize(t), c.key, aesNonce)
  }

  /** `AccessToken::from`. */
  function AccessFrom(p: Primitives, j: JsonCodec, config: Option<TokenConfig>, encrypted: string): (r: Result<AccessToken>)
    requires Sound(p) && Decodable(p, config, encrypted)
    ensures config.None? ==> r == Err(NOT_CONFIGURED)
    ensures r.Ok? <==> TokenFrom(p, j, config, encrypted).Ok?
    ensures r.Ok? ==> r.value.inner == TokenFrom(p, j, config, encrypted).value
    ensures r.Err? ==> r.error == TokenFrom(p, j, config, encrypted).error
  {
    match TokenFrom(p, j, config, encrypted)
    case Err(e) => Err(e)
    case Ok(t) => Ok(AccessToken(t))
  }

  /** `RefreshToken::from`. */
  function RefreshFrom(p: Primitives, j: JsonCodec, config: Option<TokenConfig>, encrypted: string): (r: Result<RefreshToken>)
    requires Sound(p) && Decodable(p, config, encrypted)
    ensures config.None? ==> r == Err(NOT_CONFIGURED)
    ensures r.Ok? <==> TokenFrom(p, j, config, encrypted).Ok?
    ensures r.Ok? ==> r.value.inner == TokenFrom(p, j, config, encrypted).value
    ensures r.Err? ==> r.error == TokenFrom(p, j, config, encrypted).error
  {
    match TokenFrom(p, j, config, encrypted)
    case Err(e) => Err(e)
    case Ok(t) => Ok(RefreshToken(t))
  }

  /**
   * The token round trip: under a configured passphrase, whatever `to_string`
   * produced, `from` decodes without panicking into the same token (owner,
   * timestamp and nonce).
   */
  lemma TokenRoundTrip(p: Primitives, j: JsonCodec, config: Option<TokenConfig>, t: Token, aesNonce: seq<byte>)
    requires Sound(p) && JsonSound(j) && |aesNonce| == AES_NONCE_SIZE
    requires TokenString(p, j, config, t, aesNonce).Ok?
    ensures Decodable(p, config, TokenString(p, j, config, t, aesNonce).value)
    ensures TokenFrom(p, j, config, TokenString(p, j, config, t, aesNonce).value) == Ok(t)
  {
    DecryptEncrypted(p, j.serialize(t), config.value.key, aesNonce);
  }

  // ---------------------------------------------------------------- sessions

  /**
   * `Session::new`, with `Utc::now().timestamp()` and the two random nonces as
   * parameters: both tokens belong to `who` and carry the same timestamp.
   */
  function NewSession(who: string, timestamp: i64, accessNonce: i64, refreshNonce: i64): (s: Session)
    ensures s.access.Who() == who && s.refresh.Who() == who
    ensures s.access.Timestamp() == timestamp && s.refresh.Timestamp() == timestamp
  {
    Session(AccessToken(Token(who, timestamp, accessNonce)), RefreshToken(Token(who, timestamp, refreshNonce)))
  }

  /**
   * The checks `from_request` applies to a decoded pair, in the code's order:
   * owner, reuse, refresh expiry, then rotation. Every accepted session has
   * one owner, the access owner, and an access timestamp no earlier than the
   * refresh timestamp.
   */
  function Validate(access: AccessToken, refresh: RefreshToken, now: Instant, accessNonce: i64, refreshNonce: i64): (r: Result<Session>)
    ensures r.Ok? ==> r.value.access.Who() == access.Who() && r.value.refresh.Who() == access.Who()
    ensures r.Ok? ==> r.value.refresh.Timestamp() <= r.value.access.Timestamp()
  {
    if access.Who() != refresh.Who() then
      Err(OWNER_MISMATCH)
    else if refresh.Timestamp() > access.Timestamp() then
      Err(REFRESH_REUSED)
    else if NumDays(SignedDurationSince(refresh.Timestamp(), now)) > REFRESH_LIFETIME_DAYS then
      Err(REFRESH_EXPIRED)
    else if NumMinutes(SignedDurationSince(access.Timestamp(), now)) > ACCESS_LIFETIME_MINUTES then
      Ok(NewSession(access.Who(), now.seconds, accessNonce, refreshNonce))
    else
      Ok(Session(access, refresh))
  }

  /**
   * `from_request` does not panic: the access cookie, if present, is decodable;
   * the refresh cookie is decodable if it is ever read, that is, if the access
   * token decoded.
   */
  predicate FromRequestDefined(p: Primitives, j: JsonCodec, config: Option<TokenConfig>, cookies: map<string, string>)
    requires Sound(p)
  {
    ACCESS_COOKIE in cookies ==>
      && Decodable(p, config, cookies[ACCESS_COOKIE])
      && (TokenFrom(p, j, config, cookies[ACCESS_COOKIE]).Ok? && REFRESH_COOKIE in cookies ==>
            Decodable(p, config, cookies[REFRESH_COOKIE]))
  }

  /**
   * `Session::from_request` over the request's cookies: read and decode the
   * access cookie, then the refresh cookie, then validate the pair.
   */
  function SessionFromRequest(p: Primitives, j: JsonCodec, config: Option<TokenConfig>, cookies: map<string, string>,
                              now: Instant, accessNonce: i64, refreshNonce: i64): (r: Result<Session>)
    requires Sound(p) && FromRequestDefined(p, j, config, cookies)
    ensures ACCESS_COOKIE !in cookies ==> r == Err(MISSING_ACCESS)
    ensures ACCESS_COOKIE in cookies && config.None? ==> r == Err(NOT_CONFIGURED)
    ensures r.Ok? ==> REFRESH_COOKIE in cookies
    ensures r.Ok? ==> r.value.access.Who() == r.value.refresh.Who()
    ensures r.Ok? ==> r.value.refresh.Timestamp() <= r.value.access.Timestamp()
  {
    if ACCESS_COOKIE !in cookies then Err(MISSING_ACCESS)
    else match AccessFrom(p, j, config, cookies[ACCESS_COOKIE])
    case Err(e) => Err(e)
    case Ok(access) =>
      if REFRESH_COOKIE !in cookies then Err(MISSING_REFRESH)
      else match RefreshFrom(p, j, config, cookies[REFRESH_COOKIE])
      case Err(e) => Err(e)
      case Ok(refresh) => Validate(access, refresh, now, accessNonce, refreshNonce)
  }

  /**
   * `Session::to_response`, which unwraps the configuration (so it must be set):
   * encode the access token, then the refresh token, into two `HttpOnly`
   * cookies whose `Secure` flag is the configured one.
   */
  function SessionToResponse(p: Primitives, j: JsonCodec, config: Option<TokenConfig>, s: Session,
                             accessAesNonce: seq<byte>, refreshAesNonce: seq<byte>): (r: Result<seq<SetCookie>>)
    requires Sound(p) && config.Some?
    requires |accessAesNonce| == AES_NONCE_SIZE && |refreshAesNonce| == AES_NONCE_SIZE
    ensures r.Ok? ==> |r.value| == 2 && r.value[0].name == ACCESS_COOKIE && r.value[1].name == REFRESH_COOKIE
    ensures r.Ok? ==> forall c :: c in r.value ==> c.httpOnly && c.secure == config.value.secureCookie
  {
    var secure := config.value.secureCookie;
    match TokenString(p, j, config, s.access.inner, accessAesNonce)
    case Err(e) => Err(e)
    case Ok(a) =>
      match TokenString(p, j, config, s.refresh.inner, refreshAesNonce)
      case Err(e) => Err(e)
      case Ok(b) => Ok([SetCookie(ACCESS_COOKIE, a, true, secure), SetCookie(REFRESH_COOKIE, b, true, secure)])
  }

  /** The cookies a client sends back after receiving these `Set-Cookie` headers. */
  function CookieJar(cs: seq<SetCookie>): map<string, string> {
    if cs == [] then map[] else CookieJar(cs[..|cs| - 1])[cs[|cs| - 1].name := cs[|cs| - 1].value]
  }

  // ---------------------------------------------------------------- properties of from_request

  /** Error order, first step: a missing access cookie is reported before anything else. */
  lemma MissingAccessFirst(p: Primitives, j: JsonCodec, config: Option<TokenConfig>, cookies: map<string, string>,
                           now: Instant, accessNonce: i64, refreshNonce: i64)
    requires Sound(p) && ACCESS_COOKIE !in cookies
    ensures FromRequestDefined(p, j, config, cookies)
    ensures SessionFromRequest(p, j, config, cookies, now, accessNonce, refreshNonce) == Err(MISSING_ACCESS)
  {
  }

  /**
   * Error order, second step: an access token that does not decode is reported
   * (with the decoder's error, or "not configured") whatever the refresh cookie
   * holds, or whether it is there at all.
   */
  lemma AccessErrorBeforeRefresh(p: Primitives, j: JsonCodec, config: Option<TokenConfig>, cookies: map<string, string>,
                                 other: map<string, string>, now: Instant, accessNonce: i64, refreshNonce: i64)
    requires Sound(p) && ACCESS_COOKIE in cookies && Decodable(p, config, cookies[ACCESS_COOKIE])
    requires TokenFrom(p, j, config, cookies[ACCESS_COOKIE]).Err?
    requires ACCESS_COOKIE in other && other[ACCESS_COOKIE] == cookies[ACCESS_COOKIE]
    ensures FromRequestDefined(p, j, config, cookies) && FromRequestDefined(p, j, config, other)
    ensures SessionFromRequest(p, j, config, cookies, now, accessNonce, refreshNonce)
         == SessionFromRequest(p, j, config, other, now, accessNonce, refreshNonce)
         == Err(TokenFrom(p, j, config, cookies[ACCESS_COOKIE]).error)
  {
  }

  /** Error order, third and fourth steps: once the access token decodes, a missing refresh cookie, then a refresh decode error. */
  lemma RefreshErrorsAfterAccess(p: Primitives, j: JsonCodec, config: Option<TokenConfig>, cookies: map<string, string>,
                                 now: Instant, accessNonce: i64, refreshNonce: i64)
    requires Sound(p) && FromRequestDefined(p, j, config, cookies)
    requires ACCESS_COOKIE in cookies && TokenFrom(p, j, config, cookies[ACCESS_COOKIE]).Ok?
    ensures REFRESH_COOKIE !in cookies ==>
      SessionFromRequest(p, j, config, cookies, now, accessNonce, refreshNonce) == Err(MISSING_REFRESH)
    ensures REFRESH_COOKIE in cookies && TokenFrom(p, j, config, cookies[REFRESH_COOKIE]).Err? ==>
      SessionFromRequest(p, j, config, cookies, now, accessNonce, refreshNonce) == Err(TokenFrom(p, j, config, cookies[REFRESH_COOKIE]).error)
  {
  }

  /** Without a configuration, any request carrying an access cookie is refused as "not configured". */
  lemma UnconfiguredRejected(p: Primitives, j: JsonCodec, cookies: map<string, string>,
                             now: Instant, accessNonce: i64, refreshNonce: i64)
    requires Sound(p) && ACCESS_COOKIE in cookies
    ensures FromRequestDefined(p, j, None, cookies)
    ensures SessionFromRequest(p, j, None, cookies, now, accessNonce, refreshNonce) == Err(NOT_CONFIGURED)
  {
  }

  /** The owner check comes first and fires exactly when the owners differ. */
  lemma OwnerMismatchIff(access: AccessToken, refresh: RefreshToken, now: Instant, accessNonce: i64, refreshNonce: i64)
    ensures Validate(access, refresh, now, accessNonce, refreshNonce) == Err(OWNER_MISMATCH)
        <==> access.Who() != refresh.Who()
  {
  }

  /** "Refresh token reused" exactly when the owners agree and the refresh timestamp is strictly later; equal timestamps pass. */
  lemma RefreshReusedIff(access: AccessToken, refresh: RefreshToken, now: Instant, accessNonce: i64, refreshNonce: i64)
    ensures Validate(access, refresh, now, accessNonce, refreshNonce) == Err(REFRESH_REUSED)
        <==> access.Who() == refresh.Who() && refresh.Timestamp() > access.Timestamp()
  {
  }

  /**
   * As written, "Refresh token expired" exactly when the earlier checks pass and
   * the refresh timestamp lies at least 91 days after now.
   */
  lemma RefreshExpiredIff(access: AccessToken, refresh: RefreshToken, now: Instant, accessNonce: i64, refreshNonce: i64)
    ensures Validate(access, refresh, now, accessNonce, refreshNonce) == Err(REFRESH_EXPIRED)
        <==> && access.Who() == refresh.Who()
             && refresh.Timestamp() <= access.Timestamp()
             && DeltaNanos(refresh.Timestamp(), now) >= 91 * SECS_PER_DAY * NANOS_PER_SEC
  {
    RefreshExpiryThreshold(refresh.Timestamp(), now);
  }

  /** A refresh token stamped at or before now never counts as expired. */
  lemma PastRefreshNeverExpires(access: AccessToken, refresh: RefreshToken, now: Instant, accessNonce: i64, refreshNonce: i64)
    requires refresh.Timestamp() <= now.seconds
    ensures Validate(access, refresh, now, accessNonce, refreshNonce) != Err(REFRESH_EXPIRED)
  {
    RefreshExpiredIff(access, refresh, now, accessNonce, refreshNonce);
  }

  /**
   * Acceptance and rotation: the pair is accepted exactly when no check fires;
   * it is then replaced by a fresh pair for the same owner stamped `now` when
   * the access timestamp lies at least 16 minutes after now, and returned
   * unchanged otherwise.
   */
  lemma AcceptedIff(access: AccessToken, refresh: RefreshToken, now: Instant, accessNonce: i64, refreshNonce: i64)
    ensures Validate(access, refresh, now, accessNonce, refreshNonce).Ok?
        <==> && access.Who() == refresh.Who()
             && refresh.Timestamp() <= access.Timestamp()
             && DeltaNanos(refresh.Timestamp(), now) < 91 * SECS_PER_DAY * NANOS_PER_SEC
    ensures Validate(access, refresh, now, accessNonce, refreshNonce).Ok? ==>
      Validate(access, refresh, now, accessNonce, refreshNonce).value ==
        if DeltaNanos(access.Timestamp(), now) >= 16 * SECS_PER_MINUTE * NANOS_PER_SEC
        then NewSession(access.Who(), now.seconds, accessNonce, refreshNonce)
        else Session(access, refresh)
  {
    RefreshExpiryThreshold(refresh.Timestamp(), now);
    RotationThreshold(access.Timestamp(), now);
  }

  /** A freshly issued session presented again within 16 minutes of its issue second is accepted unchanged. */
  lemma NewSessionAccepted(who: string, issued: i64, now: Instant, accessNonce: i64, refreshNonce: i64, n1: i64, n2: i64)
    requires issued <= now.seconds + 15 * SECS_PER_MINUTE
    ensures Validate(NewSession(who, issued, accessNonce, refreshNonce).access,
                     NewSession(who, issued, accessNonce, refreshNonce).refresh, now, n1, n2)
         == Ok(NewSession(who, issued, accessNonce, refreshNonce))
  {
    var s := NewSession(who, issued, accessNonce, refreshNonce);
    AcceptedIff(s.access, s.refresh, now, n1, n2);
  }

  /**
   * Replay: an access token issued at `t0` presented with a refresh token of
   * the same owner issued later at `t1` is refused as "Refresh token reused".
   */
  lemma StaleAccessReplayRejected(who: string, t0: i64, t1: i64, now: Instant, a: i64, b: i64, n1: i64, n2: i64)
    requires t0 < t1
    ensures Validate(NewSession(who, t0, a, b).access, NewSession(who, t1, a, b).refresh, now, n1, n2) == Err(REFRESH_REUSED)
  {
    RefreshReusedIff(NewSession(who, t0, a, b).access, NewSession(who, t1, a, b).refresh, now, n1, n2);
  }

  /**
   * As written, a pair issued 91 days before now is still accepted, and a pair
   * issued 16 minutes before now is returned without rotation: the checks look
   * at `ts - now`, so only timestamps in the future trigger them.
   */
  lemma AgedPairAcceptedUnchanged(who: string, now: Instant, a: i64, b: i64, n1: i64, n2: i64)
    requires 0 <= now.seconds < 0x1_0000_0000_0000
    ensures Validate(NewSession(who, now.seconds - 91 * SECS_PER_DAY, a, b).access,
                     NewSession(who, now.seconds - 91 * SECS_PER_DAY, a, b).refresh, now, n1, n2)
         == Ok(NewSession(who, now.seconds - 91 * SECS_PER_DAY, a, b))
    ensures Validate(NewSession(who, now.seconds - 16 * SECS_PER_MINUTE, a, b).access,
                     NewSession(who, now.seconds - 16 * SECS_PER_MINUTE, a, b).refresh, now, n1, n2)
         == Ok(NewSession(who, now.seconds - 16 * SECS_PER_MINUTE, a, b))
  {
    NewSessionAccepted(who, now.seconds - 91 * SECS_PER_DAY, now, a, b, n1, n2);
    NewSessionAccepted(who, now.seconds - 16 * SECS_PER_MINUTE, now, a, b, n1, n2);
  }

  /** As written, a pair stamped 16 minutes in the future (at a whole second) is rotated to `now`. */
  lemma FuturePairRotated(who: string, now: Instant, a: i64, b: i64, n1: i64, n2: i64)
    requires 0 <= now.seconds < 0x1_0000_0000_0000 && now.nanos == 0
    ensures Validate(NewSession(who, now.seconds + 16 * SECS_PER_MINUTE, a, b).access,
                     NewSession(who, now.seconds + 16 * SECS_PER_MINUTE, a, b).refresh, now, n1, n2)
         == Ok(NewSession(who, now.seconds, n1, n2))
  {
    var s := NewSession(who, now.seconds + 16 * SECS_PER_MINUTE, a, b);
    AcceptedIff(s.access, s.refresh, now, n1, n2);
  }

  // ---------------------------------------------------------------- end to end

  /**
   * The cookies `to_response` writes, sent back unchanged, decode into the very
   * same pair: `from_request` then validates exactly the session that was
   * written.
   */
  lemma ResponseRoundTrip(p: Primitives, j: JsonCodec, config: Option<TokenConfig>, s: Session,
                          n1: seq<byte>, n2: seq<byte>, now: Instant, accessNonce: i64, refreshNonce: i64)
    requires Sound(p) && JsonSound(j) && config.Some?
    requires |n1| == AES_NONCE_SIZE && |n2| == AES_NONCE_SIZE
    requires SessionToResponse(p, j, config, s, n1, n2).Ok?
    ensures FromRequestDefined(p, j, config, CookieJar(SessionToResponse(p, j, config, s, n1, n2).value))
    ensures SessionFromRequest(p, j, config, CookieJar(SessionToResponse(p, j, config, s, n1, n2).value), now, accessNonce, refreshNonce)
         == Validate(s.access, s.refresh, now, accessNonce, refreshNonce)
  {
    var cs := SessionToResponse(p, j, config, s, n1, n2).value;
    var a := TokenString(p, j, config, s.access.inner, n1).value;
    var b := TokenString(p, j, config, s.refresh.inner, n2).value;
    TokenRoundTrip(p, j, config, s.access.inner, n1);
    TokenRoundTrip(p, j, config, s.refresh.inner, n2);
    JarOfTwo(cs[0], cs[1]);
    assert cs == [cs[0], cs[1]];
    var jar := CookieJar(cs);
    assert jar[ACCESS_COOKIE] == a && jar[REFRESH_COOKIE] == b;
  }

  lemma JarOfTwo(c0: SetCookie, c1: SetCookie)
    ensures CookieJar([c0, c1]) == map[c0.name := c0.value][c1.name := c1.value]
  {
    assert [c0, c1][..1] == [c0];
    assert [c0][..0] == [];
    assert CookieJar([c0]) == CookieJar([])[c0.name := c0.value];
    assert CookieJar([c0, c1]) == CookieJar([c0])[c1.name := c1.value];
  }

  // ---------------------------------------------------------------- the process-wide configuration

  /**
   * The token system: the global `CONFIG` (absent until `TokenConfig::set`)
   * and the library primitives the token code calls.
   */
  class TokenSystem {
    const crypto: Primitives
    const json: JsonCodec
    var config: Option<TokenConfig>

    ghost predicate Valid() {
      Sound(crypto) && JsonSound(json)
    }

    /** `CONFIG` starts out as `None`. */
    constructor (crypto: Primitives, json: JsonCodec)
      requires Sound(crypto) && JsonSound(json)
      ensures Valid() && this.crypto == crypto && this.json == json && config == None
    {
      this.crypto := crypto;
      this.json := json;
      config := None;
    }

    /** `TokenConfig::set`: the whole configuration is replaced. */
    method Set(c: TokenConfig)
      requires Valid()
      modifies this
      ensures Valid() && config == Some(c)
    {
      config := Some(c);
    }

    /**
     * `Session::from_request`, reading the configuration in place; the decoded
     * tokens are reassigned when the pair is rotated.
     */
    method FromRequest(cookies: map<string, string>, now: Instant, accessNonce: i64, refreshNonce: i64) returns (r: Result<Session>)
      requires Valid() && FromRequestDefined(crypto, json, config, cookies)
      ensures r == SessionFromRequest(crypto, json, config, cookies, now, accessNonce, refreshNonce)
      ensures r.Ok? ==> r.value.access.Who() == r.value.refresh.Who()
      ensures r.Ok? ==> r.value.refresh.Timestamp() <= r.value.access.Timestamp()
    {
      if ACCESS_COOKIE !in cookies {
        return Err(MISSING_ACCESS);
      }
      var decodedAccess := AccessFrom(crypto, json, config, cookies[ACCESS_COOKIE]);
      if decodedAccess.Err? {
        return Err(decodedAccess.error);
      }
      var access := decodedAccess.value;

      if REFRESH_COOKIE !in cookies {
        return Err(MISSING_REFRESH);
      }
      var decodedRefresh := RefreshFrom(crypto, json, config, cookies[REFRESH_COOKIE]);
      if decodedRefresh.Err? {
        return Err(decodedRefresh.error);
      }
      var refresh := decodedRefresh.value;

      if access.Who() != refresh.Who() {
        return Err(OWNER_MISMATCH);
      }
      if refresh.Timestamp() > access.Timestamp() {
        return Err(REFRESH_REUSED);
      }
      if NumDays(SignedDurationSince(refresh.Timestamp(), now)) > REFRESH_LIFETIME_DAYS {
        return Err(REFRESH_EXPIRED);
      }
      if NumMinutes(SignedDurationSince(access.Timestamp(), now)) > ACCESS_LIFETIME_MINUTES {
        var timestamp := now.seconds;
        access := AccessToken(Token(access.Who(), timestamp, accessNonce));
        refresh := RefreshToken(Token(access.Who(), timestamp, refreshNonce));
      }
      r := Ok(Session(access, refresh));
    }

    /**
     * `Session::to_response`; the configuration must be set (the code unwraps
     * it). Each token goes through `Aes::encrypt`.
     */
    method ToResponse(s: Session, accessAesNonce: seq<byte>, refreshAesNonce: seq<byte>) returns (r: Result<seq<SetCookie>>)
      requires Valid() && config.Some?
      requires |accessAesNonce| == AES_NONCE_SIZE && |refreshAesNonce| == AES_NONCE_SIZE
      ensures r == SessionToResponse(crypto, json, config, s, accessAesNonce, refreshAesNonce)
      ensures r.Ok? ==> forall c :: c in r.value ==> c.httpOnly && c.secure == config.value.secureCookie
    {
      var secure := config.value.secureCookie;
      var key := config.value.key;
      var accessValue := Encrypt(crypto, json.serialize(s.access.inner), key, accessAesNonce);
      if accessValue.Err? {
        return Err(accessValue.error);
      }
      var refreshValue := Encrypt(crypto, json.serialize(s.refresh.inner), key, refreshAesNonce);
      if refreshValue.Err? {
        return Err(refreshValue.error);
      }
      r := Ok([SetCookie(ACCESS_COOKIE, accessValue.value, true, secure),
               SetCookie(REFRESH_COOKIE, refreshValue.value, true, secure)]);
    }
  }
}
