/** The cloud session of nodemcu/poot_lock/firebase_client.cpp as values: every field of
    `FirebaseClient` (except the two log rate-limit stamps) in one `Session`, and one pure
    transition per member function. Class `Firebase.FirebaseClient` is proved to follow
    these transitions; the lemmas here state what the admission logic guarantees.

    The environment the firmware reads through `millis()`, `time(nullptr)`, `WiFi.status()`
    and `ESP.getFree*` is an `Env` passed in, and the HTTP exchange is an oracle `Reply`
    holding the status code and the already-parsed body. */
module FirebaseModel {
  import opened U32

  datatype Option<T> = None | Some(value: T)

  // ---------------------------------------------------------------- configuration

  /** Epoch readings at or below this mean "the clock is not set". */
  const ClockKnownEpoch: u32 := 100000
  const TokenRefreshSkewSec: u32 := 120
  const AuthRetryInitialMs: u32 := 8000
  const AuthRetryMaxMs: u32 := 120000
  const RateLimitBackoffMs: u32 := 300000
  const UnauthorizedBackoffMs: u32 := 300000
  const SecureRequestGapMs: u32 := 2500
  const LowHeapBackoffMs: u32 := 60000
  const MinFreeHeapBytes: nat := 20000
  const MinMaxBlockBytes: nat := 9000
  /** `FirebasePollResult::commands` has 8 slots. */
  const MaxPolledCommands: nat := 8

  // ---------------------------------------------------------------- environment and oracle

  /** One reading of the device's environment: Wi-Fi status, `millis()`, `time(nullptr)`
      as uint32, free heap and the largest free block. */
  datatype Env = Env(wifiConnected: bool, nowMs: u32, wallEpoch: u32, freeHeap: nat, maxBlock: nat)

  /** What the HTTP stack did with one secure request: the TLS client could not be
      allocated, `http.begin` failed, or the request completed with a code (<= 0 is a
      transport failure) and a parsed body. */
  datatype Reply<B> = AllocFailed | BeginFailed | Completed(code: int, body: B)

  /** The token fields of a sign-in or refresh response. */
  datatype Tokens = Tokens(idToken: string, refreshToken: string, expiresInSec: u32)

  /** A sign-in or refresh response: the provider's error message ("" when there is none or
      the body is not JSON) and the token fields when the body is valid JSON. */
  datatype AuthBody = AuthBody(errorMessage: string, tokens: Option<Tokens>)

  /** One command object as parsed; a missing or mistyped field is `None`. */
  datatype CommandFields = CommandFields(kind: Option<string>, createdAt: Option<u32>, expiresAt: Option<u32>,
                                         requestedByUid: Option<string>, channel: Option<string>)

  /** One key of the commands document and its value, `None` when it is not an object. */
  datatype Entry = Entry(key: string, value: Option<CommandFields>)

  /** The commands document: not JSON, JSON `null`, an object whose "error" is a string,
      or anything else seen as its (possibly empty) list of entries. */
  datatype PollBody = Malformed | NullDocument | ErrorText(message: string) | Entries(entries: seq<Entry>)

  datatype Command = Command(commandId: string, kind: string, createdAt: u32, expiresAt: u32,
                             requestedByUid: string, channel: string)

  // ---------------------------------------------------------------- session

  /** `lastError_`. */
  datatype Error =
    | NoError | WifiDisconnected | AuthBackoff | InvalidDeviceCredentials | AuthRequired
    | AuthRefreshRequired | LowHeap | HttpBeginFailed | HttpRequestFailed | AuthRateLimited
    | SignInFailed(code: int) | SignInJsonInvalid | MissingIdToken | MissingRefreshToken
    | RefreshFailed(code: int) | RefreshJsonInvalid | Unauthorized | InvalidJson
    | ProviderError(message: string) | StatePatchFailed | CommandDeleteFailed | AuditWriteFailed
    | InvalidCommandId

  /** The persisted records the client reads and writes, or no store attached. */
  datatype Disk = NoStorage | Disk(cooldownUntil: u32, clockAnchor: u32)

  datatype Session = Session(
    idToken: string, refreshToken: string, tokenExpiryEpoch: u32,
    cloudCooldownUntil: u32, anchorEpoch: u32, anchorMillis: u32, cooldownLoaded: bool,
    nextAuthAttemptMs: u32, authBackoffMs: u32, nextSecureRequestMs: u32,
    credentialsRejected: bool, lastError: Error, disk: Disk)

  /** A client as constructed: the header's member initialisers. */
  function Initial(disk: Disk): (s: Session)
    ensures !s.cooldownLoaded && s.idToken == [] && s.authBackoffMs == AuthRetryInitialMs
  {
    Session([], [], 0, 0, 0, 0, false, 0, AuthRetryInitialMs, 0, false, NoError, disk)
  }

  // ---------------------------------------------------------------- clocks

  /** `effectiveNowEpoch`: the wall clock when it is set; otherwise the persisted anchor plus
      the whole seconds elapsed since it was loaded, when the anchor is set; otherwise 0. */
  function EffectiveNowEpoch(wallEpoch: u32, anchorEpoch: u32, anchorMillis: u32, nowMs: u32): (epoch: u32)
    ensures wallEpoch > ClockKnownEpoch ==> epoch == wallEpoch
    ensures wallEpoch <= ClockKnownEpoch && anchorEpoch <= ClockKnownEpoch ==> epoch == 0
  {
    if wallEpoch > ClockKnownEpoch then wallEpoch
    else if anchorEpoch > ClockKnownEpoch then Add(anchorEpoch, Sub(nowMs, anchorMillis) / 1000)
    else 0
  }

  function NowEpoch(s: Session, env: Env): u32 {
    EffectiveNowEpoch(env.wallEpoch, s.anchorEpoch, s.anchorMillis, env.nowMs)
  }

  /** Without a wall clock, the fallback clock counts whole seconds from the anchor even
      across a wrap of the millisecond counter. */
  lemma FallbackClockAdvances(anchorEpoch: u32, anchorMillis: u32, wallEpoch: u32, elapsedMs: u32)
    requires wallEpoch <= ClockKnownEpoch < anchorEpoch
    ensures EffectiveNowEpoch(wallEpoch, anchorEpoch, anchorMillis, Add(anchorMillis, elapsedMs))
         == Add(anchorEpoch, elapsedMs / 1000)
  {
    SubOfOffsets(anchorMillis, elapsedMs, 0);
    assert Add(anchorMillis, 0) == anchorMillis;
  }

  /** `cooldownActive`: no cooldown is never active; a cooldown with an unknown clock always
      is; otherwise it lasts until its epoch. */
  predicate CooldownActive(cooldownUntil: u32, nowEpoch: u32) {
    cooldownUntil != 0 && (nowEpoch == 0 || nowEpoch < cooldownUntil)
  }

  /** A cooldown set for `d` seconds at a known epoch `n` blocks exactly the epochs
      `n .. n+d-1` that follow, and blocks whenever the clock is unknown. */
  lemma CooldownSpan(n: u32, d: u32, t: u32)
    requires n > ClockKnownEpoch && 0 < d && n + d < Modulus && n <= t
    ensures CooldownActive(Add(n, d), t) <==> t < n + d
    ensures CooldownActive(Add(n, d), 0)
  {
  }

  /** `authBackoffActive`. */
  predicate AuthBackoffActive(nextAuthAttemptMs: u32, nowMs: u32) {
    nextAuthAttemptMs != 0 && MillisBefore(nowMs, nextAuthAttemptMs)
  }

  /** `secureSpacingRemainingMs`: how long to wait before the next secure request may start. */
  function SecureSpacingRemainingMs(nextAllowedMs: u32, nowMs: u32): (waitMs: u32)
    ensures waitMs == 0 <==> nextAllowedMs == 0 || !MillisBefore(nowMs, nextAllowedMs)
    ensures waitMs > 0 ==> Add(nowMs, waitMs) == nextAllowedMs && waitMs <= HalfModulus
  {
    if nextAllowedMs == 0 || !MillisBefore(nowMs, nextAllowedMs) then 0 else Sub(nextAllowedMs, nowMs)
  }

  /** `tokenExpiringSoon`. */
  predicate TokenExpiringSoon(idToken: string, tokenExpiryEpoch: u32, wallEpoch: u32) {
    idToken == []
    || (tokenExpiryEpoch != 0 && wallEpoch >= ClockKnownEpoch && Add(wallEpoch, TokenRefreshSkewSec) >= tokenExpiryEpoch)
  }

  /** A token issued at a known epoch with a lifetime above the skew is not due for refresh
      until the clock is within the skew of its expiry, and is due from then on. */
  lemma TokenDueWithinSkew(idToken: string, issuedAt: u32, expiresInSec: u32, t: u32)
    requires idToken != [] && issuedAt > ClockKnownEpoch && issuedAt <= t
    requires t + TokenRefreshSkewSec < Modulus && issuedAt + expiresInSec < Modulus
    ensures TokenExpiringSoon(idToken, Add(issuedAt, expiresInSec), t)
        <==> t + TokenRefreshSkewSec >= issuedAt + expiresInSec
  {
  }

  // ---------------------------------------------------------------- provider error classes

  predicate OccursAt(text: string, part: string, i: nat) {
    i + |part| <= |text| && text[i..i + |part|] == part
  }

  /** `String::indexOf(part) >= 0`. */
  predicate Contains(text: string, part: string) {
    exists i: nat | i <= |text| :: OccursAt(text, part, i)
  }

  /** `isFirebaseCredentialError`. */
  predicate IsCredentialError(message: string) {
    Contains(message, "INVALID_LOGIN_CREDENTIALS") || Contains(message, "INVALID_PASSWORD")
    || Contains(message, "EMAIL_NOT_FOUND") || Contains(message, "USER_DISABLED")
  }

  /** `isFirebaseRateLimitError`. */
  predicate IsRateLimitError(message: string) {
    Contains(message, "TOO_MANY_ATTEMPTS_TRY_LATER")
  }

  datatype SignInFailure = RateLimited | CredentialsRejected | OtherFailure

  /** How the sign-in failure branch classifies a non-2xx answer. */
  function ClassifySignInFailure(code: int, message: string): (f: SignInFailure)
    ensures f == RateLimited <==> code == 400 && IsRateLimitError(message)
    ensures f == CredentialsRejected
        <==> code == 400 && !IsRateLimitError(message) && (message == [] || IsCredentialError(message))
  {
    if code == 400 && IsRateLimitError(message) then RateLimited
    else if code == 400 && (message == [] || IsCredentialError(message)) then CredentialsRejected
    else OtherFailure
  }

  /** The rate-limit test comes first: a 400 whose message names both a rate limit and a
      credential error is a rate limit, an empty 400 message rejects the credentials, and
      the same message under any other code is neither. */
  lemma ClassificationPrecedence()
    ensures ClassifySignInFailure(400, "TOO_MANY_ATTEMPTS_TRY_LATER INVALID_PASSWORD") == RateLimited
    ensures ClassifySignInFailure(400, "") == CredentialsRejected
    ensures ClassifySignInFailure(400, "INVALID_PASSWORD") == CredentialsRejected
    ensures ClassifySignInFailure(500, "INVALID_PASSWORD") == OtherFailure
  {
    assert OccursAt("TOO_MANY_ATTEMPTS_TRY_LATER INVALID_PASSWORD", "TOO_MANY_ATTEMPTS_TRY_LATER", 0);
    assert OccursAt("INVALID_PASSWORD", "INVALID_PASSWORD", 0);
  }

  // ---------------------------------------------------------------- cooldown and backoff transitions

  /** `loadPersistedCooldown`: the cooldown and the fallback clock anchor are read from
      storage, and both read as 0 when no storage is attached. */
  function Loaded(s: Session, nowMs: u32): (t: Session)
    ensures t.cooldownLoaded && t.anchorMillis == nowMs
    ensures s.disk.Disk? ==> t.cloudCooldownUntil == s.disk.cooldownUntil && t.anchorEpoch == s.disk.clockAnchor
    ensures s.disk.NoStorage? ==> t.cloudCooldownUntil == 0 && t.anchorEpoch == 0
  {
    var cleared := s.(cooldownLoaded := true, cloudCooldownUntil := 0, anchorEpoch := 0, anchorMillis := nowMs);
    match s.disk
    case NoStorage => cleared
    case Disk(cooldownUntil, clockAnchor) => cleared.(cloudCooldownUntil := cooldownUntil, anchorEpoch := clockAnchor)
  }

  function SavedCooldown(disk: Disk, cooldownUntil: u32): Disk {
    if disk.NoStorage? then disk else disk.(cooldownUntil := cooldownUntil)
  }

  /** `setCloudCooldownUntil`. */
  function WithCooldown(s: Session, untilEpoch: u32): Session {
    s.(cloudCooldownUntil := untilEpoch, disk := SavedCooldown(s.disk, untilEpoch))
  }

  /** `clearCloudCooldown`: writes storage only when a cooldown was set. */
  function CooldownCleared(s: Session): Session {
    if s.cloudCooldownUntil == 0 then s else WithCooldown(s, 0)
  }

  /** A cooldown saved to storage is what a freshly constructed client loads after a
      restart. */
  lemma CooldownSurvivesRestart(s: Session, untilEpoch: u32, nowMs: u32)
    requires s.disk.Disk?
    ensures Loaded(Initial(WithCooldown(s, untilEpoch).disk), nowMs).cloudCooldownUntil == untilEpoch
  {
  }

  /** The floor `applyAuthBackoffMs` and `recordAuthResult` put under a backoff. */
  function Floored(backoffMs: u32): (b: u32)
    ensures b >= AuthRetryInitialMs && b >= backoffMs
    ensures backoffMs >= AuthRetryInitialMs ==> b == backoffMs
  {
    if backoffMs < AuthRetryInitialMs then AuthRetryInitialMs else backoffMs
  }

  /** `applyAuthBackoffMs`. */
  function BackedOff(s: Session, backoffMs: u32, nowMs: u32): Session {
    s.(nextAuthAttemptMs := Add(nowMs, Floored(backoffMs)), authBackoffMs := Floored(backoffMs))
  }

  /** The doubling step of `recordAuthResult` after a failure. */
  function Doubled(backoffMs: u32): (b: u32)
    ensures backoffMs < AuthRetryMaxMs ==> b == if 2 * backoffMs > AuthRetryMaxMs then AuthRetryMaxMs else 2 * backoffMs
    ensures backoffMs >= AuthRetryMaxMs ==> b == backoffMs
  {
    if backoffMs < AuthRetryMaxMs then (if 2 * backoffMs > AuthRetryMaxMs then AuthRetryMaxMs else 2 * backoffMs)
    else backoffMs
  }

  /** `recordAuthResult`. */
  function AuthRecorded(s: Session, success: bool, nowMs: u32): Session {
    if success then
      CooldownCleared(s.(nextAuthAttemptMs := 0, authBackoffMs := AuthRetryInitialMs, credentialsRejected := false))
    else
      var floored := Floored(s.authBackoffMs);
      BackedOff(s.(authBackoffMs := floored), floored, nowMs).(authBackoffMs := Doubled(floored))
  }

  /** A success clears every kind of backoff and the rejection latch. */
  lemma SuccessResetsBackoff(s: Session, nowMs: u32, env: Env)
    ensures var t := AuthRecorded(s, true, nowMs);
            !AuthBackoffActive(t.nextAuthAttemptMs, env.nowMs) && t.authBackoffMs == AuthRetryInitialMs
            && !t.credentialsRejected && !CooldownActive(t.cloudCooldownUntil, NowEpoch(t, env))
  {
  }

  /** A failure blocks the next attempt for exactly the floored previous backoff, whatever the
      millisecond counter reads, and grows the backoff without passing the cap. */
  lemma FailureBlocksForBackoff(s: Session, nowMs: u32, elapsedMs: u32)
    requires elapsedMs < HalfModulus && s.authBackoffMs <= AuthRetryMaxMs
    requires Add(nowMs, Floored(s.authBackoffMs)) != 0
    ensures var t := AuthRecorded(s, false, nowMs);
            (AuthBackoffActive(t.nextAuthAttemptMs, Add(nowMs, elapsedMs)) <==> elapsedMs < Floored(s.authBackoffMs))
            && Floored(s.authBackoffMs) <= t.authBackoffMs <= AuthRetryMaxMs
  {
    MillisBeforeElapsed(nowMs, elapsedMs, Floored(s.authBackoffMs));
    assert Add(nowMs, 0) == nowMs;
  }

  /** A deadline of 0 reads as "none": when `millis() + backoff` wraps to exactly 0, the
      failure leaves later attempts unblocked. */
  lemma BackoffWrappedToZeroIsSkipped(s: Session, nowMs: u32, laterMs: u32)
    requires Add(nowMs, Floored(s.authBackoffMs)) == 0
    ensures !AuthBackoffActive(AuthRecorded(s, false, nowMs).nextAuthAttemptMs, laterMs)
  {
  }

  function Pow2(k: nat): (p: nat)
    ensures p >= 1
  {
    if k == 0 then 1 else 2 * Pow2(k - 1)
  }

  /** The backoff after `k` consecutive failures from the initial value. */
  function BackoffAfter(k: nat): u32 {
    if k == 0 then AuthRetryInitialMs else Doubled(Floored(BackoffAfter(k - 1)))
  }

  /** The schedule is 8 s, 16 s, 32 s, 64 s and then the 120 s cap: `min(8000 * 2^k, 120000)`. */
  lemma {:induction false} BackoffSchedule(k: nat)
    ensures BackoffAfter(k) == if AuthRetryInitialMs * Pow2(k) < AuthRetryMaxMs then AuthRetryInitialMs * Pow2(k) else AuthRetryMaxMs
  {
    if k > 0 {
      BackoffSchedule(k - 1);
      if AuthRetryInitialMs * Pow2(k - 1) < AuthRetryMaxMs {
        assert AuthRetryInitialMs * Pow2(k) == 2 * (AuthRetryInitialMs * Pow2(k - 1));
      } else {
        assert AuthRetryInitialMs * Pow2(k) >= AuthRetryInitialMs * Pow2(k - 1);
      }
    }
  }

  // ---------------------------------------------------------------- the secure request gate

  datatype Outcome<B> = Failed | Answered(code: int, body: B)

  predicate LowHeapReading(env: Env) {
    env.freeHeap < MinFreeHeapBytes || env.maxBlock < MinMaxBlockBytes
  }

  /** The admission part of `doJsonRequest` (every request of the client is secure): wait out
      the spacing, refuse on low heap, stamp the next spacing deadline, then take the oracle's
      reply. Returns the outcome, the session and the environment after the wait. */
  function Exchange<B>(s: Session, env: Env, reply: Reply<B>): (r: (Outcome<B>, Session, Env))
    ensures r.2 == env.(nowMs := r.2.nowMs)
    ensures SecureSpacingRemainingMs(s.nextSecureRequestMs, r.2.nowMs) == 0
    ensures LowHeapReading(env) ==>
              && r.0 == Failed && r.1.lastError == LowHeap
              && r.1.nextSecureRequestMs == s.nextSecureRequestMs
              && r.1.nextAuthAttemptMs == Add(r.2.nowMs, LowHeapBackoffMs)
              && r.1.authBackoffMs == LowHeapBackoffMs
              && (NowEpoch(s, r.2) > ClockKnownEpoch ==>
                    r.1.cloudCooldownUntil == Add(NowEpoch(s, r.2), LowHeapBackoffMs / 1000))
              && (NowEpoch(s, r.2) <= ClockKnownEpoch ==> r.1.cloudCooldownUntil == s.cloudCooldownUntil)
    ensures !LowHeapReading(env) ==> r.1.nextSecureRequestMs == Add(r.2.nowMs, SecureRequestGapMs)
    ensures r.0.Answered? <==> !LowHeapReading(env) && reply.Completed? && reply.code > 0
    ensures r.0.Answered? ==>
              r.0 == Answered(reply.code, reply.body)
              && r.1 == s.(nextSecureRequestMs := Add(r.2.nowMs, SecureRequestGapMs))
  {
    var waitMs := SecureSpacingRemainingMs(s.nextSecureRequestMs, env.nowMs);
    var env1 := if waitMs > 0 then env.(nowMs := Add(env.nowMs, waitMs)) else env;
    if LowHeapReading(env1) then
      var s1 := BackedOff(s.(lastError := LowHeap), LowHeapBackoffMs, env1.nowMs);
      var nowEpoch := NowEpoch(s1, env1);
      (Failed, if nowEpoch > ClockKnownEpoch then WithCooldown(s1, Add(nowEpoch, LowHeapBackoffMs / 1000)) else s1, env1)
    else
      var s1 := s.(nextSecureRequestMs := Add(env1.nowMs, SecureRequestGapMs));
      match reply
      case AllocFailed => (Failed, BackedOff(s1.(lastError := LowHeap), LowHeapBackoffMs, env1.nowMs), env1)
      case BeginFailed => (Failed, s1.(lastError := HttpBeginFailed), env1)
      case Completed(code, body) =>
        if code <= 0 then (Failed, s1.(lastError := HttpRequestFailed), env1) else (Answered(code, body), s1, env1)
  }

  /** Two back-to-back secure requests start at least the 2.5 s gap apart: the second one
      waits until the deadline the first one stamped. */
  lemma RequestsAreSpaced<B, C>(s: Session, env: Env, first: Reply<B>, elapsedMs: u32, second: Reply<C>)
    requires !LowHeapReading(env) && elapsedMs < SecureRequestGapMs
    requires Add(Exchange(s, env, first).2.nowMs, SecureRequestGapMs) != 0
    ensures var (_, s1, env1) := Exchange(s, env, first);
            Exchange(s1, env1.(nowMs := Add(env1.nowMs, elapsedMs)), second).2.nowMs
              == Add(env1.nowMs, SecureRequestGapMs)
  {
    var (_, s1, env1) := Exchange(s, env, first);
    MillisBeforeElapsed(env1.nowMs, elapsedMs, SecureRequestGapMs);
  }

  /** Likewise for the spacing: when the stamped deadline wraps to exactly 0, the next
      secure request does not wait at all. */
  lemma SpacingWrappedToZeroIsSkipped<B, C>(s: Session, env: Env, first: Reply<B>, later: Env, second: Reply<C>)
    requires !LowHeapReading(env)
    requires Add(Exchange(s, env, first).2.nowMs, SecureRequestGapMs) == 0
    ensures Exchange(Exchange(s, env, first).1, later, second).2.nowMs == later.nowMs
  {
  }

  // ---------------------------------------------------------------- sign-in and refresh

  /** The token fields a successful response stores: the expiry is only known when the wall
      clock is set. */
  function WithTokens(s: Session, tokens: Tokens, wallEpoch: u32): Session {
    s.(idToken := tokens.idToken, refreshToken := tokens.refreshToken,
       tokenExpiryEpoch := if wallEpoch > ClockKnownEpoch then Add(wallEpoch, tokens.expiresInSec) else 0)
  }

  /** `signInWithPassword`. */
  function PasswordSignIn(s: Session, env: Env, reply: Reply<AuthBody>): (r: (bool, Session, Env))
    ensures r.0 ==> r.1.idToken != [] && r.1.lastError == NoError
    ensures r.1.credentialsRejected != s.credentialsRejected ==>
              exists e :: reply == Completed(400, e) && !r.0
  {
    var (outcome, s1, env1) := Exchange(s, env, reply);
    match outcome
    case Failed => (false, s1, env1)
    case Answered(code, body) =>
      var (ok, s2) := SignInAnswer(s1, env1, code, body);
      (ok, s2, env1)
  }

  /** How `signInWithPassword` reads an answered request: the failure classes for non-2xx,
      then the token fields. */
  function SignInAnswer(s: Session, env: Env, code: int, body: AuthBody): (r: (bool, Session))
    ensures r.0 ==> r.1.idToken != [] && r.1.lastError == NoError
    ensures r.1.credentialsRejected != s.credentialsRejected ==> code == 400 && !r.0
  {
    if code < 200 || code >= 300 then
      match ClassifySignInFailure(code, body.errorMessage)
      case RateLimited =>
        var s2 := s.(lastError := AuthRateLimited, credentialsRejected := false, authBackoffMs := RateLimitBackoffMs);
        var nowEpoch := NowEpoch(s2, env);
        (false, if nowEpoch > ClockKnownEpoch then WithCooldown(s2, Add(nowEpoch, RateLimitBackoffMs / 1000)) else s2)
      case CredentialsRejected =>
        (false, s.(lastError := InvalidDeviceCredentials, credentialsRejected := true, authBackoffMs := 2 * AuthRetryMaxMs))
      case OtherFailure =>
        (false, s.(lastError := SignInFailed(code)))
    else
      match body.tokens
      case None => (false, s.(lastError := SignInJsonInvalid))
      case Some(tokens) =>
        var s2 := WithTokens(s, tokens, env.wallEpoch);
        if tokens.idToken == [] then (false, s2.(lastError := MissingIdToken))
        else (true, s2.(lastError := NoError))
  }

  /** `refreshIdToken`. */
  function TokenRefresh(s: Session, env: Env, reply: Reply<AuthBody>): (r: (bool, Session, Env))
    ensures r.0 ==> r.1.idToken != [] && r.1.lastError == NoError
    ensures s.refreshToken == [] ==> r == (false, s.(lastError := MissingRefreshToken), env)
    ensures r.1.credentialsRejected == s.credentialsRejected
  {
    if s.refreshToken == [] then (false, s.(lastError := MissingRefreshToken), env)
    else
      var (outcome, s1, env1) := Exchange(s, env, reply);
      match outcome
      case Failed => (false, s1, env1)
      case Answered(code, body) =>
        if code < 200 || code >= 300 then (false, s1.(lastError := RefreshFailed(code)), env1)
        else
          match body.tokens
          case None => (false, s1.(lastError := RefreshJsonInvalid), env1)
          case Some(tokens) =>
            var s2 := WithTokens(s1, tokens, env1.wallEpoch);
            if tokens.idToken != [] then (true, s2.(lastError := NoError), env1) else (false, s2, env1)
  }

  // ---------------------------------------------------------------- ensureSignedIn

  datatype Admission = Refused(error: Error) | NeedsSignIn | NeedsRefresh | Admitted

  /** The ordered checks of `ensureSignedIn` on an already loaded session; the first that
      matches decides. */
  function Admit(s: Session, env: Env, allowActiveAuth: bool): Admission {
    if !env.wifiConnected then Refused(WifiDisconnected)
    else if CooldownActive(s.cloudCooldownUntil, NowEpoch(s, env)) then Refused(AuthBackoff)
    else if s.credentialsRejected then Refused(InvalidDeviceCredentials)
    else if AuthBackoffActive(s.nextAuthAttemptMs, env.nowMs) then Refused(AuthBackoff)
    else if s.idToken == [] then (if allowActiveAuth then NeedsSignIn else Refused(AuthRequired))
    else if TokenExpiringSoon(s.idToken, s.tokenExpiryEpoch, env.wallEpoch) then
      (if !allowActiveAuth then Refused(AuthRefreshRequired)
       else if s.refreshToken == [] then NeedsSignIn
       else NeedsRefresh)
    else Admitted
  }

  /** `loadPersistedCooldown` on first use. */
  function EnsureLoaded(s: Session, nowMs: u32): Session {
    if s.cooldownLoaded then s else Loaded(s, nowMs)
  }

  /** `ensureSignedIn(allowActiveAuth)`: the verdict, the session and the environment after
      any sign-in or refresh request. */
  function SignInCheck(s: Session, env: Env, allowActiveAuth: bool, reply: Reply<AuthBody>): (r: (bool, Session, Env))
    ensures r.1.cooldownLoaded
  {
    var s0 := EnsureLoaded(s, env.nowMs);
    match Admit(s0, env, allowActiveAuth)
    case Refused(e) => (false, s0.(lastError := e), env)
    case Admitted => (true, s0, env)
    case NeedsSignIn =>
      var (ok, s1, env1) := PasswordSignIn(s0, env, reply);
      (ok, AuthRecorded(s1, ok, env1.nowMs), env1)
    case NeedsRefresh =>
      var (ok, s1, env1) := TokenRefresh(s0, env, reply);
      var s2 := AuthRecorded(s1, ok, env1.nowMs);
      (ok, if ok then s2 else s2.(idToken := []), env1)
  }

  /** The four guards before any authentication (Wi-Fi, cooldown, rejected credentials,
      millisecond backoff) and the two passive refusals make no request and change nothing
      but `lastError_`: the backoff, the tokens and the spacing deadline stay as they were. */
  lemma RefusalChangesOnlyLastError(s: Session, env: Env, allowActiveAuth: bool, reply: Reply<AuthBody>)
    requires s.cooldownLoaded && Admit(s, env, allowActiveAuth).Refused?
    ensures SignInCheck(s, env, allowActiveAuth, reply)
         == (false, s.(lastError := Admit(s, env, allowActiveAuth).error), env)
  {
  }

  /** Without active authentication no request is ever made, so the reply is irrelevant. */
  lemma PassiveCheckMakesNoRequest(s: Session, env: Env, a: Reply<AuthBody>, b: Reply<AuthBody>)
    ensures SignInCheck(s, env, false, a) == SignInCheck(s, env, false, b)
    ensures SignInCheck(s, env, false, a).2 == env
  {
  }

  /** Once the credentials are rejected, every later check fails and the latch stays set:
      only a restart (a new client) clears it, since success is the only way to reset it and
      no sign-in is ever attempted again. */
  lemma RejectionIsPermanent(s: Session, env: Env, allowActiveAuth: bool, reply: Reply<AuthBody>)
    requires s.credentialsRejected
    ensures var r := SignInCheck(s, env, allowActiveAuth, reply);
            !r.0 && r.1.credentialsRejected
            && (env.wifiConnected && !CooldownActive(r.1.cloudCooldownUntil, NowEpoch(r.1, env))
                ==> r.1.lastError == InvalidDeviceCredentials)
  {
  }

  /** A sign-in that the provider rate-limits keeps the client away for the full rate-limit
      backoff: the next attempt is 300 s after the answer, the backoff stays at 300 s, and
      with a known clock a 300 s cooldown is also persisted. */
  lemma RateLimitedSignInBacksOff(s: Session, env: Env, message: string)
    requires s.cooldownLoaded && Admit(s, env, true) == NeedsSignIn
    requires !LowHeapReading(env) && IsRateLimitError(message)
    ensures var r := SignInCheck(s, env, true, Completed(400, AuthBody(message, None)));
            !r.0 && r.1.lastError == AuthRateLimited && !r.1.credentialsRejected
            && r.1.authBackoffMs == RateLimitBackoffMs
            && r.1.nextAuthAttemptMs == Add(r.2.nowMs, RateLimitBackoffMs)
            && (NowEpoch(s, r.2) > ClockKnownEpoch ==>
                  r.1.cloudCooldownUntil == Add(NowEpoch(s, r.2), RateLimitBackoffMs / 1000))
  {
    var (_, s1, env1) := Exchange(s, env, Completed(400, AuthBody(message, None)));
    assert NowEpoch(s1, env1) == NowEpoch(s, env1);
  }

  /** A 400 naming bad credentials latches the rejection and sets the 240 s backoff before
      the failure is recorded. */
  lemma BadCredentialsLatch(s: Session, env: Env, message: string)
    requires s.cooldownLoaded && Admit(s, env, true) == NeedsSignIn
    requires !LowHeapReading(env) && !IsRateLimitError(message) && IsCredentialError(message)
    ensures var r := SignInCheck(s, env, true, Completed(400, AuthBody(message, None)));
            !r.0 && r.1.credentialsRejected && r.1.lastError == InvalidDeviceCredentials
            && r.1.nextAuthAttemptMs == Add(r.2.nowMs, 2 * AuthRetryMaxMs)
  {
  }

  /** A failed refresh drops the id token, so the next active check signs in afresh. */
  lemma FailedRefreshForcesSignIn(s: Session, env: Env, reply: Reply<AuthBody>, later: Env)
    requires s.cooldownLoaded && Admit(s, env, true) == NeedsRefresh
    requires !SignInCheck(s, env, true, reply).0
    ensures var r := SignInCheck(s, env, true, reply);
            r.1.idToken == [] && Admit(r.1, later, true) in {Refused(WifiDisconnected), Refused(AuthBackoff), NeedsSignIn}
  {
  }

  /** `begin`. */
  function Started(s: Session, env: Env): (r: (bool, Session, Env)) {
    var s0 := EnsureLoaded(s, env.nowMs);
    if !env.wifiConnected then (false, s0.(lastError := WifiDisconnected), env)
    else SignInCheck(s0, env, false, BeginFailed)
  }

  /** `begin` is exactly the passive check: its own Wi-Fi test and load repeat the first
      steps of `ensureSignedIn`. */
  lemma StartIsPassiveCheck(s: Session, env: Env, reply: Reply<AuthBody>)
    ensures Started(s, env) == SignInCheck(s, env, false, reply)
  {
    PassiveCheckMakesNoRequest(s, env, BeginFailed, reply);
  }

  /** `shouldSkipCloudWrites` (it does not load the persisted cooldown first). */
  predicate ShouldSkipCloudWrites(s: Session, env: Env) {
    !env.wifiConnected || s.idToken == [] || AuthBackoffActive(s.nextAuthAttemptMs, env.nowMs)
    || CooldownActive(s.cloudCooldownUntil, NowEpoch(s, env))
  }

  /** On a loaded session the passive check succeeds exactly when writes are not skipped,
      the credentials are not rejected and the token is not due for refresh. */
  lemma SkipAgreesWithPassiveCheck(s: Session, env: Env, reply: Reply<AuthBody>)
    requires s.cooldownLoaded
    ensures SignInCheck(s, env, false, reply).0
        <==> !ShouldSkipCloudWrites(s, env) && !s.credentialsRejected
             && !TokenExpiringSoon(s.idToken, s.tokenExpiryEpoch, env.wallEpoch)
  {
  }

  // ---------------------------------------------------------------- commands

  datatype PollResult = PollResult(ok: bool, error: Error, commands: seq<Command>)

  /** One command with `| ""` and `| 0` defaults for missing fields. */
  function ToCommand(key: string, fields: CommandFields): Command {
    Command(key,
            if fields.kind.Some? then fields.kind.value else "",
            if fields.createdAt.Some? then fields.createdAt.value else 0,
            if fields.expiresAt.Some? then fields.expiresAt.value else 0,
            if fields.requestedByUid.Some? then fields.requestedByUid.value else "",
            if fields.channel.Some? then fields.channel.value else "")
  }

  /** Every object entry as a command, in document order. */
  function ObjectCommands(entries: seq<Entry>): seq<Command> {
    if entries == [] then []
    else
      var n := |entries|;
      ObjectCommands(entries[..n - 1])
        + (if entries[n - 1].value.Some? then [ToCommand(entries[n - 1].key, entries[n - 1].value.value)] else [])
  }

  /** The commands a successful poll reports: the first eight object entries. */
  function PolledCommands(entries: seq<Entry>): (commands: seq<Command>)
    ensures |commands| <= MaxPolledCommands
  {
    var all := ObjectCommands(entries);
    if |all| <= MaxPolledCommands then all else all[..MaxPolledCommands]
  }

  /** Every reported command is a parsed object entry of the document, and non-object
      entries are never reported. */
  lemma {:induction false} ObjectCommandsSound(entries: seq<Entry>, c: Command)
    requires c in ObjectCommands(entries)
    ensures exists i :: 0 <= i < |entries| && entries[i].value.Some?
                        && c == ToCommand(entries[i].key, entries[i].value.value)
  {
    var n := |entries|;
    if c in ObjectCommands(entries[..n - 1]) {
      ObjectCommandsSound(entries[..n - 1], c);
      var i :| 0 <= i < n - 1 && entries[..n - 1][i].value.Some?
               && c == ToCommand(entries[..n - 1][i].key, entries[..n - 1][i].value.value);
      assert entries[i] == entries[..n - 1][i];
    }
  }

  /** When every entry of the document is an object, none is skipped: each yields one
      command. */
  lemma {:induction false} ObjectCommandsCount(entries: seq<Entry>)
    requires forall i :: 0 <= i < |entries| ==> entries[i].value.Some?
    ensures |ObjectCommands(entries)| == |entries|
  {
    if entries != [] {
      ObjectCommandsCount(entries[..|entries| - 1]);
    }
  }

  /** `pollCommands` once signed in: the request and the handling of its answer. */
  function PollRequest(s: Session, env: Env, pollReply: Reply<PollBody>): (r: (PollResult, Session, Env))
    ensures r.0.ok ==> r.0.error == NoError && |r.0.commands| <= MaxPolledCommands
    ensures !r.0.ok ==> r.0.commands == [] && r.0.error == r.1.lastError
  {
    var (outcome, s2, env2) := Exchange(s, env, pollReply);
    match outcome
    case Failed => (PollResult(false, s2.lastError, []), s2, env2)
    case Answered(code, body) =>
      var (result, s3) := PollAnswer(s2, env2, code, body);
      (result, s3, env2)
  }

  /** How `pollCommands` reads an answered request: the 401/403 session wipe, then the
      commands document. */
  function PollAnswer(s: Session, env: Env, code: int, body: PollBody): (r: (PollResult, Session))
    ensures r.0.ok ==> r.0.error == NoError && |r.0.commands| <= MaxPolledCommands && r.1 == s
    ensures !r.0.ok ==> r.0.commands == [] && r.0.error == r.1.lastError
  {
    if code == 401 || code == 403 then (PollResult(false, Unauthorized, []), SessionWiped(s, env))
    else
      match body
      case Malformed => (PollResult(false, InvalidJson, []), s.(lastError := InvalidJson))
      case NullDocument => (PollResult(true, NoError, []), s)
      case ErrorText(message) => (PollResult(false, ProviderError(message), []), s.(lastError := ProviderError(message)))
      case Entries(entries) => (PollResult(true, NoError, PolledCommands(entries)), s)
  }

  /** The 401/403 branch of `pollCommands`: drop both tokens and the expiry, persist a
      cooldown when the clock is known, and back off for the unauthorized period. */
  function SessionWiped(s: Session, env: Env): (t: Session)
    ensures t.lastError == Unauthorized
  {
    var s3 := s.(idToken := [], refreshToken := [], tokenExpiryEpoch := 0, lastError := Unauthorized);
    var nowEpoch := NowEpoch(s3, env);
    var s4 := if nowEpoch > ClockKnownEpoch then WithCooldown(s3, Add(nowEpoch, UnauthorizedBackoffMs / 1000)) else s3;
    BackedOff(s4, UnauthorizedBackoffMs, env.nowMs)
  }

  /** `pollCommands`: the active check, then the request. */
  function Poll(s: Session, env: Env, authReply: Reply<AuthBody>, pollReply: Reply<PollBody>)
    : (r: (PollResult, Session, Env))
    ensures r.0.ok ==> r.0.error == NoError && |r.0.commands| <= MaxPolledCommands
    ensures !r.0.ok ==> r.0.commands == [] && r.0.error == r.1.lastError
  {
    var (signed, s1, env1) := SignInCheck(s, env, true, authReply);
    if !signed then (PollResult(false, s1.lastError, []), s1, env1)
    else PollRequest(s1, env1, pollReply)
  }

  /** A 401 or 403 on a poll wipes the session, applies the 300 s backoff and, with a known
      clock, persists a 300 s cooldown; from then on cloud writes are skipped. */
  lemma UnauthorizedWipesSession(s: Session, env: Env, authReply: Reply<AuthBody>, code: int, body: PollBody, later: Env)
    requires code == 401 || code == 403
    requires SignInCheck(s, env, true, authReply).0
    requires !LowHeapReading(SignInCheck(s, env, true, authReply).2)
    ensures var (result, t, env2) := Poll(s, env, authReply, Completed(code, body));
            !result.ok && result.error == Unauthorized
            && t.idToken == [] && t.refreshToken == [] && t.tokenExpiryEpoch == 0
            && t.nextAuthAttemptMs == Add(env2.nowMs, UnauthorizedBackoffMs)
            && t.authBackoffMs == UnauthorizedBackoffMs
            && (NowEpoch(t, env2) > ClockKnownEpoch ==> t.cloudCooldownUntil == Add(NowEpoch(t, env2), 300))
            && ShouldSkipCloudWrites(t, later)
  {
  }

  /** A cloud write (`patchState`, `deleteCommand`, `writeAudit`) after the passive check:
      a 2xx answer succeeds, any other answer records `failure`. */
  function CloudWrite(s: Session, env: Env, reply: Reply<()>, failure: Error): (r: (bool, Session, Env))
    ensures r.0 ==> SignInCheck(s, env, false, BeginFailed).0 && reply.Completed? && 200 <= reply.code < 300
  {
    var (signed, s1, env1) := SignInCheck(s, env, false, BeginFailed);
    if !signed then (false, s1, env1)
    else
      var (outcome, s2, env2) := Exchange(s1, env1, reply);
      match outcome
      case Failed => (false, s2, env2)
      case Answered(code, _) => if 200 <= code < 300 then (true, s2, env2) else (false, s2.(lastError := failure), env2)
  }

  /** `deleteCommand`: an empty id is refused before any check or request. */
  function Deletion(s: Session, env: Env, commandId: string, reply: Reply<()>): (r: (bool, Session, Env))
    ensures commandId == [] ==> r == (false, s.(lastError := InvalidCommandId), env)
    ensures commandId != [] ==> r == CloudWrite(s, env, reply, CommandDeleteFailed)
  {
    if commandId == [] then (false, s.(lastError := InvalidCommandId), env)
    else CloudWrite(s, env, reply, CommandDeleteFailed)
  }
}
