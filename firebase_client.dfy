/** Class `FirebaseClient` of nodemcu/poot_lock/firebase_client.cpp with its fields updated in
    place. Every method is proved to leave the client (and the attached store) in the state
    the matching transition of `FirebaseModel` describes, so the lemmas proved there hold of
    the class. The const predicates of the source (`cooldownActive`, `authBackoffActive`,
    `tokenExpiringSoon`, ...) are the pure functions of `FirebaseModel` applied to the
    fields. */
module Firebase {
  import opened U32
  import opened Storage
  import opened FirebaseModel

  /** The commands loop of `pollCommands`: stop once eight are stored, skip entries that are
      not objects, default missing fields. */
  method ParseCommands(entries: seq<Entry>) returns (commands: seq<Command>)
    ensures commands == PolledCommands(entries)
  {
    commands := [];
    var i := 0;
    while i < |entries|
      invariant 0 <= i <= |entries|
      invariant commands == ObjectCommands(entries[..i]) && |commands| <= MaxPolledCommands
    {
      if |commands| >= MaxPolledCommands {
        ObjectCommandsPrefix(entries, i);
        return;
      }
      assert entries[..i + 1][..i] == entries[..i];
      var entry := entries[i];
      if entry.value.Some? {
        commands := commands + [ToCommand(entry.key, entry.value.value)];
      }
      i := i + 1;
    }
    assert entries[..i] == entries;
  }

  /** The commands of a prefix of the document are a prefix of the document's commands. */
  lemma {:induction false} ObjectCommandsPrefix(entries: seq<Entry>, i: nat)
    requires i <= |entries|
    ensures ObjectCommands(entries[..i]) <= ObjectCommands(entries)
    decreases |entries|
  {
    if i < |entries| {
      var n := |entries|;
      assert entries[..n - 1][..i] == entries[..i];
      ObjectCommandsPrefix(entries[..n - 1], i);
    } else {
      assert entries[..i] == entries;
    }
  }

  function DiskOf(store: Store?): Disk
    reads store
  {
    if store == null then NoStorage else Disk(store.cloudCooldownUntil, store.clockAnchor)
  }

  class FirebaseClient {
    var idToken: string
    var refreshToken: string
    var tokenExpiryEpoch: u32
    var cloudCooldownUntil: u32
    /** `fallbackClockAnchorEpoch_`, `fallbackClockAnchorMillis_`. */
    var anchorEpoch: u32
    var anchorMillis: u32
    var cooldownLoaded: bool
    const storage: Store?
    var nextAuthAttemptMs: u32
    var authBackoffMs: u32
    var nextSecureRequestMs: u32
    var credentialsRejected: bool
    var lastError: Error

    /** The client and its store as a value. */
    function Snapshot(): Session
      reads this, storage
    {
      Session(idToken, refreshToken, tokenExpiryEpoch, cloudCooldownUntil, anchorEpoch, anchorMillis,
              cooldownLoaded, nextAuthAttemptMs, authBackoffMs, nextSecureRequestMs,
              credentialsRejected, lastError, DiskOf(storage))
    }

    /** A client with no store attached. */
    constructor ()
      ensures storage == null && Snapshot() == Initial(NoStorage)
    {
      idToken, refreshToken, tokenExpiryEpoch := [], [], 0;
      cloudCooldownUntil, anchorEpoch, anchorMillis, cooldownLoaded := 0, 0, 0, false;
      storage := null;
      nextAuthAttemptMs, authBackoffMs, nextSecureRequestMs := 0, AuthRetryInitialMs, 0;
      credentialsRejected, lastError := false, NoError;
    }

    /** A client followed by `setStorage(store)`, which loads the persisted cooldown and
        clock anchor at once. */
    constructor WithStorage(store: Store, nowMs: u32)
      ensures storage == store && Snapshot() == Loaded(Initial(DiskOf(store)), nowMs)
    {
      idToken, refreshToken, tokenExpiryEpoch := [], [], 0;
      cloudCooldownUntil, anchorEpoch, anchorMillis, cooldownLoaded := 0, 0, 0, false;
      storage := store;
      nextAuthAttemptMs, authBackoffMs, nextSecureRequestMs := 0, AuthRetryInitialMs, 0;
      credentialsRejected, lastError := false, NoError;
      new;
      LoadPersistedCooldown(nowMs);
    }

    /** `loadPersistedCooldown`. */
    method LoadPersistedCooldown(nowMs: u32)
      modifies this
      ensures Snapshot() == Loaded(old(Snapshot()), nowMs)
    {
      cooldownLoaded := true;
      cloudCooldownUntil := 0;
      anchorEpoch := 0;
      anchorMillis := nowMs;
      if storage == null {
        return;
      }
      cloudCooldownUntil := storage.cloudCooldownUntil;
      anchorEpoch := storage.clockAnchor;
      anchorMillis := nowMs;
    }

    /** `setCloudCooldownUntil`. */
    method SetCloudCooldownUntil(untilEpoch: u32)
      modifies this, storage
      ensures Snapshot() == WithCooldown(old(Snapshot()), untilEpoch)
      ensures storage != null ==> storage.replay == old(storage.replay)
    {
      cloudCooldownUntil := untilEpoch;
      if storage != null {
        storage.SaveCloudCooldownUntil(untilEpoch);
      }
    }

    /** `clearCloudCooldown`. */
    method ClearCloudCooldown()
      modifies this, storage
      ensures Snapshot() == CooldownCleared(old(Snapshot()))
      ensures storage != null ==> storage.replay == old(storage.replay)
    {
      if cloudCooldownUntil == 0 {
        return;
      }
      cloudCooldownUntil := 0;
      if storage != null {
        storage.SaveCloudCooldownUntil(0);
      }
    }

    /** `applyAuthBackoffMs`. */
    method ApplyAuthBackoffMs(backoffMs: u32, nowMs: u32)
      modifies this
      ensures Snapshot() == BackedOff(old(Snapshot()), backoffMs, nowMs)
    {
      var b := backoffMs;
      if b < AuthRetryInitialMs {
        b := AuthRetryInitialMs;
      }
      nextAuthAttemptMs := Add(nowMs, b);
      authBackoffMs := b;
    }

    /** `recordAuthResult`. */
    method RecordAuthResult(success: bool, nowMs: u32)
      modifies this, storage
      ensures Snapshot() == AuthRecorded(old(Snapshot()), success, nowMs)
      ensures storage != null ==> storage.replay == old(storage.replay)
    {
      if success {
        nextAuthAttemptMs := 0;
        authBackoffMs := AuthRetryInitialMs;
        credentialsRejected := false;
        ClearCloudCooldown();
        return;
      }
      if authBackoffMs < AuthRetryInitialMs {
        authBackoffMs := AuthRetryInitialMs;
      }
      ApplyAuthBackoffMs(authBackoffMs, nowMs);
      if authBackoffMs < AuthRetryMaxMs {
        var doubled := 2 * authBackoffMs;
        authBackoffMs := if doubled > AuthRetryMaxMs then AuthRetryMaxMs else doubled;
      }
    }

    /** The spacing wait and low-heap gate of `doJsonRequest`, then the oracle's reply. */
    method DoJsonRequest<B>(env: Env, reply: Reply<B>) returns (outcome: Outcome<B>, after: Env)
      modifies this, storage
      ensures (outcome, Snapshot(), after) == Exchange(old(Snapshot()), env, reply)
      ensures storage != null ==> storage.replay == old(storage.replay)
    {
      after := env;
      var waitMs := SecureSpacingRemainingMs(nextSecureRequestMs, env.nowMs);
      if waitMs > 0 {
        after := env.(nowMs := Add(env.nowMs, waitMs));
      }
      if after.freeHeap < MinFreeHeapBytes || after.maxBlock < MinMaxBlockBytes {
        lastError := LowHeap;
        ApplyAuthBackoffMs(LowHeapBackoffMs, after.nowMs);
        var nowEpoch := EffectiveNowEpoch(after.wallEpoch, anchorEpoch, anchorMillis, after.nowMs);
        if nowEpoch > ClockKnownEpoch {
          SetCloudCooldownUntil(Add(nowEpoch, LowHeapBackoffMs / 1000));
        }
        return Failed, after;
      }
      nextSecureRequestMs := Add(after.nowMs, SecureRequestGapMs);
      match reply
      case AllocFailed =>
        lastError := LowHeap;
        ApplyAuthBackoffMs(LowHeapBackoffMs, after.nowMs);
        return Failed, after;
      case BeginFailed =>
        lastError := HttpBeginFailed;
        return Failed, after;
      case Completed(code, body) =>
        if code <= 0 {
          lastError := HttpRequestFailed;
          return Failed, after;
        }
        return Answered(code, body), after;
    }

    /** `signInWithPassword`. */
    method SignInWithPassword(env: Env, reply: Reply<AuthBody>) returns (ok: bool, after: Env)
      modifies this, storage
      ensures (ok, Snapshot(), after) == PasswordSignIn(old(Snapshot()), env, reply)
      ensures storage != null ==> storage.replay == old(storage.replay)
    {
      var outcome;
      outcome, after := DoJsonRequest(env, reply);
      if outcome.Failed? {
        return false, after;
      }
      ok := ReadSignInAnswer(after, outcome.code, outcome.body);
    }

    /** The answer handling of `signInWithPassword`. */
    method ReadSignInAnswer(env: Env, code: int, body: AuthBody) returns (ok: bool)
      modifies this, storage
      ensures (ok, Snapshot()) == SignInAnswer(old(Snapshot()), env, code, body)
      ensures storage != null ==> storage.replay == old(storage.replay)
    {
      if code < 200 || code >= 300 {
        var failure := ClassifySignInFailure(code, body.errorMessage);
        if failure == RateLimited {
          lastError := AuthRateLimited;
          credentialsRejected := false;
          authBackoffMs := RateLimitBackoffMs;
          var nowEpoch := EffectiveNowEpoch(env.wallEpoch, anchorEpoch, anchorMillis, env.nowMs);
          if nowEpoch > ClockKnownEpoch {
            SetCloudCooldownUntil(Add(nowEpoch, RateLimitBackoffMs / 1000));
          }
        } else if failure == CredentialsRejected {
          lastError := InvalidDeviceCredentials;
          credentialsRejected := true;
          authBackoffMs := 2 * AuthRetryMaxMs;
        } else {
          lastError := SignInFailed(code);
        }
        return false;
      }
      if body.tokens.None? {
        lastError := SignInJsonInvalid;
        return false;
      }
      var tokens := body.tokens.value;
      idToken := tokens.idToken;
      refreshToken := tokens.refreshToken;
      tokenExpiryEpoch := if env.wallEpoch > ClockKnownEpoch then Add(env.wallEpoch, tokens.expiresInSec) else 0;
      if idToken == [] {
        lastError := MissingIdToken;
        return false;
      }
      lastError := NoError;
      return true;
    }

    /** `refreshIdToken`. */
    method RefreshIdToken(env: Env, reply: Reply<AuthBody>) returns (ok: bool, after: Env)
      modifies this, storage
      ensures (ok, Snapshot(), after) == TokenRefresh(old(Snapshot()), env, reply)
      ensures storage != null ==> storage.replay == old(storage.replay)
    {
      if refreshToken == [] {
        lastError := MissingRefreshToken;
        return false, env;
      }
      var outcome;
      outcome, after := DoJsonRequest(env, reply);
      if outcome.Failed? {
        return false, after;
      }
      var code, body := outcome.code, outcome.body;
      if code < 200 || code >= 300 {
        lastError := RefreshFailed(code);
        return false, after;
      }
      if body.tokens.None? {
        lastError := RefreshJsonInvalid;
        return false, after;
      }
      var tokens := body.tokens.value;
      idToken := tokens.idToken;
      refreshToken := tokens.refreshToken;
      tokenExpiryEpoch := if after.wallEpoch > ClockKnownEpoch then Add(after.wallEpoch, tokens.expiresInSec) else 0;
      ok := idToken != [];
      if ok {
        lastError := NoError;
      }
    }

    /** `ensureSignedIn(allowActiveAuth)`; `reply` answers the sign-in or refresh request if
        one is made. */
    method EnsureSignedIn(env: Env, allowActiveAuth: bool, reply: Reply<AuthBody>) returns (ok: bool, after: Env)
      modifies this, storage
      ensures (ok, Snapshot(), after) == SignInCheck(old(Snapshot()), env, allowActiveAuth, reply)
      ensures storage != null ==> storage.replay == old(storage.replay)
    {
      if !cooldownLoaded {
        LoadPersistedCooldown(env.nowMs);
      }
      after := env;
      if !env.wifiConnected {
        lastError := WifiDisconnected;
        return false, after;
      }
      var nowEpoch := EffectiveNowEpoch(env.wallEpoch, anchorEpoch, anchorMillis, env.nowMs);
      if CooldownActive(cloudCooldownUntil, nowEpoch) {
        lastError := AuthBackoff;
        return false, after;
      }
      if credentialsRejected {
        lastError := InvalidDeviceCredentials;
        return false, after;
      }
      if AuthBackoffActive(nextAuthAttemptMs, env.nowMs) {
        lastError := AuthBackoff;
        return false, after;
      }
      if idToken == [] {
        if !allowActiveAuth {
          lastError := AuthRequired;
          return false, after;
        }
        ok, after := SignInWithPassword(env, reply);
        RecordAuthResult(ok, after.nowMs);
        return;
      }
      if TokenExpiringSoon(idToken, tokenExpiryEpoch, env.wallEpoch) {
        if !allowActiveAuth {
          lastError := AuthRefreshRequired;
          return false, after;
        }
        if refreshToken == [] {
          ok, after := SignInWithPassword(env, reply);
          RecordAuthResult(ok, after.nowMs);
          return;
        }
        ok, after := RefreshIdToken(env, reply);
        RecordAuthResult(ok, after.nowMs);
        if !ok {
          idToken := [];
        }
        return;
      }
      return true, after;
    }

    /** `begin`: makes no request, so the passive check gets a reply it never reads. */
    method Begin(env: Env) returns (ok: bool)
      modifies this, storage
      ensures (ok, Snapshot(), env) == Started(old(Snapshot()), env)
      ensures storage != null ==> storage.replay == old(storage.replay)
    {
      if !cooldownLoaded {
        LoadPersistedCooldown(env.nowMs);
      }
      if !env.wifiConnected {
        lastError := WifiDisconnected;
        return false;
      }
      var after;
      ok, after := EnsureSignedIn(env, false, BeginFailed);
    }

    /** `pollCommands`. */
    method PollCommands(env: Env, authReply: Reply<AuthBody>, pollReply: Reply<PollBody>)
      returns (result: PollResult, after: Env)
      modifies this, storage
      ensures (result, Snapshot(), after) == Poll(old(Snapshot()), env, authReply, pollReply)
      ensures storage != null ==> storage.replay == old(storage.replay)
    {
      var signed;
      signed, after := EnsureSignedIn(env, true, authReply);
      if !signed {
        return PollResult(false, lastError, []), after;
      }
      result, after := RequestCommands(after, pollReply);
    }

    /** The part of `pollCommands` after the sign-in check. */
    method RequestCommands(env: Env, pollReply: Reply<PollBody>) returns (result: PollResult, after: Env)
      modifies this, storage
      ensures (result, Snapshot(), after) == PollRequest(old(Snapshot()), env, pollReply)
      ensures storage != null ==> storage.replay == old(storage.replay)
    {
      var outcome;
      outcome, after := DoJsonRequest(env, pollReply);
      if outcome.Failed? {
        return PollResult(false, lastError, []), after;
      }
      result := ReadPollAnswer(after, outcome.code, outcome.body);
    }

    /** The answer handling of `pollCommands`: the 401/403 session wipe and the reading of
        the commands document. */
    method ReadPollAnswer(env: Env, code: int, body: PollBody) returns (result: PollResult)
      modifies this, storage
      ensures (result, Snapshot()) == PollAnswer(old(Snapshot()), env, code, body)
      ensures storage != null ==> storage.replay == old(storage.replay)
    {
      if code == 401 || code == 403 {
        WipeSession(env);
        return PollResult(false, Unauthorized, []);
      }
      match body
      case Malformed =>
        lastError := InvalidJson;
        return PollResult(false, InvalidJson, []);
      case NullDocument =>
        return PollResult(true, NoError, []);
      case ErrorText(message) =>
        lastError := ProviderError(message);
        return PollResult(false, ProviderError(message), []);
      case Entries(entries) =>
        var commands := ParseCommands(entries);
        return PollResult(true, NoError, commands);
    }

    /** The 401/403 branch of `pollCommands`. */
    method WipeSession(env: Env)
      modifies this, storage
      ensures Snapshot() == SessionWiped(old(Snapshot()), env)
      ensures storage != null ==> storage.replay == old(storage.replay)
    {
      idToken := [];
      refreshToken := [];
      tokenExpiryEpoch := 0;
      lastError := Unauthorized;
      var nowEpoch := EffectiveNowEpoch(env.wallEpoch, anchorEpoch, anchorMillis, env.nowMs);
      if nowEpoch > ClockKnownEpoch {
        SetCloudCooldownUntil(Add(nowEpoch, UnauthorizedBackoffMs / 1000));
      }
      ApplyAuthBackoffMs(UnauthorizedBackoffMs, env.nowMs);
    }

    /** The shared shape of `patchState`, `deleteCommand` (past its id guard) and
        `writeAudit`: passive check, request, 2xx or `failure`. */
    method WriteToCloud(env: Env, reply: Reply<()>, failure: Error) returns (ok: bool, after: Env)
      modifies this, storage
      ensures (ok, Snapshot(), after) == CloudWrite(old(Snapshot()), env, reply, failure)
      ensures storage != null ==> storage.replay == old(storage.replay)
    {
      var signed;
      signed, after := EnsureSignedIn(env, false, BeginFailed);
      if !signed {
        return false, after;
      }
      var outcome;
      outcome, after := DoJsonRequest(after, reply);
      if outcome.Failed? {
        return false, after;
      }
      if 200 <= outcome.code < 300 {
        return true, after;
      }
      lastError := failure;
      return false, after;
    }

    /** `patchState`. */
    method PatchState(env: Env, reply: Reply<()>) returns (ok: bool, after: Env)
      modifies this, storage
      ensures (ok, Snapshot(), after) == CloudWrite(old(Snapshot()), env, reply, StatePatchFailed)
      ensures storage != null ==> storage.replay == old(storage.replay)
    {
      ok, after := WriteToCloud(env, reply, StatePatchFailed);
    }

    /** `deleteCommand`. */
    method DeleteCommand(env: Env, commandId: string, reply: Reply<()>) returns (ok: bool, after: Env)
      modifies this, storage
      ensures (ok, Snapshot(), after) == Deletion(old(Snapshot()), env, commandId, reply)
      ensures storage != null ==> storage.replay == old(storage.replay)
    {
      if commandId == [] {
        lastError := InvalidCommandId;
        return false, env;
      }
      ok, after := WriteToCloud(env, reply, CommandDeleteFailed);
    }

    /** `writeAudit`. */
    method WriteAudit(env: Env, reply: Reply<()>) returns (ok: bool, after: Env)
      modifies this, storage
      ensures (ok, Snapshot(), after) == CloudWrite(old(Snapshot()), env, reply, AuditWriteFailed)
      ensures storage != null ==> storage.replay == old(storage.replay)
    {
      ok, after := WriteToCloud(env, reply, AuditWriteFailed);
    }
  }
}
