# poot_lock door controller: a verified model

This project models in Dafny the three core parts of the `poot_lock` firmware for the ESP8266
NodeMCU board, and proves properties of that model:

- **Offline signed unlock** (`local_unlock.cpp`, modules `LocalUnlock`, `Encoding` and
  `Hmac`). A request carries a timestamp and the lower-case hex HMAC-SHA-256 of the
  timestamp's decimal text under a shared secret. `validate` checks, in this order:
  - that the request is well formed;
  - the signature, compared in constant time;
  - the clock, bootstrapping the clock anchor from the first correctly signed request when
    none exists;
  - a symmetric timestamp window, computed in wrapped signed 32-bit arithmetic;
  - a bounded replay ledger. The ledger is compacted by age before each lookup and updated
    first-in-first-out.

  Class `Validator` holds the module's globals (the 32-slot replay array, its count, the
  clock anchor, the cache size). Its methods are proved against the pure function
  `Validation`.
- **Cloud client** (`firebase_client.cpp`, modules `FirebaseModel` and `Firebase`). It covers:
  - password sign-in and token refresh with exponential backoff;
  - a rejected-credentials latch;
  - a persisted cooldown measured in epoch seconds;
  - a fallback clock anchored in flash;
  - the 2.5 s spacing of secure requests;
  - the low-heap guard;
  - command polling (at most 8 commands, 401/403 wiping the session);
  - the cloud writes.

  `FirebaseModel` states each operation as a pure transition on a `Session` value. Class
  `Firebase.FirebaseClient` has one field per member variable, and each of its methods is
  proved to perform that transition on its fields.
- **Relay pulse controller** (`relay_control.cpp`, module `Relay`). A pulse energises the
  relay. `loop` releases it once the pulse end is reached, and a cooldown refuses new pulses.
  Class `RelayController` is proved against the pure transitions `Triggered` and `Looped`.

Supporting modules:
- `U32` holds uint32 wrap-around arithmetic and the wrap-safe `millisBefore` comparison.
- `Storage` is the persistence gateway reduced to the last value saved of each record.

The outside world comes in as values:
- `millis()`, `time()`, the Wi-Fi state and the heap readings are parameters (`Env`, `nowMs`).
- An HTTP exchange is a `Reply` value: allocation failed, begin failed, or completed with a
  status code and an already parsed body.
- SHA-256 is a function parameter.

## Model

| member | source | states |
|---|---|---|
| U32.ToInt32 | nodemcu/poot_lock/local_unlock.cpp:201-202 | the signed 32-bit reading of a uint32 lies in [-2^31, 2^31) and agrees with it modulo 2^32 |
| U32.I32 | nodemcu/poot_lock/local_unlock.cpp:201-202 | the wrapped int32 result of a subtraction lies in [-2^31, 2^31) and is congruent to the exact difference |
| U32.SubOfOffsets | nodemcu/poot_lock/firebase_client.cpp:34-36 | the uint32 difference of two offsets from the same start is the difference of the offsets modulo 2^32 |
| U32.MillisBeforeElapsed | nodemcu/poot_lock/firebase_client.cpp:34-36 | `millisBefore(start + elapsed, start + deadline)` holds exactly when elapsed < deadline, wherever start lies, for spans below 2^31 ms |
| Encoding.HexDigit | nodemcu/poot_lock/local_unlock.cpp:22 | each nibble maps to a lower-case hex digit |
| Encoding.DigitValue | nodemcu/poot_lock/local_unlock.cpp:22 | a lower-case hex digit maps back to the nibble that produces it |
| Encoding.Hex | nodemcu/poot_lock/local_unlock.cpp:21-30 | hex output is twice as long as its input and uses only lower-case hex digits |
| Encoding.Unhex | nodemcu/poot_lock/local_unlock.cpp:21-30 | decoding even-length lower-case hex gives half as many bytes |
| Encoding.HexRoundTrip | nodemcu/poot_lock/local_unlock.cpp:21-30 | decoding the hex text of any bytes gives those bytes back |
| Encoding.UnhexRoundTrip | nodemcu/poot_lock/local_unlock.cpp:21-30 | re-encoding any decoded lower-case hex text gives that text back, so hex encoding is a bijection onto lower-case hex |
| Encoding.ToHex | nodemcu/poot_lock/local_unlock.cpp:21-30 | the two-digits-per-byte loop produces exactly `Hex(bytes)` |
| Encoding.ConstantTimeEquals | nodemcu/poot_lock/local_unlock.cpp:68-78 | the length check plus OR-accumulated XOR reports equal exactly when the two byte strings are equal |
| Encoding.DecimalDigit | nodemcu/poot_lock/local_unlock.cpp:185 | each decimal digit value maps to the ASCII digit with that value |
| Encoding.Decimal | nodemcu/poot_lock/local_unlock.cpp:185 | `String(ts)` is a non-empty string of ASCII digits with no leading zero unless the value is 0 |
| Encoding.DecimalRoundTrip | nodemcu/poot_lock/local_unlock.cpp:185 | reading the decimal text of n gives n back |
| Encoding.DecimalInjective | nodemcu/poot_lock/local_unlock.cpp:185 | distinct timestamps have distinct signed messages |
| Hmac.KeyBlock | nodemcu/poot_lock/local_unlock.cpp:33-41 | the key block is always 64 bytes: a key of at most 64 bytes, or the 32-byte hash of a longer key, followed by zero bytes |
| Hmac.XorPad | nodemcu/poot_lock/local_unlock.cpp:46-49 | each pad byte is the key-block byte XOR the pad constant (0x36 inner, 0x5C outer) |
| Hmac.ShortKeyZeroPadding | nodemcu/poot_lock/local_unlock.cpp:33-41 | a key shorter than 64 bytes gives the same MAC as the key with a trailing zero byte, as RFC 2104 zero padding requires |
| Hmac.LongKeyIsHashed | nodemcu/poot_lock/local_unlock.cpp:34-38 | a key longer than 64 bytes gives the same MAC as its SHA-256 digest |
| Hmac.HmacSha256Hex | nodemcu/poot_lock/local_unlock.cpp:32-66 | the pad loop and the two hash passes produce the hex of HMAC-SHA-256(key, message): 64 lower-case hex characters |
| Storage.Store.constructor | nodemcu/poot_lock/storage.cpp:34-63 | a store with no saved records reads every record as its default |
| Storage.Store.SaveClockAnchor | nodemcu/poot_lock/storage.cpp:65-78 | saving the clock anchor sets it and leaves the other records alone |
| Storage.Store.SaveCloudCooldownUntil | nodemcu/poot_lock/storage.cpp:92-104 | saving the cooldown sets it and leaves the other records alone |
| Storage.Store.SaveReplayRecords | nodemcu/poot_lock/storage.cpp:134-154 | saving the replay list sets it and leaves the other records alone |
| Storage.Store.LoadReplayRecords | nodemcu/poot_lock/storage.cpp:106-132 | loading returns the saved records in order, cut to at most `maxCount` |
| LocalUnlock.AnchoredClockAdvances | nodemcu/poot_lock/local_unlock.cpp:166-173 | with an anchor set, the approximate clock reads the anchor plus the whole seconds elapsed since it, across the millis wrap |
| LocalUnlock.ExpectedSignature | nodemcu/poot_lock/local_unlock.cpp:185 | the expected signature is always 64 lower-case hex characters |
| LocalUnlock.DeltaIsWrappedDifference | nodemcu/poot_lock/local_unlock.cpp:201-202 | `int32(ts) - int32(now)`, wrapped, is the signed reading of the uint32 difference `ts - now` |
| LocalUnlock.WindowIsClosedInterval | nodemcu/poot_lock/local_unlock.cpp:201-209 | a timestamp passes the window test exactly when its wrapped signed distance from now lies in [-window, +window] |
| LocalUnlock.SwappedDifference | nodemcu/poot_lock/local_unlock.cpp:201-202 | swapping the operands negates the wrapped signed distance, except at -2^31 |
| LocalUnlock.WindowIsSymmetric | nodemcu/poot_lock/local_unlock.cpp:201-209 | the window test is symmetric in the timestamp and the clock |
| LocalUnlock.AheadBy | nodemcu/poot_lock/local_unlock.cpp:201-209 | a timestamp d seconds ahead of the clock passes exactly when d is at most the window |
| LocalUnlock.BehindBy | nodemcu/poot_lock/local_unlock.cpp:201-209 | a timestamp d seconds behind the clock passes exactly when d is at most the window |
| LocalUnlock.WindowBoundary | nodemcu/poot_lock/local_unlock.cpp:201-209 | with the 300 s window, +/-300 s passes and +/-301 s fails |
| LocalUnlock.Retained | nodemcu/poot_lock/local_unlock.cpp:80-91 | compaction never lengthens the ledger |
| LocalUnlock.RetainedMembers | nodemcu/poot_lock/local_unlock.cpp:80-91 | a record survives compaction exactly when it was in the ledger and `now - ts <= retention` in uint32 arithmetic |
| LocalUnlock.RetainedAppend | nodemcu/poot_lock/local_unlock.cpp:80-91 | compaction distributes over concatenation, so surviving records keep their order |
| LocalUnlock.ClampedCacheSize | nodemcu/poot_lock/local_unlock.cpp:103-105 | the cache size is clamped to the 32 slots and left alone when it fits |
| LocalUnlock.StoredSignature | nodemcu/poot_lock/local_unlock.cpp:109 | a stored signature is at most 64 characters and equal to the request's when that fits |
| LocalUnlock.Remembered | nodemcu/poot_lock/local_unlock.cpp:102-118 | after `remember`, the newest record is the one just stored |
| LocalUnlock.RememberedBounds | nodemcu/poot_lock/local_unlock.cpp:102-118 | `remember` appends while below the clamped cache size, otherwise evicts the oldest, and never exceeds 32 records |
| LocalUnlock.FourthEvictsFirst | nodemcu/poot_lock/local_unlock.cpp:102-118 | with a cache of 3, remembering A, B, C, D leaves [B, C, D] and A is forgotten |
| LocalUnlock.Validation | nodemcu/poot_lock/local_unlock.cpp:175-225 | the outcomes of `validate`: ts = 0 or a signature shorter than 32 is a bad request and changes nothing; a mismatch happens exactly when a well-formed request's signature differs from the expected one and changes nothing; an out-of-window request keeps the ledger; Ok means the signature is 64 long and is now the newest ledger record; the ledger stays within 32 |
| LocalUnlock.ValidationOutcomes | nodemcu/poot_lock/local_unlock.cpp:193-219 | with C the approximate clock (or the request's timestamp when that reads 0): a correctly signed request is out of window exactly when its timestamp is outside the window around C; a replay exactly when it is in window and its signature survives compaction at C; accepted exactly when in window and not found, and then the ledger is the compacted ledger with the record remembered |
| LocalUnlock.ValidationWindowBoundary | nodemcu/poot_lock/local_unlock.cpp:201-209 | through `validate`, with the clock at now and the 300 s window: signed requests dated now +/- 300 s pass the window check and now +/- 301 s are refused as out of window |
| LocalUnlock.ValidationFillsCache | nodemcu/poot_lock/local_unlock.cpp:102-110 | through `validate`, with a cache of 3: distinct signed in-window requests A, B, C are each accepted and the ledger after each is [A], [A, B], [A, B, C] |
| LocalUnlock.ValidationEvictsOldest | nodemcu/poot_lock/local_unlock.cpp:111-118 | through `validate`, on the full ledger [A, B, C]: a fourth distinct signed request D is accepted and the ledger becomes [B, C, D]; A, evicted, is then accepted again |
| LocalUnlock.RetainedKeepsUnexpired | nodemcu/poot_lock/local_unlock.cpp:80-91 | compaction leaves a ledger whose every record is unexpired unchanged |
| LocalUnlock.ClockReadsAnchor | nodemcu/poot_lock/local_unlock.cpp:171-172 | read at the uptime it was anchored at, the approximate clock gives the anchor |
| LocalUnlock.FirstSignedRequestBootstraps | nodemcu/poot_lock/local_unlock.cpp:193-199 | with no clock anchor, a correctly signed new request is accepted, and its timestamp becomes the anchor |
| LocalUnlock.ResubmissionIsReplay | nodemcu/poot_lock/local_unlock.cpp:211-217 | an accepted request sent again while its record is unexpired is refused as a replay |
| LocalUnlock.FutureDatedReplayAccepted | nodemcu/poot_lock/local_unlock.cpp:83 | as written: a request dated 100 s ahead of the clock is accepted twice, because compaction drops records whose timestamp is ahead of the clock |
| LocalUnlock.FutureDatedRequestAccepted | nodemcu/poot_lock/local_unlock.cpp:193-222 | with the clock at the anchor and an empty ledger, a request dated 100 s ahead is accepted and becomes the only record |
| LocalUnlock.FutureDatedRequestAcceptedAgain | nodemcu/poot_lock/local_unlock.cpp:80-91 | as written: with the clock at the anchor and that request already on record, compaction drops the record and the same request is accepted again |
| LocalUnlock.FutureDatedRecordExpires | nodemcu/poot_lock/local_unlock.cpp:83 | as written: a record dated 100 s ahead of the clock is dropped by compaction, its uint32 age wrapping to about 2^32 s |
| LocalUnlock.FutureDatedInWindow | nodemcu/poot_lock/local_unlock.cpp:201-204 | a timestamp 100 s ahead of the clock passes the 300 s window |
| LocalUnlock.RetainedSigned | nodemcu/poot_lock/local_unlock.cpp:80-91 | corrected compaction never lengthens the ledger |
| LocalUnlock.SignedRetentionKeepsWindow | nodemcu/poot_lock/local_unlock.cpp:80-91 | corrected: with retention at least the window, compaction by signed age keeps every record whose timestamp still passes the window, so no in-window request can be replayed |
| LocalUnlock.Validator.Begin | nodemcu/poot_lock/local_unlock.cpp:129-151 | `begin` records the settings and takes the anchor and up to 32 replay records from storage; with no storage the ledger is empty and the anchor is 0 |
| LocalUnlock.Validator.SetClockAnchor | nodemcu/poot_lock/local_unlock.cpp:153-164 | a zero epoch is ignored; otherwise the anchor becomes (epoch, now) and is saved |
| LocalUnlock.Validator.CompactReplay | nodemcu/poot_lock/local_unlock.cpp:80-91 | the in-place write-index loop leaves exactly `Retained` of the old ledger in the array prefix |
| LocalUnlock.Validator.IsReplay | nodemcu/poot_lock/local_unlock.cpp:93-100 | reports a replay exactly when some ledger record holds the signature |
| LocalUnlock.Validator.Remember | nodemcu/poot_lock/local_unlock.cpp:102-123 | the shift-or-append leaves exactly `Remembered` of the old ledger and saves it |
| LocalUnlock.Validator.Validate | nodemcu/poot_lock/local_unlock.cpp:175-225 | follows `Validation` exactly; the anchor is saved only on a bootstrap, the replay list only on Ok, and the cloud cooldown is untouched |
| FirebaseModel.Initial | nodemcu/poot_lock/firebase_client.h:57-72 | a new client has no token, has not loaded its cooldown and starts from the 8 s backoff |
| FirebaseModel.EffectiveNowEpoch | nodemcu/poot_lock/firebase_client.cpp:107-119 | a known wall clock is used as is; with neither the wall clock nor an anchor known, the epoch is 0 |
| FirebaseModel.FallbackClockAdvances | nodemcu/poot_lock/firebase_client.cpp:107-119 | without a wall clock, the anchored clock reads the anchor plus the whole seconds elapsed, across the millis wrap |
| FirebaseModel.CooldownSpan | nodemcu/poot_lock/firebase_client.cpp:121-129 | a cooldown set for d seconds from n is active exactly until n + d, and always while the clock is unknown |
| FirebaseModel.SecureSpacingRemainingMs | nodemcu/poot_lock/firebase_client.cpp:242-250 | the wait is 0 exactly when no spacing deadline is pending; otherwise waiting it lands exactly on the deadline |
| FirebaseModel.TokenDueWithinSkew | nodemcu/poot_lock/firebase_client.cpp:669-684 | a token is refreshed no later than 120 s before its expiry |
| FirebaseModel.ClassifySignInFailure | nodemcu/poot_lock/firebase_client.cpp:553-578 | a 400 naming a rate-limit error is rate limiting; a 400 with no error text or a credential error is a credentials rejection; rate limiting wins when both are named |
| FirebaseModel.ClassificationPrecedence | nodemcu/poot_lock/firebase_client.cpp:38-56 | worked cases of the classification order, including non-400 answers |
| FirebaseModel.Loaded | nodemcu/poot_lock/firebase_client.cpp:82-105 | loading marks the cooldown loaded and re-anchors the fallback clock at the current millis; with storage the cooldown and the anchor epoch are the stored ones, without storage both are 0 |
| FirebaseModel.CooldownSurvivesRestart | nodemcu/poot_lock/firebase_client.cpp:131-139 | a cooldown saved to storage is what a restarted client loads |
| FirebaseModel.Floored | nodemcu/poot_lock/firebase_client.cpp:269-282 | an applied backoff is at least 8 s and never shortens the requested one |
| FirebaseModel.Doubled | nodemcu/poot_lock/firebase_client.cpp:284-305 | a failure doubles the backoff, capped at 120 s |
| FirebaseModel.SuccessResetsBackoff | nodemcu/poot_lock/firebase_client.cpp:284-305 | a success clears the backoff deadline, the rejection latch and the cooldown, and resets the backoff to 8 s |
| FirebaseModel.FailureBlocksForBackoff | nodemcu/poot_lock/firebase_client.cpp:284-305 | after a failure, attempts are blocked for exactly the floored previous backoff, wherever the counter stands, and the backoff grows within the cap |
| FirebaseModel.BackoffSchedule | nodemcu/poot_lock/firebase_client.cpp:284-305 | after k consecutive failures the backoff is min(8 s * 2^k, 120 s) |
| FirebaseModel.Exchange | nodemcu/poot_lock/firebase_client.cpp:686-823 | a secure request first waits out the spacing deadline; on low heap it fails, sets the auth backoff to 60 s and schedules the next attempt 60 s ahead, and, when the wall clock reads above 100000, sets the cloud cooldown to that reading + 60 s (otherwise leaves it), and does not stamp the deadline; otherwise it stamps the next deadline 2.5 s ahead; it is answered exactly when the heap is fine and the reply completed with a positive code, and then only the deadline changes |
| FirebaseModel.RequestsAreSpaced | nodemcu/poot_lock/firebase_client.cpp:694-707 | a second secure request made less than 2.5 s after the first starts exactly at the first's deadline |
| FirebaseModel.SpacingWrappedToZeroIsSkipped | nodemcu/poot_lock/firebase_client.cpp:242-250 | when the spacing deadline wraps to exactly 0 it reads as no deadline: the next secure request starts at once |
| FirebaseModel.BackoffWrappedToZeroIsSkipped | nodemcu/poot_lock/firebase_client.cpp:235-240 | when the backoff deadline wraps to exactly 0 it reads as no deadline: no later attempt is blocked |
| FirebaseModel.PasswordSignIn | nodemcu/poot_lock/firebase_client.cpp:532-608 | a successful sign-in stores a token and clears the error; the rejection latch only changes on a failed 400 |
| FirebaseModel.SignInAnswer | nodemcu/poot_lock/firebase_client.cpp:548-608 | reading a sign-in answer: success stores a token; the latch only changes on a failed 400 |
| FirebaseModel.TokenRefresh | nodemcu/poot_lock/firebase_client.cpp:610-667 | without a refresh token nothing is sent; success stores a token; a refresh never touches the rejection latch |
| FirebaseModel.SignInCheck | nodemcu/poot_lock/firebase_client.cpp:171-233 | the check always leaves the cooldown loaded |
| FirebaseModel.RefusalChangesOnlyLastError | nodemcu/poot_lock/firebase_client.cpp:171-233 | each refusing guard sends nothing and changes only the last error, which names that guard |
| FirebaseModel.PassiveCheckMakesNoRequest | nodemcu/poot_lock/firebase_client.cpp:171-233 | without active authentication the check never sends a request and never waits |
| FirebaseModel.RejectionIsPermanent | nodemcu/poot_lock/firebase_client.cpp:171-233 | once the credentials are rejected every later check fails and the latch stays set |
| FirebaseModel.RateLimitedSignInBacksOff | nodemcu/poot_lock/firebase_client.cpp:553-578 | a rate-limited sign-in blocks attempts for 300 s and, with a known clock, persists a 300 s cooldown |
| FirebaseModel.BadCredentialsLatch | nodemcu/poot_lock/firebase_client.cpp:553-578 | a 400 naming bad credentials sets the latch and blocks attempts for 240 s |
| FirebaseModel.FailedRefreshForcesSignIn | nodemcu/poot_lock/firebase_client.cpp:171-233 | a failed refresh drops the id token, so the next active check can only sign in afresh |
| FirebaseModel.StartIsPassiveCheck | nodemcu/poot_lock/firebase_client.cpp:153-169 | `begin` is the passive sign-in check |
| FirebaseModel.SkipAgreesWithPassiveCheck | nodemcu/poot_lock/firebase_client.cpp:252-267 | cloud writes are skipped exactly when the passive check would refuse |
| FirebaseModel.PolledCommands | nodemcu/poot_lock/firebase_client.cpp:385-404 | a poll yields at most 8 commands |
| FirebaseModel.ObjectCommandsSound | nodemcu/poot_lock/firebase_client.cpp:385-404 | every polled command comes from an entry whose value is an object, under that entry's key |
| FirebaseModel.ObjectCommandsCount | nodemcu/poot_lock/firebase_client.cpp:385-404 | when every entry is an object, none is skipped |
| FirebaseModel.PollRequest | nodemcu/poot_lock/firebase_client.cpp:328-404 | a successful poll has no error and at most 8 commands; a failed one has no commands and reports the last error |
| FirebaseModel.PollAnswer | nodemcu/poot_lock/firebase_client.cpp:339-404 | reading a poll answer: success leaves the session alone; failure reports the last error |
| FirebaseModel.SessionWiped | nodemcu/poot_lock/firebase_client.cpp:339-359 | an unauthorized answer records the unauthorized error |
| FirebaseModel.Poll | nodemcu/poot_lock/firebase_client.cpp:307-410 | a poll succeeds with no error and at most 8 commands, or fails with no commands and the last error |
| FirebaseModel.UnauthorizedWipesSession | nodemcu/poot_lock/firebase_client.cpp:339-359 | a 401/403 wipes both tokens, applies the 300 s backoff, persists a 300 s cooldown with a known clock, and makes later cloud writes skip |
| FirebaseModel.CloudWrite | nodemcu/poot_lock/firebase_client.cpp:412-448 | a write succeeds only after the passive check passes and the reply is 2xx |
| FirebaseModel.Deletion | nodemcu/poot_lock/firebase_client.cpp:450-481 | an empty command id is refused with no request; otherwise a deletion is a cloud write |
| Firebase.ParseCommands | nodemcu/poot_lock/firebase_client.cpp:385-404 | the loop that stops at 8 and skips non-objects produces exactly `PolledCommands` |
| Firebase.ObjectCommandsPrefix | nodemcu/poot_lock/firebase_client.cpp:385-404 | the commands of a prefix of the entries are a prefix of the commands of all entries |
| Firebase.FirebaseClient.constructor | nodemcu/poot_lock/firebase_client.h:57-72 | a client without storage starts in the initial session |
| Firebase.FirebaseClient.WithStorage | nodemcu/poot_lock/firebase_client.cpp:73-76 | attaching storage loads the persisted cooldown |
| Firebase.FirebaseClient.LoadPersistedCooldown | nodemcu/poot_lock/firebase_client.cpp:82-105 | performs `Loaded` |
| Firebase.FirebaseClient.SetCloudCooldownUntil | nodemcu/poot_lock/firebase_client.cpp:131-139 | performs `WithCooldown` and saves it; the replay records are untouched |
| Firebase.FirebaseClient.ClearCloudCooldown | nodemcu/poot_lock/firebase_client.cpp:141-151 | performs `CooldownCleared` |
| Firebase.FirebaseClient.ApplyAuthBackoffMs | nodemcu/poot_lock/firebase_client.cpp:269-282 | performs `BackedOff` |
| Firebase.FirebaseClient.RecordAuthResult | nodemcu/poot_lock/firebase_client.cpp:284-305 | performs `AuthRecorded` |
| Firebase.FirebaseClient.DoJsonRequest | nodemcu/poot_lock/firebase_client.cpp:686-823 | performs `Exchange` |
| Firebase.FirebaseClient.SignInWithPassword | nodemcu/poot_lock/firebase_client.cpp:532-608 | performs `PasswordSignIn` |
| Firebase.FirebaseClient.ReadSignInAnswer | nodemcu/poot_lock/firebase_client.cpp:548-608 | performs `SignInAnswer` |
| Firebase.FirebaseClient.RefreshIdToken | nodemcu/poot_lock/firebase_client.cpp:610-667 | performs `TokenRefresh` |
| Firebase.FirebaseClient.EnsureSignedIn | nodemcu/poot_lock/firebase_client.cpp:171-233 | performs `SignInCheck` |
| Firebase.FirebaseClient.Begin | nodemcu/poot_lock/firebase_client.cpp:153-169 | performs `Started` and makes no request |
| Firebase.FirebaseClient.PollCommands | nodemcu/poot_lock/firebase_client.cpp:307-410 | performs `Poll` |
| Firebase.FirebaseClient.RequestCommands | nodemcu/poot_lock/firebase_client.cpp:321-404 | performs `PollRequest` |
| Firebase.FirebaseClient.ReadPollAnswer | nodemcu/poot_lock/firebase_client.cpp:339-404 | performs `PollAnswer` |
| Firebase.FirebaseClient.WipeSession | nodemcu/poot_lock/firebase_client.cpp:339-359 | performs `SessionWiped` |
| Firebase.FirebaseClient.WriteToCloud | nodemcu/poot_lock/firebase_client.cpp:412-448 | performs `CloudWrite` |
| Firebase.FirebaseClient.PatchState | nodemcu/poot_lock/firebase_client.cpp:412-448 | a state patch is a cloud write that records the state-patch failure |
| Firebase.FirebaseClient.DeleteCommand | nodemcu/poot_lock/firebase_client.cpp:450-481 | performs `Deletion` |
| Firebase.FirebaseClient.WriteAudit | nodemcu/poot_lock/firebase_client.cpp:483-528 | an audit write is a cloud write that records the audit failure |
| Relay.LevelDrivesRelay | nodemcu/poot_lock/relay_control.cpp:45-49 | for either polarity on and off are driven at different levels, and the two polarities drive opposite levels for the same state |
| Relay.Written | nodemcu/poot_lock/relay_control.cpp:45-49 | after `writeRelay(on)` the relay state is `on`, the pin agrees with it, and the deadlines are untouched |
| Relay.Triggered | nodemcu/poot_lock/relay_control.cpp:23-37 | a pulse is refused exactly while cooling down, and then nothing changes; otherwise the relay is on, the pulse end is now + duration and the cooldown end is now + cooldown, both wrapped |
| Relay.Looped | nodemcu/poot_lock/relay_control.cpp:15-21 | after `loop` the relay stays on exactly when it was on and now is below the pulse end; nothing else changes |
| Relay.PinAgreementPreserved | nodemcu/poot_lock/relay_control.cpp:15-49 | every operation keeps the pin level in agreement with the relay state |
| Relay.PulseTiming | nodemcu/poot_lock/relay_control.cpp:15-37 | away from the wrap, a 5 s pulse with a 5 s cooldown holds the relay for exactly 5 s and refuses new pulses for exactly 5 s |
| Relay.CooldownLockoutAfterWrap | nodemcu/poot_lock/relay_control.cpp:25 | as written: a pulse at 4294000000 ms still refuses a pulse after the wrap, 1967 s later |
| Relay.PulseCutShortAtWrap | nodemcu/poot_lock/relay_control.cpp:17 | as written: a pulse started 1 s before the wrap gets pulse end 4000 and is released by the very next `loop` |
| Relay.TriggeredWrapSafe | nodemcu/poot_lock/relay_control.cpp:23-37 | corrected: a pulse is refused exactly while `millisBefore(now, cooldownUntil)` holds, and then nothing changes |
| Relay.LoopedWrapSafe | nodemcu/poot_lock/relay_control.cpp:15-21 | corrected: the relay stays on exactly while `millisBefore(now, pulseEnd)` holds |
| Relay.WrapSafePulseTiming | nodemcu/poot_lock/relay_control.cpp:15-37 | corrected: a pulse lasts exactly its duration and the cooldown exactly its length, wherever the counter stands, for spans below 2^31 ms |
| Relay.RelayController.constructor | nodemcu/poot_lock/relay_control.cpp:5-6 | a new controller is off, with zero deadlines and an unconfigured pin |
| Relay.RelayController.Begin | nodemcu/poot_lock/relay_control.cpp:8-13 | `begin` drives the relay off and establishes pin agreement |
| Relay.RelayController.Loop | nodemcu/poot_lock/relay_control.cpp:15-21 | performs `Looped` |
| Relay.RelayController.TriggerPulse | nodemcu/poot_lock/relay_control.cpp:23-37 | performs `Triggered`; refused exactly when `isCoolingDown` held before the call |
| Relay.RelayController.WriteRelay | nodemcu/poot_lock/relay_control.cpp:45-49 | performs `Written` |

## Left out

- Transport: TLS, sockets and the HTTP client. Each exchange's result comes in as a `Reply`
  value, and the timeouts are not modelled.
- The non-secure branch of `doJsonRequest` is not modelled. Every call in this file uses the
  secure default.
- JSON parsing (ArduinoJson) and `extractFirebaseError`. Parsed answers come in as `AuthBody`
  and `PollBody` values, and a missing command field as `None`, which reads as its default.
- Firebase.FirebaseClient.PatchState: the JSON payload is not modelled. It does not affect the
  client's state.
- Firebase.FirebaseClient.WriteAudit: the payload and the random audit id are not modelled,
  because `random()` does not affect the client's state.
- The URL and query construction (`databaseUrl`, `limitToLast`) is not modelled. It is text
  sent to the server.
- SHA-256 itself is a function parameter: BearSSL's implementation is outside the model.
- Logging (`poot_diag::logf`) and the log rate-limit stamps (`lastAuthBackoffLogMs_`,
  `lastSecureRequestGapLogMs_`) are left out, because they only decide when to print.
- The storage file format and flash I/O are left out. `Store` keeps the last value saved of
  each record, and a save always succeeds.
- `delay()` during the secure-request spacing advances the millisecond reading only; the wall
  clock reading stays the one taken at the start of the operation.
- `setStorage` is folded into the `WithStorage` constructor. The storage pointer is a constant
  of the client.
- Signed 32-bit overflow in `int32(ts) - int32(now)` is modelled as wrapping, which is what
  the compiler produces on this target; C++ leaves it undefined.
- LocalUnlock.Validator.Validate: requires a cache size of at least 1. With a cache size of 0
  and an empty ledger, `remember` writes `gReplay[-1]`, which the source does not guard.
- Firebase.FirebaseClient.Begin and Firebase.FirebaseClient.WriteToCloud pass a reply that is
  never read, because the passive check sends no request.
- `lastError()`, `cloudCooldownUntilEpoch()`, `isRelayOn()` and `approximateNow()` are plain
  reads. The model reads the fields and `ApproximateNow` directly.
- `shouldSkipCloudWrites` is modelled by `ShouldSkipCloudWrites` and tied to the passive check
  by a lemma.
- FirebaseModel.FailureBlocksForBackoff and FirebaseModel.RequestsAreSpaced: require that the
  deadline does not wrap to exactly 0. The source reads a 0 deadline as "none", so in that
  case the backoff or the spacing is skipped; BackoffWrappedToZeroIsSkipped and
  SpacingWrappedToZeroIsSkipped state that case.
- Relay.RelayController: the pin number is kept but not used, because the pin is a single
  output.
- Relay.RelayController.TriggerPulse and Relay.RelayController.Loop keep the source's
  non-wrap-safe comparisons. The corrected transitions are stated beside them (see Findings).

## Findings

`LocalUnlock.Validator` and `Relay.RelayController` model the code as written. The corrected
definitions are separate members with the intended property proved about them.

| source | as written | input that shows it | evidently intended | confidence | as-written member | corrected member |
|---|---|---|---|---|---|---|
| nodemcu/poot_lock/local_unlock.cpp:83 | compaction keeps a record when `now - ts <= retention` in uint32 arithmetic, so a record dated ahead of the clock wraps to a huge age and is dropped | window 300 s, retention 600 s, clock at N, request dated N + 100: accepted, then the same request is accepted again | keep a record while its signed age is within the retention, so no request that still passes the window can be replayed | not executed | LocalUnlock.FutureDatedReplayAccepted | LocalUnlock.SignedRetentionKeepsWindow |
| nodemcu/poot_lock/relay_control.cpp:25 | refuses a pulse while `now < cooldownUntil`, a plain uint32 comparison | pulse at 4294000000 ms; after the wrap at now = 1000000 ms (1967 s later) the next pulse is refused, and refusals continue until the counter climbs back near 4294005000 ms | refuse only while `millisBefore(now, cooldownUntil)` | not executed | Relay.CooldownLockoutAfterWrap | Relay.WrapSafePulseTiming |
| nodemcu/poot_lock/relay_control.cpp:17 | releases the relay when `now >= pulseEnd`, a plain uint32 comparison | pulse at 4294966296 ms with 5000 ms: pulse end wraps to 4000 and the next `loop` at the same millis releases it | release once `!millisBefore(now, pulseEnd)` | not executed | Relay.PulseCutShortAtWrap | Relay.WrapSafePulseTiming |
