/** The offline signed-unlock validator of nodemcu/poot_lock/local_unlock.cpp.

    A request carries a timestamp and the hex HMAC-SHA-256 of that timestamp's decimal form
    under a shared secret. `validate` rejects malformed requests, then bad signatures, then
    bootstraps the clock from the first correctly signed request if no clock anchor exists,
    then enforces a symmetric timestamp window, and finally consults a bounded replay ledger
    that is compacted by age before each lookup and updated first-in-first-out.

    The pure functions below are the specification; class `Validator` holds the module's
    globals (`gReplay[32]`, `gReplayCount`, the clock anchor, the cache size) and its methods
    are proved to follow that specification. */
module LocalUnlock {
  import opened U32
  import opened Encoding
  import opened Hmac
  import opened Storage

  /** Slots in `gReplay`. */
  const ReplayCapacity: nat := 32
  /** Signatures shorter than this are malformed. */
  const MinSignatureLength: nat := 32
  /** `ReplayRecord::sig` is `char[65]`: at most 64 characters are kept. */
  const StoredSignatureLength: nat := 64

  datatype Request = Request(ts: u32, sig: seq<byte>)

  datatype Reason = Ok | BadRequest | SignatureMismatch | TimestampOutOfWindow | ReplayDetected

  /** What `begin` configures once: the shared secret, the timestamp window and the replay
      retention, both in seconds. */
  datatype Settings = Settings(secret: seq<byte>, windowSec: u32, retentionSec: u32)

  /** The validator's mutable state as a value: the clock anchor (epoch seconds and the
      uptime at which it was taken), the configured cache size and the replay ledger. */
  datatype LocalState = LocalState(anchorEpoch: u32, anchorMillis: u32, cacheSize: nat,
                                   ledger: seq<ReplayRecord>)

  // ---------------------------------------------------------------- clock

  /** `approximateNow`: 0 while no anchor exists; otherwise the anchor plus the whole seconds
      of uptime elapsed since it was taken, all in uint32 arithmetic. */
  function ApproximateNow(anchorEpoch: u32, anchorMillis: u32, nowMs: u32): u32 {
    if anchorEpoch == 0 then 0 else Add(anchorEpoch, Sub(nowMs, anchorMillis) / 1000)
  }

  /** Read at the very uptime it was anchored at, the clock gives the anchor. */
  lemma ClockReadsAnchor(anchorEpoch: u32, nowMs: u32)
    requires anchorEpoch != 0
    ensures ApproximateNow(anchorEpoch, nowMs, nowMs) == anchorEpoch
  {
  }

  /** Once anchored, the approximate clock reads the anchor plus the elapsed uptime in whole
      seconds, even when the uptime counter wraps between the anchor and the reading. */
  lemma AnchoredClockAdvances(anchorEpoch: u32, anchorMillis: u32, elapsedMs: u32)
    requires anchorEpoch != 0
    ensures ApproximateNow(anchorEpoch, anchorMillis, Add(anchorMillis, elapsedMs))
         == Add(anchorEpoch, elapsedMs / 1000)
  {
    SubOfOffsets(anchorMillis, elapsedMs, 0);
    assert Add(anchorMillis, 0) == anchorMillis;
  }

  // ---------------------------------------------------------------- signature

  /** The signature the device expects for timestamp `ts`. */
  function ExpectedSignature(hash: Sha256, secret: seq<byte>, ts: u32): (sig: seq<byte>)
    ensures |sig| == 64 && IsLowerHex(sig)
  {
    Hex(HmacSha256(hash, secret, Decimal(ts)))
  }

  // ---------------------------------------------------------------- window

  /** The window test of `validate`: `delta = int32(ts) - int32(now)` is rejected when it is
      below `-int32(window)` or above `int32(window)`. */
  predicate InWindow(ts: u32, nowSec: u32, windowSec: u32) {
    var delta := I32(ToInt32(ts) - ToInt32(nowSec));
    var window := ToInt32(windowSec);
    !(delta < I32(-window) || delta > window)
  }

  lemma Int32Unique(a: int, b: int)
    requires -HalfModulus <= a < HalfModulus && -HalfModulus <= b < HalfModulus
    requires (a - b) % Modulus == 0
    ensures a == b
  {
  }

  /** The int32 difference the firmware computes is the two's-complement reading of the
      wrapped difference `ts - now`. */
  lemma DeltaIsWrappedDifference(ts: u32, nowSec: u32)
    ensures I32(ToInt32(ts) - ToInt32(nowSec)) == ToInt32(Sub(ts, nowSec))
  {
    var x := ToInt32(ts) - ToInt32(nowSec);
    var a, b := I32(x), ToInt32(Sub(ts, nowSec));
    assert (a - x) % Modulus == 0;
    assert (x - (ts - nowSec)) % Modulus == 0;
    assert (b - Sub(ts, nowSec)) % Modulus == 0;
    assert (Sub(ts, nowSec) - (ts - nowSec)) % Modulus == 0;
    Int32Unique(a, b);
  }

  /** For any window below 2^31 s the accepted timestamps form the closed interval
      [now - window, now + window], measured by the int32 difference. */
  lemma WindowIsClosedInterval(ts: u32, nowSec: u32, windowSec: u32)
    requires windowSec < HalfModulus
    ensures InWindow(ts, nowSec, windowSec)
        <==> -(windowSec as int) <= ToInt32(Sub(ts, nowSec)) <= windowSec
  {
    DeltaIsWrappedDifference(ts, nowSec);
    assert ToInt32(windowSec) == windowSec;
    if windowSec > 0 {
      assert (-(windowSec as int)) % Modulus == Modulus - windowSec;
    }
  }

  /** Wrapped subtraction, without the modulus. */
  lemma SubCases(a: u32, b: u32)
    ensures Sub(a, b) == if a >= b then a - b else a - b + Modulus
  {
    if a < b {
      assert (a - b) % Modulus == a - b + Modulus;
    }
  }

  /** Swapping the operands negates the int32 difference, except at -2^31, which is its own
      negation in 32 bits. */
  lemma SwappedDifference(a: u32, b: u32)
    ensures var d := ToInt32(Sub(a, b));
            ToInt32(Sub(b, a)) == if d == -HalfModulus then d else -d
  {
    SubCases(a, b);
    SubCases(b, a);
  }

  /** The window is symmetric: a request as far ahead of the clock as another is behind it
      gets the same verdict. */
  lemma WindowIsSymmetric(ts: u32, nowSec: u32, windowSec: u32)
    requires windowSec < HalfModulus
    ensures InWindow(ts, nowSec, windowSec) <==> InWindow(nowSec, ts, windowSec)
  {
    WindowIsClosedInterval(ts, nowSec, windowSec);
    WindowIsClosedInterval(nowSec, ts, windowSec);
    SwappedDifference(ts, nowSec);
  }

  /** With the configured 300-second window, a correctly signed request exactly 300 s away
      from the device clock is inside the window and one 301 s away is outside, in both
      directions and wherever the clock stands. */
  lemma WindowBoundary(nowSec: u32)
    ensures InWindow(Add(nowSec, 300), nowSec, 300) && InWindow(Sub(nowSec, 300), nowSec, 300)
    ensures !InWindow(Add(nowSec, 301), nowSec, 300) && !InWindow(Sub(nowSec, 301), nowSec, 300)
  {
    AheadBy(nowSec, 300, 300);
    AheadBy(nowSec, 301, 300);
    BehindBy(nowSec, 300, 300);
    BehindBy(nowSec, 301, 300);
  }

  /** A timestamp `d` seconds ahead of the clock is in the window iff `d` is at most the
      window, wherever the clock stands. */
  lemma AheadBy(nowSec: u32, d: u32, windowSec: u32)
    requires d < HalfModulus && windowSec < HalfModulus
    ensures InWindow(Add(nowSec, d), nowSec, windowSec) <==> d <= windowSec
  {
    WindowIsClosedInterval(Add(nowSec, d), nowSec, windowSec);
    SubCases(Add(nowSec, d), nowSec);
  }

  /** A timestamp `d` seconds behind the clock is in the window iff `d` is at most the
      window, wherever the clock stands. */
  lemma BehindBy(nowSec: u32, d: u32, windowSec: u32)
    requires d <= HalfModulus && windowSec < HalfModulus
    ensures InWindow(Sub(nowSec, d), nowSec, windowSec) <==> d <= windowSec
  {
    WindowIsClosedInterval(Sub(nowSec, d), nowSec, windowSec);
    SubCases(nowSec, d);
    SubCases(Sub(nowSec, d), nowSec);
  }

  // ---------------------------------------------------------------- replay ledger

  /** An entry survives compaction when `nowSec - ts`, computed in uint32, is within the
      retention. A timestamp ahead of `nowSec` wraps to a huge age and is dropped. */
  predicate Unexpired(record: ReplayRecord, nowSec: u32, retentionSec: u32) {
    Sub(nowSec, record.ts) <= retentionSec
  }

  /** `compactReplay`: the unexpired entries, in their original order. */
  function Retained(ledger: seq<ReplayRecord>, nowSec: u32, retentionSec: u32): (kept: seq<ReplayRecord>)
    ensures |kept| <= |ledger|
  {
    if ledger == [] then []
    else
      var n := |ledger|;
      Retained(ledger[..n - 1], nowSec, retentionSec)
        + (if Unexpired(ledger[n - 1], nowSec, retentionSec) then [ledger[n - 1]] else [])
  }

  /** Compaction keeps exactly the unexpired entries. */
  lemma {:induction false} RetainedMembers(ledger: seq<ReplayRecord>, nowSec: u32, retentionSec: u32,
                                           record: ReplayRecord)
    ensures record in Retained(ledger, nowSec, retentionSec)
        <==> record in ledger && Unexpired(record, nowSec, retentionSec)
  {
    if ledger != [] {
      var n := |ledger|;
      RetainedMembers(ledger[..n - 1], nowSec, retentionSec, record);
      assert ledger == ledger[..n - 1] + [ledger[n - 1]];
    }
  }

  /** Compaction distributes over concatenation, so it never reorders what it keeps. */
  lemma {:induction false} RetainedAppend(front: seq<ReplayRecord>, back: seq<ReplayRecord>,
                                          nowSec: u32, retentionSec: u32)
    ensures Retained(front + back, nowSec, retentionSec)
         == Retained(front, nowSec, retentionSec) + Retained(back, nowSec, retentionSec)
  {
    if back != [] {
      var n := |back|;
      RetainedAppend(front, back[..n - 1], nowSec, retentionSec);
      assert (front + back)[..|front + back| - 1] == front + back[..n - 1];
    } else {
      assert front + back == front;
    }
  }

  /** `isReplay`: some stored signature equals `sig`. */
  predicate Holds(ledger: seq<ReplayRecord>, sig: seq<byte>) {
    exists i :: 0 <= i < |ledger| && ledger[i].sig == sig
  }

  /** `remember` first clamps the configured cache size to the array's 32 slots. */
  function ClampedCacheSize(cacheSize: nat): (clamped: nat)
    ensures clamped <= ReplayCapacity
    ensures cacheSize <= ReplayCapacity ==> clamped == cacheSize
  {
    if cacheSize > ReplayCapacity then ReplayCapacity else cacheSize
  }

  /** `toCharArray` into `char[65]` keeps at most 64 characters. */
  function StoredSignature(sig: seq<byte>): (stored: seq<byte>)
    ensures |stored| <= StoredSignatureLength
    ensures |sig| <= StoredSignatureLength ==> stored == sig
  {
    if |sig| <= StoredSignatureLength then sig else sig[..StoredSignatureLength]
  }

  /** `remember`: below the clamped capacity the record is appended; otherwise the oldest
      entry is dropped and the record appended, so the length stays put. */
  function Remembered(ledger: seq<ReplayRecord>, cacheSize: nat, sig: seq<byte>, ts: u32): (after: seq<ReplayRecord>)
    requires |ledger| >= 1 || cacheSize >= 1
    ensures |after| >= 1 && after[|after| - 1] == ReplayRecord(ts, StoredSignature(sig))
  {
    var record := ReplayRecord(ts, StoredSignature(sig));
    if |ledger| < ClampedCacheSize(cacheSize) then ledger + [record] else ledger[1..] + [record]
  }

  /** The ledger never exceeds the 32 slots, grows by one only below the clamped cache size,
      and keeps its length once it has reached it. */
  lemma RememberedBounds(ledger: seq<ReplayRecord>, cacheSize: nat, sig: seq<byte>, ts: u32)
    requires |ledger| >= 1 || cacheSize >= 1
    ensures |ledger| <= ReplayCapacity ==> |Remembered(ledger, cacheSize, sig, ts)| <= ReplayCapacity
    ensures |ledger| < ClampedCacheSize(cacheSize) ==> |Remembered(ledger, cacheSize, sig, ts)| == |ledger| + 1
    ensures |ledger| >= ClampedCacheSize(cacheSize) ==> |Remembered(ledger, cacheSize, sig, ts)| == |ledger|
  {
  }

  /** First in, first out: with a cache of three, four distinct accepted signatures A, B, C,
      D leave exactly B, C, D, and A is no longer recognised. */
  lemma FourthEvictsFirst(a: ReplayRecord, b: ReplayRecord, c: ReplayRecord, d: ReplayRecord)
    requires |a.sig| <= 64 && |b.sig| <= 64 && |c.sig| <= 64 && |d.sig| <= 64
    requires a.sig != b.sig && a.sig != c.sig && a.sig != d.sig
    ensures var l1 := Remembered([], 3, a.sig, a.ts);
            var l2 := Remembered(l1, 3, b.sig, b.ts);
            var l3 := Remembered(l2, 3, c.sig, c.ts);
            var l4 := Remembered(l3, 3, d.sig, d.ts);
            l4 == [b, c, d] && !Holds(l4, a.sig)
  {
  }

  // ---------------------------------------------------------------- validate

  /** Whether the request passes the structural and signature checks. */
  predicate SignatureAccepted(hash: Sha256, settings: Settings, request: Request) {
    request.ts != 0 && |request.sig| >= MinSignatureLength
    && request.sig == ExpectedSignature(hash, settings.secret, request.ts)
  }

  /** Whether `validate` anchors the clock on this request: it is correctly signed and the
      approximate clock reads 0. */
  predicate Bootstraps(hash: Sha256, settings: Settings, s: LocalState, request: Request, nowMs: u32) {
    SignatureAccepted(hash, settings, request)
    && ApproximateNow(s.anchorEpoch, s.anchorMillis, nowMs) == 0
  }

  /** The clock `validate` judges the window and the ledger by: the approximate clock, or the
      request's own timestamp when that clock reads 0 and the request bootstraps it. */
  function ValidationClock(s: LocalState, request: Request, nowMs: u32): u32 {
    var approx := ApproximateNow(s.anchorEpoch, s.anchorMillis, nowMs);
    if approx == 0 then request.ts else approx
  }

  /** `validate`: the verdict and the validator state afterwards. */
  function Validation(hash: Sha256, settings: Settings, s: LocalState, request: Request, nowMs: u32)
    : (result: (Reason, LocalState))
    requires s.cacheSize >= 1
    ensures request.ts == 0 || |request.sig| < MinSignatureLength ==> result == (BadRequest, s)
    ensures result.0 == SignatureMismatch
        <==> request.ts != 0 && |request.sig| >= MinSignatureLength
             && request.sig != ExpectedSignature(hash, settings.secret, request.ts)
    ensures result.0 == SignatureMismatch ==> result.1 == s
    ensures result.0 == TimestampOutOfWindow ==> result.1.ledger == s.ledger
    ensures result.0 == Ok ==>
              && |request.sig| == 64 && |result.1.ledger| >= 1
              && result.1.ledger[|result.1.ledger| - 1] == ReplayRecord(request.ts, request.sig)
    ensures |s.ledger| <= ReplayCapacity ==> |result.1.ledger| <= ReplayCapacity
  {
    if request.ts == 0 || |request.sig| < MinSignatureLength then (BadRequest, s)
    else if request.sig != ExpectedSignature(hash, settings.secret, request.ts) then (SignatureMismatch, s)
    else
      var approx := ApproximateNow(s.anchorEpoch, s.anchorMillis, nowMs);
      var anchored := if approx == 0 then s.(anchorEpoch := request.ts, anchorMillis := nowMs) else s;
      var nowSec := if approx == 0 then request.ts else approx;
      if !InWindow(request.ts, nowSec, settings.windowSec) then (TimestampOutOfWindow, anchored)
      else
        var kept := Retained(anchored.ledger, nowSec, settings.retentionSec);
        if Holds(kept, request.sig) then (ReplayDetected, anchored.(ledger := kept))
        else
          RememberedBounds(kept, s.cacheSize, request.sig, request.ts);
          (Ok, anchored.(cacheSize := ClampedCacheSize(s.cacheSize),
                         ledger := Remembered(kept, s.cacheSize, request.sig, request.ts)))
  }

  /** What decides each outcome of `validate` past the signature check, with the clock it
      uses (the approximate clock, or the request's own timestamp on a device without one):
      out of window exactly when the timestamp is outside the window around that clock; a
      replay exactly when the signature survives compaction of the ledger at that clock; and
      accepted exactly otherwise, with the record remembered on the compacted ledger. */
  lemma ValidationOutcomes(hash: Sha256, settings: Settings, s: LocalState, request: Request, nowMs: u32)
    requires s.cacheSize >= 1
    ensures var result := Validation(hash, settings, s, request, nowMs);
            var clock := ValidationClock(s, request, nowMs);
            var kept := Retained(s.ledger, clock, settings.retentionSec);
            && (result.0 == TimestampOutOfWindow
                <==> SignatureAccepted(hash, settings, request) && !InWindow(request.ts, clock, settings.windowSec))
            && (result.0 == ReplayDetected
                <==> SignatureAccepted(hash, settings, request) && InWindow(request.ts, clock, settings.windowSec)
                     && Holds(kept, request.sig))
            && (result.0 == Ok
                <==> SignatureAccepted(hash, settings, request) && InWindow(request.ts, clock, settings.windowSec)
                     && !Holds(kept, request.sig))
            && (result.0 == Ok ==> result.1.ledger == Remembered(kept, s.cacheSize, request.sig, request.ts))
  {
  }

  /** On a device that has never had a clock, the first correctly signed request whose
      signature is not already stored is accepted and anchors the clock at its timestamp. */
  lemma FirstSignedRequestBootstraps(hash: Sha256, settings: Settings, s: LocalState, ts: u32, nowMs: u32)
    requires s.cacheSize >= 1 && s.anchorEpoch == 0 && ts != 0
    requires settings.windowSec < HalfModulus
    requires !Holds(s.ledger, ExpectedSignature(hash, settings.secret, ts))
    ensures var result := Validation(hash, settings, s, Request(ts, ExpectedSignature(hash, settings.secret, ts)), nowMs);
            result.0 == Ok && result.1.anchorEpoch == ts && result.1.anchorMillis == nowMs
  {
    var sig := ExpectedSignature(hash, settings.secret, ts);
    WindowIsClosedInterval(ts, ts, settings.windowSec);
    var kept := Retained(s.ledger, ts, settings.retentionSec);
    forall i | 0 <= i < |kept|
      ensures kept[i].sig != sig
    {
      RetainedMembers(s.ledger, ts, settings.retentionSec, kept[i]);
    }
  }

  /** Resubmitting an accepted request is refused as a replay while the device clock has not
      yet moved more than the retention past its timestamp and it is still in the window. */
  lemma ResubmissionIsReplay(hash: Sha256, settings: Settings, s: LocalState, request: Request,
                             firstMs: u32, secondMs: u32)
    requires s.cacheSize >= 1
    requires Validation(hash, settings, s, request, firstMs).0 == Ok
    requires var after := Validation(hash, settings, s, request, firstMs).1;
             var nowSec := ApproximateNow(after.anchorEpoch, after.anchorMillis, secondMs);
             nowSec != 0 && InWindow(request.ts, nowSec, settings.windowSec)
             && Unexpired(ReplayRecord(request.ts, request.sig), nowSec, settings.retentionSec)
    ensures var after := Validation(hash, settings, s, request, firstMs).1;
            after.cacheSize >= 1 && Validation(hash, settings, after, request, secondMs).0 == ReplayDetected
  {
    var after := Validation(hash, settings, s, request, firstMs).1;
    var nowSec := ApproximateNow(after.anchorEpoch, after.anchorMillis, secondMs);
    var record := ReplayRecord(request.ts, request.sig);
    assert after.ledger[|after.ledger| - 1] == record;
    RetainedMembers(after.ledger, nowSec, settings.retentionSec, record);
    var kept := Retained(after.ledger, nowSec, settings.retentionSec);
    var i :| 0 <= i < |kept| && kept[i] == record;
    assert Holds(kept, request.sig);
  }

  /** The correctly signed request for timestamp `ts`. */
  function SignedRequest(hash: Sha256, secret: seq<byte>, ts: u32): Request {
    Request(ts, ExpectedSignature(hash, secret, ts))
  }

  /** The ledger record an accepted `SignedRequest` for `ts` leaves. */
  function SignedRecord(hash: Sha256, secret: seq<byte>, ts: u32): ReplayRecord {
    ReplayRecord(ts, ExpectedSignature(hash, secret, ts))
  }

  /** The window boundary as `validate` applies it: with the device clock at `now` and the
      300 s window, correctly signed requests dated 300 s either side of the clock pass the
      window check and ones 301 s away are refused as out of window. (A request whose
      timestamp would be 0 is a bad request instead, so those are excluded.) */
  lemma ValidationWindowBoundary(hash: Sha256, secret: seq<byte>, retentionSec: u32, s: LocalState, nowMs: u32)
    requires s.cacheSize >= 1
    requires var now := ApproximateNow(s.anchorEpoch, s.anchorMillis, nowMs);
             now != 0 && Add(now, 300) != 0 && Sub(now, 300) != 0 && Add(now, 301) != 0 && Sub(now, 301) != 0
    ensures var now := ApproximateNow(s.anchorEpoch, s.anchorMillis, nowMs);
            var settings := Settings(secret, 300, retentionSec);
            && Validation(hash, settings, s, SignedRequest(hash, secret, Add(now, 300)), nowMs).0 != TimestampOutOfWindow
            && Validation(hash, settings, s, SignedRequest(hash, secret, Sub(now, 300)), nowMs).0 != TimestampOutOfWindow
            && Validation(hash, settings, s, SignedRequest(hash, secret, Add(now, 301)), nowMs).0 == TimestampOutOfWindow
            && Validation(hash, settings, s, SignedRequest(hash, secret, Sub(now, 301)), nowMs).0 == TimestampOutOfWindow
  {
    WindowBoundary(ApproximateNow(s.anchorEpoch, s.anchorMillis, nowMs));
  }

  /** Compaction keeps a ledger whose every record is unexpired as it is. */
  lemma {:induction false} RetainedKeepsUnexpired(ledger: seq<ReplayRecord>, nowSec: u32, retentionSec: u32)
    requires forall i :: 0 <= i < |ledger| ==> Unexpired(ledger[i], nowSec, retentionSec)
    ensures Retained(ledger, nowSec, retentionSec) == ledger
  {
    if ledger != [] {
      var n := |ledger|;
      RetainedKeepsUnexpired(ledger[..n - 1], nowSec, retentionSec);
      assert ledger == ledger[..n - 1] + [ledger[n - 1]];
    }
  }

  /** A correctly signed, in-window request whose signature compaction does not find is
      accepted on an anchored clock, and the ledger becomes the compacted one plus its record. */
  lemma AcceptedOnAnchoredClock(hash: Sha256, settings: Settings, s: LocalState, ts: u32, nowMs: u32)
    requires 1 <= s.cacheSize <= ReplayCapacity && ts != 0
    requires var now := ApproximateNow(s.anchorEpoch, s.anchorMillis, nowMs);
             now != 0 && InWindow(ts, now, settings.windowSec)
             && !Holds(Retained(s.ledger, now, settings.retentionSec), ExpectedSignature(hash, settings.secret, ts))
    ensures var now := ApproximateNow(s.anchorEpoch, s.anchorMillis, nowMs);
            var sig := ExpectedSignature(hash, settings.secret, ts);
            Validation(hash, settings, s, Request(ts, sig), nowMs)
              == (Ok, s.(ledger := Remembered(Retained(s.ledger, now, settings.retentionSec), s.cacheSize, sig, ts)))
  {
  }

  /** One accepted request on an anchored validator with window 300 s, retention 600 s and
      a cache of three, when every stored record is at most 600 s old. */
  lemma SignedRequestRemembered(hash: Sha256, secret: seq<byte>, anchorEpoch: u32, nowMs: u32,
                                ledger: seq<ReplayRecord>, ts: u32)
    requires anchorEpoch != 0 && 0 < ts <= anchorEpoch && anchorEpoch - ts <= 300
    requires forall r | r in ledger :: r.ts <= anchorEpoch && anchorEpoch - r.ts <= 600
    requires !Holds(ledger, ExpectedSignature(hash, secret, ts))
    ensures Validation(hash, Settings(secret, 300, 600), LocalState(anchorEpoch, nowMs, 3, ledger),
                       SignedRequest(hash, secret, ts), nowMs)
         == (Ok, LocalState(anchorEpoch, nowMs, 3, Remembered(ledger, 3, ExpectedSignature(hash, secret, ts), ts)))
  {
    ClockReadsAnchor(anchorEpoch, nowMs);
    forall i | 0 <= i < |ledger|
      ensures Unexpired(ledger[i], anchorEpoch, 600)
    {
      assert ledger[i] in ledger;
      SubCases(anchorEpoch, ledger[i].ts);
    }
    RetainedKeepsUnexpired(ledger, anchorEpoch, 600);
    BehindBy(anchorEpoch, anchorEpoch - ts, 300);
    SubCases(anchorEpoch, anchorEpoch - ts);
    AcceptedOnAnchoredClock(hash, Settings(secret, 300, 600), LocalState(anchorEpoch, nowMs, 3, ledger), ts, nowMs);
  }

  /** The ledger steps of three distinct records into an empty cache of three. */
  lemma LedgerFills(a: ReplayRecord, b: ReplayRecord, c: ReplayRecord)
    requires |a.sig| == 64 && |b.sig| == 64 && |c.sig| == 64
    requires a.sig != b.sig && a.sig != c.sig && b.sig != c.sig
    ensures Remembered([], 3, a.sig, a.ts) == [a] && Remembered([a], 3, b.sig, b.ts) == [a, b]
    ensures Remembered([a, b], 3, c.sig, c.ts) == [a, b, c]
    ensures !Holds([], a.sig) && !Holds([a], b.sig) && !Holds([a, b], c.sig)
  {
  }

  /** The ledger step of a fourth distinct record through a full cache of three. */
  lemma LedgerEvicts(a: ReplayRecord, b: ReplayRecord, c: ReplayRecord, d: ReplayRecord)
    requires |d.sig| == 64
    requires a.sig != b.sig && a.sig != c.sig && a.sig != d.sig && b.sig != d.sig && c.sig != d.sig
    ensures Remembered([a, b, c], 3, d.sig, d.ts) == [b, c, d]
    ensures !Holds([a, b, c], d.sig) && !Holds([b, c, d], a.sig)
  {
  }

  /** `validate` filling the replay cache: with a cache of three, three distinct correctly
      signed requests A, B, C within the window are each accepted, and after each the ledger
      holds exactly the records accepted so far, in order. */
  lemma ValidationFillsCache(hash: Sha256, secret: seq<byte>, anchorEpoch: u32, nowMs: u32, ta: u32, tb: u32, tc: u32)
    requires anchorEpoch != 0
    requires 0 < ta <= anchorEpoch && anchorEpoch - ta <= 300
    requires 0 < tb <= anchorEpoch && anchorEpoch - tb <= 300
    requires 0 < tc <= anchorEpoch && anchorEpoch - tc <= 300
    requires var sa, sb, sc := ExpectedSignature(hash, secret, ta), ExpectedSignature(hash, secret, tb),
                               ExpectedSignature(hash, secret, tc);
             sa != sb && sa != sc && sb != sc
    ensures var settings := Settings(secret, 300, 600);
            var a, b, c := SignedRecord(hash, secret, ta), SignedRecord(hash, secret, tb), SignedRecord(hash, secret, tc);
            && Validation(hash, settings, LocalState(anchorEpoch, nowMs, 3, []), SignedRequest(hash, secret, ta), nowMs)
               == (Ok, LocalState(anchorEpoch, nowMs, 3, [a]))
            && Validation(hash, settings, LocalState(anchorEpoch, nowMs, 3, [a]), SignedRequest(hash, secret, tb), nowMs)
               == (Ok, LocalState(anchorEpoch, nowMs, 3, [a, b]))
            && Validation(hash, settings, LocalState(anchorEpoch, nowMs, 3, [a, b]), SignedRequest(hash, secret, tc), nowMs)
               == (Ok, LocalState(anchorEpoch, nowMs, 3, [a, b, c]))
  {
    var a, b, c := SignedRecord(hash, secret, ta), SignedRecord(hash, secret, tb), SignedRecord(hash, secret, tc);
    assert a.ts == ta && b.ts == tb && c.ts == tc;
    LedgerFills(a, b, c);
    SignedRequestRemembered(hash, secret, anchorEpoch, nowMs, [], ta);
    SignedRequestRemembered(hash, secret, anchorEpoch, nowMs, [a], tb);
    SignedRequestRemembered(hash, secret, anchorEpoch, nowMs, [a, b], tc);
  }

  /** First in, first out as `validate` applies it: on the full cache of three that
      `ValidationFillsCache` leaves, a fourth distinct correctly signed request D is accepted
      and evicts the oldest record, so the ledger becomes [B, C, D]; A, no longer remembered,
      is then accepted once more. */
  lemma ValidationEvictsOldest(hash: Sha256, secret: seq<byte>, anchorEpoch: u32, nowMs: u32,
                               ta: u32, tb: u32, tc: u32, td: u32)
    requires anchorEpoch != 0
    requires 0 < ta <= anchorEpoch && anchorEpoch - ta <= 300
    requires 0 <= anchorEpoch - tb <= 600 && 0 <= anchorEpoch - tc <= 600
    requires 0 < td <= anchorEpoch && anchorEpoch - td <= 300
    requires var sa, sb, sc, sd := ExpectedSignature(hash, secret, ta), ExpectedSignature(hash, secret, tb),
                                   ExpectedSignature(hash, secret, tc), ExpectedSignature(hash, secret, td);
             sa != sb && sa != sc && sa != sd && sb != sd && sc != sd
    ensures var settings := Settings(secret, 300, 600);
            var a, b := SignedRecord(hash, secret, ta), SignedRecord(hash, secret, tb);
            var c, d := SignedRecord(hash, secret, tc), SignedRecord(hash, secret, td);
            && Validation(hash, settings, LocalState(anchorEpoch, nowMs, 3, [a, b, c]), SignedRequest(hash, secret, td), nowMs)
               == (Ok, LocalState(anchorEpoch, nowMs, 3, [b, c, d]))
            && Validation(hash, settings, LocalState(anchorEpoch, nowMs, 3, [b, c, d]), SignedRequest(hash, secret, ta), nowMs).0
               == Ok
  {
    var a, b := SignedRecord(hash, secret, ta), SignedRecord(hash, secret, tb);
    var c, d := SignedRecord(hash, secret, tc), SignedRecord(hash, secret, td);
    assert a.ts == ta && b.ts == tb && c.ts == tc && d.ts == td;
    LedgerEvicts(a, b, c, d);
    SignedRequestRemembered(hash, secret, anchorEpoch, nowMs, [a, b, c], td);
    SignedRequestRemembered(hash, secret, anchorEpoch, nowMs, [b, c, d], ta);
  }

  /** As written, compaction measures age as `nowSec - ts` in uint32, so an accepted request
      dated ahead of the device clock (as the window allows) is dropped at the next lookup and
      the very same request is accepted a second time. */
  lemma FutureDatedReplayAccepted(hash: Sha256, secret: seq<byte>, anchorEpoch: u32, nowMs: u32)
    requires 0 < anchorEpoch < Modulus - 100
    ensures var settings := Settings(secret, 300, 600);
            var s := LocalState(anchorEpoch, nowMs, 24, []);
            var request := Request(anchorEpoch + 100, ExpectedSignature(hash, secret, anchorEpoch + 100));
            var first := Validation(hash, settings, s, request, nowMs);
            first.0 == Ok && Validation(hash, settings, first.1, request, nowMs).0 == Ok
  {
    var ts: u32 := anchorEpoch + 100;
    var record := ReplayRecord(ts, ExpectedSignature(hash, secret, ts));
    FutureDatedRequestAccepted(hash, secret, anchorEpoch, nowMs);
    FutureDatedRequestAcceptedAgain(hash, secret, anchorEpoch, nowMs);
  }

  /** The first step of the above: on an empty ledger the future-dated request is accepted
      and becomes the only record. */
  lemma FutureDatedRequestAccepted(hash: Sha256, secret: seq<byte>, anchorEpoch: u32, nowMs: u32)
    requires 0 < anchorEpoch < Modulus - 100
    ensures var ts: u32 := anchorEpoch + 100;
            var sig := ExpectedSignature(hash, secret, ts);
            Validation(hash, Settings(secret, 300, 600), LocalState(anchorEpoch, nowMs, 24, []), Request(ts, sig), nowMs)
              == (Ok, LocalState(anchorEpoch, nowMs, 24, [ReplayRecord(ts, sig)]))
  {
    var ts: u32 := anchorEpoch + 100;
    var sig := ExpectedSignature(hash, secret, ts);
    ClockReadsAnchor(anchorEpoch, nowMs);
    FutureDatedInWindow(anchorEpoch);
    assert !Holds([], sig);
    assert Remembered([], 24, sig, ts) == [ReplayRecord(ts, sig)];
  }

  /** The second step: with the clock still at the anchor, compaction drops the record of
      the future-dated request as aged about 2^32 s, so the same request is accepted again. */
  lemma FutureDatedRequestAcceptedAgain(hash: Sha256, secret: seq<byte>, anchorEpoch: u32, nowMs: u32)
    requires 0 < anchorEpoch < Modulus - 100
    ensures var ts: u32 := anchorEpoch + 100;
            var sig := ExpectedSignature(hash, secret, ts);
            var ledger := [ReplayRecord(ts, sig)];
            Validation(hash, Settings(secret, 300, 600), LocalState(anchorEpoch, nowMs, 24, ledger), Request(ts, sig), nowMs)
              == (Ok, LocalState(anchorEpoch, nowMs, 24, ledger))
  {
    var ts: u32 := anchorEpoch + 100;
    var sig := ExpectedSignature(hash, secret, ts);
    ClockReadsAnchor(anchorEpoch, nowMs);
    FutureDatedInWindow(anchorEpoch);
    FutureDatedRecordExpires(anchorEpoch, ReplayRecord(ts, sig));
    assert !Holds([], sig);
    assert Remembered([], 24, sig, ts) == [ReplayRecord(ts, sig)];
  }

  /** Compaction at the clock drops a record dated 100 s ahead of it: its uint32 age wraps
      to about 2^32 s. */
  lemma FutureDatedRecordExpires(nowSec: u32, record: ReplayRecord)
    requires nowSec < Modulus - 100 && record.ts == nowSec + 100
    ensures Retained([record], nowSec, 600) == []
  {
    assert Sub(nowSec, record.ts) == Modulus - 100;
  }

  /** A request dated 100 s ahead of the clock is inside the 300 s window. */
  lemma FutureDatedInWindow(nowSec: u32)
    requires nowSec < Modulus - 100
    ensures InWindow(nowSec + 100, nowSec, 300)
  {
    WindowIsClosedInterval(nowSec + 100, nowSec, 300);
    assert Sub(nowSec + 100, nowSec) == 100;
  }

  /** Compaction as evidently intended: the age is the signed 32-bit difference, so an entry
      dated ahead of the clock has a negative age and is kept. */
  predicate UnexpiredSigned(record: ReplayRecord, nowSec: u32, retentionSec: u32) {
    ToInt32(Sub(nowSec, record.ts)) <= retentionSec
  }

  function RetainedSigned(ledger: seq<ReplayRecord>, nowSec: u32, retentionSec: u32): (kept: seq<ReplayRecord>)
    ensures |kept| <= |ledger|
  {
    if ledger == [] then []
    else
      var n := |ledger|;
      RetainedSigned(ledger[..n - 1], nowSec, retentionSec)
        + (if UnexpiredSigned(ledger[n - 1], nowSec, retentionSec) then [ledger[n - 1]] else [])
  }

  /** With signed ages, every entry whose timestamp the window would still accept survives
      compaction whenever the retention is at least the window, so a resubmitted request is
      always found. */
  lemma {:induction false} SignedRetentionKeepsWindow(ledger: seq<ReplayRecord>, nowSec: u32,
                                                     windowSec: u32, retentionSec: u32, record: ReplayRecord)
    requires windowSec <= retentionSec < HalfModulus
    requires record in ledger && InWindow(record.ts, nowSec, windowSec)
    ensures record in RetainedSigned(ledger, nowSec, retentionSec)
  {
    var n := |ledger|;
    if ledger[n - 1] == record {
      WindowIsSymmetric(record.ts, nowSec, windowSec);
      WindowIsClosedInterval(nowSec, record.ts, windowSec);
    } else {
      assert ledger == ledger[..n - 1] + [ledger[n - 1]];
      SignedRetentionKeepsWindow(ledger[..n - 1], nowSec, windowSec, retentionSec, record);
    }
  }

  // ---------------------------------------------------------------- the module's globals

  class Validator {
    const hash: Sha256
    const storage: Store?
    const settings: Settings
    /** `gReplay`. */
    const replay: array<ReplayRecord>
    /** `gReplayCount`. */
    var count: nat
    /** `gReplayCacheSize`. */
    var cacheSize: nat
    /** `gClockAnchorEpoch`, `gClockAnchorMillis`. */
    var anchorEpoch: u32
    var anchorMillis: u32

    ghost predicate Valid()
      reads this
    {
      replay.Length == ReplayCapacity && count <= ReplayCapacity
    }

    function State(): LocalState
      reads this, replay
      requires Valid()
    {
      LocalState(anchorEpoch, anchorMillis, cacheSize, replay[..count])
    }

    /** `local_unlock::begin`: stores the configuration, loads the clock anchor and up to 32
        replay records from storage, and notes the uptime of the anchor. */
    constructor Begin(hash: Sha256, storage: Store?, sharedSecret: seq<byte>, timestampWindowSec: u32,
                      replayRetentionSec: u32, replayCacheSize: nat, nowMs: u32)
      ensures Valid() && fresh(replay)
      ensures this.hash == hash && this.storage == storage
      ensures settings == Settings(sharedSecret, timestampWindowSec, replayRetentionSec)
      ensures storage == null ==> State() == LocalState(0, nowMs, replayCacheSize, [])
      ensures storage != null ==> State() == LocalState(storage.clockAnchor, nowMs, replayCacheSize,
        if |storage.replay| <= ReplayCapacity then storage.replay else storage.replay[..ReplayCapacity])
    {
      var slots := new ReplayRecord[ReplayCapacity](_ => ReplayRecord(0, []));
      var records: seq<ReplayRecord> := [];
      if storage != null {
        records := storage.LoadReplayRecords(ReplayCapacity);
        var i := 0;
        while i < |records|
          invariant 0 <= i <= |records| <= ReplayCapacity
          invariant slots[..i] == records[..i]
        {
          slots[i] := records[i];
          i := i + 1;
        }
      }
      this.hash := hash;
      this.storage := storage;
      settings := Settings(sharedSecret, timestampWindowSec, replayRetentionSec);
      replay := slots;
      count := |records|;
      cacheSize := replayCacheSize;
      anchorEpoch := if storage != null then storage.clockAnchor else 0;
      anchorMillis := nowMs;
    }

    /** `setClockAnchor`: ignored for 0; otherwise anchors the clock at `epochSec` now and
        saves the anchor. */
    method SetClockAnchor(epochSec: u32, nowMs: u32)
      requires Valid()
      modifies this, storage
      ensures Valid()
      ensures count == old(count) && cacheSize == old(cacheSize)
      ensures epochSec == 0 ==> anchorEpoch == old(anchorEpoch) && anchorMillis == old(anchorMillis)
      ensures epochSec != 0 ==> anchorEpoch == epochSec && anchorMillis == nowMs
      ensures storage != null ==>
        storage.clockAnchor == (if epochSec == 0 then old(storage.clockAnchor) else epochSec)
        && storage.cloudCooldownUntil == old(storage.cloudCooldownUntil) && storage.replay == old(storage.replay)
    {
      if epochSec == 0 {
        return;
      }
      anchorEpoch := epochSec;
      anchorMillis := nowMs;
      if storage != null {
        storage.SaveClockAnchor(epochSec);
      }
    }

    /** `compactReplay`: the write-index loop that slides the unexpired entries down. */
    method CompactReplay(nowSec: u32)
      requires Valid()
      modifies this`count, replay
      ensures Valid()
      ensures replay[..count] == Retained(old(replay[..count]), nowSec, settings.retentionSec)
    {
      ghost var original := replay[..count];
      var write := 0;
      var i := 0;
      while i < count
        invariant count == |original| && Valid()
        invariant 0 <= write <= i <= count
        invariant replay[..write] == Retained(original[..i], nowSec, settings.retentionSec)
        invariant forall k :: i <= k < count ==> replay[k] == original[k]
      {
        assert original[..i + 1][..i] == original[..i];
        var record := replay[i];
        assert record == original[i];
        if Sub(nowSec, record.ts) <= settings.retentionSec {
          if write != i {
            replay[write] := record;
          }
          assert replay[..write + 1] == Retained(original[..i], nowSec, settings.retentionSec) + [record];
          write := write + 1;
        }
        i := i + 1;
      }
      assert original[..i] == original;
      count := write;
    }

    /** `isReplay`: a linear search of the ledger. */
    method IsReplay(sig: seq<byte>) returns (found: bool)
      requires Valid()
      ensures found <==> Holds(replay[..count], sig)
    {
      var i := 0;
      while i < count
        invariant 0 <= i <= count
        invariant forall j :: 0 <= j < i ==> replay[j].sig != sig
      {
        if sig == replay[i].sig {
          assert replay[..count][i].sig == sig;
          return true;
        }
        i := i + 1;
      }
      return false;
    }

    /** `remember`: clamps the cache size, appends below capacity or shifts everything one
        slot left and writes the record last, then saves the ledger. */
    method Remember(sig: seq<byte>, ts: u32)
      requires Valid() && (count >= 1 || cacheSize >= 1)
      modifies this, replay, storage
      ensures Valid()
      ensures cacheSize == ClampedCacheSize(old(cacheSize))
      ensures replay[..count] == Remembered(old(replay[..count]), old(cacheSize), sig, ts)
      ensures anchorEpoch == old(anchorEpoch) && anchorMillis == old(anchorMillis)
      ensures storage != null ==>
        storage.replay == replay[..count]
        && storage.clockAnchor == old(storage.clockAnchor) && storage.cloudCooldownUntil == old(storage.cloudCooldownUntil)
    {
      ghost var before := replay[..count];
      if cacheSize > ReplayCapacity {
        cacheSize := ReplayCapacity;
      }
      var record := ReplayRecord(ts, StoredSignature(sig));
      if count < cacheSize {
        replay[count] := record;
        count := count + 1;
        assert replay[..count] == before + [record];
      } else {
        var i := 1;
        while i < count
          invariant Valid() && count == |before| && cacheSize == ClampedCacheSize(old(cacheSize))
          invariant anchorEpoch == old(anchorEpoch) && anchorMillis == old(anchorMillis)
          invariant storage != null ==> unchanged(storage)
          invariant 1 <= i <= count
          invariant forall k :: 0 <= k < i - 1 ==> replay[k] == before[k + 1]
          invariant forall k :: i <= k < count ==> replay[k] == before[k]
        {
          replay[i - 1] := replay[i];
          i := i + 1;
        }
        replay[count - 1] := record;
        assert replay[..count] == before[1..] + [record];
      }
      if storage != null {
        storage.SaveReplayRecords(replay[..count]);
      }
    }

    /** `local_unlock::validate`. */
    method Validate(request: Request, nowMs: u32) returns (reason: Reason)
      requires Valid() && cacheSize >= 1
      modifies this, replay, storage
      ensures Valid()
      ensures (reason, State()) == Validation(hash, settings, old(State()), request, nowMs)
      ensures storage != null ==>
        storage.clockAnchor
          == (if Bootstraps(hash, settings, old(State()), request, nowMs) then request.ts else old(storage.clockAnchor))
        && storage.replay == (if reason == Ok then State().ledger else old(storage.replay))
        && storage.cloudCooldownUntil == old(storage.cloudCooldownUntil)
    {
      if request.ts == 0 || |request.sig| < MinSignatureLength {
        return BadRequest;
      }
      var expected := HmacSha256Hex(hash, settings.secret, Decimal(request.ts));
      var same := ConstantTimeEquals(expected, request.sig);
      if !same {
        return SignatureMismatch;
      }
      var nowSec := ApproximateNow(anchorEpoch, anchorMillis, nowMs);
      if nowSec == 0 {
        SetClockAnchor(request.ts, nowMs);
        nowSec := request.ts;
      }
      if !InWindow(request.ts, nowSec, settings.windowSec) {
        return TimestampOutOfWindow;
      }
      CompactReplay(nowSec);
      var replayed := IsReplay(request.sig);
      if replayed {
        return ReplayDetected;
      }
      Remember(request.sig, request.ts);
      return Ok;
    }
  }
}
