/** The relay pulse controller of nodemcu/poot_lock/relay_control.cpp: a pulse energises the
    relay for a fixed time, `loop` releases it, and a cooldown measured from the pulse start
    refuses new pulses. Deadlines are compared with plain `<` and `>=` on the uint32
    millisecond counter, unlike the wrap-safe `millisBefore` of the cloud client; the
    findings below show what that costs and prove the wrap-safe alternative. */
module Relay {
  import opened U32

  datatype Level = Low | High

  /** The relay pin: not yet configured by `begin`, or driven at a level. */
  datatype Pin = Unconfigured | Driven(level: Level)

  /** The level `writeRelay` drives for `on`. */
  function LevelFor(activeLow: bool, on: bool): Level {
    if activeLow then (if on then Low else High) else (if on then High else Low)
  }

  /** On and off are driven at different levels, so the pin level tells the relay state
      apart; and the two polarities drive opposite levels for the same state. */
  lemma LevelDrivesRelay(activeLow: bool, on: bool)
    ensures LevelFor(activeLow, on) != LevelFor(activeLow, !on)
    ensures LevelFor(true, on) != LevelFor(false, on)
  {
  }

  datatype RelayState = RelayState(relayOn: bool, pulseEndMs: u32, cooldownUntilMs: u32, pin: Pin)

  /** The pin agrees with `relayOn_`: what `begin` establishes and every operation keeps. */
  predicate PinMatches(s: RelayState, activeLow: bool) {
    s.pin == Driven(LevelFor(activeLow, s.relayOn))
  }

  /** `writeRelay(on)`. */
  function Written(s: RelayState, activeLow: bool, on: bool): (t: RelayState)
    ensures PinMatches(t, activeLow) && t.relayOn == on
    ensures t.pulseEndMs == s.pulseEndMs && t.cooldownUntilMs == s.cooldownUntilMs
  {
    s.(relayOn := on, pin := Driven(LevelFor(activeLow, on)))
  }

  /** The refusal test of `triggerPulse`, as written. */
  predicate CoolingDown(s: RelayState, nowMs: u32) {
    nowMs < s.cooldownUntilMs
  }

  /** `triggerPulse(durationMs, cooldownMs)` at `nowMs`. */
  function Triggered(s: RelayState, activeLow: bool, nowMs: u32, durationMs: u32, cooldownMs: u32): (r: (bool, RelayState))
    ensures !r.0 <==> CoolingDown(s, nowMs)
    ensures !r.0 ==> r.1 == s
    ensures r.0 ==> r.1 == RelayState(true, Add(nowMs, durationMs), Add(nowMs, cooldownMs), Driven(LevelFor(activeLow, true)))
  {
    if CoolingDown(s, nowMs) then (false, s)
    else (true, Written(s, activeLow, true).(pulseEndMs := Add(nowMs, durationMs), cooldownUntilMs := Add(nowMs, cooldownMs)))
  }

  /** `loop` at `nowMs`: releases the relay once the pulse end is reached. */
  function Looped(s: RelayState, activeLow: bool, nowMs: u32): (t: RelayState)
    ensures t.relayOn <==> s.relayOn && nowMs < s.pulseEndMs
    ensures t.pulseEndMs == s.pulseEndMs && t.cooldownUntilMs == s.cooldownUntilMs
    ensures !(s.relayOn && nowMs >= s.pulseEndMs) ==> t == s
  {
    if s.relayOn && nowMs >= s.pulseEndMs then Written(s, activeLow, false) else s
  }

  /** Every operation keeps the pin in agreement with the relay state. */
  lemma PinAgreementPreserved(s: RelayState, activeLow: bool, nowMs: u32, durationMs: u32, cooldownMs: u32)
    requires PinMatches(s, activeLow)
    ensures PinMatches(Triggered(s, activeLow, nowMs, durationMs, cooldownMs).1, activeLow)
    ensures PinMatches(Looped(s, activeLow, nowMs), activeLow)
  {
  }

  /** Away from the counter wrap, a 5 s pulse with a 5 s cooldown started at `start` keeps
      the relay on for exactly 5 s and refuses new pulses for exactly 5 s. */
  lemma PulseTiming(s: RelayState, activeLow: bool, start: u32, elapsedMs: nat)
    requires !CoolingDown(s, start) && start + elapsedMs < Modulus && start + 5000 < Modulus
    ensures var (_, on) := Triggered(s, activeLow, start, 5000, 5000);
            (Looped(on, activeLow, start + elapsedMs).relayOn <==> elapsedMs < 5000)
            && (Triggered(on, activeLow, start + elapsedMs, 5000, 5000).0 <==> elapsedMs >= 5000)
  {
  }

  // ---------------------------------------------------------------- findings

  /** As written, a pulse accepted shortly before the millisecond counter wraps (about 49.7
      days of uptime) sets a cooldown deadline near 2^32; after the wrap `now` is small
      again, so pulses are refused long after the 5 s cooldown has passed, here 1967 s
      later, and until the counter climbs back past the deadline. */
  lemma CooldownLockoutAfterWrap(s: RelayState, activeLow: bool)
    requires !CoolingDown(s, 4294000000)
    ensures var (ok, on) := Triggered(s, activeLow, 4294000000, 5000, 5000);
            ok && Sub(1000000, 4294000000) == 1967296
            && !Triggered(Looped(on, activeLow, 1000000), activeLow, 1000000, 5000, 5000).0
  {
  }

  /** As written, a pulse started less than `durationMs` before the wrap gets a wrapped,
      small end time, so the very next `loop` releases it: the door gets no pulse at all. */
  lemma PulseCutShortAtWrap(s: RelayState, activeLow: bool)
    requires !CoolingDown(s, 4294966296)
    ensures var (ok, on) := Triggered(s, activeLow, 4294966296, 5000, 5000);
            ok && on.pulseEndMs == 4000 && !Looped(on, activeLow, 4294966296).relayOn
  {
  }

  /** The evidently intended refusal test: the wrap-safe `millisBefore`. */
  predicate CoolingDownWrapSafe(s: RelayState, nowMs: u32) {
    MillisBefore(nowMs, s.cooldownUntilMs)
  }

  /** `triggerPulse` with the wrap-safe refusal test. */
  function TriggeredWrapSafe(s: RelayState, activeLow: bool, nowMs: u32, durationMs: u32, cooldownMs: u32)
    : (r: (bool, RelayState))
    ensures !r.0 <==> CoolingDownWrapSafe(s, nowMs)
    ensures !r.0 ==> r.1 == s
  {
    if CoolingDownWrapSafe(s, nowMs) then (false, s)
    else (true, Written(s, activeLow, true).(pulseEndMs := Add(nowMs, durationMs), cooldownUntilMs := Add(nowMs, cooldownMs)))
  }

  /** `loop` with the wrap-safe release test. */
  function LoopedWrapSafe(s: RelayState, activeLow: bool, nowMs: u32): (t: RelayState)
    ensures t.relayOn <==> s.relayOn && MillisBefore(nowMs, s.pulseEndMs)
  {
    if s.relayOn && !MillisBefore(nowMs, s.pulseEndMs) then Written(s, activeLow, false) else s
  }

  /** With wrap-safe comparisons a pulse lasts exactly `durationMs` and the cooldown exactly
      `cooldownMs`, wherever the counter stands when the pulse starts, including just before
      the wrap, for any durations up to 2^31 ms. */
  lemma WrapSafePulseTiming(s: RelayState, activeLow: bool, start: u32, durationMs: u32, cooldownMs: u32, elapsedMs: u32)
    requires !CoolingDownWrapSafe(s, start)
    requires durationMs <= HalfModulus && cooldownMs <= HalfModulus && elapsedMs < HalfModulus
    ensures var (_, on) := TriggeredWrapSafe(s, activeLow, start, durationMs, cooldownMs);
            var now := Add(start, elapsedMs);
            (LoopedWrapSafe(on, activeLow, now).relayOn <==> elapsedMs < durationMs)
            && (TriggeredWrapSafe(on, activeLow, now, durationMs, cooldownMs).0 <==> elapsedMs >= cooldownMs)
  {
    MillisBeforeElapsed(start, elapsedMs, durationMs);
    MillisBeforeElapsed(start, elapsedMs, cooldownMs);
  }

  // ---------------------------------------------------------------- the controller

  class RelayController {
    const pin: nat
    const activeLow: bool
    var relayOn: bool
    var pulseEndMs: u32
    var cooldownUntilMs: u32
    /** What `pinMode`/`digitalWrite` last did to the relay pin. */
    var output: Pin

    function State(): RelayState
      reads this
    {
      RelayState(relayOn, pulseEndMs, cooldownUntilMs, output)
    }

    constructor (pin: nat, activeLow: bool)
      requires pin < 256
      ensures this.pin == pin && this.activeLow == activeLow
      ensures State() == RelayState(false, 0, 0, Unconfigured)
    {
      this.pin := pin;
      this.activeLow := activeLow;
      relayOn, pulseEndMs, cooldownUntilMs, output := false, 0, 0, Unconfigured;
    }

    /** `begin`: configures the pin and drives the relay off. */
    method Begin()
      modifies this
      ensures State() == Written(old(State()), activeLow, false)
      ensures PinMatches(State(), activeLow) && !relayOn
    {
      WriteRelay(false);
    }

    /** `loop`. */
    method Loop(nowMs: u32)
      modifies this
      ensures State() == Looped(old(State()), activeLow, nowMs)
    {
      if relayOn && nowMs >= pulseEndMs {
        WriteRelay(false);
      }
    }

    /** `triggerPulse`: refused exactly when `isCoolingDown` would report true. */
    method TriggerPulse(nowMs: u32, durationMs: u32, cooldownMs: u32) returns (ok: bool)
      modifies this
      ensures (ok, State()) == Triggered(old(State()), activeLow, nowMs, durationMs, cooldownMs)
      ensures !ok <==> old(IsCoolingDown(nowMs))
    {
      if nowMs < cooldownUntilMs {
        return false;
      }
      WriteRelay(true);
      pulseEndMs := Add(nowMs, durationMs);
      cooldownUntilMs := Add(nowMs, cooldownMs);
      return true;
    }

    /** `isCoolingDown` at `nowMs`. */
    predicate IsCoolingDown(nowMs: u32)
      reads this
    {
      nowMs < cooldownUntilMs
    }

    /** `writeRelay`. */
    method WriteRelay(on: bool)
      modifies this
      ensures State() == Written(old(State()), activeLow, on)
    {
      relayOn := on;
      output := Driven(LevelFor(activeLow, on));
    }
  }
}
