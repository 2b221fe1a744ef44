/** The firmware's fixed-width clock arithmetic: uint32_t values that wrap at 2^32,
    their reinterpretation as int32_t, and the wrap-safe deadline test `millisBefore`
    (nodemcu/poot_lock/firebase_client.cpp) that every millisecond deadline should use. */
module U32 {

  const Modulus: int := 0x1_0000_0000
  const HalfModulus: int := 0x8000_0000

  /** A uint32_t. */
  type u32 = x: int | 0 <= x < 0x1_0000_0000

  /** uint32_t addition, wrapping at 2^32. */
  function Add(a: u32, b: u32): u32 {
    (a + b) % Modulus
  }

  /** uint32_t subtraction, wrapping at 2^32. */
  function Sub(a: u32, b: u32): u32 {
    (a - b) % Modulus
  }

  /** static_cast<int32_t> of a uint32_t: the two's-complement reading of the same 32 bits. */
  function ToInt32(x: u32): (r: int)
    ensures -HalfModulus <= r < HalfModulus
    ensures r % Modulus == x
  {
    if x < HalfModulus then x else x - Modulus
  }

  /** An int32_t computation whose mathematical result `x` is wrapped into 32 bits
      (the two's-complement behaviour of the target compiler on overflow). */
  function I32(x: int): (r: int)
    ensures -HalfModulus <= r < HalfModulus
    ensures (r - x) % Modulus == 0
  {
    ToInt32(x % Modulus)
  }

  /** `millisBefore(now, t)`: true iff `now` is earlier than the deadline `t`, judged by the
      sign of the 32-bit difference so that the answer survives the counter wrapping. */
  predicate MillisBefore(nowMs: u32, targetMs: u32) {
    ToInt32(Sub(nowMs, targetMs)) < 0
  }

  /** The wrapped difference of two readings taken `elapsed` and `deadline` ms after a common
      start is the plain difference, whatever the start. */
  lemma {:induction false} SubOfOffsets(start: u32, elapsed: u32, deadline: u32)
    ensures Sub(Add(start, elapsed), Add(start, deadline)) == (elapsed - deadline) % Modulus
  {
    var a := start + elapsed;
    var b := start + deadline;
    assert a % Modulus == a - (a / Modulus) * Modulus;
    assert b % Modulus == b - (b / Modulus) * Modulus;
    var k := a / Modulus - b / Modulus;
    assert a % Modulus - b % Modulus == (elapsed - deadline) - k * Modulus;
    ModShift(elapsed - deadline, k);
  }

  lemma {:induction false} ModShift(x: int, k: int)
    ensures (x - k * Modulus) % Modulus == x % Modulus
    decreases if k >= 0 then k else -k
  {
    if k > 0 {
      ModShift(x, k - 1);
      assert x - k * Modulus == (x - (k - 1) * Modulus) - Modulus;
    } else if k < 0 {
      ModShift(x, k + 1);
      assert x - k * Modulus == (x - (k + 1) * Modulus) + Modulus;
    }
  }

  /** Wrap safety of `millisBefore`: a deadline set `deadline` ms after some start is still
      ahead exactly while fewer than `deadline` ms have elapsed, for any start (including
      starts just before the counter wraps), as long as both spans stay below 2^31 ms. */
  lemma {:induction false} MillisBeforeElapsed(start: u32, elapsed: u32, deadline: u32)
    requires elapsed < HalfModulus && deadline <= HalfModulus
    ensures MillisBefore(Add(start, elapsed), Add(start, deadline)) <==> elapsed < deadline
  {
    SubOfOffsets(start, elapsed, deadline);
    var d := elapsed - deadline;
    if d >= 0 {
      assert d % Modulus == d;
    } else {
      assert d % Modulus == d + Modulus;
    }
  }
}
