/**
 * Fixed-width integer behaviour of the target (a 32-bit Arduino core: `int`,
 * `long` and `size_t` are 32 bits wide) and the wrap-safe deadline test the
 * transport engine uses for every wait.
 */
module Machine {

  const U8Modulus: int := 0x100
  const U16Modulus: int := 0x1_0000
  const U32Modulus: int := 0x1_0000_0000
  const I32Half: int := 0x8000_0000

  type u8 = x: int | 0 <= x < 0x100
  type i8 = x: int | -0x80 <= x < 0x80
  type u16 = x: int | 0 <= x < 0x1_0000
  type u32 = x: int | 0 <= x < 0x1_0000_0000
  type i32 = x: int | -0x8000_0000 <= x < 0x8000_0000

  /** Conversion of any integer to `uint8_t` (reduction modulo 2^8). */
  function ToU8(x: int): (r: u8)
    ensures (r - x) % U8Modulus == 0
  {
    x % U8Modulus
  }

  /** Conversion to `uint16_t`. */
  function ToU16(x: int): (r: u16)
    ensures (r - x) % U16Modulus == 0
  {
    x % U16Modulus
  }

  /** Conversion to `uint32_t`. */
  function ToU32(x: int): (r: u32)
    ensures (r - x) % U32Modulus == 0
  {
    x % U32Modulus
  }

  /** Two's-complement conversion to `int8_t`. */
  function ToI8(x: int): (r: i8)
    ensures (r - x) % U8Modulus == 0
  {
    var u := x % U8Modulus;
    if u < 0x80 then u else u - U8Modulus
  }

  /** Two's-complement conversion to `int32_t` / `long`. */
  function ToI32(x: int): (r: i32)
    ensures (r - x) % U32Modulus == 0
  {
    var u := x % U32Modulus;
    if u < I32Half then u else u - U32Modulus
  }

  lemma ToI32OfSmall(x: int)
    requires 0 <= x < I32Half
    ensures ToI32(x) == x
  {
  }

  /** C's `/` on signed integers: the quotient truncated toward zero. */
  function CDiv(a: int, b: int): int
    requires b > 0
  {
    if a >= 0 then a / b else -((-a) / b)
  }

  /** `millis() + budget` in `uint32_t` arithmetic. */
  function Deadline(now: u32, budget: u32): u32
  {
    ToU32(now + budget)
  }

  /**
   * `isTimedOut(ts)`: the unsigned difference `millis() - ts` read back as a
   * signed `long` is not negative.
   */
  predicate IsTimedOut(now: u32, ts: u32)
  {
    ToI32(ToU32(now - ts)) >= 0
  }

  /** The test holds exactly when the wrapped distance from `ts` to `now` is below 2^31. */
  lemma TimedOutIffDistanceBelowHalf(now: u32, ts: u32)
    ensures IsTimedOut(now, ts) <==> ToU32(now - ts) < I32Half
  {
  }

  /** From `ts` onward, for 2^31 - 1 ms, the deadline reads as passed, even across the clock wrap. */
  lemma TimedOutFromDeadline(ts: u32, elapsed: int)
    requires 0 <= elapsed < I32Half
    ensures IsTimedOut(ToU32(ts + elapsed), ts)
  {
    assert ToU32(ToU32(ts + elapsed) - ts) == elapsed;
  }

  /** Up to 2^31 ms before `ts` the deadline reads as not yet reached, even across the clock wrap. */
  lemma NotTimedOutBeforeDeadline(ts: u32, early: int)
    requires 0 < early <= I32Half
    ensures !IsTimedOut(ToU32(ts - early), ts)
  {
    assert ToU32(ToU32(ts - early) - ts) == U32Modulus - early;
  }

  lemma ToU32Shift(x: int, q: int)
    ensures ToU32(x + q * U32Modulus) == ToU32(x)
  {
  }

  lemma ToU8OfU8(x: int)
    requires 0 <= x < U8Modulus
    ensures ToU8(x) == x
  {
  }

  lemma ToU16OfU16(x: int)
    requires 0 <= x < U16Modulus
    ensures ToU16(x) == x
  {
  }

  lemma ToU32OfU32(x: int)
    requires 0 <= x < U32Modulus
    ensures ToU32(x) == x
  {
  }

  /**
   * A deadline `Deadline(start, budget)` has passed at `now` exactly when at
   * least `budget` ms have elapsed since `start`, whatever the clock value,
   * as long as budget and elapsed time stay below 2^31 ms.
   */
  lemma DeadlineIsWrapSafe(start: u32, budget: u32, now: u32)
    requires budget < I32Half
    requires ToU32(now - start) < I32Half
    ensures IsTimedOut(now, Deadline(start, budget)) <==> ToU32(now - start) >= budget
  {
    var e := ToU32(now - start);
    var d := Deadline(start, budget);
    var q1 := if start + budget >= U32Modulus then 1 else 0;
    ToU32Shift(start + budget - q1 * U32Modulus, q1);
    ToU32OfU32(start + budget - q1 * U32Modulus);
    assert d == start + budget - q1 * U32Modulus;
    var q2 := if now >= start then 0 else 1;
    ToU32Shift(now - start + q2 * U32Modulus, -q2);
    ToU32OfU32(now - start + q2 * U32Modulus);
    assert e == now - start + q2 * U32Modulus;
    assert now - d == (e - budget) + (q1 - q2) * U32Modulus;
    ToU32Shift(e - budget, q1 - q2);
    TimedOutIffDistanceBelowHalf(now, d);
    if e >= budget {
      ToU32OfU32(e - budget);
    } else {
      ToU32Shift(e - budget, 1);
      ToU32OfU32(e - budget + U32Modulus);
    }
  }
}
