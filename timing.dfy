/** The replay scheduler's arithmetic: the C# expression
    `(int)(currTimestamp - prevTimestamp) * 10`, the realtime clamp and the
    choice between realtime and fixed delays. */
module Timing {
  import opened Formats

  /** C#'s `int`. */
  type int32 = x: int | -0x8000_0000 <= x < 0x8000_0000

  /** One timestamp tick is 10 ms. */
  const TickMs := 10

  /** Realtime delays outside (0, 500) ms are replaced by 500 ms. */
  const FallbackMs := 500

  /** Unchecked `uint` arithmetic: the value brought into [0, 2^32) by adding
      or subtracting 2^32 as often as needed. It keeps the residue modulo
      2^32: the same 32-bit pattern, as unchecked C# arithmetic promises. */
  function WrapU32(x: int): (u: uint32)
    ensures (u - x) % 0x1_0000_0000 == 0
    decreases if x < 0 then 1 - x else if x >= 0x1_0000_0000 then x else 0
  {
    if x < 0 then WrapU32(x + 0x1_0000_0000)
    else if x >= 0x1_0000_0000 then WrapU32(x - 0x1_0000_0000)
    else x
  }

  /** Unchecked `(int)` cast of a `uint`: the same 32 bits read as two's
      complement, so the residue modulo 2^32 is kept and the top bit is the
      sign. */
  function AsInt32(u: uint32): (i: int32)
    ensures (i - u) % 0x1_0000_0000 == 0
    ensures i < 0 <==> u >= 0x8000_0000
  {
    if u < 0x8000_0000 then u else u - 0x1_0000_0000
  }

  /** Unchecked `int` arithmetic: the value brought into the two's complement
      range by adding or subtracting 2^32 as often as needed, keeping its
      residue modulo 2^32. */
  function WrapI32(x: int): (i: int32)
    ensures (i - x) % 0x1_0000_0000 == 0
    decreases if x < -0x8000_0000 then -x else if x >= 0x8000_0000 then x else 0
  {
    if x < -0x8000_0000 then WrapI32(x + 0x1_0000_0000)
    else if x >= 0x8000_0000 then WrapI32(x - 0x1_0000_0000)
    else x
  }

  /** Multiplying two numbers congruent modulo 2^32 by the same factor keeps
      them congruent. */
  lemma ScaleKeepsResidue(a: int, b: int, f: int)
    requires (a - b) % 0x1_0000_0000 == 0
    ensures (a * f - b * f) % 0x1_0000_0000 == 0
  {
    var q := (a - b) / 0x1_0000_0000;
    assert a - b == 0x1_0000_0000 * q;
    assert a * f - b * f == 0x1_0000_0000 * (q * f);
  }

  /** The scaled difference `(int)(curr - prev) * 10`, with the source's
      wrap-around at each step: an `int` with the same 32 bits as the true
      difference in ticks times 10 ms. */
  function ScaledDelta(curr: uint32, prev: uint32): (d: int32)
    ensures (d - (curr - prev) * TickMs) % 0x1_0000_0000 == 0
  {
    var u := WrapU32(curr - prev);
    var i := AsInt32(u);
    ScaleKeepsResidue(i, curr - prev, TickMs);
    WrapI32(i * TickMs)
  }

  /** The realtime sleep for a frame with timestamp `curr` after one with
      `prev`: the scaled difference when it lies strictly between 0 and 500,
      500 otherwise. Always a positive wait of at most 500 ms. */
  function RealtimeDelay(curr: uint32, prev: uint32): (ms: nat)
    ensures 0 < ms <= FallbackMs
  {
    var delay := ScaledDelta(curr, prev);
    if delay < FallbackMs && delay > 0 then delay else FallbackMs
  }

  /** The sleep after a frame: the configured delay when it is not negative,
      the realtime delay otherwise. */
  function SleepMs(delay: int, curr: uint32, prev: uint32): (ms: nat)
    ensures delay >= 0 ==> ms == delay
    ensures delay < 0 ==> 0 < ms <= FallbackMs
  {
    if delay >= 0 then delay else RealtimeDelay(curr, prev)
  }

  /** For two 24-bit timestamps the wrapped computation is exact: no step
      overflows in a way that changes the value, so the result is the true
      signed difference in ticks times 10 ms. */
  lemma ScaledDeltaExact(curr: uint32, prev: uint32)
    requires curr < TimestampLimit && prev < TimestampLimit
    ensures ScaledDelta(curr, prev) == (curr - prev) * TickMs
  {
    if curr >= prev {
      assert WrapU32(curr - prev) == curr - prev;
    } else {
      assert WrapU32(curr - prev) == curr - prev + 0x1_0000_0000;
    }
    assert AsInt32(WrapU32(curr - prev)) == curr - prev;
  }

  /** The realtime rule on 24-bit timestamps, in terms of the true difference:
      a gap of 1 to 49 ticks sleeps that many times 10 ms; a gap of 0, a
      negative gap (the counter went back) or a gap of 50 ticks or more
      sleeps exactly 500 ms. */
  lemma RealtimeDelayRule(curr: uint32, prev: uint32)
    requires curr < TimestampLimit && prev < TimestampLimit
    ensures RealtimeDelay(curr, prev) == if prev < curr < prev + 50 then (curr - prev) * TickMs else FallbackMs
  {
    ScaledDeltaExact(curr, prev);
  }

  /** A timestamp that does not advance always sleeps 500 ms in realtime. */
  lemma NoAdvanceSleepsFallback(curr: uint32, prev: uint32)
    requires curr < TimestampLimit && prev < TimestampLimit
    requires curr <= prev
    ensures RealtimeDelay(curr, prev) == FallbackMs
  {
    RealtimeDelayRule(curr, prev);
  }

  /** Realtime ticks 0, 5, 55, 500 after a start at 0: the sleeps are 500
      (no advance), 50, 500 (a 50-tick gap is 500 ms, not inside the open
      interval) and 500 (4450 ms clamped). */
  lemma RealtimeTicksExample()
    ensures RealtimeDelay(0, 0) == 500
    ensures RealtimeDelay(5, 0) == 50
    ensures RealtimeDelay(55, 5) == 500
    ensures RealtimeDelay(500, 55) == 500
  {
    RealtimeDelayRule(0, 0);
    RealtimeDelayRule(5, 0);
    RealtimeDelayRule(55, 5);
    RealtimeDelayRule(500, 55);
  }

  /** A counter that went back from 10 to 5: the wrapped `uint` difference
      2^32 - 5 is cast to the `int` -5, scaled to -50, and clamped to 500. */
  lemma WrappedCounterExample()
    ensures WrapU32(5 - 10) == 0xFFFF_FFFB
    ensures ScaledDelta(5, 10) == -50
    ensures RealtimeDelay(5, 10) == FallbackMs
  {
    ScaledDeltaExact(5, 10);
  }
}
