/** Arithmetic on the free-running 32-bit cycle counter (DWT_CYCCNT) of a
    72 MHz core, and the busy-wait delay built on it.

    Counter readings are unsigned 32-bit values; the "true" tick count they
    are taken from is an unbounded integer. Unsigned arithmetic wraps modulo
    2^32, and the conversion of an unsigned value to `int` is the
    two's-complement reinterpretation the target compiler performs. */
module Ticks {

  const Modulus: int := 0x1_0000_0000
  const HalfModulus: int := 0x8000_0000

  /** Core clock ticks per millisecond at 72 MHz. */
  const TicksPerMs: int := 72000

  /** An `unsigned` (32-bit) value. */
  type u32 = x: int | 0 <= x < 0x1_0000_0000

  /** The range of a 32-bit `int`. */
  predicate InInt32(x: int) {
    -HalfModulus <= x < HalfModulus
  }

  /** Conversion of an integer to `unsigned`: reduction modulo 2^32. */
  function Wrap(x: int): u32 {
    x % Modulus
  }

  /** The `(int)` cast of an `unsigned` value. */
  function AsSigned(u: u32): (r: int)
    ensures InInt32(r)
    ensures Wrap(r) == u
    ensures r > 0 <==> 0 < u < HalfModulus
  {
    if u < HalfModulus then u else u - Modulus
  }

  /** Two integers are congruent modulo 2^32 exactly when they differ by a
      multiple of 2^32; this is the fact every wrap-around argument uses. */
  lemma WrapCongruent(x: int, k: int)
    ensures Wrap(x + k * Modulus) == Wrap(x)
  {
    var q, r := x / Modulus, x % Modulus;
    assert x + k * Modulus == (q + k) * Modulus + r;
    var q', r' := (x + k * Modulus) / Modulus, (x + k * Modulus) % Modulus;
    assert (q + k - q') * Modulus == r' - r;
  }

  /** Subtraction of two unsigned values agrees with subtraction of the
      true tick counts they were read from. */
  lemma WrapSub(a: int, b: int)
    ensures Wrap(Wrap(b) - Wrap(a)) == Wrap(b - a)
  {
    var qa, qb := a / Modulus, b / Modulus;
    assert Wrap(b) - Wrap(a) == (b - a) + (qa - qb) * Modulus;
    WrapCongruent(b - a, qa - qb);
  }

  /** A value in the `int` range survives the round trip through
      `unsigned` and back. */
  lemma AsSignedWrap(x: int)
    requires InInt32(x)
    ensures AsSigned(Wrap(x)) == x
  {
    if x < 0 {
      WrapCongruent(x, 1);
      assert Wrap(x + Modulus) == x + Modulus;
    }
  }

  /** `int` subtraction on the target, taken as the mathematical
      difference reduced to 32 bits: the true difference whenever it fits an
      `int`. C leaves the other case undefined. */
  function Sub32(stop: int, start: int): (r: int)
    ensures InInt32(r) && Wrap(r) == Wrap(stop - start)
    ensures InInt32(stop - start) ==> r == stop - start
  {
    var r := AsSigned(Wrap(stop - start));
    assert InInt32(stop - start) ==> r == stop - start by {
      if InInt32(stop - start) {
        AsSignedWrap(stop - start);
      }
    }
    r
  }

  /** The tick difference a trial measures from two counter readings taken
      into `int` variables: congruent to the unsigned difference of the
      readings. */
  function Elapsed(start: u32, stop: u32): (r: int)
    ensures InInt32(r) && Wrap(r) == Wrap(stop - start)
  {
    WrapSub(AsSigned(start), AsSigned(stop));
    Sub32(AsSigned(stop), AsSigned(start))
  }

  /** The difference of two counter readings is the true number of ticks
      between them, even across a wrap of the counter, as long as fewer than
      2^31 ticks passed. */
  lemma {:induction false} ElapsedIsTrueTicks(t0: int, t1: int)
    requires 0 <= t1 - t0 < HalfModulus
    ensures Elapsed(Wrap(t0), Wrap(t1)) == t1 - t0
  {
    var s0, s1 := AsSigned(Wrap(t0)), AsSigned(Wrap(t1));
    WrapSub(s0, s1);
    WrapSub(t0, t1);
    AsSignedWrap(t1 - t0);
  }

  /** Readings that straddle 2^31 make the `int` subtraction overflow,
      which C leaves undefined; the model's wrap-around still gives the true
      32 ticks. */
  lemma ElapsedAcrossHalf()
    ensures !InInt32(AsSigned(0x8000_0010) - AsSigned(0x7FFF_FFF0))
    ensures Elapsed(0x7FFF_FFF0, 0x8000_0010) == 32
  {
    assert AsSigned(0x8000_0010) - AsSigned(0x7FFF_FFF0) == 32 - Modulus;
    assert Wrap(32 - Modulus) == 32 by {
      WrapCongruent(32, -1);
    }
  }

  /** The deadline `delay_ms` computes (servo_test.c:56): the counter
      reading plus `ms` times the ticks per millisecond, with `unsigned`
      wrap-around; the product is an `int` and must not overflow. */
  function Deadline(now: u32, ms: int): (r: u32)
    requires InInt32(ms * TicksPerMs)
    ensures AsSigned(Wrap(r - now)) == ms * TicksPerMs
  {
    var d := Wrap(now + ms * TicksPerMs);
    WrapSub(now, now + ms * TicksPerMs);
    AsSignedWrap(ms * TicksPerMs);
    d
  }

  /** The busy-wait condition of `delay_ms` (servo_test.c:57), the signed
      distance from the counter to the deadline being positive: the
      unsigned distance is nonzero and below 2^31. */
  predicate Pending(deadline: u32, now: u32)
    ensures Pending(deadline, now) <==> 0 < Wrap(deadline - now) < HalfModulus
  {
    AsSigned(Wrap(deadline - now)) > 0
  }

  /** The wrap-around-safe comparison is exact: with a delay of fewer than
      2^31 ticks, the wait is still pending at a reading taken `e` ticks after
      the deadline was computed exactly when `e` is short of the delay, as
      long as the reading is less than 2^31 ticks past the deadline. */
  lemma {:induction false} PendingIffShort(t0: int, t: int, ms: int)
    requires 0 <= ms * TicksPerMs < HalfModulus
    requires 0 <= t - t0 < ms * TicksPerMs + HalfModulus
    ensures Pending(Deadline(Wrap(t0), ms), Wrap(t)) <==> t - t0 < ms * TicksPerMs
  {
    var d := ms * TicksPerMs;
    WrapSub(t, Wrap(t0) + d);
    assert Wrap(t0) + d - t == (t0 + d - t) + (-(t0 / Modulus)) * Modulus;
    WrapCongruent(t0 + d - t, -(t0 / Modulus));
    AsSignedWrap(t0 + d - t);
  }

  /** What a return from `delay_ms` tells about the counter readings it
      polled: `clock[0]` is the reading that fixed the deadline, and every
      poll before the one it returned at (all polls, if it is still waiting
      at the end of the trace) found the deadline pending. */
  datatype Wait = Returned(poll: nat) | StillWaiting

  predicate DelayOutcome(ms: int, clock: seq<u32>, w: Wait)
    requires InInt32(ms * TicksPerMs) && |clock| > 0
  {
    var deadline := Deadline(clock[0], ms);
    var end := if w.Returned? then w.poll else |clock|;
    1 <= end <= |clock|
    && (w.Returned? ==> w.poll < |clock| && !Pending(deadline, clock[w.poll]))
    && forall j :: 1 <= j < end ==> Pending(deadline, clock[j])
  }

  /** `delay_ms` (servo_test.c:54-58) against a finite trace of counter
      readings. The source spins for as long as the deadline is pending; when
      the trace runs out first, the result is `StillWaiting`. */
  method DelayMs(ms: int, clock: seq<u32>) returns (w: Wait)
    requires InInt32(ms * TicksPerMs)
    requires |clock| > 0
    ensures DelayOutcome(ms, clock, w)
  {
    var deadline: int := Wrap(clock[0] + ms * TicksPerMs);
    var i := 1;
    while i < |clock| && AsSigned(Wrap(deadline - clock[i])) > 0
      invariant 1 <= i <= |clock|
      invariant forall j :: 1 <= j < i ==> Pending(deadline, clock[j])
    {
      i := i + 1;
    }
    w := if i < |clock| then Returned(i) else StillWaiting;
  }

  /** A counter trace read from true tick counts that never go backwards and
      advance by fewer than 2^31 ticks between two reads. */
  predicate SampledFrom(clock: seq<u32>, ticks: seq<int>) {
    |ticks| == |clock|
    && (forall i :: 0 <= i < |clock| ==> clock[i] == Wrap(ticks[i]))
    && forall i :: 0 < i < |ticks| ==> 0 <= ticks[i] - ticks[i - 1] < HalfModulus
  }

  /** `delay_ms` never returns early and never oversleeps a poll: it returns
      at the first poll at which at least `ms * 72000` true ticks have
      passed, also when the counter wraps during the wait. */
  lemma {:induction false} DelayMsIsExact(ms: int, clock: seq<u32>, ticks: seq<int>, w: Wait)
    requires 0 <= ms * TicksPerMs < HalfModulus
    requires |clock| > 0
    requires SampledFrom(clock, ticks)
    requires DelayOutcome(ms, clock, w)
    ensures w.Returned? ==> ticks[w.poll] - ticks[0] >= ms * TicksPerMs
    ensures forall j :: 1 <= j < (if w.Returned? then w.poll else |clock|) ==>
              ticks[j] - ticks[0] < ms * TicksPerMs
  {
    var d := ms * TicksPerMs;
    var end := if w.Returned? then w.poll else |clock|;
    var j := 1;
    while j < end
      invariant 1 <= j <= end
      invariant forall i :: 1 <= i < j ==> ticks[i] - ticks[0] < d
      invariant 0 <= ticks[j - 1] - ticks[0] <= d
    {
      PendingIffShort(ticks[0], ticks[j], ms);
      j := j + 1;
    }
    if w.Returned? {
      PendingIffShort(ticks[0], ticks[w.poll], ms);
    }
  }
}
