/** The calibration profile the firmware keeps in `main`'s locals, and the
    peripheral operations it performs, recorded as actions. */
module Servo {

  /** Pulse widths (timer ticks of 1 us) for the zero and the sixty-degree
      positions, and the PWM refresh rate in Hz. */
  datatype Profile = Profile(zero: int, sixty: int, rate: int)

  /** The "narrow" preset (servo_test.c:103-105). */
  const Narrow := Profile(780, 400, 560)

  /** The "normal" preset, which is also the profile at power-on
      (servo_test.c:88-90 and 107-109). */
  const Normal := Profile(1500, 2100, 333)

  /** C's `/` on `int`: the quotient truncated toward zero. */
  function TruncDiv(a: int, b: int): (q: int)
    requires b != 0
    ensures var r := a - q * b;
      (if r < 0 then -r else r) < (if b < 0 then -b else b)
      && (r == 0 || (r < 0 <==> a < 0))
  {
    var m := (if a < 0 then -a else a) / (if b < 0 then -b else b);
    if (a < 0) == (b < 0) then m else -m
  }

  /** The timer period a trial loads, one million divided by the rate
      (servo_test.c:62). The source does not guard the division, so a rate of zero
      reaches a division by zero, which C leaves undefined. */
  datatype Period = PeriodUs(us: int) | DivisionByZero

  function PeriodOf(rate: int): (p: Period)
    ensures p.DivisionByZero? <==> rate == 0
  {
    if rate == 0 then DivisionByZero else PeriodUs(TruncDiv(1000000, rate))
  }

  /** A positive rate gives the whole number of microseconds in one refresh
      period, rounded down. */
  lemma PeriodOfPositiveRate(rate: int)
    requires rate > 0
    ensures PeriodOf(rate).PeriodUs?
    ensures var us := PeriodOf(rate).us;
      0 <= us <= 1000000 && us * rate <= 1000000 < us * rate + rate
  {
    var us := PeriodOf(rate).us;
    assert us * rate <= 1000000 < us * rate + rate;
  }

  /** What the firmware does to its peripherals: the PWM timer period, the
      LED on PC13, the PWM compare value (`pulse_width`), and the busy
      waits. `Settle` is the wait after a trial, which the source sizes from
      the measured ticks through floating point. */
  datatype Action =
    | SetPeriod(period: Period)
    | LedOn
    | LedOff
    | Pulse(width: int)
    | Delay(ms: int)
    | Settle(ticks: int)

  /** `pulse_width(w)` for each width, in order. */
  function Pulses(widths: seq<int>): (acts: seq<Action>)
    ensures |acts| == |widths|
    ensures forall i :: 0 <= i < |widths| ==> acts[i] == Pulse(widths[i])
  {
    if widths == [] then [] else [Pulse(widths[0])] + Pulses(widths[1..])
  }
}
