/** The timed trials (`test`, servo_test.c:60-77) and the trial block of
    the main loop (servo_test.c:133-141), as the sequence of peripheral
    actions they perform against an abstract sensor and counter. */
module Trials {
  import opened Ticks
  import opened Servo

  /** What one trial meets: the counter reading taken before the poll, the
      levels of the sensor input PA0 the poll reads (high while the servo
      is still moving), and the counter reading taken after the poll. */
  datatype TrialEnv = TrialEnv(start: u32, levels: seq<bool>, stop: u32)

  /** The poll of the sensor input (servo_test.c:68) ends: some reading is
      low. Otherwise the source polls forever. */
  predicate Releases(env: TrialEnv) {
    false in env.levels
  }

  /** The ticks a completed trial measures, `stop - start`. */
  function Measured(env: TrialEnv): int {
    Elapsed(env.start, env.stop)
  }

  /** The actions of one call of `test`: set the refresh period, LED on,
      drive to the sixty-degree width, and once the poll ends, back to the
      zero width, LED off, and the settle wait. A trial whose poll never
      ends stops after the first three. */
  function TrialActions(p: Profile, env: TrialEnv): (acts: seq<Action>)
    ensures |acts| == if Releases(env) then 6 else 3
    ensures acts[0] == SetPeriod(PeriodOf(p.rate)) && acts[|acts| - 1] != LedOn
    ensures Releases(env) ==> acts[|acts| - 1] == Settle(Measured(env))
  {
    [SetPeriod(PeriodOf(p.rate)), LedOn, Pulse(p.sixty)]
      + if Releases(env) then [Pulse(p.zero), LedOff, Settle(Measured(env))] else []
  }

  /** The actions of calling `test` once per environment, in order: three
      to six per trial. */
  function TrialsActions(p: Profile, envs: seq<TrialEnv>): (acts: seq<Action>)
    ensures 3 * |envs| <= |acts| <= 6 * |envs|
  {
    if envs == [] then []
    else TrialsActions(p, envs[..|envs| - 1]) + TrialActions(p, envs[|envs| - 1])
  }

  /** The ticks measured by trials that all complete, in order. */
  function MeasuredEach(envs: seq<TrialEnv>): seq<int> {
    if envs == [] then [] else MeasuredEach(envs[..|envs| - 1]) + [Measured(envs[|envs| - 1])]
  }

  /** One measurement per trial, in order. */
  lemma {:induction false} MeasuredEachPointwise(envs: seq<TrialEnv>)
    ensures |MeasuredEach(envs)| == |envs|
    ensures forall i :: 0 <= i < |envs| ==> MeasuredEach(envs)[i] == Measured(envs[i])
  {
    if envs != [] {
      MeasuredEachPointwise(envs[..|envs| - 1]);
    }
  }

  /** The index of the first trial whose poll never ends (`|envs|` if
      there is none). */
  function FirstHang(envs: seq<TrialEnv>): (k: nat)
    ensures k <= |envs|
    ensures forall i :: 0 <= i < k ==> Releases(envs[i])
    ensures k < |envs| ==> !Releases(envs[k])
  {
    if envs == [] || !Releases(envs[0]) then 0 else 1 + FirstHang(envs[1..])
  }

  /** How many times the trial loop (servo_test.c:138) runs its body: `run`
      when positive, otherwise none. */
  function TrialCount(run: int): (n: nat)
    ensures run > 0 ==> n == run
    ensures run <= 0 ==> n == 0
  {
    if run > 0 then run else 0
  }

  /** How many times `test` is called: every trial up to and including the
      first one that hangs. */
  function Invoked(run: int, envs: seq<TrialEnv>): (k: nat)
    requires TrialCount(run) <= |envs|
    ensures k <= TrialCount(run)
    ensures !Hangs(run, envs) ==> k == TrialCount(run)
    ensures Hangs(run, envs) ==> 0 < k && !Releases(envs[k - 1])
  {
    var n := TrialCount(run);
    var k := FirstHang(envs[..n]);
    if k < n then k + 1 else n
  }

  /** Some trial of the block hangs. */
  predicate Hangs(run: int, envs: seq<TrialEnv>)
    requires TrialCount(run) <= |envs|
  {
    FirstHang(envs[..TrialCount(run)]) < TrialCount(run)
  }

  /** The actions of the trial block (servo_test.c:133-141): when `run` is
      nonzero, the move to the zero width, the 500 ms wait and the calls of
      `test`. */
  function RunActions(p: Profile, run: int, envs: seq<TrialEnv>): (acts: seq<Action>)
    requires TrialCount(run) <= |envs|
    ensures run == 0 <==> acts == []
    ensures run != 0 ==> |acts| >= 2 && acts[..2] == [Pulse(p.zero), Delay(500)]
  {
    if run == 0 then []
    else [Pulse(p.zero), Delay(500)] + TrialsActions(p, envs[..Invoked(run, envs)])
  }

  /** The ticks the block's completed trials measure. */
  function RunMeasurements(run: int, envs: seq<TrialEnv>): seq<int>
    requires TrialCount(run) <= |envs|
  {
    MeasuredEach(envs[..FirstHang(envs[..TrialCount(run)])])
  }

  // ---------------------------------------------------------------------
  // The state the actions leave the peripherals in.

  /** The LED state after one action. */
  function LedStep(lit: bool, a: Action): bool {
    match a
    case LedOn => true
    case LedOff => false
    case _ => lit
  }

  /** The PWM pulse width after one action. */
  function WidthStep(width: int, a: Action): int {
    if a.Pulse? then a.width else width
  }

  /** Whether the LED is lit after the actions, starting from `lit`. */
  function LedAfter(lit: bool, acts: seq<Action>): bool
    decreases |acts|
  {
    if acts == [] then lit else LedAfter(LedStep(lit, acts[0]), acts[1..])
  }

  /** The pulse width the PWM output has after the actions, starting from
      `width`. */
  function WidthAfter(width: int, acts: seq<Action>): int
    decreases |acts|
  {
    if acts == [] then width else WidthAfter(WidthStep(width, acts[0]), acts[1..])
  }

  /** How many times an action occurs. */
  function Count(a: Action, acts: seq<Action>): nat
    decreases |acts|
  {
    if acts == [] then 0 else (if acts[0] == a then 1 else 0) + Count(a, acts[1..])
  }

  lemma AfterCons(lit: bool, width: int, a: Action, x: Action, xs: seq<Action>)
    ensures LedAfter(lit, [x] + xs) == LedAfter(LedStep(lit, x), xs)
    ensures WidthAfter(width, [x] + xs) == WidthAfter(WidthStep(width, x), xs)
    ensures Count(a, [x] + xs) == (if x == a then 1 else 0) + Count(a, xs)
  {
    assert ([x] + xs)[1..] == xs;
  }

  lemma {:induction false} StateAfterAppend(lit: bool, width: int, a: Action, xs: seq<Action>, ys: seq<Action>)
    ensures LedAfter(lit, xs + ys) == LedAfter(LedAfter(lit, xs), ys)
    ensures WidthAfter(width, xs + ys) == WidthAfter(WidthAfter(width, xs), ys)
    ensures Count(a, xs + ys) == Count(a, xs) + Count(a, ys)
    decreases |xs|
  {
    if xs != [] {
      assert (xs + ys)[1..] == xs[1..] + ys;
      StateAfterAppend(LedStep(lit, xs[0]), WidthStep(width, xs[0]), a, xs[1..], ys);
    } else {
      assert xs + ys == ys;
    }
  }

  /** The state after three actions. */
  lemma AfterThree(lit: bool, width: int, a: Action, x: Action, y: Action, z: Action)
    ensures LedAfter(lit, [x, y, z]) == LedStep(LedStep(LedStep(lit, x), y), z)
    ensures WidthAfter(width, [x, y, z]) == WidthStep(WidthStep(WidthStep(width, x), y), z)
    ensures Count(a, [x, y, z]) == (if x == a then 1 else 0) + (if y == a then 1 else 0) + (if z == a then 1 else 0)
  {
    AfterCons(lit, width, a, x, [y, z]);
    AfterCons(LedStep(lit, x), WidthStep(width, x), a, y, [z]);
    AfterCons(LedStep(LedStep(lit, x), y), WidthStep(WidthStep(width, x), y), a, z, []);
    assert [x] + [y, z] == [x, y, z] && [y] + [z] == [y, z] && [z] + [] == [z];
  }

  /** One trial as a state machine: after its first three actions the LED
      is lit and the servo is driven to the sixty-degree width while the
      sensor is polled; a trial that completes ends with the LED off and the
      servo back at the zero width, having lit the LED exactly once. */
  lemma TrialStates(p: Profile, env: TrialEnv, lit: bool, width: int)
    ensures LedAfter(lit, TrialActions(p, env)[..3]) && WidthAfter(width, TrialActions(p, env)[..3]) == p.sixty
    ensures LedAfter(lit, TrialActions(p, env)) == !Releases(env)
    ensures WidthAfter(width, TrialActions(p, env)) == if Releases(env) then p.zero else p.sixty
    ensures Count(LedOn, TrialActions(p, env)) == 1
  {
    var acts := TrialActions(p, env);
    var head := [SetPeriod(PeriodOf(p.rate)), LedOn, Pulse(p.sixty)];
    assert acts[..3] == head;
    AfterThree(lit, width, LedOn, head[0], head[1], head[2]);
    if Releases(env) {
      var tail := [Pulse(p.zero), LedOff, Settle(Measured(env))];
      StateAfterAppend(lit, width, LedOn, head, tail);
      AfterThree(true, p.sixty, LedOn, tail[0], tail[1], tail[2]);
    } else {
      assert acts == head + [];
      StateAfterAppend(lit, width, LedOn, head, []);
    }
  }

  /** A run of trials that all complete lights the LED once per trial, and
      leaves the LED off and the servo at the zero width. */
  lemma {:induction false} CompletedTrials(p: Profile, envs: seq<TrialEnv>, lit: bool, width: int)
    requires forall i :: 0 <= i < |envs| ==> Releases(envs[i])
    ensures Count(LedOn, TrialsActions(p, envs)) == |envs|
    ensures envs != [] ==> !LedAfter(lit, TrialsActions(p, envs)) && WidthAfter(width, TrialsActions(p, envs)) == p.zero
  {
    if envs != [] {
      var init := envs[..|envs| - 1];
      var last := envs[|envs| - 1];
      CompletedTrials(p, init, lit, width);
      StateAfterAppend(lit, width, LedOn, TrialsActions(p, init), TrialActions(p, last));
      TrialStates(p, last, LedAfter(lit, TrialsActions(p, init)), WidthAfter(width, TrialsActions(p, init)));
    }
  }

  lemma {:induction false} TrialsActionsSnoc(p: Profile, envs: seq<TrialEnv>, i: nat)
    requires i < |envs|
    ensures TrialsActions(p, envs[..i + 1]) == TrialsActions(p, envs[..i]) + TrialActions(p, envs[i])
  {
    assert envs[..i + 1][..i] == envs[..i];
  }

  /** One more completed trial extends the completed prefix. */
  lemma ReleasesSnoc(envs: seq<TrialEnv>, i: nat)
    requires i < |envs| && Releases(envs[i])
    requires forall j :: 0 <= j < i ==> Releases(envs[j])
    ensures forall j :: 0 <= j < i + 1 ==> Releases(envs[j])
  {
  }

  lemma {:induction false} MeasuredEachSnoc(envs: seq<TrialEnv>, i: nat)
    requires i < |envs|
    ensures MeasuredEach(envs[..i + 1]) == MeasuredEach(envs[..i]) + [Measured(envs[i])]
  {
    assert envs[..i + 1][..i] == envs[..i];
  }

  /** The first hang is at `k` when the trials before it complete and the
      one at `k` (if any) does not. */
  lemma {:induction false} FirstHangAt(envs: seq<TrialEnv>, k: nat)
    requires k <= |envs|
    requires forall i :: 0 <= i < k ==> Releases(envs[i])
    requires k < |envs| ==> !Releases(envs[k])
    ensures FirstHang(envs) == k
  {
    if k > 0 {
      FirstHangAt(envs[1..], k - 1);
    }
  }

  /** The block's bookkeeping when the loop stops after trial `i`: either
      trial `i` is the first that hangs, or all trials complete. */
  lemma {:induction false} BlockStops(run: int, envs: seq<TrialEnv>, i: nat, hung: bool)
    requires i <= TrialCount(run) <= |envs|
    requires forall j :: 0 <= j < i ==> Releases(envs[j])
    requires hung ==> i < TrialCount(run) && !Releases(envs[i])
    requires !hung ==> i == TrialCount(run)
    ensures Hangs(run, envs) == hung
    ensures RunMeasurements(run, envs) == MeasuredEach(envs[..i])
    ensures envs[..Invoked(run, envs)] == envs[..if hung then i + 1 else i]
  {
    var n := TrialCount(run);
    FirstHangAt(envs[..n], i);
    assert envs[..n][..i] == envs[..i];
  }

  /** A block's actions, performed one after another, extend a log by
      `RunActions`. */
  lemma RunActionsAppend(before: seq<Action>, p: Profile, run: int, envs: seq<TrialEnv>)
    requires TrialCount(run) <= |envs| && run != 0
    ensures before + [Pulse(p.zero)] + [Delay(500)] + TrialsActions(p, envs[..Invoked(run, envs)])
      == before + RunActions(p, run, envs)
  {
    var rest := TrialsActions(p, envs[..Invoked(run, envs)]);
    assert before + [Pulse(p.zero)] + [Delay(500)] + rest == before + ([Pulse(p.zero), Delay(500)] + rest);
  }

  /** The move to the zero width and the 500 ms wait that open a block
      leave the LED as it was and light it no time. */
  lemma Prelude(p: Profile, lit: bool, width: int)
    ensures LedAfter(lit, [Pulse(p.zero), Delay(500)]) == lit
    ensures WidthAfter(width, [Pulse(p.zero), Delay(500)]) == p.zero
    ensures Count(LedOn, [Pulse(p.zero), Delay(500)]) == 0
  {
    var pre := [Pulse(p.zero), Delay(500)];
    AfterCons(lit, width, LedOn, pre[0], [pre[1]]);
    AfterCons(lit, p.zero, LedOn, pre[1], []);
    assert [pre[0]] + [pre[1]] == pre && [pre[1]] + [] == [pre[1]];
  }

  /** A block with `run` 0 does nothing; with `run` negative, it only moves
      to the zero width and waits 500 ms. */
  lemma RunBlockIdle(p: Profile, run: int, envs: seq<TrialEnv>)
    requires TrialCount(run) <= |envs|
    ensures run == 0 <==> RunActions(p, run, envs) == []
    ensures run < 0 ==> RunActions(p, run, envs) == [Pulse(p.zero), Delay(500)]
  {
    if run < 0 {
      assert envs[..0] == [];
    }
  }

  /** A block with `run` positive in which no trial hangs calls `test`
      exactly `run` times and ends with the LED off and the servo at the zero
      width. */
  lemma RunBlockCompletes(p: Profile, run: int, envs: seq<TrialEnv>, lit: bool, width: int)
    requires 0 < run <= |envs| && !Hangs(run, envs)
    ensures Count(LedOn, RunActions(p, run, envs)) == run
    ensures |RunMeasurements(run, envs)| == run
    ensures forall i :: 0 <= i < run ==> RunMeasurements(run, envs)[i] == Measured(envs[i])
    ensures !LedAfter(lit, RunActions(p, run, envs))
    ensures WidthAfter(width, RunActions(p, run, envs)) == p.zero
  {
    var pre := [Pulse(p.zero), Delay(500)];
    Prelude(p, lit, width);
    assert envs[..run][..run] == envs[..run];
    MeasuredEachPointwise(envs[..run]);
    CompletedTrials(p, envs[..run], lit, p.zero);
    StateAfterAppend(lit, width, LedOn, pre, TrialsActions(p, envs[..run]));
  }

  /** A block in which a trial hangs ends inside that trial, having called
      `test` up to it, with the LED lit and the servo at the sixty-degree
      width. */
  lemma RunBlockHangs(p: Profile, run: int, envs: seq<TrialEnv>, lit: bool, width: int)
    requires TrialCount(run) <= |envs| && Hangs(run, envs)
    ensures run > 0
    ensures Count(LedOn, RunActions(p, run, envs)) == Invoked(run, envs)
    ensures LedAfter(lit, RunActions(p, run, envs))
    ensures WidthAfter(width, RunActions(p, run, envs)) == p.sixty
  {
    var n := TrialCount(run);
    var k := FirstHang(envs[..n]);
    var pre := [Pulse(p.zero), Delay(500)];
    Prelude(p, lit, width);
    TrialsActionsSnoc(p, envs, k);
    CompletedTrials(p, envs[..k], lit, p.zero);
    var mid := TrialsActions(p, envs[..k]);
    StateAfterAppend(lit, width, LedOn, pre, mid + TrialActions(p, envs[k]));
    StateAfterAppend(lit, p.zero, LedOn, mid, TrialActions(p, envs[k]));
    TrialStates(p, envs[k], LedAfter(lit, mid), WidthAfter(p.zero, mid));
    assert !Releases(envs[..n][k]);
  }

  /** A trial measures the true number of ticks the poll took, also across
      a wrap of the counter, as long as it took fewer than 2^31 ticks. */
  lemma TrialMeasuresTrueTicks(env: TrialEnv, t0: int, t1: int)
    requires env.start == Wrap(t0) && env.stop == Wrap(t1)
    requires 0 <= t1 - t0 < HalfModulus
    ensures Measured(env) == t1 - t0
  {
    ElapsedIsTrueTicks(t0, t1);
  }
}
