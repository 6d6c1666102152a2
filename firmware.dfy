/** The firmware's main loop (servo_test.c:79-144) as a class: its fields
    are the variables `main` keeps across iterations, plus the log of what
    it has done to the peripherals. One call of `Step` is one iteration of
    the endless command loop. */
module Firmware {
  import opened Ticks
  import opened Scanf
  import opened Servo
  import opened Interpreter
  import opened Trials

  /** Nothing stops `rate 0`: the line is accepted, and the first trial of
      the next `run` divides by the zero rate when it sets the refresh
      period. */
  lemma ZeroRateReachesDivision(p: Profile, tail: string, envs: seq<TrialEnv>)
    requires tail == [] || IsLineEnd(tail[0])
    requires |envs| >= 1
    ensures var e := Interpret(p, CommandLine(RateKey, 0, tail));
      e.profile.rate == 0 && !e.bad
      && RunActions(e.profile, 1, envs)[2] == SetPeriod(DivisionByZero)
  {
    RateCommand(p, 0, tail);
    var q := p.(rate := 0);
    assert Invoked(1, envs) == 1 by {
      assert FirstHang(envs[..1]) <= 1;
    }
    assert envs[..1][..0] == [];
    assert TrialsActions(q, envs[..1]) == TrialActions(q, envs[0]);
  }

  class Tester {
    var servo0: int
    var servo60: int
    var servoRate: int
    /** Every peripheral action performed so far, in order. */
    var actions: seq<Action>

    /** The calibration profile the three fields hold. */
    function Current(): Profile
      reads this`servo0, this`servo60, this`servoRate
    {
      Profile(servo0, servo60, servoRate)
    }

    /** The state after bring-up: the "normal" values (servo_test.c:88-90)
        and no action yet. */
    constructor ()
      ensures Current() == Normal && actions == []
    {
      servo0, servo60, servoRate := 1500, 2100, 333;
      actions := [];
    }

    /** `pulse_width` (servo_test.c:49-52). */
    method PulseWidth(width: int)
      modifies this`actions
      ensures actions == old(actions) + [Pulse(width)]
    {
      actions := actions + [Pulse(width)];
    }

    /** `fgets` into the 80-character line buffer, then the loop that cuts
        the line at its terminator in place (servo_test.c:93-99); the
        result is the C string left in the buffer. */
    static method ReadLine(line: string) returns (s: string)
      requires |line| < 80 && Nul !in line
      ensures s == UpToLineEnd(line)
    {
      var buf := new char[80];
      forall i | 0 <= i < |line| {
        buf[i] := line[i];
      }
      buf[|line|] := Nul;
      assert CStr(buf[..]) == line by {
        assert buf[..] == line + [Nul] + buf[|line| + 1..];
        CStrOfTerminated(line, buf[|line| + 1..]);
      }
      TerminateAtLineEnd(buf);
      s := CStr(buf[..]);
    }

    /** The first part of the loop body (servo_test.c:93-128): the presets,
        and otherwise the four field calls. */
    method Command(line: string) returns (run: int, bad: bool)
      requires |line| < 80 && Nul !in line
      requires NumbersFit(UpToLineEnd(line))
      modifies this
      ensures var e := Interpret(old(Current()), line);
        Current() == e.profile && run == e.run && bad == e.bad
        && actions == old(actions) + Pulses(e.pulses)
    {
      var s := ReadLine(line);
      if s == "narrow" {
        servo0, servo60, servoRate := 780, 400, 560;
        run, bad := 0, false;
      } else if s == "normal" {
        servo0, servo60, servoRate := 1500, 2100, 333;
        run, bad := 0, false;
      } else {
        run, bad := ApplyFields(s);
      }
    }

    /** servo_test.c:111-127: `c` sums the four return values; `new_0` and
        `new_60` start at -1 and are applied only when positive, each with
        a `pulse_width`; `rate` and `run` are written by `sscanf` itself. */
    method ApplyFields(s: string) returns (run: int, bad: bool)
      requires NumbersFit(s)
      modifies this
      ensures var e := FieldsEffect(old(Current()), s);
        Current() == e.profile && run == e.run && bad == e.bad
        && actions == old(actions) + Pulses(e.pulses)
    {
      run := 0;
      var c := 0;
      var new0, new60 := -1, -1;
      var call := Field(s, ServoZeroKey);
      c := c + call.ret;
      if call.stored.Some? { new0 := call.stored.value; }
      call := Field(s, ServoSixtyKey);
      c := c + call.ret;
      if call.stored.Some? { new60 := call.stored.value; }
      call := Field(s, RateKey);
      c := c + call.ret;
      if call.stored.Some? { servoRate := call.stored.value; }
      call := Field(s, RunKey);
      c := c + call.ret;
      if call.stored.Some? { run := call.stored.value; }
      bad := c == 0;
      MovePositions(new0, new60);
    }

    /** servo_test.c:120-127: each new position is applied, and the servo
        moved to it, only when it is positive. */
    method MovePositions(new0: int, new60: int)
      modifies this
      ensures servo0 == (if new0 > 0 then new0 else old(servo0))
      ensures servo60 == (if new60 > 0 then new60 else old(servo60))
      ensures servoRate == old(servoRate)
      ensures actions == old(actions)
        + Pulses((if new0 > 0 then [new0] else []) + (if new60 > 0 then [new60] else []))
    {
      ghost var ws := (if new0 > 0 then [new0] else []) + (if new60 > 0 then [new60] else []);
      if new0 > 0 {
        servo0 := new0;
        PulseWidth(servo0);
      }
      if new60 > 0 {
        servo60 := new60;
        PulseWidth(servo60);
      }
      assert Pulses(ws) == seq(|ws|, i requires 0 <= i < |ws| => Pulse(ws[i]));
    }

    /** `test` (servo_test.c:60-77) against one trial environment. The result
        is the measured tick count, or `None` when the sensor stays high to
        the end of the environment's readings, where the source would keep
        polling. */
    method Test(zero: int, sixty: int, rate: int, env: TrialEnv) returns (ticks: Option<int>)
      modifies this`actions
      ensures actions == old(actions) + TrialActions(Profile(zero, sixty, rate), env)
      ensures ticks == if Releases(env) then Some(Measured(env)) else None
    {
      actions := actions + [SetPeriod(PeriodOf(rate)), LedOn];
      PulseWidth(sixty);
      var start := AsSigned(env.start);
      var i := 0;
      while i < |env.levels| && env.levels[i]
        invariant 0 <= i <= |env.levels|
        invariant forall j :: 0 <= j < i ==> env.levels[j]
      {
        i := i + 1;
      }
      if i == |env.levels| {
        return None;
      }
      var stop := AsSigned(env.stop);
      PulseWidth(zero);
      actions := actions + [LedOff];
      var elapsed := Sub32(stop, start);
      actions := actions + [Settle(elapsed)];
      ticks := Some(elapsed);
    }

    /** The trial block (servo_test.c:133-141); `envs[i]` is what the i-th
        trial meets. `hung` means a trial's poll never ended: the source
        never leaves that trial. */
    method RunTrials(run: int, envs: seq<TrialEnv>) returns (ticks: seq<int>, hung: bool)
      requires TrialCount(run) <= |envs|
      modifies this`actions
      ensures actions == old(actions) + RunActions(old(Current()), run, envs)
      ensures ticks == RunMeasurements(run, envs)
      ensures hung == Hangs(run, envs)
    {
      ticks, hung := [], false;
      if run != 0 {
        ghost var p := Current();
        PulseWidth(servo0);
        actions := actions + [Delay(500)];
        ticks, hung := TestLoop(run, envs);
        RunActionsAppend(old(actions), p, run, envs);
      } else {
        assert envs[..0] == [];
      }
    }

    /** The loop that calls `test` `run` times with the current profile
        and adds up what it measures (servo_test.c:138-139), with the
        measured ticks collected instead of summed as floating point. */
    method TestLoop(run: int, envs: seq<TrialEnv>) returns (ticks: seq<int>, hung: bool)
      requires TrialCount(run) <= |envs|
      modifies this`actions
      ensures actions == old(actions) + TrialsActions(Current(), envs[..Invoked(run, envs)])
      ensures ticks == RunMeasurements(run, envs)
      ensures hung == Hangs(run, envs)
    {
      ticks, hung := [], false;
      var i := 0;
      while i < run
        invariant 0 <= i <= TrialCount(run)
        invariant ticks == MeasuredEach(envs[..i])
        invariant actions == old(actions) + TrialsActions(Current(), envs[..i])
        invariant forall j :: 0 <= j < i ==> Releases(envs[j])
      {
        var tm := Trial(old(actions), envs, i);
        if tm.None? {
          hung := true;
          break;
        }
        ReleasesSnoc(envs, i);
        MeasuredEachSnoc(envs, i);
        ticks := ticks + [tm.value];
        i := i + 1;
      }
      BlockStops(run, envs, i, hung);
    }

    /** The `i`-th call of `test` in the trial loop: its actions extend
        those of the trials before it. */
    method Trial(ghost before: seq<Action>, envs: seq<TrialEnv>, i: nat) returns (tm: Option<int>)
      requires i < |envs|
      requires actions == before + TrialsActions(Current(), envs[..i])
      modifies this`actions
      ensures actions == before + TrialsActions(Current(), envs[..i + 1])
      ensures tm == if Releases(envs[i]) then Some(Measured(envs[i])) else None
    {
      tm := Test(servo0, servo60, servoRate, envs[i]);
      TrialsActionsSnoc(Current(), envs, i);
    }

    /** One iteration of the endless command loop (servo_test.c:92-142). */
    method Step(line: string, envs: seq<TrialEnv>) returns (bad: bool, ticks: seq<int>, hung: bool)
      requires |line| < 80 && Nul !in line
      requires NumbersFit(UpToLineEnd(line))
      requires TrialCount(Interpret(Current(), line).run) <= |envs|
      modifies this
      ensures var e := Interpret(old(Current()), line);
        Current() == e.profile && bad == e.bad
        && actions == old(actions) + Pulses(e.pulses) + RunActions(e.profile, e.run, envs)
        && ticks == RunMeasurements(e.run, envs)
        && hung == Hangs(e.run, envs)
    {
      var run;
      run, bad := Command(line);
      ticks, hung := RunTrials(run, envs);
    }
  }
}
