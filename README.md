# Servo speed tester: a Dafny model of its control logic

`servo_test.c` is firmware for an STM32 board that measures how fast a hobby
servo moves. It reads command lines from a serial console. Two presets
(`narrow`, `normal`) and four fields (`servo_0 <n>`, `servo_60 <n>`,
`rate <n>`, `run <n>`) set a calibration profile and a trial count. Each
trial drives the servo to the sixty-degree pulse width, busy-polls a sensor
input until it goes low, drives the servo back to the zero width, and
measures the time with the free-running 32-bit cycle counter.

The project models one iteration of the firmware's main loop and proves
what it does. The modules are:

- `Ticks` models the cycle counter: unsigned 32-bit wrap-around, the
  two's-complement `(int)` cast, the elapsed-tick subtraction, and
  `delay_ms`. `delay_ms` is a loop over a finite trace of counter readings.
  Its lemma shows that it returns at the first poll at which the full delay
  has elapsed, also when the counter wraps.
- `Scanf` is the subset of `sscanf` (ISO C11, section 7.21.6.2) the
  firmware uses: ordinary characters, white space and `%d`. It includes the
  rule that the call returns EOF when input runs out before the first
  conversion. The lemmas reduce `sscanf(s, "<key> %d", &x)` to an anchored
  prefix test, and show that a printed number reads back.
- `Servo` holds the calibration profile, the presets and the timer period
  `1000000 / rate` with C's truncating division. It also defines the
  peripheral actions (period, LED, pulse width, waits).
- `Interpreter` covers the line, from the in-place CR/LF truncation of the
  80-byte buffer (an `array<char>`) through the presets, the four field
  calls and their summed return value, to the guarded updates. Its lemmas
  state what each kind of line does.
- `Trials` is the action trace of `test` and of the trial block, written as
  specification functions. It comes with lemmas about the LED, the pulse
  width and the number of trials.
- `Firmware` has the class `Tester`. Its fields are `main`'s variables plus
  the log of peripheral actions. `Step` is one iteration of `while (1)`.
  Each of its methods is proved against the functions above.

The sensor and the counter are parameters. A trial is given as a
`TrialEnv`: the counter reading before the poll, the finite sequence of
sensor levels the poll reads, and the reading after it. When no level is
low, the source polls forever. The model reports such a trial as hung and
ends the block there.

Two behaviours of the code are modelled as written, with lemmas:

- `rate` is stored with no positivity check. `rate 0` is accepted, and the
  next trial's `1000000 / rate` divides by zero; the model records this as
  the period `DivisionByZero`.
- Each field format is anchored at the start of the line, and the four
  keys diverge within their first two characters (`servo_0` and `servo_60`
  at the seventh). So one line sets at most one field. A line such as
  `servo_0 900 rate 400` sets only `servo_0`.

## Model

| member | source | states |
|---|---|---|
| Ticks.AsSigned | servo_test.c:57 | the `(int)` cast of an unsigned value is in the `int` range, wraps back to the same unsigned value, and is positive exactly when the value is below 2^31 and nonzero |
| Ticks.WrapSub | servo_test.c:56-57 | subtracting two unsigned readings gives, modulo 2^32, the difference of the true counts they were read from |
| Ticks.AsSignedWrap | servo_test.c:74 | an `int`-range value survives the trip through `unsigned` and back |
| Ticks.Sub32 | servo_test.c:74 | `int` subtraction taken as two's-complement wrap-around: in the `int` range, congruent to the true difference modulo 2^32, and equal to it whenever it fits an `int` |
| Ticks.Elapsed | servo_test.c:67-69 | the ticks a trial measures from two counter readings stored in `int`s: in the `int` range and congruent to the unsigned difference of the readings |
| Ticks.ElapsedIsTrueTicks | servo_test.c:67-69 | with the `int` subtraction taken as wrap-around, `stop - start` on counter readings is the true number of elapsed ticks whenever fewer than 2^31 ticks passed, across a counter wrap too |
| Ticks.ElapsedAcrossHalf | servo_test.c:74 | readings 0x7FFFFFF0 and 0x80000010 make the `int` subtraction overflow, and the wrap-around result is the true 32 ticks |
| Ticks.Deadline | servo_test.c:56 | the deadline lies exactly `ms * 72000` ticks ahead: `(int)(deadline - now)` is that delay |
| Ticks.Pending | servo_test.c:57 | the signed test `(int)(deadline - now) > 0` holds exactly when the unsigned distance to the deadline is nonzero and below 2^31 |
| Ticks.PendingIffShort | servo_test.c:56-57 | `(int)(deadline - now) > 0` holds exactly when fewer than `ms * 72000` ticks have elapsed since the deadline was set, for readings less than 2^31 ticks past the deadline |
| Ticks.DelayMs | servo_test.c:54-58 | the busy-wait keeps polling while the deadline is pending and returns at the first poll where it is not, or reports it is still waiting when the trace ends |
| Ticks.DelayMsIsExact | servo_test.c:54-58 | when the counter advances by less than 2^31 between polls, `delay_ms` never returns before `ms * 72000` ticks have passed and returns at the first poll where they have |
| Scanf.SkipSpace | servo_test.c:113-116 | a white-space directive consumes exactly the leading white space and stops at the first other character |
| Scanf.DigitRun | servo_test.c:113-116 | `%d` reads the longest run of decimal digits |
| Scanf.ReadDecimal | servo_test.c:113-116 | `%d` matches exactly when the input has digits, optionally after one sign; everything it consumes after the sign is a digit, and the rest starts with a non-digit, so it stops exactly at the first non-digit |
| Scanf.ReadDecimalValue | servo_test.c:113-116 | the converted value is the digit run after the optional sign read in base 10, negated after a minus sign |
| Scanf.ReadDecimalStops | servo_test.c:113-116 | `12a34b` converts 12 and leaves `a34b` |
| Scanf.ReadDecimalPlus | servo_test.c:113-116 | `+5` converts 5 |
| Scanf.ReadDecimalLeadingZeros | servo_test.c:113-116 | `-007x` converts -7 and leaves `x` |
| Scanf.ReadDecimalNoDigits | servo_test.c:113-116 | `-`, `+x` and `x1` are no number |
| Scanf.ParseFormat | servo_test.c:113-116 | splits a format into white-space, ordinary-character and `%d` directives; each `%d` takes two format characters and every other directive one. `Scanf.ParseKeyedFormat` gives the directives of the four `"<key> %d"` formats |
| Scanf.Execute | servo_test.c:113-116 | runs the directives in order against the input (white space, ordinary characters, `%d`) and ends in no failure, an input failure or a matching failure; at most one value per directive |
| Scanf.ExecuteConverts | servo_test.c:113-116 | each `%d` converts at most one value, and a run without failure converts one value per `%d` |
| Scanf.ReturnValue | servo_test.c:113-116 | the return value is EOF exactly when an input failure came before any conversion, and at least 1 exactly when something was converted |
| Scanf.Sscanf | servo_test.c:113-116 | one `sscanf` call with one pointer: the return value is at least EOF, and a value is stored exactly when it is at least 1 |
| Scanf.KeyedCall | servo_test.c:113-116 | the closed form of `sscanf(s, "<key> %d", &x)`: returns EOF, 0 or 1 and stores a value exactly when it returns 1; `Scanf.SscanfKeyed` proves it equal to the call, and `Interpreter.FieldReturns` states where the key must stand for each return value |
| Scanf.ParseKeyedFormat | servo_test.c:113-116 | the format `"<key> %d"` is the key's ordinary characters, one white-space directive and one `%d` |
| Scanf.ExecuteOrdinaries | servo_test.c:113-116 | literal characters match only as a prefix of the input; input that ends inside the key is an input failure, and a different character is a matching failure |
| Scanf.ExecuteSpaceDecimal | servo_test.c:113-116 | after the key, the call reaches the end of input (input failure), finds no number (matching failure), or converts one value |
| Scanf.SscanfKeyed | servo_test.c:113-116 | `sscanf(s, "<key> %d", &x)` converts only when the key starts `s`; it returns EOF when `s` ends before the number and 0 on any other mismatch |
| Scanf.SscanfKeyedReturns | servo_test.c:113-116 | a field call returns EOF, 0 or 1, and it stores a value exactly when it returns 1 |
| Scanf.ReadShow | servo_test.c:113-116 | `%d` applied to a printed integer gives back that integer and stops right after its last digit |
| Scanf.SscanfKeyedShow | servo_test.c:113-116 | the line `"<key> <n>"` makes the call for that key store `n` and return 1, for every integer `n` |
| Servo.TruncDiv | servo_test.c:62 | C's `/`: the remainder is smaller than the divisor in magnitude and has the dividend's sign |
| Servo.PeriodOf | servo_test.c:62 | the period set by `test` is a division by zero exactly when the rate is 0 |
| Servo.PeriodOfPositiveRate | servo_test.c:62 | for a positive rate the period is the number of whole microseconds in one refresh cycle, between 0 and 1000000 |
| Interpreter.CStr | servo_test.c:96-97 | the C string in the buffer is the prefix before the first NUL |
| Interpreter.UpToLineEnd | servo_test.c:97-99 | the effective line is the prefix before the first CR or LF and contains neither |
| Interpreter.CStrOfTerminated | servo_test.c:96 | a NUL placed after the characters `fgets` stored delimits the C string |
| Interpreter.TerminatedAtLineEnd | servo_test.c:97-99 | replacing each CR and LF before the NUL by NUL leaves, as the C string, the old one cut at its first CR or LF |
| Interpreter.TerminateAtLineEnd | servo_test.c:97-99 | in place on the 80-byte buffer: every CR and LF before the original NUL becomes NUL, no other byte changes, and the C string becomes the line cut at its terminator |
| Interpreter.UpToLineEndStops | servo_test.c:97-99 | a line followed by its terminator is cut exactly there |
| Interpreter.Interpret | servo_test.c:100-128 | the per-line step: every width sent to `pulse_width` is positive and there are at most two; a preset sets no `run`, no report and no pulse; its other properties are the lemmas below |
| Interpreter.FieldsEffect | servo_test.c:111-127 | the four calls and the guarded updates: at most two positive pulse widths, a position changes only to a width that is also pulsed, and the report fires exactly when the return values sum to 0 |
| Interpreter.ReturnSum | servo_test.c:111-116 | `c`, the sum of the four return values, lies between -4 and 1, because at most one call converts; it is 1 exactly when some call converts |
| Interpreter.KeysDiverge | servo_test.c:113-116 | no key among `servo_0`, `servo_60`, `rate` and `run` is a prefix of another |
| Interpreter.FieldReturns | servo_test.c:113-116 | each field call returns EOF, 0 or 1; it stores exactly when it returns 1; it returns 1 only when its key starts the line, and EOF only when the line and the key are prefix-related |
| Interpreter.DivergentKeyMismatches | servo_test.c:113-116 | once one key starts the line, the call for any key that diverges from it is a matching failure returning 0 |
| Interpreter.AtMostOneField | servo_test.c:113-116 | on any line, when one of the four calls returns 1, the other three return 0 |
| Interpreter.Presets | servo_test.c:102-109 | `narrow` sets the profile to (780, 400, 560) and `normal` to (1500, 2100, 333); neither sets `run`, reports a bad command or moves the servo |
| Interpreter.OneFieldPerLine | servo_test.c:102-127 | a line that is not a preset changes at most one of the four variables and issues at most one pulse width; only a preset changes more than one |
| Interpreter.BadCommand | servo_test.c:111-118 | "bad command" fires exactly when the line is not a preset and all four calls return 0; such a line changes nothing and moves nothing |
| Interpreter.PositionsGuarded | servo_test.c:112-127 | `servo_0` and `servo_60` change only to a converted, strictly positive value, which is also sent to `pulse_width`; a converted 0 or negative value changes nothing |
| Interpreter.RateAndRunUnguarded | servo_test.c:115-116 | `rate` and `run` are stored exactly as converted, zero and negative values included, and nothing else changes |
| Interpreter.CommandLineFields | servo_test.c:113-116 | on the line `"<key> <n>"` (with or without its terminator), the key's call stores `n` and each of the three other calls returns 0 |
| Interpreter.ServoZeroCommand | servo_test.c:113-123 | `servo_0 <n>` sets the zero width to `n` and moves the servo there when `n > 0`, and does nothing otherwise |
| Interpreter.ServoSixtyCommand | servo_test.c:114-127 | `servo_60 <n>` sets the sixty-degree width to `n` and moves the servo there when `n > 0`, and does nothing otherwise |
| Interpreter.RateCommand | servo_test.c:115 | `rate <n>` stores any `n` as the rate and changes nothing else |
| Interpreter.RunCommand | servo_test.c:116 | `run <n>` sets the trial count to `n` and changes nothing else |
| Interpreter.EmptyLineIsSilent | servo_test.c:111-118 | on an empty line every call returns EOF, so `c` is -4, nothing is reported and nothing changes |
| Interpreter.UnknownWordIsBad | servo_test.c:111-118 | on `hello` every call is a matching failure, so `c` is 0 and the line is reported |
| Interpreter.TruncatedKeyIsSilent | servo_test.c:111-118 | on `servo` the two position calls return EOF and the others 0, so `c` is -2 and the line is not reported although nothing was recognised |
| Trials.TrialActions | servo_test.c:60-77 | one call of `test`: six actions when the sensor goes low, three when it never does; the first sets the period from the rate, the last is never LED on, and a completed trial ends with the settle wait for its measured ticks; the full state is in `Trials.TrialStates` |
| Trials.RunActions | servo_test.c:133-141 | the trial block does nothing exactly when `run` is 0 and otherwise starts with the zero width and the 500 ms wait; the outcome is in `Trials.RunBlockIdle`, `Trials.RunBlockCompletes` and `Trials.RunBlockHangs` |
| Trials.TrialCount | servo_test.c:138 | the trial loop runs its body `run` times when `run` is positive and never otherwise |
| Trials.Invoked | servo_test.c:138-139 | how many times the loop calls `test`: `TrialCount(run)` when no trial hangs, otherwise up to the hanging trial, which did not release; `Trials.BlockStops` pins it to the first hanging trial's index plus 1 |
| Trials.TrialsActions | servo_test.c:138-139 | the trace of calling `test` once per trial, in order, three to six actions per trial; `Trials.CompletedTrials` gives its LED and width effect |
| Trials.FirstHang | servo_test.c:68 | the first trial whose sensor never goes low: every earlier trial releases, and that one does not |
| Trials.TrialStates | servo_test.c:60-77 | during the poll the LED is lit and the width is `servo_60`; a trial that completes ends with the LED off and the width at `servo_0`; each trial lights the LED once |
| Trials.CompletedTrials | servo_test.c:138-139 | a sequence of completed trials lights the LED once per trial and leaves the LED off and the width at `servo_0` |
| Trials.BlockStops | servo_test.c:138-139 | the trial loop stops at the first trial that hangs, or after `run` trials; it has invoked `test` once more than the completed trials in the first case |
| Trials.RunBlockIdle | servo_test.c:133-140 | `run` 0 performs no action; a negative `run` only sets the zero width and waits 500 ms, with no trial |
| Trials.MeasuredEachPointwise | servo_test.c:138-139 | completed trials give one measurement each, in order |
| Trials.RunBlockCompletes | servo_test.c:133-141 | a positive `run` with no hang calls `test` exactly `run` times, the i-th measurement is the i-th trial's ticks, and the block ends with the LED off and the width at `servo_0` |
| Trials.RunBlockHangs | servo_test.c:133-139 | when a trial hangs, `run` was positive and the block stops inside that trial, with the LED lit and the width at `servo_60` |
| Trials.TrialMeasuresTrueTicks | servo_test.c:67-69 | a trial's measured ticks are the true duration of its poll when shorter than 2^31 ticks |
| Firmware.ZeroRateReachesDivision | servo_test.c:62 | `rate 0` is accepted without a report, and the first trial of `run 1` then sets the period by dividing by zero |
| Firmware.Tester.constructor | servo_test.c:88-90 | the profile starts as the `normal` preset, with no action yet |
| Firmware.Tester.PulseWidth | servo_test.c:49-52 | appends exactly one pulse-width action |
| Firmware.Tester.ReadLine | servo_test.c:93-99 | the buffer filled by `fgets` and truncated in place holds the line cut at its first CR or LF |
| Firmware.Tester.Command | servo_test.c:100-128 | the new profile, `run`, the report flag and the pulse widths issued are those of `Interpret` on the old profile |
| Firmware.Tester.ApplyFields | servo_test.c:111-127 | the four calls with their summed return value, then the guarded updates, give exactly the effect `FieldsEffect` defines |
| Firmware.Tester.MovePositions | servo_test.c:120-127 | each new position is applied, with its pulse width, only when positive, `servo_0` before `servo_60`; the rate is unchanged |
| Firmware.Tester.Test | servo_test.c:60-77 | performs the trial's actions in order (period, LED on, sixty width, then zero width, LED off, settle) and returns the measured ticks, or none when the sensor never goes low |
| Firmware.Tester.TestLoop | servo_test.c:137-139 | calls `test` for each trial up to `run` or up to the first hang; the actions are those of exactly the invoked trials and the ticks are those of the completed ones |
| Firmware.Tester.Trial | servo_test.c:139 | the i-th call of `test` in the loop appends that trial's actions to those of the trials before it, and returns its ticks or none |
| Firmware.Tester.RunTrials | servo_test.c:133-141 | the block's actions are `RunActions` on the profile, its measurements are those of the completed trials, and it reports a hang exactly when some trial hangs |
| Firmware.Tester.Step | servo_test.c:92-142 | one loop iteration: the new profile and report flag are `Interpret`'s, and the action log grows by the command's pulse widths followed by the trial block's actions |

## Left out

- Clock, GPIO, timer and UART bring-up (servo_test.c:12-47 and 81-86). These are library register calls, including the 50 Hz default period set at bring-up. Peripheral effects appear only as `Action` values.
- Console output: `printf` and `fflush`. The only output modelled is the "bad command" flag. The printed profile and average are left out.
- `fgets` is modelled as storing the line followed by a NUL. The line is a NUL-free string shorter than 80 characters. `fgets` returning NULL is unchecked in the source and is not modelled.
- Floating point: the seconds conversion (servo_test.c:74), the settle delay `delay_ms(2 * tm * 1000)` (servo_test.c:75) and the average (servo_test.c:137-141). The settle wait is recorded as `Settle` with the measured ticks, and the trial loop returns the measured ticks rather than their float sum.
- The unbounded poll at servo_test.c:68 and the infinite `while (1)`. A trial reads a finite sequence of sensor levels. When that sequence has no low level, the trial is reported as hung and the block stops there, where the source would spin forever. `Step` is one iteration of the outer loop.
- Firmware.Tester.Step: requires at least as many trial environments as `run` trials. This describes the supplied sensor and counter, not a demand of the source.
- Firmware.Tester.Test: the counter readings before and after the poll are given with the trial environment, not taken from a clock trace.
- The `delay_ms(500)` call of the trial block and the settle wait are recorded as actions. The busy-wait itself is `Ticks.DelayMs`, proved on its own.
- Firmware.Tester.Command: requires that every number a field call converts fits an `int` (`NumbersFit`). `%d` overflow is undefined behaviour in C.
- Ticks.Sub32: the `int` subtraction at servo_test.c:74 is modelled as two's-complement wrap-around; C leaves it undefined when the two readings straddle counter value 2^31 (see `Ticks.ElapsedAcrossHalf`).
- Ticks.Deadline: requires `ms * 72000` to fit an `int`. The source's signed overflow for large `ms` is undefined behaviour.
- Servo.PeriodOf: a negative rate gives a negative quotient. The conversion of that quotient to the timer's unsigned period register is not modelled, and neither is the conversion of a negative pulse width in `pulse_width`.
- Scanf.ParseFormat: models only the directives the four formats use. A `%` not followed by `d` is read as an ordinary character rather than as another conversion.
