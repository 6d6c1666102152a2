/** One command line of the firmware's console (servo_test.c:93-128): the
    line read by `fgets`, cut at its line terminator, checked against the
    two presets and otherwise read with four `sscanf` calls. */
module Interpreter {
  import opened Scanf
  import opened Servo

  const Nul: char := '\0'

  predicate IsLineEnd(c: char) {
    c == '\n' || c == '\r'
  }

  /** The C string held in a buffer: the characters before the first NUL. */
  function CStr(buf: seq<char>): (s: string)
    ensures |s| <= |buf| && s == buf[..|s|]
    ensures Nul !in s
    ensures |s| < |buf| ==> buf[|s|] == Nul
  {
    if buf == [] || buf[0] == Nul then [] else [buf[0]] + CStr(buf[1..])
  }

  /** The part of a line before its first CR or LF. */
  function UpToLineEnd(line: string): (s: string)
    ensures |s| <= |line| && s == line[..|s|]
    ensures forall i :: 0 <= i < |s| ==> !IsLineEnd(s[i])
    ensures |s| < |line| ==> IsLineEnd(line[|s|])
  {
    if line == [] || IsLineEnd(line[0]) then [] else [line[0]] + UpToLineEnd(line[1..])
  }

  /** The C string in a buffer is everything up to a NUL placed after it. */
  lemma {:induction false} CStrOfTerminated(line: string, rest: seq<char>)
    requires Nul !in line
    ensures CStr(line + [Nul] + rest) == line
  {
    if line != [] {
      assert (line + [Nul] + rest)[1..] == line[1..] + [Nul] + rest;
      CStrOfTerminated(line[1..], rest);
    }
  }

  /** Replacing every CR and LF of the C string by NUL leaves as the new C
      string the part of the old one before its first CR or LF. */
  lemma {:induction false} TerminatedAtLineEnd(old_buf: seq<char>, buf: seq<char>)
    requires |buf| == |old_buf|
    requires forall i :: 0 <= i < |buf| ==>
      buf[i] == if i < |CStr(old_buf)| && IsLineEnd(old_buf[i]) then Nul else old_buf[i]
    ensures CStr(buf) == UpToLineEnd(CStr(old_buf))
  {
    if old_buf != [] && old_buf[0] != Nul && !IsLineEnd(old_buf[0]) {
      assert buf[0] == old_buf[0];
      TerminatedAtLineEnd(old_buf[1..], buf[1..]);
    } else if old_buf != [] && old_buf[0] != Nul {
      assert buf[0] == Nul;
    }
  }

  /** The loop that turns every CR and LF before the terminating NUL into
      NUL (servo_test.c:97-99); no other character changes. */
  method TerminateAtLineEnd(buf: array<char>)
    requires Nul in buf[..]
    modifies buf
    ensures forall i :: 0 <= i < buf.Length ==>
      buf[i] == if i < |CStr(old(buf[..]))| && IsLineEnd(old(buf[i])) then Nul else old(buf[i])
    ensures CStr(buf[..]) == UpToLineEnd(CStr(old(buf[..])))
  {
    ghost var n := |CStr(buf[..])|;
    var p := 0;
    while buf[p] != Nul
      invariant 0 <= p <= n < buf.Length
      invariant forall i :: 0 <= i < buf.Length ==>
        buf[i] == if i < p && IsLineEnd(old(buf[i])) then Nul else old(buf[i])
      decreases n - p
    {
      if buf[p] == '\n' || buf[p] == '\r' {
        buf[p] := Nul;
      }
      p := p + 1;
    }
    TerminatedAtLineEnd(old(buf[..]), buf[..]);
  }

  /** The four field formats, in the order of the calls. */
  const ServoZeroKey := "servo_0"
  const ServoSixtyKey := "servo_60"
  const RateKey := "rate"
  const RunKey := "run"

  /** `sscanf(s, "<key> %d", &x)`. */
  function Field(s: string, key: string): Call {
    Sscanf(s, key + " %d")
  }

  /** The value of a variable initialised to `initial` after the call
      `sscanf(..., &variable)`: written only when the conversion happened. */
  function After(c: Call, initial: int): int {
    if c.stored.Some? then c.stored.value else initial
  }

  /** `c`, the sum of the four return values. Since at most one call
      converts, it is at most 1, and it is 1 exactly when one does. */
  function ReturnSum(s: string): (c: int)
    ensures -4 <= c <= 1
    ensures c == 1 <==> Field(s, ServoZeroKey).ret == 1 || Field(s, ServoSixtyKey).ret == 1
                        || Field(s, RateKey).ret == 1 || Field(s, RunKey).ret == 1
  {
    AtMostOneField(s);
    KeysArePlain();
    FieldReturns(s, ServoZeroKey);
    FieldReturns(s, ServoSixtyKey);
    FieldReturns(s, RateKey);
    FieldReturns(s, RunKey);
    Field(s, ServoZeroKey).ret + Field(s, ServoSixtyKey).ret
      + Field(s, RateKey).ret + Field(s, RunKey).ret
  }

  /** The effect of one line: the new profile, the `run` count, whether
      "bad command" is printed, and the widths passed to `pulse_width`, in
      order. */
  datatype Effect = Effect(profile: Profile, run: int, bad: bool, pulses: seq<int>)

  /** What the loop body up to servo_test.c:128 does with one line. */
  function Interpret(p: Profile, line: string): (e: Effect)
    ensures |e.pulses| <= 2 && forall i :: 0 <= i < |e.pulses| ==> e.pulses[i] > 0
    ensures IsPreset(UpToLineEnd(line)) ==> e.run == 0 && !e.bad && e.pulses == []
  {
    var s := UpToLineEnd(line);
    if s == "narrow" then Effect(Narrow, 0, false, [])
    else if s == "normal" then Effect(Normal, 0, false, [])
    else FieldsEffect(p, s)
  }

  /** The four field calls on a line that is no preset, and the guarded
      updates after them (servo_test.c:111-127). */
  function FieldsEffect(p: Profile, s: string): (e: Effect)
    ensures |e.pulses| <= 2 && forall i :: 0 <= i < |e.pulses| ==> e.pulses[i] > 0
    ensures e.profile.zero != p.zero ==> e.profile.zero in e.pulses
    ensures e.profile.sixty != p.sixty ==> e.profile.sixty in e.pulses
    ensures e.bad <==> ReturnSum(s) == 0
  {
    var new0 := After(Field(s, ServoZeroKey), -1);
    var new60 := After(Field(s, ServoSixtyKey), -1);
    var zero := if new0 > 0 then new0 else p.zero;
    var sixty := if new60 > 0 then new60 else p.sixty;
    Effect(Profile(zero, sixty, After(Field(s, RateKey), p.rate)),
           After(Field(s, RunKey), 0),
           ReturnSum(s) == 0,
           (if new0 > 0 then [new0] else []) + (if new60 > 0 then [new60] else []))
  }

  /** `%d` overflow is undefined behaviour; every number the four calls
      convert must fit an `int`. */
  predicate NumbersFit(s: string) {
    forall key | key in {ServoZeroKey, ServoSixtyKey, RateKey, RunKey} ::
      Field(s, key).stored.Some? ==> -0x8000_0000 <= Field(s, key).stored.value < 0x8000_0000
  }

  // ---------------------------------------------------------------------
  // The four formats are anchored and their keys diverge early.

  /** Two keys neither of which is a prefix of the other. */
  predicate Diverge(a: string, b: string) {
    !(a <= b) && !(b <= a)
  }

  lemma {:induction false} PrefixesCompare(a: string, b: string, s: string)
    requires a <= s && b <= s
    ensures a <= b || b <= a
  {
    if |a| <= |b| {
      assert a == s[..|a|] == b[..|a|];
    } else {
      assert b == s[..|b|] == a[..|b|];
    }
  }

  lemma KeysArePlain()
    ensures PlainKey(ServoZeroKey) && PlainKey(ServoSixtyKey)
    ensures PlainKey(RateKey) && PlainKey(RunKey)
  {
  }

  lemma KeysDiverge()
    ensures Diverge(ServoZeroKey, ServoSixtyKey) && Diverge(ServoZeroKey, RateKey)
    ensures Diverge(ServoZeroKey, RunKey) && Diverge(ServoSixtyKey, RateKey)
    ensures Diverge(ServoSixtyKey, RunKey) && Diverge(RateKey, RunKey)
  {
    assert ServoZeroKey[6] != ServoSixtyKey[6];
    assert ServoZeroKey[0] != RateKey[0] && ServoSixtyKey[0] != RunKey[0];
    assert RateKey[1] != RunKey[1];
  }

  /** A field call returns 1 exactly when it stores a value, 0 or EOF
      otherwise, and it can only store when its key starts the line. */
  lemma FieldReturns(s: string, key: string)
    requires PlainKey(key)
    ensures var c := Field(s, key);
      (c.ret == EOF || c.ret == 0 || c.ret == 1) && (c.stored.Some? <==> c.ret == 1)
      && (c.ret == 1 ==> key <= s)
      && (c.ret == EOF ==> key <= s || s < key)
  {
    SscanfKeyed(s, key);
  }

  /** When one key starts the line, the call for a key that diverges from
      it is a matching failure. */
  lemma {:induction false} DivergentKeyMismatches(s: string, a: string, b: string)
    requires PlainKey(b) && Diverge(a, b) && a <= s
    ensures Field(s, b) == Call(0, None)
  {
    SscanfKeyed(s, b);
    if b <= s {
      PrefixesCompare(a, b, s);
    }
  }

  /** At most one of the four calls converts a value, so a line sets at
      most one field: whichever key starts the line rules out the three
      others. */
  lemma {:induction false} AtMostOneField(s: string)
    ensures Field(s, ServoZeroKey).ret == 1 ==>
      Field(s, ServoSixtyKey).ret == 0 && Field(s, RateKey).ret == 0 && Field(s, RunKey).ret == 0
    ensures Field(s, ServoSixtyKey).ret == 1 ==>
      Field(s, ServoZeroKey).ret == 0 && Field(s, RateKey).ret == 0 && Field(s, RunKey).ret == 0
    ensures Field(s, RateKey).ret == 1 ==>
      Field(s, ServoZeroKey).ret == 0 && Field(s, ServoSixtyKey).ret == 0 && Field(s, RunKey).ret == 0
    ensures Field(s, RunKey).ret == 1 ==>
      Field(s, ServoZeroKey).ret == 0 && Field(s, ServoSixtyKey).ret == 0 && Field(s, RateKey).ret == 0
  {
    KeysArePlain();
    KeysDiverge();
    FieldReturns(s, ServoZeroKey);
    FieldReturns(s, ServoSixtyKey);
    FieldReturns(s, RateKey);
    FieldReturns(s, RunKey);
    if ServoZeroKey <= s {
      DivergentKeyMismatches(s, ServoZeroKey, ServoSixtyKey);
      DivergentKeyMismatches(s, ServoZeroKey, RateKey);
      DivergentKeyMismatches(s, ServoZeroKey, RunKey);
    }
    if ServoSixtyKey <= s {
      DivergentKeyMismatches(s, ServoSixtyKey, ServoZeroKey);
      DivergentKeyMismatches(s, ServoSixtyKey, RateKey);
      DivergentKeyMismatches(s, ServoSixtyKey, RunKey);
    }
    if RateKey <= s {
      DivergentKeyMismatches(s, RateKey, ServoZeroKey);
      DivergentKeyMismatches(s, RateKey, ServoSixtyKey);
      DivergentKeyMismatches(s, RateKey, RunKey);
    }
    if RunKey <= s {
      DivergentKeyMismatches(s, RunKey, ServoZeroKey);
      DivergentKeyMismatches(s, RunKey, ServoSixtyKey);
      DivergentKeyMismatches(s, RunKey, RateKey);
    }
  }

  // ---------------------------------------------------------------------
  // What a line does.

  predicate IsPreset(s: string) {
    s == "narrow" || s == "normal"
  }

  /** How many of the four variables a line changes (`run` counts when it
      is set to anything but 0). */
  function Changes(p: Profile, e: Effect): nat {
    (if e.profile.zero != p.zero then 1 else 0) + (if e.profile.sixty != p.sixty then 1 else 0)
      + (if e.profile.rate != p.rate then 1 else 0) + (if e.run != 0 then 1 else 0)
  }

  /** The presets overwrite the whole profile and do nothing else. */
  lemma Presets(p: Profile, line: string)
    ensures UpToLineEnd(line) == "narrow" ==>
      Interpret(p, line) == Effect(Profile(780, 400, 560), 0, false, [])
    ensures UpToLineEnd(line) == "normal" ==>
      Interpret(p, line) == Effect(Profile(1500, 2100, 333), 0, false, [])
  {
  }

  /** A line that is not a preset changes at most one variable and moves
      the servo at most once; changing more than one is what only a preset
      does. */
  lemma {:induction false} OneFieldPerLine(p: Profile, line: string)
    ensures var e := Interpret(p, line);
      !IsPreset(UpToLineEnd(line)) ==> Changes(p, e) <= 1 && |e.pulses| <= 1
    ensures var e := Interpret(p, line);
      Changes(p, e) > 1 ==> IsPreset(UpToLineEnd(line)) && (e.profile == Narrow || e.profile == Normal)
  {
    var s := UpToLineEnd(line);
    KeysArePlain();
    AtMostOneField(s);
    FieldReturns(s, ServoZeroKey);
    FieldReturns(s, ServoSixtyKey);
    FieldReturns(s, RateKey);
    FieldReturns(s, RunKey);
  }

  /** "bad command" is printed exactly when the line is no preset and all
      four calls end in a matching failure (a sum of 0 cannot mix a 1 with an
      EOF); such a line changes nothing. */
  lemma {:induction false} BadCommand(p: Profile, line: string)
    ensures var s, e := UpToLineEnd(line), Interpret(p, line);
      e.bad <==> !IsPreset(s) && Field(s, ServoZeroKey).ret == 0 && Field(s, ServoSixtyKey).ret == 0
                 && Field(s, RateKey).ret == 0 && Field(s, RunKey).ret == 0
    ensures var e := Interpret(p, line);
      e.bad ==> e.profile == p && e.run == 0 && e.pulses == []
  {
    var s := UpToLineEnd(line);
    KeysArePlain();
    AtMostOneField(s);
    FieldReturns(s, ServoZeroKey);
    FieldReturns(s, ServoSixtyKey);
    FieldReturns(s, RateKey);
    FieldReturns(s, RunKey);
  }

  /** The position fields are guarded: `servo_0` and `servo_60` change only
      to a converted, strictly positive value, which is also sent to
      `pulse_width`; a converted value of 0 or below changes nothing. */
  lemma {:induction false} PositionsGuarded(p: Profile, line: string)
    ensures var s, e := UpToLineEnd(line), Interpret(p, line);
      !IsPreset(s) ==>
        (e.profile.zero == p.zero || (e.profile.zero > 0 && Field(s, ServoZeroKey).stored == Some(e.profile.zero)))
        && (e.profile.sixty == p.sixty || (e.profile.sixty > 0 && Field(s, ServoSixtyKey).stored == Some(e.profile.sixty)))
    ensures var s, e := UpToLineEnd(line), Interpret(p, line);
      !IsPreset(s) && Field(s, ServoZeroKey).stored.Some? ==>
        var v := Field(s, ServoZeroKey).stored.value;
        e == if v > 0 then Effect(p.(zero := v), 0, false, [v]) else Effect(p, 0, false, [])
    ensures var s, e := UpToLineEnd(line), Interpret(p, line);
      !IsPreset(s) && Field(s, ServoSixtyKey).stored.Some? ==>
        var v := Field(s, ServoSixtyKey).stored.value;
        e == if v > 0 then Effect(p.(sixty := v), 0, false, [v]) else Effect(p, 0, false, [])
  {
    var s := UpToLineEnd(line);
    KeysArePlain();
    AtMostOneField(s);
    FieldReturns(s, ServoZeroKey);
    FieldReturns(s, ServoSixtyKey);
    FieldReturns(s, RateKey);
    FieldReturns(s, RunKey);
  }

  /** `rate` and `run` are stored as converted, with no positivity guard:
      "rate 0" and "rate -5" store 0 and -5. */
  lemma {:induction false} RateAndRunUnguarded(p: Profile, line: string)
    ensures var s, e := UpToLineEnd(line), Interpret(p, line);
      !IsPreset(s) && Field(s, RateKey).stored.Some? ==>
        e == Effect(p.(rate := Field(s, RateKey).stored.value), 0, false, [])
    ensures var s, e := UpToLineEnd(line), Interpret(p, line);
      !IsPreset(s) && Field(s, RunKey).stored.Some? ==>
        e == Effect(p, Field(s, RunKey).stored.value, false, [])
  {
    var s := UpToLineEnd(line);
    KeysArePlain();
    AtMostOneField(s);
    FieldReturns(s, ServoZeroKey);
    FieldReturns(s, ServoSixtyKey);
    FieldReturns(s, RateKey);
    FieldReturns(s, RunKey);
  }

  // ---------------------------------------------------------------------
  // Well-formed command lines, and lines that are not.

  lemma {:induction false} UpToLineEndStops(x: string, tail: string)
    requires forall i :: 0 <= i < |x| ==> !IsLineEnd(x[i])
    requires tail == [] || IsLineEnd(tail[0])
    ensures UpToLineEnd(x + tail) == x
  {
    if x != [] {
      assert (x + tail)[1..] == x[1..] + tail;
      UpToLineEndStops(x[1..], tail);
    } else {
      assert x + tail == tail;
    }
  }

  /** The line `"<key> <n>"` as typed, followed by its line terminator (or
      by nothing, when `fgets` filled the buffer). */
  function CommandLine(key: string, n: int, tail: string): string {
    key + " " + Show(n) + tail
  }

  /** The text of a command holds no line terminator. */
  lemma CommandHasNoLineEnd(key: string, n: int)
    requires PlainKey(key)
    ensures forall i :: 0 <= i < |key + " " + Show(n)| ==> !IsLineEnd((key + " " + Show(n))[i])
  {
    var x := key + " " + Show(n);
    var t := Show(n);
    assert t[0] == '-' || IsDigit(t[0]);
    forall i | 0 <= i < |x| ensures !IsLineEnd(x[i]) {
      if i < |key| {
        assert x[i] == key[i] && !IsSpace(key[i]);
      } else if i > |key| {
        assert x[i] == t[i - |key| - 1];
        assert i - |key| - 1 == 0 ==> t[i - |key| - 1] == '-' || IsDigit(t[0]);
        assert i - |key| - 1 > 0 ==> IsDigit(t[i - |key| - 1]);
      }
    }
  }

  /** The command `"<key> <n>"` converts `n` in its own call and nothing in
      the three others. */
  lemma CommandLineFields(key: string, n: int, tail: string)
    requires key in {ServoZeroKey, ServoSixtyKey, RateKey, RunKey}
    requires tail == [] || IsLineEnd(tail[0])
    ensures var s := UpToLineEnd(CommandLine(key, n, tail));
      s == key + " " + Show(n) && !IsPreset(s) && Field(s, key) == Call(1, Some(n))
      && forall other | other in {ServoZeroKey, ServoSixtyKey, RateKey, RunKey} && other != key ::
           Field(s, other) == Call(0, None)
  {
    var x := key + " " + Show(n);
    KeysArePlain();
    assert UpToLineEnd(CommandLine(key, n, tail)) == x by {
      CommandHasNoLineEnd(key, n);
      assert CommandLine(key, n, tail) == x + tail;
      UpToLineEndStops(x, tail);
    }
    assert !IsPreset(x) by {
      assert x[0] == key[0] && x[1] == key[1];
    }
    SscanfKeyedShow(key, n);
    assert key <= x;
    KeysDiverge();
    forall other | other in {ServoZeroKey, ServoSixtyKey, RateKey, RunKey} && other != key
      ensures Field(x, other) == Call(0, None)
    {
      DivergentKeyMismatches(x, key, other);
    }
  }

  // Each well-formed field command, for every number it can carry.

  /** `servo_0 <n>` takes positive numbers only, and moves the servo to
      the new zero width. */
  lemma ServoZeroCommand(p: Profile, n: int, tail: string)
    requires tail == [] || IsLineEnd(tail[0])
    ensures Interpret(p, CommandLine(ServoZeroKey, n, tail)) ==
      if n > 0 then Effect(p.(zero := n), 0, false, [n]) else Effect(p, 0, false, [])
  {
    CommandLineFields(ServoZeroKey, n, tail);
  }

  /** `servo_60 <n>` takes positive numbers only, and moves the servo to
      the new sixty-degree width. */
  lemma ServoSixtyCommand(p: Profile, n: int, tail: string)
    requires tail == [] || IsLineEnd(tail[0])
    ensures Interpret(p, CommandLine(ServoSixtyKey, n, tail)) ==
      if n > 0 then Effect(p.(sixty := n), 0, false, [n]) else Effect(p, 0, false, [])
  {
    CommandLineFields(ServoSixtyKey, n, tail);
  }

  /** `rate <n>` takes any number, zero and negative ones included. */
  lemma RateCommand(p: Profile, n: int, tail: string)
    requires tail == [] || IsLineEnd(tail[0])
    ensures Interpret(p, CommandLine(RateKey, n, tail)) == Effect(p.(rate := n), 0, false, [])
  {
    CommandLineFields(RateKey, n, tail);
  }

  /** `run <n>` sets the trial count and nothing else. */
  lemma RunCommand(p: Profile, n: int, tail: string)
    requires tail == [] || IsLineEnd(tail[0])
    ensures Interpret(p, CommandLine(RunKey, n, tail)) == Effect(p, n, false, [])
  {
    CommandLineFields(RunKey, n, tail);
  }

  /** An empty line makes every call return EOF, so `c` is -4 and nothing
      is reported. */
  lemma EmptyLineIsSilent(p: Profile)
    ensures ReturnSum("") == -4 && Interpret(p, "\n") == Effect(p, 0, false, [])
  {
    KeysArePlain();
    assert Field("", ServoZeroKey) == Call(EOF, None) by { SscanfKeyed("", ServoZeroKey); }
    assert Field("", ServoSixtyKey) == Call(EOF, None) by { SscanfKeyed("", ServoSixtyKey); }
    assert Field("", RateKey) == Call(EOF, None) by { SscanfKeyed("", RateKey); }
    assert Field("", RunKey) == Call(EOF, None) by { SscanfKeyed("", RunKey); }
    UpToLineEndStops("", "\n");
  }

  /** A word that starts no key makes every call a matching failure and is
      reported. */
  lemma UnknownWordIsBad(p: Profile)
    ensures ReturnSum("hello") == 0 && Interpret(p, "hello\n") == Effect(p, 0, true, [])
  {
    KeysArePlain();
    var s := "hello";
    assert Field(s, ServoZeroKey) == Call(0, None) by { SscanfKeyed(s, ServoZeroKey); }
    assert Field(s, ServoSixtyKey) == Call(0, None) by { SscanfKeyed(s, ServoSixtyKey); }
    assert Field(s, RateKey) == Call(0, None) by { SscanfKeyed(s, RateKey); }
    assert Field(s, RunKey) == Call(0, None) by { SscanfKeyed(s, RunKey); }
    UpToLineEndStops(s, "\n");
  }

  /** A line that ends inside a key ("servo") makes the calls for the keys
      it starts return EOF, so `c` is -2 and it is not reported although
      nothing was recognised. */
  lemma TruncatedKeyIsSilent(p: Profile)
    ensures ReturnSum("servo") == -2 && Interpret(p, "servo\n") == Effect(p, 0, false, [])
  {
    KeysArePlain();
    var s := "servo";
    assert Field(s, ServoZeroKey) == Call(EOF, None) by {
      SscanfKeyed(s, ServoZeroKey);
      assert s < ServoZeroKey;
    }
    assert Field(s, ServoSixtyKey) == Call(EOF, None) by {
      SscanfKeyed(s, ServoSixtyKey);
      assert s < ServoSixtyKey;
    }
    assert Field(s, RateKey) == Call(0, None) by { SscanfKeyed(s, RateKey); }
    assert Field(s, RunKey) == Call(0, None) by { SscanfKeyed(s, RunKey); }
    UpToLineEndStops(s, "\n");
    assert s + "\n" == "servo\n";
    assert !IsPreset(s);
  }
}
