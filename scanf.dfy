/** The subset of `sscanf` (ISO C11, section 7.21.6.2) that the firmware's
    command parser uses: format strings made of ordinary characters, white
    space and `%d` conversions, read against a NUL-free string. */
module Scanf {

  datatype Option<T> = None | Some(value: T)

  /** The value of the macro EOF. */
  const EOF: int := -1

  /** `isspace` in the "C" locale. */
  predicate IsSpace(c: char) {
    c == ' ' || c == '\t' || c == '\n' || c == '\U{0B}' || c == '\U{0C}' || c == '\r'
  }

  predicate IsDigit(c: char) {
    '0' <= c <= '9'
  }

  /** The input left after reading and discarding leading white space. */
  function SkipSpace(s: string): (r: string)
    ensures |r| <= |s| && r == s[|s| - |r|..]
    ensures r == [] || !IsSpace(r[0])
    ensures forall i :: 0 <= i < |s| - |r| ==> IsSpace(s[i])
  {
    if s != [] && IsSpace(s[0]) then SkipSpace(s[1..]) else s
  }

  /** The length of the run of decimal digits at the start of `s`. */
  function DigitRun(s: string): (n: nat)
    ensures n <= |s|
    ensures forall i :: 0 <= i < n ==> IsDigit(s[i])
    ensures n < |s| ==> !IsDigit(s[n])
  {
    if s != [] && IsDigit(s[0]) then 1 + DigitRun(s[1..]) else 0
  }

  /** The value of a string of decimal digits, most significant first. */
  function DigitsValue(d: string): nat
    requires forall i :: 0 <= i < |d| ==> IsDigit(d[i])
  {
    if d == [] then 0 else assert IsDigit(d[|d| - 1]); 10 * DigitsValue(d[..|d| - 1]) + (d[|d| - 1] as int - '0' as int) as nat
  }

  /** A `%d` input item and the input after it. */
  datatype Item = Item(value: int, rest: string)

  /** The `%d` conversion once white space has been skipped: the input item
      is an optional sign followed by the longest run of digits. An item
      without digits ("", "+", "-") is not a matching sequence. */
  function ReadDecimal(s: string): (r: Option<Item>)
    ensures r.Some? <==> DigitRun(s) > 0 || (|s| > 1 && (s[0] == '+' || s[0] == '-') && IsDigit(s[1]))
    ensures r.Some? ==> |r.value.rest| < |s| && r.value.rest == s[|s| - |r.value.rest|..]
    ensures r.Some? ==> r.value.rest == [] || !IsDigit(r.value.rest[0])
    ensures r.Some? ==>
      var k := if s[0] == '+' || s[0] == '-' then 1 else 0;
      k < |s| - |r.value.rest| && forall i :: k <= i < |s| - |r.value.rest| ==> IsDigit(s[i])
  {
    var signed := s != [] && (s[0] == '+' || s[0] == '-');
    var digits := if signed then s[1..] else s;
    var n := DigitRun(digits);
    if n == 0 then None
    else
      var magnitude: int := DigitsValue(digits[..n]);
      Some(Item(if signed && s[0] == '-' then -magnitude else magnitude, digits[n..]))
  }

  /** The value `%d` converts: the digits after the optional sign, read in
      base 10, negated after a minus sign. Leading zeros and a plus sign
      are accepted ("007" is 7, "+5" is 5). */
  lemma ReadDecimalValue(s: string)
    requires ReadDecimal(s).Some?
    ensures var k := if s[0] == '+' || s[0] == '-' then 1 else 0;
      var n := DigitRun(s[k..]);
      var magnitude: int := DigitsValue(s[k..k + n]);
      ReadDecimal(s).value.value == if s[0] == '-' then -magnitude else magnitude
  {
    var k := if s[0] == '+' || s[0] == '-' then 1 else 0;
    var digits := s[k..];
    assert digits[..DigitRun(digits)] == s[k..k + DigitRun(digits)];
  }

  // Concrete conversions.

  /** The item stops at the first non-digit. */
  lemma ReadDecimalStops()
    ensures ReadDecimal("12a34b") == Some(Item(12, "a34b"))
  {
    var u := "12a34b";
    assert DigitRun(u[2..]) == 0;
    assert DigitRun(u) == 2 by {
      assert u[1..][1..] == u[2..];
    }
    assert DigitsValue(u[..2]) == 12 by {
      assert u[..2][..1] == "1" && "1"[..0] == "";
    }
  }

  /** A plus sign is accepted. */
  lemma ReadDecimalPlus()
    ensures ReadDecimal("+5") == Some(Item(5, ""))
  {
    var d := "+5"[1..];
    assert d == "5" && d[1..] == "" && d[..1] == "5" && d[..0] == "";
  }

  /** Leading zeros are accepted after a sign. */
  lemma ReadDecimalLeadingZeros()
    ensures ReadDecimal("-007x") == Some(Item(-7, "x"))
  {
    var d := "-007x"[1..];
    assert DigitRun(d) == 3 by {
      assert d == "007x" && d[1..] == "07x" && d[1..][1..] == "7x" && d[1..][1..][1..] == "x";
    }
    assert DigitsValue(d[..3]) == 7 by {
      assert d[..3] == "007" && "007"[..2] == "00" && "00"[..1] == "0" && "0"[..0] == "";
    }
    assert d[3..] == "x";
  }

  /** A sign without digits, or a letter first, is no number. */
  lemma ReadDecimalNoDigits()
    ensures ReadDecimal("-") == None && ReadDecimal("+x") == None && ReadDecimal("x1") == None
  {
    assert "-"[1..] == "" && "+x"[1..] == "x";
  }

  /** The directives of a format string. */
  datatype Directive = Ordinary(c: char) | WhiteSpace | Decimal

  /** Splits a format string into directives. A `%` not followed by `d`
      is outside the subset and is read as an ordinary character. */
  function ParseFormat(f: string): (dirs: seq<Directive>)
    ensures |dirs| + Conversions(dirs) == |f|
  {
    if f == [] then []
    else if IsSpace(f[0]) then [WhiteSpace] + ParseFormat(f[1..])
    else if f[0] == '%' && |f| > 1 && f[1] == 'd' then [Decimal] + ParseFormat(f[2..])
    else [Ordinary(f[0])] + ParseFormat(f[1..])
  }

  /** The number of `%d` directives. */
  function Conversions(dirs: seq<Directive>): nat {
    if dirs == [] then 0 else (if dirs[0] == Decimal then 1 else 0) + Conversions(dirs[1..])
  }

  /** How the execution of the directives ended. */
  datatype Failure = NoFailure | InputFailure | MatchingFailure

  /** The end of a directive run and the values converted so far. */
  datatype Outcome = Outcome(failure: Failure, converted: seq<int>)

  /** Executes the directives in order against the input:
      - white space reads up to the first non-white-space character and
        never fails;
      - an ordinary character must equal the next input character: at the
        end of the input this is an input failure, on a different character
        a matching failure;
      - `%d` skips white space; at the end of the input that is an input
        failure, otherwise an input item that is not a number is a matching
        failure. */
  function Execute(input: string, dirs: seq<Directive>): (o: Outcome)
    ensures |o.converted| <= |dirs|
    decreases |dirs|
  {
    if dirs == [] then Outcome(NoFailure, [])
    else match dirs[0]
      case WhiteSpace => Execute(SkipSpace(input), dirs[1..])
      case Ordinary(c) =>
        if input == [] then Outcome(InputFailure, [])
        else if input[0] != c then Outcome(MatchingFailure, [])
        else Execute(input[1..], dirs[1..])
      case Decimal =>
        var t := SkipSpace(input);
        if t == [] then Outcome(InputFailure, [])
        else match ReadDecimal(t)
          case None => Outcome(MatchingFailure, [])
          case Some(item) =>
            var o := Execute(item.rest, dirs[1..]);
            Outcome(o.failure, [item.value] + o.converted)
  }

  /** Each `%d` converts at most one item, and a run that ends without a
      failure has converted one item per `%d`. */
  lemma {:induction false} ExecuteConverts(input: string, dirs: seq<Directive>)
    ensures |Execute(input, dirs).converted| <= Conversions(dirs)
    ensures Execute(input, dirs).failure == NoFailure ==>
      |Execute(input, dirs).converted| == Conversions(dirs)
    decreases |dirs|
  {
    if dirs != [] {
      match dirs[0]
      case WhiteSpace => ExecuteConverts(SkipSpace(input), dirs[1..]);
      case Ordinary(c) =>
        if input != [] && input[0] == c {
          ExecuteConverts(input[1..], dirs[1..]);
        }
      case Decimal =>
        var t := SkipSpace(input);
        if t != [] && ReadDecimal(t).Some? {
          ExecuteConverts(ReadDecimal(t).value.rest, dirs[1..]);
        }
    }
  }

  /** The return value: EOF when an input failure happened before the first
      conversion, otherwise the number of items converted. */
  function ReturnValue(o: Outcome): (r: int)
    ensures r >= EOF
    ensures r >= 1 <==> o.converted != []
    ensures r == EOF <==> o.failure == InputFailure && o.converted == []
  {
    if o.failure == InputFailure && o.converted == [] then EOF else |o.converted|
  }

  /** One call `sscanf(s, format, &x)` with one `%d`: the return value, and
      the value stored through the pointer when the conversion happened. */
  datatype Call = Call(ret: int, stored: Option<int>)

  function Sscanf(s: string, format: string): (c: Call)
    ensures c.ret >= EOF
    ensures c.stored.Some? <==> c.ret >= 1
  {
    var o := Execute(s, ParseFormat(format));
    Call(ReturnValue(o), if o.converted == [] then None else Some(o.converted[0]))
  }

  /** The directives of the format `"<key> %d"`. */
  function Ordinaries(key: string): (r: seq<Directive>)
    ensures |r| == |key|
    ensures forall i :: 0 <= i < |key| ==> r[i] == Ordinary(key[i])
  {
    if key == [] then [] else [Ordinary(key[0])] + Ordinaries(key[1..])
  }

  /** A key that is a plain word: no white space and no `%`. */
  predicate PlainKey(key: string) {
    forall i :: 0 <= i < |key| ==> !IsSpace(key[i]) && key[i] != '%'
  }

  lemma {:induction false} ParseKeyedFormat(key: string)
    requires PlainKey(key)
    ensures ParseFormat(key + " %d") == Ordinaries(key) + [WhiteSpace, Decimal]
  {
    if key == [] {
      assert key + " %d" == " %d";
      assert " %d"[1..] == "%d" && "%d"[2..] == [];
    } else {
      assert (key + " %d")[0] == key[0];
      assert (key + " %d")[1..] == key[1..] + " %d";
      ParseKeyedFormat(key[1..]);
    }
  }

  /** Matching a run of ordinary characters: the key must be a prefix of the
      input; an input that ends inside the key is an input failure, a
      different character a matching failure. */
  lemma {:induction false} ExecuteOrdinaries(input: string, key: string, dirs: seq<Directive>)
    ensures Execute(input, Ordinaries(key) + dirs) ==
      if key <= input then Execute(input[|key|..], dirs)
      else if input < key then Outcome(InputFailure, [])
      else Outcome(MatchingFailure, [])
  {
    if key != [] {
      assert (Ordinaries(key) + dirs)[0] == Ordinary(key[0]);
      assert (Ordinaries(key) + dirs)[1..] == Ordinaries(key[1..]) + dirs;
      if input == [] {
        assert input < key;
      } else if input[0] != key[0] {
        assert !(key <= input) && !(input < key);
      } else {
        ExecuteOrdinaries(input[1..], key[1..], dirs);
        assert key <= input <==> key[1..] <= input[1..];
        assert key <= input ==> input[1..][|key[1..]|..] == input[|key|..];
        assert input < key <==> input[1..] < key[1..];
      }
    } else {
      assert Ordinaries(key) + dirs == dirs && input[|key|..] == input;
    }
  }

  /** The white-space directive and the `%d` conversion that end the
      format `"<key> %d"`. */
  lemma ExecuteSpaceDecimal(u: string)
    ensures Execute(u, [WhiteSpace, Decimal]) ==
      var t := SkipSpace(u);
      if t == [] then Outcome(InputFailure, [])
      else match ReadDecimal(t)
        case None => Outcome(MatchingFailure, [])
        case Some(item) => Outcome(NoFailure, [item.value])
  {
    var t := SkipSpace(u);
    assert [WhiteSpace, Decimal][1..] == [Decimal];
    assert Execute(u, [WhiteSpace, Decimal]) == Execute(t, [Decimal]);
    assert SkipSpace(t) == t;
    if t != [] && ReadDecimal(t).Some? {
      assert [Decimal][1..] == [];
    }
  }

  /** The result of `sscanf(s, "<key> %d", &x)`, case by case. */
  function KeyedCall(s: string, key: string): (c: Call)
    ensures c.ret == EOF || c.ret == 0 || c.ret == 1
    ensures c.stored.Some? <==> c.ret == 1
  {
    if key <= s then
      var t := SkipSpace(s[|key|..]);
      if t == [] then Call(EOF, None)
      else match ReadDecimal(t)
        case None => Call(0, None)
        case Some(item) => Call(1, Some(item.value))
    else if s < key then Call(EOF, None)
    else Call(0, None)
  }

  /** `sscanf(s, "<key> %d", &x)` is anchored at the start of `s`: it
      converts only when `key` starts the input, returns EOF when the input
      ends before the number starts, and 0 on any other mismatch. */
  lemma {:induction false} SscanfKeyed(s: string, key: string)
    requires PlainKey(key)
    ensures Sscanf(s, key + " %d") == KeyedCall(s, key)
  {
    ParseKeyedFormat(key);
    ExecuteOrdinaries(s, key, [WhiteSpace, Decimal]);
    if key <= s {
      ExecuteSpaceDecimal(s[|key|..]);
    }
  }

  /** The return value of a one-conversion call is EOF, 0 or 1, and a value
      is stored exactly when it is 1. */
  lemma SscanfKeyedReturns(s: string, key: string)
    requires PlainKey(key)
    ensures var c := Sscanf(s, key + " %d");
      (c.ret == EOF || c.ret == 0 || c.ret == 1) && (c.stored.Some? <==> c.ret == 1)
  {
    SscanfKeyed(s, key);
  }

  /** Decimal notation of an integer, as `printf("%d")` writes it. */
  function ShowNat(n: nat): (r: string)
    ensures |r| > 0
    ensures forall i :: 0 <= i < |r| ==> IsDigit(r[i])
  {
    if n < 10 then [('0' as int + n) as char]
    else ShowNat(n / 10) + [('0' as int + n % 10) as char]
  }

  function Show(n: int): string {
    if n < 0 then "-" + ShowNat(-n) else ShowNat(n)
  }

  lemma {:induction false} DigitsValueShow(n: nat)
    ensures DigitsValue(ShowNat(n)) == n
  {
    if n >= 10 {
      var r := ShowNat(n);
      assert r[..|r| - 1] == ShowNat(n / 10);
      DigitsValueShow(n / 10);
    }
  }

  lemma {:induction false} DigitRunShow(n: nat, rest: string)
    requires rest == [] || !IsDigit(rest[0])
    ensures DigitRun(ShowNat(n) + rest) == |ShowNat(n)|
  {
    var d := ShowNat(n);
    assert forall i :: 0 <= i < |d| ==> (d + rest)[i] == d[i];
    assert |d| < |d + rest| ==> (d + rest)[|d|] == rest[0];
  }

  /** The digits of a printed magnitude, read back after the optional sign,
      give the magnitude and stop right after the last digit. */
  lemma DigitsShow(m: nat, rest: string)
    requires rest == [] || !IsDigit(rest[0])
    ensures var u := ShowNat(m) + rest;
      DigitRun(u) == |ShowNat(m)| > 0
      && DigitsValue(u[..|ShowNat(m)|]) == m && u[|ShowNat(m)|..] == rest
  {
    var d := ShowNat(m);
    DigitRunShow(m, rest);
    DigitsValueShow(m);
    assert (d + rest)[..|d|] == d && (d + rest)[|d|..] == rest;
  }

  /** Reading back a printed integer gives that integer and stops right
      after its last digit. */
  lemma ReadShow(n: int, rest: string)
    requires rest == [] || !IsDigit(rest[0])
    ensures ReadDecimal(Show(n) + rest) == Some(Item(n, rest))
  {
    var m := if n < 0 then -n else n;
    var d := ShowNat(m);
    var u := Show(n) + rest;
    DigitsShow(m, rest);
    var digits := if n < 0 then u[1..] else u;
    assert digits == d + rest by {
      if n < 0 {
        assert u == ['-'] + (d + rest);
      }
    }
    assert (u[0] == '+' || u[0] == '-') <==> n < 0 by {
      assert IsDigit(d[0]);
      if n >= 0 {
        assert u[0] == d[0];
      }
    }
  }

  /** A well-formed command line `"<key> <n>"` is converted to `n`. */
  lemma SscanfKeyedShow(key: string, n: int)
    requires PlainKey(key)
    ensures Sscanf(key + " " + Show(n), key + " %d") == Call(1, Some(n))
  {
    var s := key + " " + Show(n);
    SscanfKeyed(s, key);
    KeyedCallShow(key, n);
  }

  lemma KeyedCallShow(key: string, n: int)
    ensures KeyedCall(key + " " + Show(n), key) == Call(1, Some(n))
  {
    var t := Show(n);
    assert t[0] == '-' || IsDigit(t[0]);
    assert ReadDecimal(t) == Some(Item(n, [])) by {
      ReadShow(n, []);
      assert t + [] == t;
    }
    KeyedCallNumber(key, t, n);
  }

  lemma KeyedCallNumber(key: string, t: string, n: int)
    requires t != [] && !IsSpace(t[0])
    requires ReadDecimal(t) == Some(Item(n, []))
    ensures KeyedCall(key + " " + t, key) == Call(1, Some(n))
  {
    AfterKey(key, " " + t);
    SkipOneSpace(t);
  }

  lemma AfterKey(key: string, u: string)
    ensures key <= key + u && (key + u)[|key|..] == u
  {
    assert (key + u)[..|key|] == key;
  }

  lemma SkipOneSpace(t: string)
    requires t != [] && !IsSpace(t[0])
    ensures SkipSpace(" " + t) == t
  {
    assert (" " + t)[1..] == t;
  }
}
