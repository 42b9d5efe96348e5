/** The command-line parser of src/config.rs: `Config::build` walks the
    arguments after the program name, starting from the defaults, and stops
    at the first error; `Config::parse_next` takes the value of a flag. */
module Cli {

  datatype Option<T> = None | Some(value: T)
  datatype Result<T> = Ok(value: T) | Err(msg: string)

  const U32_MAX: nat := 4294967295

  /** A Rust `u32`. */
  type U32 = n: nat | n <= U32_MAX

  datatype Config = Config(width: U32, height: U32, scale: U32, saveFrames: bool)

  /** The configuration before any option is read. */
  const Defaults: Config := Config(200, 100, 4, false)

  const MissingValue: string := "Missing value for flag"
  const Unparsable: string := "Could not parse value"

  function UnknownOption(arg: string): string
  {
    "unknown option " + arg
  }

  // ---------------------------------------------------------------------------
  // `str::parse::<u32>`
  // ---------------------------------------------------------------------------

  predicate IsDigit(c: char)
  {
    '0' <= c <= '9'
  }

  predicate AllDigits(s: string)
  {
    forall i :: 0 <= i < |s| ==> IsDigit(s[i])
  }

  function DigitValue(c: char): nat
    requires IsDigit(c)
  {
    c as int - '0' as int
  }

  function Pow10(n: nat): (r: nat)
    ensures r >= 1
  {
    if n == 0 then 1 else 10 * Pow10(n - 1)
  }

  /** The number a string of decimal digits denotes, read positionally:
      the last digit is the units. */
  function Value(s: string): nat
    requires AllDigits(s)
  {
    if s == [] then 0 else Value(s[.. |s| - 1]) * 10 + DigitValue(s[|s| - 1])
  }

  /** The digits part: one leading '+' is accepted and dropped. */
  function Unsigned(s: string): string
  {
    if |s| > 0 && s[0] == '+' then s[1..] else s
  }

  /** The strings `str::parse::<u32>` accepts. */
  predicate IsU32Numeral(s: string)
  {
    var d := Unsigned(s);
    |d| > 0 && AllDigits(d) && Value(d) <= U32_MAX
  }

  /** The digit loop of the standard library: each step multiplies by ten and
      adds the next digit, failing on a non-digit or on overflow. */
  function Accumulate(acc: U32, s: string): (r: Option<U32>)
    ensures r.Some? ==> acc <= r.value
    decreases |s|
  {
    if s == [] then Some(acc)
    else if !IsDigit(s[0]) then None
    else if acc * 10 + DigitValue(s[0]) > U32_MAX then None
    else Accumulate(acc * 10 + DigitValue(s[0]), s[1..])
  }

  /** `s.parse::<u32>()`, with `None` for every kind of parse error. */
  function ParseU32(s: string): (r: Option<U32>)
    ensures r.Some? <==> IsU32Numeral(s)
    ensures r.Some? ==> r.value == Value(Unsigned(s))
  {
    var d := Unsigned(s);
    if d == [] then None
    else
      AccumulateValue(0, d);
      Accumulate(0, d)
  }

  lemma Regroup(d: nat, p: nat, v: nat, e: nat)
    ensures (d * p + v) * 10 + e == d * (10 * p) + (v * 10 + e)
  {}

  lemma Shift(acc: nat, d: nat, p: nat, v: nat)
    requires p >= 1
    ensures acc * (10 * p) + (d * p + v) == (acc * 10 + d) * p + v
    ensures (acc * 10 + d) * p + v >= acc * 10 + d
  {}

  lemma AllDigitsCons(c: char, t: string)
    ensures AllDigits([c] + t) <==> IsDigit(c) && AllDigits(t)
  {
    var s := [c] + t;
    assert s[0] == c;
    assert forall i :: 0 <= i < |t| ==> s[i + 1] == t[i];
    assert forall i :: 0 < i < |s| ==> s[i] == t[i - 1];
  }

  /** Prepending a digit adds its value times the weight of its position. */
  lemma {:induction false} ValueCons(c: char, t: string)
    requires IsDigit(c) && AllDigits(t)
    ensures AllDigits([c] + t)
    ensures Value([c] + t) == DigitValue(c) * Pow10(|t|) + Value(t)
    decreases |t|
  {
    AllDigitsCons(c, t);
    if t != [] {
      var s := [c] + t;
      var t' := t[.. |t| - 1];
      var e := DigitValue(t[|t| - 1]);
      assert s[.. |s| - 1] == [c] + t';
      assert s[|s| - 1] == t[|t| - 1];
      ValueCons(c, t');
      assert Value(s) == Value([c] + t') * 10 + e;
      assert Value(t) == Value(t') * 10 + e;
      Regroup(DigitValue(c), Pow10(|t'|), Value(t'), e);
    }
  }

  /** The digit loop computes the positional value, and fails exactly on a
      non-digit or when the value does not fit in 32 bits. */
  lemma {:induction false} AccumulateValue(acc: U32, s: string)
    ensures Accumulate(acc, s) ==
      if AllDigits(s) && acc * Pow10(|s|) + Value(s) <= U32_MAX
      then Some(acc * Pow10(|s|) + Value(s))
      else None
    decreases |s|
  {
    if s != [] {
      var c, t := s[0], s[1..];
      assert s == [c] + t;
      AllDigitsCons(c, t);
      if IsDigit(c) {
        var d := DigitValue(c);
        if AllDigits(t) {
          ValueCons(c, t);
          Shift(acc, d, Pow10(|t|), Value(t));
        }
        if acc * 10 + d <= U32_MAX {
          AccumulateValue(acc * 10 + d, t);
        }
      }
    }
  }

  /** How a `u32` is displayed: decimal digits without leading zeros. */
  function DecimalString(n: nat): (s: string)
    ensures |s| > 0 && AllDigits(s)
  {
    var last := ['0' + (n % 10) as char];
    if n < 10 then last else DecimalString(n / 10) + last
  }

  /** Displaying a number and reading it back gives the number. */
  lemma {:induction false} DecimalStringValue(n: nat)
    ensures Value(DecimalString(n)) == n
  {
    var s := DecimalString(n);
    if n >= 10 {
      DecimalStringValue(n / 10);
      assert s[.. |s| - 1] == DecimalString(n / 10);
    }
  }

  /** Round trip: every `u32`, displayed, parses back to itself. */
  lemma ParseDisplayedU32(n: U32)
    ensures ParseU32(DecimalString(n)) == Some(n)
  {
    DecimalStringValue(n);
  }

  /** A number above the `u32` range, written in decimal, does not parse. */
  lemma OverflowIsUnparsable(n: nat)
    requires n > U32_MAX
    ensures ParseU32(DecimalString(n)) == None
  {
    DecimalStringValue(n);
  }

  /** A string starting with '-' is never a `u32`; in particular a flag is not a value. */
  lemma DashIsNotU32(s: string)
    requires |s| > 0 && s[0] == '-'
    ensures ParseU32(s) == None
  {
    assert !IsDigit(Unsigned(s)[0]);
  }

  /** One leading '+' is accepted in front of the digits. */
  lemma PlusSignAccepted(s: string)
    requires |s| > 0 && s[0] != '+'
    ensures ParseU32("+" + s) == ParseU32(s)
  {
    assert Unsigned("+" + s) == s;
  }

  // ---------------------------------------------------------------------------
  // `Config::build`
  // ---------------------------------------------------------------------------

  /** `parse_next` on the arguments not yet consumed. */
  function NextValue(rest: seq<string>): (r: Result<U32>)
    ensures r.Ok? ==> |rest| > 0 && ParseU32(rest[0]) == Some(r.value)
    ensures r.Err? ==> r.msg == if |rest| == 0 then MissingValue else Unparsable
    ensures |rest| > 0 && ParseU32(rest[0]).Some? ==> r == Ok(ParseU32(rest[0]).value)
  {
    if rest == [] then Err(MissingValue)
    else match ParseU32(rest[0])
      case None => Err(Unparsable)
      case Some(v) => Ok(v)
  }

  predicate IsValueFlag(arg: string)
  {
    arg == "--width" || arg == "--height" || arg == "--scale"
  }

  /** The configuration with the field named by a value flag set to v. */
  function SetValue(cfg: Config, flag: string, v: U32): (c: Config)
    requires IsValueFlag(flag)
    ensures c.saveFrames == cfg.saveFrames
    ensures c.width == (if flag == "--width" then v else cfg.width)
    ensures c.height == (if flag == "--height" then v else cfg.height)
    ensures c.scale == (if flag == "--scale" then v else cfg.scale)
  {
    if flag == "--width" then cfg.(width := v)
    else if flag == "--height" then cfg.(height := v)
    else cfg.(scale := v)
  }

  /** The loop of `build` from configuration cfg over the arguments not yet
      consumed; every error it can return is one of the three messages. */
  function ParseArgs(rest: seq<string>, cfg: Config): (r: Result<Config>)
    ensures r.Err? ==>
      || r.msg == MissingValue
      || r.msg == Unparsable
      || exists i :: 0 <= i < |rest| && r.msg == UnknownOption(rest[i])
    decreases |rest|
  {
    if rest == [] then Ok(cfg)
    else if IsValueFlag(rest[0]) then
      match NextValue(rest[1..])
      case Err(m) => Err(m)
      case Ok(v) =>
        var r := ParseArgs(rest[2..], SetValue(cfg, rest[0], v));
        assert r.Err? && r.msg != MissingValue && r.msg != Unparsable ==>
          exists i :: 2 <= i < |rest| && r.msg == UnknownOption(rest[i]);
        r
    else if rest[0] == "--save-frames" then
      var r := ParseArgs(rest[1..], cfg.(saveFrames := true));
      assert r.Err? && r.msg != MissingValue && r.msg != Unparsable ==>
        exists i :: 1 <= i < |rest| && r.msg == UnknownOption(rest[i]);
      r
    else Err(UnknownOption(rest[0]))
  }

  /** `Config::build`: the first argument, the program name, is skipped. */
  function Parse(args: seq<string>): (r: Result<Config>)
    ensures |args| <= 1 ==> r == Ok(Defaults)
    ensures r.Ok? && |args| > 0 ==>
      && ("--width" !in args[1..] ==> r.value.width == Defaults.width)
      && ("--height" !in args[1..] ==> r.value.height == Defaults.height)
      && ("--scale" !in args[1..] ==> r.value.scale == Defaults.scale)
      && (r.value.saveFrames <==> "--save-frames" in args[1..])
  {
    var rest := if args == [] then [] else args[1..];
    var r := ParseArgs(rest, Defaults);
    if r.Ok? then
      UnmentionedFieldsKept(rest, Defaults);
      r
    else r
  }

  /** `parse_next`: takes the next argument, if any, and parses it;
      `next` is the iterator's new position. */
  method ParseNext(args: seq<string>, pos: nat) returns (r: Result<U32>, next: nat)
    requires pos <= |args|
    ensures r == NextValue(args[pos..])
    ensures next == if pos < |args| then pos + 1 else pos
  {
    if pos == |args| {
      return Err(MissingValue), pos;
    }
    next := pos + 1;
    var v := ParseU32(args[pos]);
    if v.None? {
      return Err(Unparsable), next;
    }
    return Ok(v.value), next;
  }

  /** `Config::build`, walking the arguments with a position. */
  method Build(args: seq<string>) returns (r: Result<Config>)
    ensures r == Parse(args)
  {
    var config := Defaults;
    var pos := if args == [] then 0 else 1;
    while pos < |args|
      invariant 0 <= pos <= |args|
      invariant Parse(args) == ParseArgs(args[pos..], config)
      decreases |args| - pos
    {
      var arg := args[pos];
      assert args[pos + 1 ..] == args[pos..][1..];
      pos := pos + 1;
      if arg == "--width" {
        var v;
        v, pos := ParseNext(args, pos);
        if v.Err? {
          return Err(v.msg);
        }
        assert args[pos..] == args[pos - 2 ..][2..];
        config := config.(width := v.value);
      } else if arg == "--height" {
        var v;
        v, pos := ParseNext(args, pos);
        if v.Err? {
          return Err(v.msg);
        }
        assert args[pos..] == args[pos - 2 ..][2..];
        config := config.(height := v.value);
      } else if arg == "--scale" {
        var v;
        v, pos := ParseNext(args, pos);
        if v.Err? {
          return Err(v.msg);
        }
        assert args[pos..] == args[pos - 2 ..][2..];
        config := config.(scale := v.value);
      } else if arg == "--save-frames" {
        config := config.(saveFrames := true);
      } else {
        return Err(UnknownOption(arg));
      }
    }
    return Ok(config);
  }

  // ---------------------------------------------------------------------------
  // Properties of `build`
  // ---------------------------------------------------------------------------

  /** Without options, whatever the program name, the result is the defaults. */
  lemma OnlyProgramName(prog: string)
    ensures Parse([prog]) == Ok(Config(200, 100, 4, false))
    ensures Parse([]) == Ok(Defaults)
  {
    assert [prog][1..] == [];
  }

  /** The program name is never read as an option. */
  lemma ProgramNameSkipped(prog: string, prog': string, rest: seq<string>)
    ensures Parse([prog] + rest) == Parse([prog'] + rest)
  {
    assert ([prog] + rest)[1..] == rest == ([prog'] + rest)[1..];
  }

  /** Options parsed successfully are applied one after the other: parsing a
      then b is parsing b from the configuration a produced. */
  lemma {:induction false} ParseArgsAppend(a: seq<string>, b: seq<string>, cfg: Config)
    requires ParseArgs(a, cfg).Ok?
    ensures ParseArgs(a + b, cfg) == ParseArgs(b, ParseArgs(a, cfg).value)
    decreases |a|
  {
    if a != [] {
      var ab := a + b;
      assert ab[0] == a[0];
      if IsValueFlag(a[0]) {
        var v := NextValue(a[1..]).value;
        var c := SetValue(cfg, a[0], v);
        assert ab[1..][0] == a[1..][0];
        assert ab[2..] == a[2..] + b;
        assert ParseArgs(a, cfg) == ParseArgs(a[2..], c);
        assert ParseArgs(ab, cfg) == ParseArgs(a[2..] + b, c);
        ParseArgsAppend(a[2..], b, c);
      } else {
        var c := cfg.(saveFrames := true);
        assert ab[1..] == a[1..] + b;
        assert ParseArgs(a, cfg) == ParseArgs(a[1..], c);
        assert ParseArgs(ab, cfg) == ParseArgs(a[1..] + b, c);
        ParseArgsAppend(a[1..], b, c);
      }
    } else {
      assert a + b == b;
    }
  }

  /** An unknown option ends the walk with an error, whatever follows it. */
  lemma UnknownOptionStops(a: seq<string>, arg: string, b: seq<string>, cfg: Config)
    requires ParseArgs(a, cfg).Ok?
    requires !IsValueFlag(arg) && arg != "--save-frames"
    ensures ParseArgs(a + [arg] + b, cfg) == Err(UnknownOption(arg))
  {
    assert a + [arg] + b == a + ([arg] + b);
    ParseArgsAppend(a, [arg] + b, cfg);
  }

  /** A value flag as the last argument: the value is missing. */
  lemma MissingValueAtEnd(a: seq<string>, flag: string, cfg: Config)
    requires ParseArgs(a, cfg).Ok? && IsValueFlag(flag)
    ensures ParseArgs(a + [flag], cfg) == Err(MissingValue)
  {
    ParseArgsAppend(a, [flag], cfg);
  }

  /** A value flag followed by anything that is not a `u32` numeral (empty,
      signed, with a non-digit, or too large) stops with the unparsable error. */
  lemma UnparsableValue(a: seq<string>, flag: string, s: string, b: seq<string>, cfg: Config)
    requires ParseArgs(a, cfg).Ok? && IsValueFlag(flag) && ParseU32(s).None?
    ensures ParseArgs(a + [flag, s] + b, cfg) == Err(Unparsable)
  {
    assert a + [flag, s] + b == a + ([flag, s] + b);
    ParseArgsAppend(a, [flag, s] + b, cfg);
  }

  /** A value flag followed by a flag: the flag is taken as the value and does not parse. */
  lemma FlagTakenAsValue(a: seq<string>, flag: string, other: string, b: seq<string>, cfg: Config)
    requires ParseArgs(a, cfg).Ok? && IsValueFlag(flag)
    requires |other| > 0 && other[0] == '-'
    ensures ParseArgs(a + [flag, other] + b, cfg) == Err(Unparsable)
  {
    DashIsNotU32(other);
    UnparsableValue(a, flag, other, b, cfg);
  }

  /** A later occurrence of a value flag overrides an earlier one. */
  lemma LaterFlagOverrides(a: seq<string>, flag: string, s1: string, s2: string, cfg: Config)
    requires ParseArgs(a, cfg).Ok? && IsValueFlag(flag)
    requires ParseU32(s1).Some? && ParseU32(s2).Some?
    ensures ParseArgs(a + [flag, s1, flag, s2], cfg) ==
      Ok(SetValue(ParseArgs(a, cfg).value, flag, ParseU32(s2).value))
  {
    var c := ParseArgs(a, cfg).value;
    assert a + [flag, s1, flag, s2] == a + [flag, s1] + [flag, s2];
    ParseArgsAppend(a, [flag, s1], cfg);
    assert [flag, s1][2..] == [] && [flag, s2][2..] == [];
    assert ParseArgs([flag, s1], cfg) == Ok(SetValue(cfg, flag, ParseU32(s1).value));
    ParseArgsAppend(a + [flag, s1], [flag, s2], cfg);
  }

  /** A successful walk only changes what is named: a field whose flag does
      not occur keeps its value, and frames are saved exactly when they were
      already or `--save-frames` occurs. */
  lemma {:induction false} UnmentionedFieldsKept(rest: seq<string>, cfg: Config)
    requires ParseArgs(rest, cfg).Ok?
    ensures "--width" !in rest ==> ParseArgs(rest, cfg).value.width == cfg.width
    ensures "--height" !in rest ==> ParseArgs(rest, cfg).value.height == cfg.height
    ensures "--scale" !in rest ==> ParseArgs(rest, cfg).value.scale == cfg.scale
    ensures ParseArgs(rest, cfg).value.saveFrames <==> cfg.saveFrames || "--save-frames" in rest
    decreases |rest|
  {
    if rest != [] {
      if IsValueFlag(rest[0]) {
        var v := NextValue(rest[1..]).value;
        DashIsNotU32("--save-frames");
        assert rest[1] != "--save-frames";
        assert forall s :: s in rest <==> s == rest[0] || s == rest[1] || s in rest[2..] by {
          assert rest == [rest[0], rest[1]] + rest[2..];
        }
        UnmentionedFieldsKept(rest[2..], SetValue(cfg, rest[0], v));
      } else {
        assert forall s :: s in rest <==> s == rest[0] || s in rest[1..] by {
          assert rest == [rest[0]] + rest[1..];
        }
        UnmentionedFieldsKept(rest[1..], cfg.(saveFrames := true));
      }
    }
  }

  /** A value flag with a value that parses sets its field and moves past both. */
  lemma ValueFlagStep(flag: string, value: string, rest: seq<string>, cfg: Config)
    requires IsValueFlag(flag) && ParseU32(value).Some?
    ensures ParseArgs([flag, value] + rest, cfg) == ParseArgs(rest, SetValue(cfg, flag, ParseU32(value).value))
  {
    var s := [flag, value] + rest;
    assert s[0] == flag && s[1..][0] == value && s[2..] == rest;
  }

  /** `--save-frames` takes no value and sets `save_frames`. */
  lemma SaveFramesStep(rest: seq<string>, cfg: Config)
    ensures ParseArgs(["--save-frames"] + rest, cfg) == ParseArgs(rest, cfg.(saveFrames := true))
  {
    var s := ["--save-frames"] + rest;
    assert s[0] == "--save-frames" && s[1..] == rest;
  }

  /** The options of tests/config_test.rs `parse_simple`, up to `--max-iterations`. */
  lemma SimpleOptions(tail: seq<string>)
    ensures ParseArgs(["--width", "600", "--height", "800", "--save-frames"] + tail, Defaults)
      == ParseArgs(tail, Config(600, 800, 4, true))
  {
    assert ParseU32("600") == Some(600);
    assert ParseU32("800") == Some(800);
    assert ["--width", "600", "--height", "800", "--save-frames"] + tail
      == ["--width", "600"] + (["--height", "800"] + (["--save-frames"] + tail));
    ValueFlagStep("--width", "600", ["--height", "800"] + (["--save-frames"] + tail), Defaults);
    ValueFlagStep("--height", "800", ["--save-frames"] + tail, Config(600, 100, 4, false));
    SaveFramesStep(tail, Config(600, 800, 4, false));
  }

  /** tests/config_test.rs `parse_simple` without its `--max-iterations 10`. */
  lemma ParseSimple()
    ensures Parse(["conway", "--width", "600", "--height", "800", "--save-frames"]) == Ok(Config(600, 800, 4, true))
  {
    var args := ["conway", "--width", "600", "--height", "800", "--save-frames"];
    assert args[1..] == ["--width", "600", "--height", "800", "--save-frames"] + [];
    SimpleOptions([]);
  }

  /** tests/config_test.rs `parse_simple` as written: the option `--max-iterations`
      does not exist, so the build fails. */
  lemma ParseSimpleWithMaxIterations()
    ensures Parse(["conway", "--width", "600", "--height", "800", "--save-frames", "--max-iterations", "10"])
      == Err(UnknownOption("--max-iterations"))
  {
    var args := ["conway", "--width", "600", "--height", "800", "--save-frames", "--max-iterations", "10"];
    assert args[1..] == ["--width", "600", "--height", "800", "--save-frames"] + ["--max-iterations", "10"];
    SimpleOptions(["--max-iterations", "10"]);
  }

  /** tests/config_test.rs `parse_unknown_options`, `parse_missing_value` and
      `parse_unparsable_value`: the three fail with their messages. */
  lemma ParseFailures()
    ensures Parse(["conway", "--foo"]) == Err(UnknownOption("--foo"))
    ensures Parse(["conway", "--width", "--height", "100"]) == Err(Unparsable)
    ensures Parse(["conway", "--height", "foobar"]) == Err(Unparsable)
  {
    DashIsNotU32("--height");
    assert !IsDigit("foobar"[0]);
  }
}
