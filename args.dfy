/**
 * Command-line flag lookup and the scanner configuration with its defaults
 * (args.go:12-94).
 */
module Args {
  import opened Results
  import opened GoStrings

  /** time.Second, in nanoseconds. */
  const Second := 1_000_000_000

  /** ScannerConfig; `scanTimeout` is a Go time.Duration, a count of nanoseconds. */
  datatype ScannerConfig = ScannerConfig(
    numWorkers: int,
    scansPerSecond: int,
    scanTimeout: int,
    startPort: int,
    endPort: int,
    debugMode: bool,
    showHelp: bool)

  /** The configuration ParseFlags starts from. */
  const DefaultConfig := ScannerConfig(150, 200, 5 * Second, 25000, 30000, false, false)

  /** `arg` is `--long`, or `-short` for a non-empty short name. */
  predicate IsFlag(arg: string, long: string, short: string) {
    arg == "--" + long || (short != "" && arg == "-" + short)
  }

  /** Some argument names the flag. */
  predicate FlagPresent(args: seq<string>, long: string, short: string) {
    exists i :: 0 <= i < |args| && IsFlag(args[i], long, short)
  }

  /** hasBoolFlag: a search over the arguments that stops at the first match. */
  method HasBoolFlag(args: seq<string>, long: string, short: string) returns (found: bool)
    ensures found == FlagPresent(args, long, short)
  {
    var longFlag := "--" + long;
    var shortFlag := "-" + short;
    for i := 0 to |args|
      invariant forall j :: 0 <= j < i ==> !IsFlag(args[j], long, short)
    {
      if args[i] == longFlag || (short != "" && args[i] == shortFlag) {
        return true;
      }
    }
    return false;
  }

  /** Argument i names the flag and is followed by an argument that does not start with "-". */
  predicate ValueAt(args: seq<string>, long: string, short: string, i: int) {
    0 <= i && i + 1 < |args| && IsFlag(args[i], long, short) && !HasPrefix(args[i + 1], "-")
  }

  /**
   * The value findFlagValue finds from position i on: the argument after
   * the first occurrence of the flag that has a usable value; occurrences
   * without one are passed over.
   */
  function FlagValueFrom(args: seq<string>, long: string, short: string, i: nat): (r: Option<string>)
    decreases |args| - i
    ensures r.Some? ==> !HasPrefix(r.value, "-")
  {
    if i >= |args| then None
    else if ValueAt(args, long, short, i) then Some(args[i + 1])
    else FlagValueFrom(args, long, short, i + 1)
  }

  function FlagValue(args: seq<string>, long: string, short: string): Option<string> {
    FlagValueFrom(args, long, short, 0)
  }

  /**
   * findFlagValue finds nothing exactly when no occurrence of the flag has a
   * usable value, and otherwise the value after the first one that does.
   */
  lemma {:induction false} FlagValueFirst(args: seq<string>, long: string, short: string, i: nat)
    decreases |args| - i
    ensures var r := FlagValueFrom(args, long, short, i);
      && (r.None? <==> forall j :: i <= j < |args| ==> !ValueAt(args, long, short, j))
      && (r.Some? ==> exists j :: i <= j < |args| && ValueAt(args, long, short, j) && r.value == args[j + 1]
                        && forall m :: i <= m < j ==> !ValueAt(args, long, short, m))
  {
    if i < |args| && !ValueAt(args, long, short, i) {
      FlagValueFirst(args, long, short, i + 1);
    }
  }

  /** findFlagValue: a search over the arguments that returns at the first usable occurrence. */
  method FindFlagValue(args: seq<string>, long: string, short: string) returns (value: string, found: bool)
    ensures found == FlagValue(args, long, short).Some?
    ensures value == FlagValue(args, long, short).GetOr("")
  {
    var longFlag := "--" + long;
    var shortFlag := "-" + short;
    for i := 0 to |args|
      invariant FlagValue(args, long, short) == FlagValueFrom(args, long, short, i)
    {
      if args[i] == longFlag || (short != "" && args[i] == shortFlag) {
        if i + 1 < |args| && !HasPrefix(args[i + 1], "-") {
          return args[i + 1], true;
        }
      }
    }
    return "", false;
  }

  predicate IsDigit(c: char) {
    '0' <= c <= '9'
  }

  /** The value of a run of decimal digits. */
  function DigitsValue(digits: string): nat
    requires forall i :: 0 <= i < |digits| ==> IsDigit(digits[i])
  {
    if digits == [] then 0
    else
      var last := digits[|digits| - 1];
      assert IsDigit(last);
      10 * DigitsValue(digits[..|digits| - 1]) + (last as int - '0' as int)
  }

  /** The text after an optional leading sign. */
  function Unsigned(s: string): string {
    if |s| > 0 && (s[0] == '+' || s[0] == '-') then s[1..] else s
  }

  predicate AllDigits(d: string) {
    forall i :: 0 <= i < |d| ==> IsDigit(d[i])
  }

  /**
   * strconv.Atoi, ASCII only: an optional sign and at least one decimal
   * digit, the value within the 64-bit int range; anything else is an error.
   */
  function Atoi(s: string): (r: Option<int>)
    ensures r.Some? ==> -0x8000_0000_0000_0000 <= r.value < 0x8000_0000_0000_0000
    ensures r.Some? && !HasPrefix(s, "-") ==> r.value >= 0
    ensures r.Some? ==> Unsigned(s) != "" && AllDigits(Unsigned(s))
  {
    var negative := |s| > 0 && s[0] == '-';
    var digits := Unsigned(s);
    if |digits| == 0 || !AllDigits(digits) then None
    else
      var n: int := if negative then -(DigitsValue(digits) as int) else DigitsValue(digits);
      if -0x8000_0000_0000_0000 <= n < 0x8000_0000_0000_0000 then Some(n) else None
  }

  /** Atoi rejects text with a character other than a digit after the optional sign. */
  lemma AtoiRejects(s: string, k: nat)
    requires k < |Unsigned(s)| && !IsDigit(Unsigned(s)[k])
    ensures Atoi(s) == None
  {
  }

  /** Atoi rejects text with no digits after the optional sign. */
  lemma AtoiRejectsEmpty(s: string)
    requires Unsigned(s) == ""
    ensures Atoi(s) == None
  {
  }

  lemma AtoiExamples()
    ensures Atoi("abc") == None && Atoi("+x") == None && Atoi("-") == None && Atoi("") == None
    ensures Atoi("12a") == None
    ensures Atoi("+7") == Some(7) && Atoi("-42") == Some(-42)
  {
    AtoiRejects("abc", 0);
    AtoiRejects("+x", 0);
    AtoiRejectsEmpty("-");
    AtoiRejects("12a", 2);
    assert Unsigned("+7") == "7";
    assert Unsigned("-42") == "42" && "42"[..1] == "4";
  }

  /** The decimal digits of a natural number, most significant first, without leading zeros. */
  function NatDigits(n: nat): string
    decreases n
  {
    if n < 10 then [('0' as int + n) as char]
    else NatDigits(n / 10) + [('0' as int + n % 10) as char]
  }

  /** strconv.Itoa: the decimal text of an integer, with "-" for a negative one. */
  function Itoa(n: int): string {
    if n < 0 then "-" + NatDigits(-n) else NatDigits(n)
  }

  lemma {:induction false} NatDigitsValue(n: nat)
    decreases n
    ensures |NatDigits(n)| > 0 && NatDigits(n)[0] != '-'
    ensures forall i :: 0 <= i < |NatDigits(n)| ==> IsDigit(NatDigits(n)[i])
    ensures DigitsValue(NatDigits(n)) == n
  {
    if n >= 10 {
      NatDigitsValue(n / 10);
      var d := NatDigits(n);
      assert d[..|d| - 1] == NatDigits(n / 10);
    }
  }

  /** Atoi reads back what Itoa writes, for every value in the 64-bit int range. */
  lemma AtoiItoa(n: int)
    requires -0x8000_0000_0000_0000 <= n < 0x8000_0000_0000_0000
    ensures Atoi(Itoa(n)) == Some(n)
  {
    var m := if n < 0 then -n else n;
    NatDigitsValue(m);
    if n < 0 {
      assert Itoa(n)[1..] == NatDigits(m);
    }
  }

  /** A 64-bit signed result, wrapped around as Go's int64 arithmetic does. */
  function Wrap64(x: int): (r: int)
    ensures -0x8000_0000_0000_0000 <= r < 0x8000_0000_0000_0000
    ensures (r - x) % 0x1_0000_0000_0000_0000 == 0
  {
    (x + 0x8000_0000_0000_0000) % 0x1_0000_0000_0000_0000 - 0x8000_0000_0000_0000
  }

  /** `time.Duration(i) * time.Second`: int64 multiplication, which wraps. */
  function SecondsToDuration(i: int): int {
    Wrap64(i * Second)
  }

  /** A timeout of up to 9223372036 seconds is exactly that many seconds... */
  lemma TimeoutInRange(i: int)
    requires 0 <= i <= 9_223_372_036
    ensures SecondsToDuration(i) == i * Second
  {
  }

  /** ...and one more second wraps around to a negative duration. */
  lemma TimeoutWraps()
    ensures SecondsToDuration(9_223_372_037) < 0
  {
  }

  /**
   * filepath.Ext on a slash-separated path: the suffix from the final dot
   * of the final path element, or "" when that element has no dot.
   */
  function Ext(path: string): string
  {
    if path == "" then ""
    else
      var last := path[|path| - 1];
      if last == '/' then ""
      else if last == '.' then "."
      else
        var e := Ext(path[..|path| - 1]);
        if e == "" then "" else e + [last]
  }

  /**
   * Ext is a suffix of the path; when non-empty it is a dot followed by
   * neither dots nor slashes, and when empty every dot of the path has a
   * slash after it.
   */
  lemma {:induction false} ExtShape(path: string)
    ensures var e := Ext(path);
      && |e| <= |path| && e == path[|path| - |e|..]
      && (e != "" ==> e[0] == '.' && forall i :: 1 <= i < |e| ==> e[i] != '.' && e[i] != '/')
      && (e == "" ==> forall i :: 0 <= i < |path| && path[i] == '.' ==> exists j :: i < j < |path| && path[j] == '/')
  {
    if path != "" {
      var n := |path| - 1;
      var last := path[n];
      if last == '/' {
        forall i | 0 <= i < |path| && path[i] == '.'
          ensures exists j :: i < j < |path| && path[j] == '/'
        {
          assert path[n] == '/';
        }
      } else if last != '.' {
        var init := path[..n];
        ExtShape(init);
        var e' := Ext(init);
        if e' == "" {
          forall i | 0 <= i < |path| && path[i] == '.'
            ensures exists j :: i < j < |path| && path[j] == '/'
          {
            assert init[i] == '.';
            var j :| i < j < |init| && init[j] == '/';
            assert path[j] == '/';
          }
        } else {
          var e := e' + [last];
          assert e == path[|path| - |e|..];
        }
      }
    }
  }

  /** The output path used when none is given: the host input without its extension, plus "_results.txt". */
  function DefaultOutputPath(hostInput: string): string {
    TrimSuffix(hostInput, Ext(hostInput)) + "_results.txt"
  }

  /** A final element `base.ext` (ext free of dots and slashes) gives `base_results.txt`. */
  lemma {:induction false} DefaultOutputDropsExtension(base: string, ext: string)
    requires forall i :: 0 <= i < |ext| ==> ext[i] != '.' && ext[i] != '/'
    ensures DefaultOutputPath(base + "." + ext) == base + "_results.txt"
  {
    ExtOfDotted(base, ext);
    var path := base + "." + ext;
    assert path[..|path| - |ext| - 1] == base;
  }

  lemma {:induction false} ExtOfDotted(base: string, ext: string)
    requires forall i :: 0 <= i < |ext| ==> ext[i] != '.' && ext[i] != '/'
    ensures Ext(base + "." + ext) == "." + ext
  {
    var path := base + "." + ext;
    if ext == "" {
      assert path[|path| - 1] == '.';
    } else {
      var shorter := ext[..|ext| - 1];
      assert path[..|path| - 1] == base + "." + shorter;
      ExtOfDotted(base, shorter);
      assert "." + shorter + [ext[|ext| - 1]] == "." + ext;
    }
  }

  /** A host input without any dot gets "_results.txt" appended. */
  lemma DefaultOutputWithoutExtension(hostInput: string)
    requires forall i :: 0 <= i < |hostInput| ==> hostInput[i] != '.'
    ensures DefaultOutputPath(hostInput) == hostInput + "_results.txt"
  {
    ExtShape(hostInput);
    assert HasSuffix(hostInput, "");
    assert hostInput[..|hostInput|] == hostInput;
  }

  lemma DefaultOutputExample()
    ensures DefaultOutputPath("hosts.txt") == "hosts_results.txt"
  {
    var base, ext := "hosts", "txt";
    assert forall i :: 0 <= i < |ext| ==> ext[i] == 't' || ext[i] == 'x';
    DefaultOutputDropsExtension(base, ext);
    assert base + "." + ext == "hosts.txt";
    assert base + "_results.txt" == "hosts_results.txt";
  }

  /** An integer flag: the parsed value when the flag has one that Atoi accepts, otherwise the default. */
  function IntFlag(args: seq<string>, long: string, short: string, default: int): int {
    match FlagValue(args, long, short)
    case Some(v) => Atoi(v).GetOr(default)
    case None => default
  }

  /** The timeout flag, in seconds, as a duration; the default otherwise. */
  function TimeoutFlag(args: seq<string>, default: int): int {
    match FlagValue(args, "timeout", "t")
    case Some(v) => if Atoi(v).Some? then SecondsToDuration(Atoi(v).value) else default
    case None => default
  }

  /**
   * A flag value can never be negative, since a value starting with "-" is
   * not taken as one: every integer flag keeps a non-negative default
   * non-negative.
   */
  lemma IntFlagNonNegative(args: seq<string>, long: string, short: string, default: int)
    requires default >= 0
    ensures IntFlag(args, long, short, default) >= 0
  {
  }

  /** A flag whose value Atoi rejects leaves the field at its default. */
  lemma IntFlagKeepsDefault(args: seq<string>, long: string, short: string, default: int, k: nat)
    requires FlagValue(args, long, short).Some?
    requires var v := FlagValue(args, long, short).value; k < |Unsigned(v)| && !IsDigit(Unsigned(v)[k])
    ensures IntFlag(args, long, short, default) == default
  {
    AtoiRejects(FlagValue(args, long, short).value, k);
  }

  lemma UnparsableWorkersExample()
    ensures IntFlag(["--host", "hosts.txt", "--workers", "abc"], "workers", "w", DefaultConfig.numWorkers) == 150
  {
    var args := ["--host", "hosts.txt", "--workers", "abc"];
    assert args[1][0] == 'h' && ("--" + "workers")[0] == '-';
    assert !IsFlag(args[0], "workers", "w") && !IsFlag(args[1], "workers", "w");
    assert args[3][..1] == "a";
    assert ValueAt(args, "workers", "w", 2);
    assert FlagValue(args, "workers", "w") == Some("abc");
    IntFlagKeepsDefault(args, "workers", "w", 150, 0);
  }

  /**
   * Without any numeric flag, the fields keep the defaults of args.go:48-56:
   * 150 workers, 200 scans per second, a 5 s timeout and ports 25000 to 30000.
   */
  lemma DefaultsKept(args: seq<string>)
    requires FlagValue(args, "workers", "w").None? && FlagValue(args, "rate", "r").None?
    requires FlagValue(args, "timeout", "t").None?
    requires FlagValue(args, "start-port", "s").None? && FlagValue(args, "end-port", "e").None?
    ensures IntFlag(args, "workers", "w", DefaultConfig.numWorkers) == 150
    ensures IntFlag(args, "rate", "r", DefaultConfig.scansPerSecond) == 200
    ensures TimeoutFlag(args, DefaultConfig.scanTimeout) == 5_000_000_000
    ensures IntFlag(args, "start-port", "s", DefaultConfig.startPort) == 25000
    ensures IntFlag(args, "end-port", "e", DefaultConfig.endPort) == 30000
  {
  }

  /**
   * One integer flag of ParseFlags: `if val, found := findFlagValue(...);
   * found { if i, err := strconv.Atoi(val); err == nil { field = i } }`.
   */
  method ReadIntFlag(args: seq<string>, long: string, short: string, current: int) returns (value: int)
    ensures value == IntFlag(args, long, short, current)
  {
    value := current;
    var val, found := FindFlagValue(args, long, short);
    if found {
      var i := Atoi(val);
      if i.Some? { value := i.value; }
    }
  }

  datatype ArgsError = MissingHost

  /**
   * ParseFlags: help first, then the required host, the output path, debug
   * mode and the integer flags, each overwriting its default only when its
   * value parses.
   */
  method ParseFlags(args: seq<string>)
    returns (config: ScannerConfig, hostInput: string, outputFilePath: string, err: Option<ArgsError>)
    ensures FlagPresent(args, "help", "?") ==>
      config == DefaultConfig.(showHelp := true) && hostInput == "" && outputFilePath == "" && err == None
    ensures !FlagPresent(args, "help", "?") && FlagValue(args, "host", "h").None? ==>
      config == DefaultConfig && hostInput == "" && outputFilePath == "" && err == Some(MissingHost)
    ensures !FlagPresent(args, "help", "?") && FlagValue(args, "host", "h").Some? ==>
      && err == None
      && hostInput == FlagValue(args, "host", "h").value
      && outputFilePath == FlagValue(args, "output", "o").GetOr(DefaultOutputPath(hostInput))
      && config == ScannerConfig(
           IntFlag(args, "workers", "w", DefaultConfig.numWorkers),
           IntFlag(args, "rate", "r", DefaultConfig.scansPerSecond),
           TimeoutFlag(args, DefaultConfig.scanTimeout),
           IntFlag(args, "start-port", "s", DefaultConfig.startPort),
           IntFlag(args, "end-port", "e", DefaultConfig.endPort),
           FlagPresent(args, "debug", "d"),
           false)
  {
    config := DefaultConfig;

    var help := HasBoolFlag(args, "help", "?");
    if help {
      config := config.(showHelp := true);
      return config, "", "", None;
    }

    var hostFound;
    hostInput, hostFound := FindFlagValue(args, "host", "h");
    if !hostFound {
      return config, "", "", Some(MissingHost);
    }

    var outputFound;
    outputFilePath, outputFound := FindFlagValue(args, "output", "o");
    if !outputFound {
      var baseName := TrimSuffix(hostInput, Ext(hostInput));
      outputFilePath := baseName + "_results.txt";
    }

    var debug := HasBoolFlag(args, "debug", "d");
    config := config.(debugMode := debug);

    var numWorkers := ReadIntFlag(args, "workers", "w", config.numWorkers);
    config := config.(numWorkers := numWorkers);
    var scansPerSecond := ReadIntFlag(args, "rate", "r", config.scansPerSecond);
    config := config.(scansPerSecond := scansPerSecond);
    var val, found := FindFlagValue(args, "timeout", "t");
    if found {
      var i := Atoi(val);
      if i.Some? { config := config.(scanTimeout := SecondsToDuration(i.value)); }
    }
    assert config.scanTimeout == TimeoutFlag(args, DefaultConfig.scanTimeout);
    var startPort := ReadIntFlag(args, "start-port", "s", config.startPort);
    config := config.(startPort := startPort);
    var endPort := ReadIntFlag(args, "end-port", "e", config.endPort);
    config := config.(endPort := endPort);
    err := None;
  }
}
