/**
 * The command line of the inhabitant generator: the argument loop of `embeddedMain`, the
 * defaults it derives from the class path, and the exit code `go` maps the generator
 * run to. The generator run itself is a parameter.
 */
module HabitatArguments {
  import opened Outcomes

  const FILE_ARG: string := "--file"
  const LOCATOR_ARG: string := "--locator"
  const VERBOSE_ARG: string := "--verbose"
  const OUTJAR_ARG: string := "--outjar"
  const SEARCHPATH_ARG: string := "--searchPath"
  const LOCATOR_DEFAULT: string := "default"

  /** The flags that must be followed by a value. */
  predicate IsValueFlag(arg: string) {
    arg == FILE_ARG || arg == LOCATOR_ARG || arg == OUTJAR_ARG || arg == SEARCHPATH_ARG
  }

  predicate IsFlag(arg: string) {
    arg == VERBOSE_ARG || IsValueFlag(arg)
  }

  /** The exit code when a flag is the last argument and so has no value. */
  function MissingValueCode(flag: string): (code: int)
    requires IsValueFlag(flag)
    ensures flag == FILE_ARG ==> code == 3
    ensures flag == LOCATOR_ARG ==> code == 4
    ensures flag == OUTJAR_ARG || flag == SEARCHPATH_ARG ==> code == 5
  {
    if flag == FILE_ARG then 3 else if flag == LOCATOR_ARG then 4 else 5
  }

  /** The local variables of the argument loop; `None` stands for a variable still null. */
  datatype Settings = Settings(file: Option<string>, locator: string, verbose: bool,
                               outjar: Option<string>, searchPath: string)

  /** What the generator is run with once every default is filled in. */
  datatype GeneratorConfig = GeneratorConfig(file: string, outjar: string, locator: string,
                                             verbose: bool, searchPath: string)

  /** How a generator run ends. */
  datatype RunnerOutcome = Completed | AssertionFailure | IOFailure

  function Initial(classpath: string): Settings {
    Settings(None, LOCATOR_DEFAULT, false, None, classpath)
  }

  /** `s` and `t` agree on every setting except possibly the one `flag` sets. */
  predicate AgreeExcept(s: Settings, t: Settings, flag: string) {
    (flag == FILE_ARG || s.file == t.file) && (flag == LOCATOR_ARG || s.locator == t.locator) &&
    (flag == VERBOSE_ARG || s.verbose == t.verbose) && (flag == OUTJAR_ARG || s.outjar == t.outjar) &&
    (flag == SEARCHPATH_ARG || s.searchPath == t.searchPath)
  }

  /** The value a value flag stores: it overwrites that flag's setting and no other. */
  function Store(s: Settings, flag: string, value: string): (r: Settings)
    requires IsValueFlag(flag)
    ensures AgreeExcept(s, r, flag)
    ensures flag == FILE_ARG ==> r.file == Some(value)
    ensures flag == LOCATOR_ARG ==> r.locator == value
    ensures flag == OUTJAR_ARG ==> r.outjar == Some(value)
    ensures flag == SEARCHPATH_ARG ==> r.searchPath == value
  {
    if flag == FILE_ARG then s.(file := Some(value))
    else if flag == LOCATOR_ARG then s.(locator := value)
    else if flag == OUTJAR_ARG then s.(outjar := Some(value))
    else s.(searchPath := value)
  }

  /**
   * The argument loop from position `lcv` on: `--verbose` sets verbosity, a value flag
   * stores the argument after it whatever that is, or fails when it is the last argument,
   * and any other argument is skipped.
   */
  function ScanFrom(argv: seq<string>, lcv: nat, s: Settings): (r: Result<Settings, int>)
    requires lcv <= |argv|
    ensures r.Err? ==>
      lcv < |argv| && IsValueFlag(argv[|argv| - 1]) && r.error == MissingValueCode(argv[|argv| - 1])
    decreases |argv| - lcv
  {
    if lcv == |argv| then Ok(s)
    else if argv[lcv] == VERBOSE_ARG then ScanFrom(argv, lcv + 1, s.(verbose := true))
    else if IsValueFlag(argv[lcv]) then
      if lcv + 1 >= |argv| then Err(MissingValueCode(argv[lcv]))
      else ScanFrom(argv, lcv + 2, Store(s, argv[lcv], argv[lcv + 1]))
    else ScanFrom(argv, lcv + 1, s)
  }

  function Scan(argv: seq<string>, s: Settings): Result<Settings, int> {
    ScanFrom(argv, 0, s)
  }

  // ---------------------------------------------------------------------------------------
  // The first class path entry

  /** `sep` occurs in `s` at position `k`. */
  predicate OccursAt(s: string, sep: string, k: nat) {
    k + |sep| <= |s| && s[k..k + |sep|] == sep
  }

  /** The first position at or after `k` where `sep` occurs, as `String.indexOf` finds it. */
  function IndexOfFrom(s: string, sep: string, k: nat): (r: Option<nat>)
    ensures r.Some? ==> k <= r.value && OccursAt(s, sep, r.value)
    ensures r.Some? ==> forall j :: k <= j < r.value ==> !OccursAt(s, sep, j)
    ensures r.None? ==> forall j :: k <= j ==> !OccursAt(s, sep, j)
    decreases |s| - k
  {
    if k + |sep| > |s| then None
    else if s[k..k + |sep|] == sep then Some(k)
    else IndexOfFrom(s, sep, k + 1)
  }

  /** The class path up to its first separator, or all of it when it has none. */
  function FirstClasspathEntry(classpath: string, pathSeparator: string): (r: string)
    ensures r <= classpath
    ensures (forall j :: !OccursAt(classpath, pathSeparator, j)) ==> r == classpath
    ensures (exists j :: OccursAt(classpath, pathSeparator, j)) ==>
      OccursAt(classpath, pathSeparator, |r|) && forall j: nat :: j < |r| ==> !OccursAt(classpath, pathSeparator, j)
  {
    match IndexOfFrom(classpath, pathSeparator, 0)
    case None => classpath
    case Some(pathSep) => classpath[..pathSep]
  }

  /** The defaults filled in after the loop: the file, then the output jar from the file. */
  function WithDefaults(s: Settings, classpath: string, pathSeparator: string): (c: GeneratorConfig)
    ensures s.file.Some? ==> c.file == s.file.value
    ensures s.file.None? ==> c.file == FirstClasspathEntry(classpath, pathSeparator)
    ensures c.outjar == if s.outjar.Some? then s.outjar.value else c.file
    ensures c.locator == s.locator && c.verbose == s.verbose && c.searchPath == s.searchPath
  {
    var file := s.file.GetOr(FirstClasspathEntry(classpath, pathSeparator));
    GeneratorConfig(file, s.outjar.GetOr(file), s.locator, s.verbose, s.searchPath)
  }

  /** The whole of `embeddedMain` before the run: a configuration or the exit code of a missing value. */
  function Parse(argv: seq<string>, classpath: string, pathSeparator: string): (r: Result<GeneratorConfig, int>)
    ensures r.Err? ==> |argv| > 0 && IsValueFlag(argv[|argv| - 1]) && r.error == MissingValueCode(argv[|argv| - 1])
    ensures r.Err? ==> r.error in {3, 4, 5}
  {
    match Scan(argv, Initial(classpath))
    case Err(code) => Err(code)
    case Ok(s) => Ok(WithDefaults(s, classpath, pathSeparator))
  }

  /** The exit code of a generator run. */
  function Go(outcome: RunnerOutcome): (code: int)
    ensures code == 0 <==> outcome == Completed
    ensures code == 1 <==> outcome == AssertionFailure
    ensures code == 2 <==> outcome == IOFailure
  {
    match outcome
    case Completed => 0
    case AssertionFailure => 1
    case IOFailure => 2
  }

  /** The generator run (`GeneratorRunner.go`): how it ends for each configuration, and the
      configurations it has been run with, in order. */
  class GeneratorRunner {
    const outcome: GeneratorConfig -> RunnerOutcome
    var runs: seq<GeneratorConfig>

    constructor (outcome: GeneratorConfig -> RunnerOutcome)
      ensures this.outcome == outcome && runs == []
    {
      this.outcome := outcome;
      runs := [];
    }

    method Run(config: GeneratorConfig) returns (r: RunnerOutcome)
      modifies this
      ensures r == outcome(config) && runs == old(runs) + [config]
    {
      runs := runs + [config];
      r := outcome(config);
    }
  }

  /**
   * `embeddedMain`: walks the arguments, fills in the defaults, and runs the generator once,
   * unless a missing value ends the program first.
   */
  method EmbeddedMain(argv: seq<string>, classpath: string, pathSeparator: string, runner: GeneratorRunner)
    returns (exitCode: int)
    modifies runner
    ensures Parse(argv, classpath, pathSeparator).Err? ==>
      exitCode == Parse(argv, classpath, pathSeparator).error && runner.runs == old(runner.runs)
    ensures Parse(argv, classpath, pathSeparator).Ok? ==>
      exitCode == Go(runner.outcome(Parse(argv, classpath, pathSeparator).value)) &&
      runner.runs == old(runner.runs) + [Parse(argv, classpath, pathSeparator).value]
  {
    var defaultFileToHandle: Option<string> := None;
    var defaultLocatorName := LOCATOR_DEFAULT;
    var defaultVerbose := false;
    var outjarFile: Option<string> := None;
    var searchPath := classpath;
    var lcv := 0;
    while lcv < |argv|
      invariant lcv <= |argv|
      invariant ScanFrom(argv, lcv, Settings(defaultFileToHandle, defaultLocatorName, defaultVerbose, outjarFile, searchPath))
             == Scan(argv, Initial(classpath))
      decreases |argv| - lcv
    {
      if argv[lcv] == VERBOSE_ARG {
        defaultVerbose := true;
      } else if argv[lcv] == FILE_ARG {
        lcv := lcv + 1;
        if lcv >= |argv| {
          return 3;
        }
        defaultFileToHandle := Some(argv[lcv]);
      } else if argv[lcv] == LOCATOR_ARG {
        lcv := lcv + 1;
        if lcv >= |argv| {
          return 4;
        }
        defaultLocatorName := argv[lcv];
      } else if argv[lcv] == OUTJAR_ARG {
        lcv := lcv + 1;
        if lcv >= |argv| {
          return 5;
        }
        outjarFile := Some(argv[lcv]);
      } else if argv[lcv] == SEARCHPATH_ARG {
        lcv := lcv + 1;
        if lcv >= |argv| {
          return 5;
        }
        searchPath := argv[lcv];
      }
      lcv := lcv + 1;
    }
    if defaultFileToHandle.None? {
      var firstInLine;
      var pathSep := IndexOfFrom(classpath, pathSeparator, 0);
      if pathSep.None? {
        firstInLine := classpath;
      } else {
        firstInLine := classpath[..pathSep.value];
      }
      defaultFileToHandle := Some(firstInLine);
    }
    if outjarFile.None? {
      outjarFile := defaultFileToHandle;
    }
    var config := GeneratorConfig(defaultFileToHandle.value, outjarFile.value, defaultLocatorName, defaultVerbose, searchPath);
    var outcome := runner.Run(config);
    exitCode := Go(outcome);
  }

  // ---------------------------------------------------------------------------------------
  // Properties of the argument loop

  /** Scanning from the end of a fully scanned prefix is scanning the rest on its own. */
  lemma {:induction false} ScanShift(a: seq<string>, b: seq<string>, i: nat, s: Settings)
    requires i <= |b|
    ensures ScanFrom(a + b, |a| + i, s) == ScanFrom(b, i, s)
    decreases |b| - i
  {
    var ab := a + b;
    if i < |b| {
      assert ab[|a| + i] == b[i];
      if i + 1 < |b| {
        assert ab[|a| + i + 1] == b[i + 1];
      }
      if b[i] == VERBOSE_ARG {
        ScanShift(a, b, i + 1, s.(verbose := true));
      } else if IsValueFlag(b[i]) {
        if i + 1 < |b| {
          ScanShift(a, b, i + 2, Store(s, b[i], b[i + 1]));
        }
      } else {
        ScanShift(a, b, i + 1, s);
      }
    }
  }

  /** A prefix that scans without error hands its settings on to the rest of the arguments. */
  lemma {:induction false} ScanAppend(a: seq<string>, b: seq<string>, i: nat, s: Settings)
    requires i <= |a| && ScanFrom(a, i, s).Ok?
    ensures ScanFrom(a + b, i, s) == ScanFrom(b, 0, ScanFrom(a, i, s).value)
    decreases |a| - i
  {
    var ab := a + b;
    if i == |a| {
      ScanShift(a, b, 0, s);
    } else {
      assert ab[i] == a[i];
      if a[i] == VERBOSE_ARG {
        ScanAppend(a, b, i + 1, s.(verbose := true));
      } else if IsValueFlag(a[i]) {
        assert ab[i + 1] == a[i + 1];
        ScanAppend(a, b, i + 2, Store(s, a[i], a[i + 1]));
      } else {
        ScanAppend(a, b, i + 1, s);
      }
    }
  }

  /** A value flag given as the last argument ends the program with its missing-value code. */
  lemma MissingValue(a: seq<string>, flag: string, classpath: string, pathSeparator: string)
    requires Scan(a, Initial(classpath)).Ok? && IsValueFlag(flag)
    ensures Parse(a + [flag], classpath, pathSeparator) == Err(MissingValueCode(flag))
  {
    ScanAppend(a, [flag], 0, Initial(classpath));
  }

  /** An argument that is not a flag is skipped: removing it changes nothing. */
  lemma UnknownArgumentSkipped(a: seq<string>, x: string, b: seq<string>, s: Settings)
    requires Scan(a, s).Ok? && !IsFlag(x)
    ensures Scan(a + [x] + b, s) == Scan(a + b, s)
  {
    ScanAppend(a, [x] + b, 0, s);
    ScanAppend(a, b, 0, s);
    assert a + [x] + b == a + ([x] + b);
    assert ([x] + b)[1..] == b;
    ScanShift([x], b, 0, Scan(a, s).value);
  }

  /** A value flag stores the next argument, even when that argument is itself a flag. */
  lemma FlagTakesNextArgument(a: seq<string>, flag: string, value: string, s: Settings)
    requires Scan(a, s).Ok? && IsValueFlag(flag)
    ensures Scan(a + [flag, value], s) == Ok(Store(Scan(a, s).value, flag, value))
  {
    ScanAppend(a, [flag, value], 0, s);
  }

  /** Whether scanning fails does not depend on the settings it starts from. */
  lemma {:induction false} ScanOutcomeIndependent(argv: seq<string>, lcv: nat, s: Settings, t: Settings)
    requires lcv <= |argv|
    ensures ScanFrom(argv, lcv, s).Ok? <==> ScanFrom(argv, lcv, t).Ok?
    decreases |argv| - lcv
  {
    if lcv == |argv| {
    } else if argv[lcv] == VERBOSE_ARG {
      ScanOutcomeIndependent(argv, lcv + 1, s.(verbose := true), t.(verbose := true));
    } else if IsValueFlag(argv[lcv]) {
      if lcv + 1 < |argv| {
        ScanOutcomeIndependent(argv, lcv + 2, Store(s, argv[lcv], argv[lcv + 1]), Store(t, argv[lcv], argv[lcv + 1]));
      }
    } else {
      ScanOutcomeIndependent(argv, lcv + 1, s, t);
    }
  }

  /** The loop never reads a setting: starting settings that differ in one setting only
      give results that differ in that setting only. */
  lemma {:induction false} ScanKeepsAgreement(argv: seq<string>, lcv: nat, s: Settings, t: Settings, flag: string)
    requires lcv <= |argv| && AgreeExcept(s, t, flag)
    ensures ScanFrom(argv, lcv, s).Err? ==> ScanFrom(argv, lcv, t) == ScanFrom(argv, lcv, s)
    ensures ScanFrom(argv, lcv, s).Ok? ==>
      ScanFrom(argv, lcv, t).Ok? && AgreeExcept(ScanFrom(argv, lcv, s).value, ScanFrom(argv, lcv, t).value, flag)
    decreases |argv| - lcv
  {
    if lcv == |argv| {
    } else if argv[lcv] == VERBOSE_ARG {
      ScanKeepsAgreement(argv, lcv + 1, s.(verbose := true), t.(verbose := true), flag);
    } else if IsValueFlag(argv[lcv]) {
      if lcv + 1 < |argv| {
        ScanKeepsAgreement(argv, lcv + 2, Store(s, argv[lcv], argv[lcv + 1]), Store(t, argv[lcv], argv[lcv + 1]), flag);
      }
    } else {
      ScanKeepsAgreement(argv, lcv + 1, s, t, flag);
    }
  }

  /**
   * When a value flag is repeated, the last value wins, whatever lies between the two: the
   * first occurrence and its value can be dropped. The arguments in between must scan on
   * their own, so that the second occurrence is read as a flag.
   */
  lemma LastValueWins(a: seq<string>, flag: string, v1: string, m: seq<string>, v2: string, b: seq<string>, s: Settings)
    requires Scan(a, s).Ok? && Scan(m, s).Ok? && IsValueFlag(flag)
    ensures Scan(a + [flag, v1] + m + [flag, v2] + b, s) == Scan(a + m + [flag, v2] + b, s)
  {
    var t := Scan(a, s).value;
    var u := Store(t, flag, v1);
    var tail := [flag, v2] + b;
    var rest := m + tail;
    assert a + [flag, v1] + m + [flag, v2] + b == a + ([flag, v1] + rest);
    assert a + m + [flag, v2] + b == a + rest;
    ScanAppend(a, [flag, v1] + rest, 0, s);
    ScanAppend(a, rest, 0, s);
    ScanShift([flag, v1], rest, 0, u);
    ScanOutcomeIndependent(m, 0, s, t);
    ScanOutcomeIndependent(m, 0, s, u);
    ScanAppend(m, tail, 0, t);
    ScanAppend(m, tail, 0, u);
    ScanKeepsAgreement(m, 0, t, u, flag);
    var w, w' := ScanFrom(m, 0, t).value, ScanFrom(m, 0, u).value;
    ScanShift([flag, v2], b, 0, Store(w, flag, v2));
    ScanShift([flag, v2], b, 0, Store(w', flag, v2));
    assert Store(w, flag, v2) == Store(w', flag, v2);
  }

  /** `--verbose` takes no value, and giving it again later is the same as giving it once. */
  lemma VerboseIdempotent(a: seq<string>, m: seq<string>, b: seq<string>, s: Settings)
    requires Scan(a, s).Ok? && Scan(m, s).Ok?
    ensures Scan(a + [VERBOSE_ARG] + m + [VERBOSE_ARG] + b, s) == Scan(a + m + [VERBOSE_ARG] + b, s)
  {
    var t := Scan(a, s).value;
    var u := t.(verbose := true);
    var tail := [VERBOSE_ARG] + b;
    var rest := m + tail;
    assert a + [VERBOSE_ARG] + m + [VERBOSE_ARG] + b == a + ([VERBOSE_ARG] + rest);
    assert a + m + [VERBOSE_ARG] + b == a + rest;
    ScanAppend(a, [VERBOSE_ARG] + rest, 0, s);
    ScanAppend(a, rest, 0, s);
    ScanShift([VERBOSE_ARG], rest, 0, u);
    ScanOutcomeIndependent(m, 0, s, t);
    ScanOutcomeIndependent(m, 0, s, u);
    ScanAppend(m, tail, 0, t);
    ScanAppend(m, tail, 0, u);
    ScanKeepsAgreement(m, 0, t, u, VERBOSE_ARG);
    var w, w' := ScanFrom(m, 0, t).value, ScanFrom(m, 0, u).value;
    ScanShift([VERBOSE_ARG], b, 0, w.(verbose := true));
    ScanShift([VERBOSE_ARG], b, 0, w'.(verbose := true));
    assert w.(verbose := true) == w'.(verbose := true);
  }

  /** A setting whose flag is never given keeps its initial value. */
  lemma {:induction false} UntouchedSettings(argv: seq<string>, lcv: nat, s: Settings)
    requires lcv <= |argv| && ScanFrom(argv, lcv, s).Ok?
    ensures var t := ScanFrom(argv, lcv, s).value;
      ((forall j :: lcv <= j < |argv| ==> argv[j] != FILE_ARG) ==> t.file == s.file) &&
      ((forall j :: lcv <= j < |argv| ==> argv[j] != LOCATOR_ARG) ==> t.locator == s.locator) &&
      ((forall j :: lcv <= j < |argv| ==> argv[j] != OUTJAR_ARG) ==> t.outjar == s.outjar) &&
      ((forall j :: lcv <= j < |argv| ==> argv[j] != SEARCHPATH_ARG) ==> t.searchPath == s.searchPath)
    decreases |argv| - lcv
  {
    if lcv == |argv| {
    } else if argv[lcv] == VERBOSE_ARG {
      UntouchedSettings(argv, lcv + 1, s.(verbose := true));
    } else if IsValueFlag(argv[lcv]) {
      UntouchedSettings(argv, lcv + 2, Store(s, argv[lcv], argv[lcv + 1]));
    } else {
      UntouchedSettings(argv, lcv + 1, s);
    }
  }

  /**
   * The defaults: the locator is "default", the search path is the class path, the file is
   * the first class path entry, and the output jar is the file, each when its flag is absent.
   */
  lemma Defaults(argv: seq<string>, classpath: string, pathSeparator: string)
    requires Parse(argv, classpath, pathSeparator).Ok?
    ensures var c := Parse(argv, classpath, pathSeparator).value;
      ((forall j :: 0 <= j < |argv| ==> argv[j] != LOCATOR_ARG) ==> c.locator == LOCATOR_DEFAULT) &&
      ((forall j :: 0 <= j < |argv| ==> argv[j] != SEARCHPATH_ARG) ==> c.searchPath == classpath) &&
      ((forall j :: 0 <= j < |argv| ==> argv[j] != FILE_ARG) ==> c.file == FirstClasspathEntry(classpath, pathSeparator)) &&
      ((forall j :: 0 <= j < |argv| ==> argv[j] != OUTJAR_ARG) ==> c.outjar == c.file)
  {
    UntouchedSettings(argv, 0, Initial(classpath));
  }
}
