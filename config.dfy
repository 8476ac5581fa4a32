/** The command-line parser of the benchmark driver. `Parse` is the meaning
    of an argument vector; `ConfigStore.InitConfig` is the argv loop itself,
    which advances its index inside the body, keeps the settings in local
    variables and assigns the global configuration only once the whole
    vector has been accepted. `atoi` is a parameter. */
module Configuration {

  /** The settings init_config assigns (the fields src/config.c sets). */
  datatype Config = Config(
    currRun: int,
    matrixDimension: int,
    verboseLevel: int,
    blockSize: int,
    numRuns: int,
    benchmarkSequential: int,
    benchmarkImplicit: int,
    benchmarkOmp: int,
    ompThreads: int)

  /** The global before init_config runs: a static struct, all fields zero. */
  const Zeroed: Config := Config(0, 0, 0, 0, 0, 0, 0, 0, 0)

  /** The values in force before any argument is read. */
  const Defaults: Config := Config(0, 1024, 0, 4, 1, 0, 0, 0, 4)

  /** Why the parse ends with exit status 1. */
  datatype ParseError =
    | MissingValue(flag: string)
    | VerboseOutOfRange(level: int)
    | RunsNotPositive(runs: int)
    | ThreadsNotPositive(threads: int)
    | InvalidTestOption(option: char)
    | UnknownArgument(argument: string)

  /** How a parse ends: `--help` (exit status 0), an error (exit status 1),
      or the configuration to install. */
  datatype Outcome = Help | Failure(error: ParseError) | Parsed(config: Config)

  datatype ClusterResult = ClusterOk(config: Config) | ClusterError(option: char)

  /** The C string's character at position k: '\0' past its end. The
      arguments are assumed to contain no NUL character. */
  function CharAt(s: string, k: nat): char {
    if k < |s| then s[k] else '\0'
  }

  /** A short-option cluster: the argument starts with '-' and its second
      character is not '-' (a bare "-" qualifies). */
  predicate IsCluster(arg: string) {
    CharAt(arg, 0) == '-' && CharAt(arg, 1) != '-'
  }

  predicate IsValueFlag(arg: string) {
    arg == "--matrix-dimension" || arg == "--verbose" || arg == "--block-size" ||
    arg == "--runs" || arg == "--threads"
  }

  /** The letters of a cluster from position j on: 's', 'i' and 'o' switch on
      their benchmark, any other letter is an error. */
  function ApplyCluster(arg: string, j: nat, config: Config): (r: ClusterResult)
    ensures r.ClusterOk? ==>
      r.config.(benchmarkSequential := config.benchmarkSequential, benchmarkImplicit := config.benchmarkImplicit,
                benchmarkOmp := config.benchmarkOmp) == config
    ensures r.ClusterOk? ==>
      r.config.benchmarkSequential in {config.benchmarkSequential, 1} &&
      r.config.benchmarkImplicit in {config.benchmarkImplicit, 1} && r.config.benchmarkOmp in {config.benchmarkOmp, 1}
    ensures r.ClusterError? ==> r.option !in {'s', 'i', 'o'} && exists k :: j <= k < |arg| && arg[k] == r.option
    decreases |arg| - j
  {
    if j >= |arg| then ClusterOk(config)
    else if arg[j] == 's' then ApplyCluster(arg, j + 1, config.(benchmarkSequential := 1))
    else if arg[j] == 'i' then ApplyCluster(arg, j + 1, config.(benchmarkImplicit := 1))
    else if arg[j] == 'o' then ApplyCluster(arg, j + 1, config.(benchmarkOmp := 1))
    else ClusterError(arg[j])
  }

  /** The rest of the parse from argv[i] on, with the settings read so far. */
  function ParseFrom(argv: seq<string>, i: nat, atoi: string -> int, config: Config): (r: Outcome)
    ensures r.Failure? && r.error.MissingValue? ==>
      i < |argv| && r.error.flag == argv[|argv| - 1] && IsValueFlag(r.error.flag)
    ensures r.Parsed? ==> r.config.currRun == config.currRun
    decreases |argv| - i
  {
    if i >= |argv| then Parsed(config)
    else
      var arg := argv[i];
      if arg == "--help" then Help
      else if arg == "--matrix-dimension" then
        if i + 1 < |argv| then ParseFrom(argv, i + 2, atoi, config.(matrixDimension := atoi(argv[i + 1])))
        else Failure(MissingValue(arg))
      else if arg == "--verbose" then
        if i + 1 < |argv| then
          var level := atoi(argv[i + 1]);
          if level < 0 || level > 2 then Failure(VerboseOutOfRange(level))
          else ParseFrom(argv, i + 2, atoi, config.(verboseLevel := level))
        else Failure(MissingValue(arg))
      else if arg == "--block-size" then
        if i + 1 < |argv| then ParseFrom(argv, i + 2, atoi, config.(blockSize := atoi(argv[i + 1])))
        else Failure(MissingValue(arg))
      else if arg == "--runs" then
        if i + 1 < |argv| then
          var runs := atoi(argv[i + 1]);
          if runs <= 0 then Failure(RunsNotPositive(runs))
          else ParseFrom(argv, i + 2, atoi, config.(numRuns := runs))
        else Failure(MissingValue(arg))
      else if IsCluster(arg) then
        match ApplyCluster(arg, 1, config)
        case ClusterOk(next) => ParseFrom(argv, i + 1, atoi, next)
        case ClusterError(c) => Failure(InvalidTestOption(c))
      else if arg == "--threads" then
        if i + 1 < |argv| then
          var threads := atoi(argv[i + 1]);
          if threads <= 0 then Failure(ThreadsNotPositive(threads))
          else ParseFrom(argv, i + 2, atoi, config.(ompThreads := threads))
        else Failure(MissingValue(arg))
      else Failure(UnknownArgument(arg))
  }

  /** init_config's verdict on an argument vector; argv[0] is the program name. */
  function Parse(argv: seq<string>, atoi: string -> int): Outcome {
    ParseFrom(argv, 1, atoi, Defaults)
  }

  /** The exit status of a parse that does not return. */
  function ExitStatus(outcome: Outcome): (status: int)
    requires !outcome.Parsed?
    ensures status == 0 <==> outcome == Help
    ensures outcome.Failure? ==> status == 1
  {
    if outcome.Help? then 0 else 1
  }

  /** The invariant of the settings: verbosity in [0, 2], positive run and
      thread counts, benchmark switches 0 or 1. */
  predicate Sane(config: Config) {
    0 <= config.verboseLevel <= 2 && config.numRuns > 0 && config.ompThreads > 0 &&
    config.benchmarkSequential in {0, 1} && config.benchmarkImplicit in {0, 1} && config.benchmarkOmp in {0, 1}
  }

  /** The global configuration, written by init_config. */
  class ConfigStore {
    var config: Config

    constructor ()
      ensures config == Zeroed
    {
      config := Zeroed;
    }

    /** init_config: the argv loop. A value flag consumes the next argument
        (the `i++` in the body); the configuration is assigned only after the
        loop has run to the end, so help and errors leave it as it was. */
    method InitConfig(argv: seq<string>, atoi: string -> int) returns (outcome: Outcome)
      modifies this
      ensures outcome == Parse(argv, atoi)
      ensures config == if outcome.Parsed? then outcome.config else old(config)
    {
      var currRun := 0;
      var matrixDimension := 1024;
      var verboseLevel := 0;
      var blockSize := 4;
      var numRuns := 1;
      var benchmarkSequential := 0;
      var benchmarkImplicit := 0;
      var benchmarkOmp := 0;
      var ompThreads := 4;
      var i := 1;
      while i < |argv|
        invariant 1 <= i
        invariant ParseFrom(argv, i, atoi,
          Config(currRun, matrixDimension, verboseLevel, blockSize, numRuns,
                 benchmarkSequential, benchmarkImplicit, benchmarkOmp, ompThreads)) == Parse(argv, atoi)
        decreases |argv| - i
      {
        var arg := argv[i];
        if arg == "--help" {
          return Help;
        } else if arg == "--matrix-dimension" {
          if i + 1 < |argv| {
            matrixDimension := atoi(argv[i + 1]);
            i := i + 1;
          } else {
            return Failure(MissingValue(arg));
          }
        } else if arg == "--verbose" {
          if i + 1 < |argv| {
            var level := atoi(argv[i + 1]);
            if level < 0 || level > 2 {
              return Failure(VerboseOutOfRange(level));
            }
            verboseLevel := level;
            i := i + 1;
          } else {
            return Failure(MissingValue(arg));
          }
        } else if arg == "--block-size" {
          if i + 1 < |argv| {
            blockSize := atoi(argv[i + 1]);
            i := i + 1;
          } else {
            return Failure(MissingValue(arg));
          }
        } else if arg == "--runs" {
          if i + 1 < |argv| {
            numRuns := atoi(argv[i + 1]);
            if numRuns <= 0 {
              return Failure(RunsNotPositive(numRuns));
            }
            i := i + 1;
          } else {
            return Failure(MissingValue(arg));
          }
        } else if CharAt(arg, 0) == '-' && CharAt(arg, 1) != '-' {
          ghost var start := Config(currRun, matrixDimension, verboseLevel, blockSize, numRuns,
                                    benchmarkSequential, benchmarkImplicit, benchmarkOmp, ompThreads);
          for j := 1 to |arg|
            invariant ApplyCluster(arg, j,
              Config(currRun, matrixDimension, verboseLevel, blockSize, numRuns,
                     benchmarkSequential, benchmarkImplicit, benchmarkOmp, ompThreads)) == ApplyCluster(arg, 1, start)
          {
            match arg[j]
            case 's' => benchmarkSequential := 1;
            case 'i' => benchmarkImplicit := 1;
            case 'o' => benchmarkOmp := 1;
            case c => return Failure(InvalidTestOption(c));
          }
        } else if arg == "--threads" {
          if i + 1 < |argv| {
            ompThreads := atoi(argv[i + 1]);
            if ompThreads <= 0 {
              return Failure(ThreadsNotPositive(ompThreads));
            }
            i := i + 1;
          } else {
            return Failure(MissingValue(arg));
          }
        } else {
          return Failure(UnknownArgument(arg));
        }
        i := i + 1;
      }
      config := Config(currRun, matrixDimension, verboseLevel, blockSize, numRuns,
                       benchmarkSequential, benchmarkImplicit, benchmarkOmp, ompThreads);
      return Parsed(config);
    }
  }

  // ---------------------------------------------------------------------
  // Properties of the parse

  /** With no arguments after the program name, the defaults are installed:
      dimension 1024, verbosity 0, block size 4, one run, four threads and no
      benchmark selected. */
  lemma {:induction false} NoArgumentsGivesDefaults(program: string, atoi: string -> int)
    ensures Parse([program], atoi) == Parsed(Defaults)
    ensures Defaults.matrixDimension == 1024 && Defaults.verboseLevel == 0 && Defaults.blockSize == 4
    ensures Defaults.numRuns == 1 && Defaults.ompThreads == 4 && Defaults.currRun == 0
    ensures Defaults.benchmarkSequential == 0 && Defaults.benchmarkImplicit == 0 && Defaults.benchmarkOmp == 0
  {
  }

  /** A cluster switches on exactly the benchmarks whose letters it contains,
      and fails exactly when it contains another letter. */
  lemma {:induction false} ClusterMeaning(arg: string, j: nat, config: Config)
    requires j <= |arg|
    ensures ApplyCluster(arg, j, config).ClusterOk? <==> forall k :: j <= k < |arg| ==> arg[k] in {'s', 'i', 'o'}
    ensures ApplyCluster(arg, j, config).ClusterOk? ==>
      var c := ApplyCluster(arg, j, config).config;
      c == config.(benchmarkSequential := if 's' in arg[j..] then 1 else config.benchmarkSequential,
                   benchmarkImplicit := if 'i' in arg[j..] then 1 else config.benchmarkImplicit,
                   benchmarkOmp := if 'o' in arg[j..] then 1 else config.benchmarkOmp)
    decreases |arg| - j
  {
    if j < |arg| {
      assert arg[j..] == [arg[j]] + arg[j + 1..];
      if arg[j] == 's' {
        ClusterMeaning(arg, j + 1, config.(benchmarkSequential := 1));
      } else if arg[j] == 'i' {
        ClusterMeaning(arg, j + 1, config.(benchmarkImplicit := 1));
      } else if arg[j] == 'o' {
        ClusterMeaning(arg, j + 1, config.(benchmarkOmp := 1));
      }
    }
  }

  /** A bare "-" is a cluster with no letters: accepted, nothing changes. */
  lemma {:induction false} BareDashChangesNothing(argv: seq<string>, i: nat, atoi: string -> int, config: Config)
    requires i < |argv| && argv[i] == "-"
    ensures ParseFrom(argv, i, atoi, config) == ParseFrom(argv, i + 1, atoi, config)
  {
    assert IsCluster("-");
  }

  /** Where the parse goes after the argument at i: past the value of a
      value flag, otherwise to the next argument. */
  function NextPosition(argv: seq<string>, i: nat): nat
    requires i < |argv|
  {
    if IsValueFlag(argv[i]) then i + 2 else i + 1
  }

  /** The parse from position i looks at position k as an argument (not as
      the value of a flag), if it gets that far. */
  ghost predicate Lands(argv: seq<string>, i: nat, k: nat)
    decreases k - i
  {
    i == k || (i < k && i < |argv| && Lands(argv, NextPosition(argv, i), k))
  }

  /** The setting a value flag writes. */
  function FlagValue(config: Config, flag: string): int
    requires IsValueFlag(flag)
  {
    if flag == "--matrix-dimension" then config.matrixDimension
    else if flag == "--verbose" then config.verboseLevel
    else if flag == "--block-size" then config.blockSize
    else if flag == "--runs" then config.numRuns
    else config.ompThreads
  }

  /** One accepted argument, with its value if it takes one: the parse
      continues at the next position with settings in which the flag's own
      setting holds its value and every other flag's setting is unchanged;
      sane settings stay sane. */
  lemma {:induction false} ParseStep(argv: seq<string>, i: nat, atoi: string -> int, config: Config)
    returns (next: Config)
    requires i < |argv| && ParseFrom(argv, i, atoi, config).Parsed?
    ensures NextPosition(argv, i) <= |argv|
    ensures ParseFrom(argv, NextPosition(argv, i), atoi, next) == ParseFrom(argv, i, atoi, config)
    ensures Sane(config) ==> Sane(next)
    ensures IsValueFlag(argv[i]) ==> i + 1 < |argv| && FlagValue(next, argv[i]) == atoi(argv[i + 1])
    ensures forall flag :: IsValueFlag(flag) && flag != argv[i] ==> FlagValue(next, flag) == FlagValue(config, flag)
  {
    var arg := argv[i];
    if arg == "--matrix-dimension" {
      next := config.(matrixDimension := atoi(argv[i + 1]));
    } else if arg == "--block-size" {
      next := config.(blockSize := atoi(argv[i + 1]));
    } else if arg == "--verbose" {
      next := config.(verboseLevel := atoi(argv[i + 1]));
    } else if arg == "--runs" {
      next := config.(numRuns := atoi(argv[i + 1]));
    } else if IsCluster(arg) {
      assert CharAt("--threads", 1) == '-';
      next := ApplyCluster(arg, 1, config).config;
    } else {
      next := config.(ompThreads := atoi(argv[i + 1]));
    }
  }

  /** Every configuration the parse installs is sane: the range checks on
      --verbose, --runs and --threads hold of the final values. */
  lemma {:induction false} ParsedIsSane(argv: seq<string>, i: nat, atoi: string -> int, config: Config)
    requires Sane(config)
    ensures ParseFrom(argv, i, atoi, config).Parsed? ==> Sane(ParseFrom(argv, i, atoi, config).config)
    decreases |argv| - i
  {
    if i < |argv| && ParseFrom(argv, i, atoi, config).Parsed? {
      var next := ParseStep(argv, i, atoi, config);
      ParsedIsSane(argv, NextPosition(argv, i), atoi, next);
    }
  }

  lemma {:induction false} ParseIsSane(argv: seq<string>, atoi: string -> int)
    ensures Parse(argv, atoi).Parsed? ==> Sane(Parse(argv, atoi).config)
  {
    ParsedIsSane(argv, 1, atoi, Defaults);
  }

  /** A value flag in last position has no value to consume: an error. */
  lemma {:induction false} TrailingValueFlagFails(argv: seq<string>, atoi: string -> int, config: Config)
    requires |argv| >= 1 && IsValueFlag(argv[|argv| - 1])
    ensures ParseFrom(argv, |argv| - 1, atoi, config) == Failure(MissingValue(argv[|argv| - 1]))
  {
    var arg := argv[|argv| - 1];
    assert !IsCluster(arg) by {
      assert arg[1] == '-';
    }
  }

  /** Out-of-range values for --verbose, --runs and --threads are errors that
      carry the offending value. */
  lemma {:induction false} RangeChecks(argv: seq<string>, i: nat, atoi: string -> int, config: Config)
    requires i + 1 < |argv|
    ensures argv[i] == "--verbose" && (atoi(argv[i + 1]) < 0 || atoi(argv[i + 1]) > 2) ==>
      ParseFrom(argv, i, atoi, config) == Failure(VerboseOutOfRange(atoi(argv[i + 1])))
    ensures argv[i] == "--runs" && atoi(argv[i + 1]) <= 0 ==>
      ParseFrom(argv, i, atoi, config) == Failure(RunsNotPositive(atoi(argv[i + 1])))
    ensures argv[i] == "--threads" && atoi(argv[i + 1]) <= 0 ==>
      ParseFrom(argv, i, atoi, config) == Failure(ThreadsNotPositive(atoi(argv[i + 1])))
  {
    if argv[i] == "--threads" {
      assert !IsCluster(argv[i]) by {
        assert argv[i][1] == '-';
      }
    }
  }

  /** A parse that gets past position k has passed through it with some
      settings. */
  lemma {:induction false} ParseReaches(argv: seq<string>, i: nat, k: nat, atoi: string -> int, config: Config)
    returns (at: Config)
    requires Lands(argv, i, k) && ParseFrom(argv, i, atoi, config).Parsed?
    ensures ParseFrom(argv, k, atoi, at) == ParseFrom(argv, i, atoi, config)
    decreases k - i
  {
    if i == k {
      at := config;
    } else {
      var next := ParseStep(argv, i, atoi, config);
      at := ParseReaches(argv, NextPosition(argv, i), k, atoi, next);
    }
  }

  /** A value flag that the rest of the parse does not meet keeps its
      setting. */
  lemma {:induction false} FlagKept(argv: seq<string>, i: nat, atoi: string -> int, config: Config, flag: string)
    requires IsValueFlag(flag)
    requires forall m :: i <= m < |argv| && Lands(argv, i, m) ==> argv[m] != flag
    ensures ParseFrom(argv, i, atoi, config).Parsed? ==>
      FlagValue(ParseFrom(argv, i, atoi, config).config, flag) == FlagValue(config, flag)
    decreases |argv| - i
  {
    if i < |argv| && ParseFrom(argv, i, atoi, config).Parsed? {
      assert Lands(argv, i, i);
      var next := ParseStep(argv, i, atoi, config);
      var j := NextPosition(argv, i);
      forall m | j <= m < |argv| && Lands(argv, j, m)
        ensures argv[m] != flag
      {
        assert Lands(argv, i, m);
      }
      FlagKept(argv, j, atoi, next, flag);
    }
  }

  /** For a repeated flag the last occurrence wins: a value flag at position
      k that the parse reaches, and that does not occur again as an argument
      after it, sets its setting to its own value, whatever occurrences came
      before and whatever other arguments lie between them. */
  lemma {:induction false} LastOccurrenceWins(argv: seq<string>, k: nat, atoi: string -> int)
    requires 1 <= k < |argv| && IsValueFlag(argv[k]) && Lands(argv, 1, k)
    requires forall m :: k < m < |argv| && Lands(argv, k, m) ==> argv[m] != argv[k]
    ensures Parse(argv, atoi).Parsed? ==>
      k + 1 < |argv| && FlagValue(Parse(argv, atoi).config, argv[k]) == atoi(argv[k + 1])
  {
    if Parse(argv, atoi).Parsed? {
      var at := ParseReaches(argv, 1, k, atoi, Defaults);
      var next := ParseStep(argv, k, atoi, at);
      var j := NextPosition(argv, k);
      forall m | j <= m < |argv| && Lands(argv, j, m)
        ensures argv[m] != argv[k]
      {
        assert Lands(argv, k, m);
      }
      FlagKept(argv, j, atoi, next, argv[k]);
    }
  }

  /** The example `--block-size 4 -s --block-size 8`: the second value is
      kept. */
  lemma {:induction false} RepeatedBlockSizeExample(program: string, atoi: string -> int)
    requires atoi("4") == 4 && atoi("8") == 8
    ensures Parse([program, "--block-size", "4", "-s", "--block-size", "8"], atoi).Parsed?
    ensures Parse([program, "--block-size", "4", "-s", "--block-size", "8"], atoi).config.blockSize == 8
  {
    var argv := [program, "--block-size", "4", "-s", "--block-size", "8"];
    var first := Defaults.(blockSize := 4);
    var switched := first.(benchmarkSequential := 1);
    assert Parse(argv, atoi) == ParseFrom(argv, 3, atoi, first);
    assert IsCluster(argv[3]) && ApplyCluster(argv[3], 1, first) == ClusterOk(switched);
    assert ParseFrom(argv, 3, atoi, first) == ParseFrom(argv, 4, atoi, switched);
    assert ParseFrom(argv, 4, atoi, switched) == Parsed(switched.(blockSize := 8));
  }

  /** An argument that does not start with '-', or an unrecognised long
      option, is an error. */
  lemma {:induction false} UnknownArgumentFails(argv: seq<string>, i: nat, atoi: string -> int, config: Config)
    requires i < |argv| && (CharAt(argv[i], 0) != '-' ||
      (CharAt(argv[i], 1) == '-' && !IsValueFlag(argv[i]) && argv[i] != "--help"))
    ensures ParseFrom(argv, i, atoi, config) == Failure(UnknownArgument(argv[i]))
  {
    var arg := argv[i];
    if CharAt(arg, 0) != '-' {
      if |arg| > 0 {
        assert arg != "--help" && !IsValueFlag(arg) by {
          assert arg[0] != '-';
        }
      }
    }
  }

  /** --help ends the parse, whatever follows. */
  lemma {:induction false} HelpEndsParse(argv: seq<string>, i: nat, atoi: string -> int, config: Config, rest: seq<string>)
    requires i < |argv| && argv[i] == "--help"
    ensures ParseFrom(argv, i, atoi, config) == Help
    ensures ParseFrom(argv[..i + 1] + rest, i, atoi, config) == Help
  {
    assert (argv[..i + 1] + rest)[i] == "--help";
  }
}
