/**
  The command-line front end of the classifier (`main` up to the start of the worker):
  a loop over argv that keeps a "current list" mode, fills a configuration record and
  stops with an exit code on the first error, followed by the validation rules.

  argv is the full argument vector, program name included; the argument past the last one
  is the null pointer argv[argc], which becomes the empty string. Whether a file exists is
  the parameter `fileExists`; a failed existence check exits with code 1. The defaults of
  the configuration record are the parameter `defaults`.
*/
module CommandLine {
  import opened Options

  /** The list that a plain (non-option) argument is appended to. */
  datatype ListMode = NoList | InputRasters | Presence | Absence

  datatype Config = Config(
    inputRasters: seq<string>,
    presence: seq<string>,
    absence: seq<string>,
    outputRaster: string,
    outputModel: string,
    outputTrainLayer: string,
    inputModel: string,
    inputPoints: string,
    useDecisionTree: bool,
    discreteClasses: bool,
    doGeneralization: bool,
    kernelSize: int)

  /** What `main` does after parsing: exit with a code, or run the worker on a configuration. */
  datatype Outcome = Exit(code: int) | Run(config: Config)

  /** The state carried from one loop iteration to the next. */
  datatype ParseState = ParseState(mode: ListMode, config: Config)

  /** One loop iteration: go on `advance` arguments further, or return an exit code. */
  datatype Step = Continue(advance: nat, state: ParseState) | Stop(code: int)

  /** The loop over argv: it ran to the end with a configuration, or it stopped with a code. */
  datatype LoopEnd = Finished(config: Config) | Stopped(code: int)

  /** The six options that take the following argument as their value. */
  datatype ValueOption = Classify | SaveModel | SaveTrainLayer | Generalize | UseModel | UseTrainLayer

  const Int32Min: int := -0x8000_0000
  const Int32Max: int := 0x7FFF_FFFF

  /** argv[k], with the null pointer past the end read as the empty string. */
  function ArgAt(argv: seq<string>, k: nat): string
  {
    if k < |argv| then argv[k] else ""
  }

  predicate StartsWithDash(s: string)
  {
    |s| > 0 && s[0] == '-'
  }

  predicate IsValueOption(s: string)
  {
    s == "--classify" || s == "--save_model" || s == "--save_train_layer" ||
    s == "--generalize" || s == "--use_model" || s == "--use_train_layer"
  }

  // ---------------------------------------------------------------------------
  // QString::toInt

  predicate IsSpace(ch: char)
  {
    ch == ' ' || ch == '\t' || ch == '\n' || ch == '\r' || ch == '\U{000B}' || ch == '\U{000C}'
  }

  predicate IsDigit(ch: char)
  {
    '0' <= ch <= '9'
  }

  /** The number of white-space characters at the start of `s`. */
  function LeadingSpaces(s: string): (n: nat)
    ensures n <= |s|
    ensures forall k :: 0 <= k < n ==> IsSpace(s[k])
    ensures n < |s| ==> !IsSpace(s[n])
  {
    if |s| > 0 && IsSpace(s[0]) then 1 + LeadingSpaces(s[1..]) else 0
  }

  /** The number of white-space characters at the end of `s`. */
  function TrailingSpaces(s: string): (n: nat)
    ensures n <= |s|
    ensures forall k :: |s| - n <= k < |s| ==> IsSpace(s[k])
    ensures n < |s| ==> !IsSpace(s[|s| - n - 1])
  {
    if |s| > 0 && IsSpace(s[|s| - 1]) then 1 + TrailingSpaces(s[..|s| - 1]) else 0
  }

  /**
    `s` without leading and trailing white space: a slice of `s` with only white space before
    and after it, and none at either of its own ends.
  */
  function Trim(s: string): (t: string)
    ensures exists i, j :: 0 <= i <= j <= |s| && t == s[i..j] &&
              (forall k :: 0 <= k < i ==> IsSpace(s[k])) && (forall k :: j <= k < |s| ==> IsSpace(s[k]))
    ensures |t| > 0 ==> !IsSpace(t[0]) && !IsSpace(t[|t| - 1])
  {
    var i := LeadingSpaces(s);
    var j := |s| - TrailingSpaces(s[i..]);
    assert forall k :: j <= k < |s| ==> s[k] == s[i..][k - i];
    s[i..j]
  }

  predicate AllDigits(d: string)
  {
    forall i :: 0 <= i < |d| ==> IsDigit(d[i])
  }

  /** The value of a string of decimal digits. */
  function DigitsValue(s: string): (n: nat)
    requires AllDigits(s)
  {
    if |s| == 0 then 0
    else
      var d := s[|s| - 1] as int - '0' as int;
      assert IsDigit(s[|s| - 1]);
      DigitsValue(s[..|s| - 1]) * 10 + d
  }

  /** An optional sign followed by at least one decimal digit, or nothing. */
  function ParseDecimal(s: string): (r: Option<int>)
  {
    var signed := |s| > 0 && (s[0] == '-' || s[0] == '+');
    var negative := signed && s[0] == '-';
    var digits := if signed then s[1..] else s;
    if |digits| > 0 && AllDigits(digits) then
      var v: int := if negative then -(DigitsValue(digits) as int) else DigitsValue(digits);
      Some(v)
    else
      None
  }

  /**
    QString::toInt in base 10: surrounding white space is ignored, and a string that is not a
    decimal number or does not fit in a 32-bit int converts to 0.
  */
  function ToInt(s: string): (n: int)
    ensures Int32Min <= n <= Int32Max
    ensures ParseDecimal(Trim(s)).None? ==> n == 0
  {
    match ParseDecimal(Trim(s))
    case Some(v) => if Int32Min <= v <= Int32Max then v else 0
    case None => 0
  }

  /** A decimal number outside the 32-bit range converts to 0, as an overflowing toInt does. */
  lemma ToIntOfOverflow(s: string)
    requires ParseDecimal(Trim(s)).Some? && !(Int32Min <= ParseDecimal(Trim(s)).value <= Int32Max)
    ensures ToInt(s) == 0
  {
  }

  /** Decimal digits of a natural number, most significant first. */
  function NatDigits(n: nat): (s: string)
    ensures |s| > 0 && AllDigits(s)
  {
    if n < 10 then [('0' as int + n) as char] else NatDigits(n / 10) + [('0' as int + n % 10) as char]
  }

  /** The usual decimal rendering of an integer, with a leading '-' when negative. */
  function DecimalString(n: int): (s: string)
  {
    if n < 0 then "-" + NatDigits(-n) else NatDigits(n)
  }

  lemma {:induction false} NatDigitsValue(n: nat)
    ensures DigitsValue(NatDigits(n)) == n
  {
    if n >= 10 {
      var s := NatDigits(n);
      NatDigitsValue(n / 10);
      assert s[..|s| - 1] == NatDigits(n / 10);
    }
  }

  lemma TrimDigits(d: string)
    requires |d| > 0 && AllDigits(d)
    ensures Trim(d) == d
  {
    assert IsDigit(d[0]) && IsDigit(d[|d| - 1]);
    assert !IsSpace(d[0]) && !IsSpace(d[|d| - 1]);
  }

  lemma TrimNegative(d: string)
    requires |d| > 0 && AllDigits(d)
    ensures Trim("-" + d) == "-" + d
  {
    var m := "-" + d;
    assert m[|m| - 1] == d[|d| - 1];
    assert IsDigit(d[|d| - 1]);
    assert !IsSpace(m[0]) && !IsSpace(m[|m| - 1]);
  }

  lemma ParseDigits(d: string)
    requires |d| > 0 && AllDigits(d)
    ensures ParseDecimal(d) == Some(DigitsValue(d) as int)
  {
    assert IsDigit(d[0]);
    assert d[0] != '-' && d[0] != '+';
  }

  lemma ParseNegative(d: string, n: int)
    requires |d| > 0 && AllDigits(d) && DigitsValue(d) as int == -n
    ensures ParseDecimal("-" + d) == Some(n)
  {
    var m := "-" + d;
    assert m[0] == '-' && m[1..] == d;
  }

  lemma ToIntOfTrimmed(s: string, v: int)
    requires Trim(s) == s && ParseDecimal(s) == Some(v) && Int32Min <= v <= Int32Max
    ensures ToInt(s) == v
  {
  }

  lemma ToIntOfMinusDigits(d: string, n: int)
    requires |d| > 0 && AllDigits(d) && DigitsValue(d) as int == -n && Int32Min <= n
    ensures ToInt("-" + d) == n
  {
    TrimNegative(d);
    ParseNegative(d, n);
    ToIntOfTrimmed("-" + d, n);
  }

  lemma ToIntOfDigits(d: string, n: int)
    requires |d| > 0 && AllDigits(d) && DigitsValue(d) as int == n && n <= Int32Max
    ensures ToInt(d) == n
  {
    TrimDigits(d);
    ParseDigits(d);
    ToIntOfTrimmed(d, n);
  }

  /** Round trip: every 32-bit integer, written in decimal, converts back to itself. */
  lemma ToIntOfDecimalString(n: int)
    requires Int32Min <= n <= Int32Max
    ensures ToInt(DecimalString(n)) == n
  {
    if n < 0 {
      var d := NatDigits(-n);
      NatDigitsValue(-n);
      ToIntOfMinusDigits(d, n);
    } else {
      var d := NatDigits(n);
      NatDigitsValue(n);
      ToIntOfDigits(d, n);
    }
  }

  // ---------------------------------------------------------------------------
  // The argument loop

  /** The options `main` recognises; any other argument starting with '-' is an error. */
  predicate IsKnownOption(s: string)
  {
    s == "--help" || s == "--input_rasters" || s == "--presence" || s == "--absence" ||
    IsValueOption(s) || s == "--decision_tree" || s == "--discrete_classes"
  }

  /** A value option stores its value in its own field; --generalize also turns generalisation on. */
  function SetValue(c: Config, opt: ValueOption, value: string): (r: Config)
    ensures r.inputRasters == c.inputRasters && r.presence == c.presence && r.absence == c.absence
    ensures r.useDecisionTree == c.useDecisionTree && r.discreteClasses == c.discreteClasses
    ensures r.outputRaster == (if opt == Classify then value else c.outputRaster)
    ensures r.outputModel == (if opt == SaveModel then value else c.outputModel)
    ensures r.outputTrainLayer == (if opt == SaveTrainLayer then value else c.outputTrainLayer)
    ensures r.inputModel == (if opt == UseModel then value else c.inputModel)
    ensures r.inputPoints == (if opt == UseTrainLayer then value else c.inputPoints)
    ensures r.doGeneralization == (opt == Generalize || c.doGeneralization)
    ensures r.kernelSize == (if opt == Generalize then ToInt(value) else c.kernelSize)
  {
    match opt
    case Classify => c.(outputRaster := value)
    case SaveModel => c.(outputModel := value)
    case SaveTrainLayer => c.(outputTrainLayer := value)
    case Generalize => c.(doGeneralization := true, kernelSize := ToInt(value))
    case UseModel => c.(inputModel := value)
    case UseTrainLayer => c.(inputPoints := value)
  }

  /** Setting the same option twice leaves only the second value. */
  lemma SetValueTwice(c: Config, opt: ValueOption, v1: string, v2: string)
    ensures SetValue(SetValue(c, opt, v1), opt, v2) == SetValue(c, opt, v2)
  {
  }

  /** A plain argument is appended to the list of the current mode, and nothing else changes. */
  function AppendTo(c: Config, mode: ListMode, arg: string): (r: Config)
    requires mode != NoList
    ensures r.inputRasters == c.inputRasters + (if mode == InputRasters then [arg] else [])
    ensures r.presence == c.presence + (if mode == Presence then [arg] else [])
    ensures r.absence == c.absence + (if mode == Absence then [arg] else [])
    ensures r == c.(inputRasters := r.inputRasters, presence := r.presence, absence := r.absence)
  {
    match mode
    case InputRasters => c.(inputRasters := c.inputRasters + [arg])
    case Presence => c.(presence := c.presence + [arg])
    case Absence => c.(absence := c.absence + [arg])
  }

  /** How the loop body classifies an argument. */
  datatype ArgKind =
    | HelpArg
    | ListSwitch(mode: ListMode)
    | ValueArg(opt: ValueOption)
    | DecisionTreeFlag
    | DiscreteClassesFlag
    | UnknownOption
    | PlainArg

  /** The chain of comparisons at the top of the loop body, in the order `main` makes them. */
  function KindOf(argument: string): (k: ArgKind)
    ensures k == HelpArg <==> argument == "--help"
    ensures k.ValueArg? <==> IsValueOption(argument)
    ensures k == PlainArg <==> !StartsWithDash(argument)
    ensures k == UnknownOption <==> StartsWithDash(argument) && !IsKnownOption(argument)
    ensures k.ListSwitch? ==> k.mode != NoList
  {
    if argument == "--help" then HelpArg
    else if argument == "--input_rasters" then ListSwitch(InputRasters)
    else if argument == "--presence" then ListSwitch(Presence)
    else if argument == "--absence" then ListSwitch(Absence)
    else if argument == "--classify" then ValueArg(Classify)
    else if argument == "--save_model" then ValueArg(SaveModel)
    else if argument == "--save_train_layer" then ValueArg(SaveTrainLayer)
    else if argument == "--decision_tree" then DecisionTreeFlag
    else if argument == "--discrete_classes" then DiscreteClassesFlag
    else if argument == "--generalize" then ValueArg(Generalize)
    else if argument == "--use_model" then ValueArg(UseModel)
    else if argument == "--use_train_layer" then ValueArg(UseTrainLayer)
    else if StartsWithDash(argument) then UnknownOption
    else PlainArg
  }

  /** The loop body once `argument` has been classified as `k`; `next` is the argument after it. */
  function StepOfKind(k: ArgKind, argument: string, next: string, st: ParseState, fileExists: string -> bool): Step
  {
    match k
    case HelpArg => Stop(0)
    case ListSwitch(mode) => Continue(1, st.(mode := mode))
    case ValueArg(opt) => Continue(2, st.(config := SetValue(st.config, opt, next)))
    case DecisionTreeFlag => Continue(1, st.(config := st.config.(useDecisionTree := true)))
    case DiscreteClassesFlag => Continue(1, st.(config := st.config.(discreteClasses := true)))
    case UnknownOption => Stop(1)
    case PlainArg =>
      if st.mode == NoList || !fileExists(argument) then Stop(1)
      else Continue(1, st.(config := AppendTo(st.config, st.mode, argument)))
  }

  /** One pass of the loop body on `argument`, where `next` is the argument after it. */
  function StepOn(argument: string, next: string, st: ParseState, fileExists: string -> bool): (s: Step)
    ensures s.Continue? ==> 1 <= s.advance <= 2
    ensures s.Continue? && s.advance == 2 <==> IsValueOption(argument)
    ensures s.Stop? ==> (s.code == 0 <==> argument == "--help") && (s.code == 0 || s.code == 1)
  {
    StepOfKind(KindOf(argument), argument, next, st, fileExists)
  }

  /** `args` without its first `n` elements (empty when it has fewer). */
  function Drop(args: seq<string>, n: nat): (r: seq<string>)
    ensures |r| == if n <= |args| then |args| - n else 0
  {
    if n <= |args| then args[n..] else []
  }

  /** The loop over the arguments `args` that remain, from state `st`. */
  function Loop(args: seq<string>, st: ParseState, fileExists: string -> bool): (r: LoopEnd)
    ensures r.Stopped? ==> r.code == 0 || r.code == 1
    decreases |args|
  {
    if |args| == 0 then Finished(st.config)
    else
      match StepOn(args[0], ArgAt(args, 1), st, fileExists)
      case Stop(code) => Stopped(code)
      case Continue(advance, next) => Loop(Drop(args, advance), next, fileExists)
  }

  /** The validation block after the loop. */
  function Validate(c: Config, fileExists: string -> bool): (o: Outcome)
    ensures c.outputRaster == "" && c.outputModel == "" && c.outputTrainLayer == "" ==> o == Exit(1)
    ensures |c.inputRasters| == 0 && c.inputPoints == "" && c.outputRaster != "" ==> o == Exit(1)
    ensures c.inputModel != "" && !fileExists(c.inputModel) ==> o == Exit(1)
    ensures c.inputPoints != "" && !fileExists(c.inputPoints) ==> o == Exit(1)
    ensures o.Exit? ==> o.code == 1
    ensures o.Run? ==> o.config == c
    ensures o.Exit? ==>
              (c.outputRaster == "" && c.outputModel == "" && c.outputTrainLayer == "") ||
              (|c.inputRasters| == 0 && c.inputPoints == "" && c.outputRaster != "") ||
              (c.inputModel != "" && !fileExists(c.inputModel)) ||
              (c.inputPoints != "" && !fileExists(c.inputPoints))
  {
    if c.outputRaster == "" && c.outputModel == "" && c.outputTrainLayer == "" then Exit(1)
    else if |c.inputRasters| == 0 && (c.inputPoints == "" && c.outputRaster != "") then Exit(1)
    else if c.inputModel != "" && !fileExists(c.inputModel) then Exit(1)
    else if c.inputPoints != "" && !fileExists(c.inputPoints) then Exit(1)
    else Run(c)
  }

  /** The whole of `main` up to the worker: the loop from argv[1] on, then validation. */
  function Parse(argv: seq<string>, defaults: Config, fileExists: string -> bool): (o: Outcome)
    ensures o.Exit? ==> o.code == 0 || o.code == 1
  {
    match Loop(Drop(argv, 1), ParseState(NoList, defaults), fileExists)
    case Stopped(code) => Exit(code)
    case Finished(c) => Validate(c, fileExists)
  }

  /**
    The body of the argument loop in `main` on `argument`, with `next` the argument after it:
    the new mode and configuration and how far to advance, or the code `main` returns.
  */
  method LoopBody(argument: string, next: string, currentArgument: ListMode, config: Config,
                  fileExists: string -> bool) returns (step: Step)
    ensures step == StepOn(argument, next, ParseState(currentArgument, config), fileExists)
  {
    var mode, cfg := currentArgument, config;
    match KindOf(argument)
    case HelpArg =>
      return Stop(0);
    case ListSwitch(m) =>
      mode := m;
      return Continue(1, ParseState(mode, cfg));
    case ValueArg(Classify) =>
      cfg := cfg.(outputRaster := next);
      return Continue(2, ParseState(mode, cfg));
    case ValueArg(SaveModel) =>
      cfg := cfg.(outputModel := next);
      return Continue(2, ParseState(mode, cfg));
    case ValueArg(SaveTrainLayer) =>
      cfg := cfg.(outputTrainLayer := next);
      return Continue(2, ParseState(mode, cfg));
    case DecisionTreeFlag =>
      cfg := cfg.(useDecisionTree := true);
      return Continue(1, ParseState(mode, cfg));
    case DiscreteClassesFlag =>
      cfg := cfg.(discreteClasses := true);
      return Continue(1, ParseState(mode, cfg));
    case ValueArg(Generalize) =>
      cfg := cfg.(doGeneralization := true, kernelSize := ToInt(next));
      return Continue(2, ParseState(mode, cfg));
    case ValueArg(UseModel) =>
      cfg := cfg.(inputModel := next);
      return Continue(2, ParseState(mode, cfg));
    case ValueArg(UseTrainLayer) =>
      cfg := cfg.(inputPoints := next);
      return Continue(2, ParseState(mode, cfg));
    case UnknownOption =>
      return Stop(1);
    case PlainArg =>
      if mode == InputRasters {
        if !fileExists(argument) {
          return Stop(1);
        }
        cfg := cfg.(inputRasters := cfg.inputRasters + [argument]);
      } else if mode == Presence {
        if !fileExists(argument) {
          return Stop(1);
        }
        cfg := cfg.(presence := cfg.presence + [argument]);
      } else if mode == Absence {
        if !fileExists(argument) {
          return Stop(1);
        }
        cfg := cfg.(absence := cfg.absence + [argument]);
      } else {
        return Stop(1);
      }
      return Continue(1, ParseState(mode, cfg));
  }

  /** The loop over argv in `main`, step by step: it ends as `Loop` on argv[1..] says. */
  method ArgumentLoop(argv: seq<string>, defaults: Config, fileExists: string -> bool) returns (r: LoopEnd)
    ensures r == Loop(Drop(argv, 1), ParseState(NoList, defaults), fileExists)
  {
    ghost var start := Loop(Drop(argv, 1), ParseState(NoList, defaults), fileExists);
    var config := defaults;
    var currentArgument := NoList;
    var count := 1;
    while count < |argv|
      invariant 1 <= count
      invariant EndsAs(Drop(argv, count), ParseState(currentArgument, config), fileExists, start)
      decreases |argv| - count
    {
      var step := LoopBody(argv[count], ArgAt(argv, count + 1), currentArgument, config, fileExists);
      if step.Stop? {
        LoopStopsAt(argv, count, ParseState(currentArgument, config), step, start, fileExists);
        return Stopped(step.code);
      }
      ghost var before, last := count, ParseState(currentArgument, config);
      currentArgument, config := step.state.mode, step.state.config;
      count := count + step.advance;
      LoopContinuesAt(argv, before, last, step, count, ParseState(currentArgument, config), start, fileExists);
    }
    return Finished(config);
  }

  /** The argument loop and validation block of `main`. */
  method ParseArguments(argv: seq<string>, defaults: Config, fileExists: string -> bool) returns (o: Outcome)
    ensures o == Parse(argv, defaults, fileExists)
  {
    var loopEnd := ArgumentLoop(argv, defaults, fileExists);
    if loopEnd.Stopped? {
      return Exit(loopEnd.code);
    }
    var config := loopEnd.config;
    if config.outputRaster == "" && config.outputModel == "" && config.outputTrainLayer == "" {
      return Exit(1);
    }
    if |config.inputRasters| == 0 && (config.inputPoints == "" && config.outputRaster != "") {
      return Exit(1);
    }
    if config.inputModel != "" && !fileExists(config.inputModel) {
      return Exit(1);
    }
    if config.inputPoints != "" && !fileExists(config.inputPoints) {
      return Exit(1);
    }
    return Run(config);
  }

  /** The loop over the arguments `args` that remain, from state `st`, ends as `end`. */
  ghost predicate EndsAs(args: seq<string>, st: ParseState, fileExists: string -> bool, end: LoopEnd)
  {
    Loop(args, st, fileExists) == end
  }

  /** A pass of the loop at position `count` of argv that stops ends the loop with its code. */
  lemma LoopStopsAt(argv: seq<string>, count: nat, st: ParseState, step: Step, start: LoopEnd,
                    fileExists: string -> bool)
    requires count < |argv| && step == StepOn(argv[count], ArgAt(argv, count + 1), st, fileExists)
    requires step.Stop? && EndsAs(Drop(argv, count), st, fileExists, start)
    ensures start == Stopped(step.code)
  {
    var args := Drop(argv, count);
    assert args[0] == argv[count] && ArgAt(args, 1) == ArgAt(argv, count + 1);
  }

  /** A pass of the loop at position `count` of argv that goes on leaves the loop's outcome as it was. */
  lemma LoopContinuesAt(argv: seq<string>, count: nat, st: ParseState, step: Step, count': nat, st': ParseState,
                        start: LoopEnd, fileExists: string -> bool)
    requires count < |argv| && step == StepOn(argv[count], ArgAt(argv, count + 1), st, fileExists)
    requires step.Continue? && EndsAs(Drop(argv, count), st, fileExists, start)
    requires count' == count + step.advance && st' == ParseState(step.state.mode, step.state.config)
    ensures EndsAs(Drop(argv, count'), st', fileExists, start)
  {
    var args := Drop(argv, count);
    assert args[0] == argv[count] && ArgAt(args, 1) == ArgAt(argv, count + 1);
    assert Drop(args, step.advance) == Drop(argv, count + step.advance);
  }

  // ---------------------------------------------------------------------------
  // Properties of the loop, stated for the arguments that remain at any point of it

  /** "--help" stops the loop with exit code 0. */
  lemma HelpExitsZero(args: seq<string>, st: ParseState, fileExists: string -> bool)
    requires |args| > 0 && args[0] == "--help"
    ensures Loop(args, st, fileExists) == Stopped(0)
  {
  }

  /** A step on anything but a value option does not look at the argument after it. */
  lemma StepIgnoresNext(argument: string, n1: string, n2: string, st: ParseState, fileExists: string -> bool)
    requires !IsValueOption(argument)
    ensures StepOn(argument, n1, st, fileExists) == StepOn(argument, n2, st, fileExists)
  {
  }

  /**
    The state after the loop has stepped over exactly the arguments `p`: none when it stops on
    one of them, or when the last value option of `p` would take its value from beyond `p`.
  */
  function LoopState(p: seq<string>, st: ParseState, fileExists: string -> bool): (r: Option<ParseState>)
    ensures r.Some? ==> Loop(p, st, fileExists) == Finished(r.value.config)
    decreases |p|
  {
    if |p| == 0 then Some(st)
    else
      match StepOn(p[0], ArgAt(p, 1), st, fileExists)
      case Stop(_) => None
      case Continue(advance, next) =>
        if advance <= |p| then LoopState(p[advance..], next, fileExists) else None
  }

  /** Dropping a step's worth of a prefix keeps what follows it. */
  lemma DropPrefix(p: seq<string>, tail: seq<string>, n: nat)
    requires n <= |p|
    ensures Drop(p + tail, n) == p[n..] + tail
  {
  }

  /** After a prefix the loop steps over, the arguments that follow are read from the state it leaves. */
  lemma {:induction false} LoopThroughPrefix(p: seq<string>, rest: seq<string>, st: ParseState,
                                             fileExists: string -> bool)
    requires LoopState(p, st, fileExists).Some?
    ensures Loop(p + rest, st, fileExists) == Loop(rest, LoopState(p, st, fileExists).value, fileExists)
    decreases |p|
  {
    if |p| == 0 {
      assert p + rest == rest;
    } else {
      var full := p + rest;
      assert full[0] == p[0];
      if IsValueOption(p[0]) {
        assert |p| >= 2 && full[1] == p[1];
      } else {
        StepIgnoresNext(p[0], ArgAt(full, 1), ArgAt(p, 1), st, fileExists);
      }
      var step := StepOn(p[0], ArgAt(p, 1), st, fileExists);
      assert step.Continue? && step.advance <= |p|;
      DropPrefix(p, rest, step.advance);
      LoopThroughPrefix(p[step.advance..], rest, step.state, fileExists);
    }
  }

  /**
    Once the loop reaches "--help" as an argument of its own (it stepped over everything before
    it without stopping), it stops with exit code 0, whatever follows.
  */
  lemma HelpIgnoresFollowing(p: seq<string>, rest: seq<string>, st: ParseState, fileExists: string -> bool)
    requires LoopState(p, st, fileExists).Some?
    ensures Loop(p + ["--help"] + rest, st, fileExists) == Stopped(0)
  {
    var tail := ["--help"] + rest;
    assert p + ["--help"] + rest == p + tail;
    LoopThroughPrefix(p, tail, st, fileExists);
    HelpExitsZero(tail, LoopState(p, st, fileExists).value, fileExists);
  }

  /** `main` returns 0 when its loop reaches a "--help", in particular one right after the program name. */
  lemma HelpReachedExitsZero(program: string, p: seq<string>, rest: seq<string>, defaults: Config,
                             fileExists: string -> bool)
    requires LoopState(p, ParseState(NoList, defaults), fileExists).Some?
    ensures Parse([program] + p + ["--help"] + rest, defaults, fileExists) == Exit(0)
  {
    var tail := p + ["--help"] + rest;
    assert [program] + p + ["--help"] + rest == [program] + tail;
    assert ([program] + tail)[1..] == tail;
    HelpIgnoresFollowing(p, rest, ParseState(NoList, defaults), fileExists);
  }

  /** An argument starting with '-' that is not an option stops the loop with exit code 1. */
  lemma UnknownOptionExitsOne(args: seq<string>, st: ParseState, fileExists: string -> bool)
    requires |args| > 0 && StartsWithDash(args[0]) && !IsKnownOption(args[0])
    ensures Loop(args, st, fileExists) == Stopped(1)
  {
  }

  lemma ValueStep(argument: string, next: string, st: ParseState, fileExists: string -> bool)
    requires IsValueOption(argument)
    ensures StepOn(argument, next, st, fileExists) ==
            Continue(2, ParseState(st.mode, SetValue(st.config, KindOf(argument).opt, next)))
  {
  }

  /** A value option takes the next argument as its value and keeps the current list mode. */
  lemma ValueOptionConsumesNext(args: seq<string>, st: ParseState, fileExists: string -> bool)
    requires |args| > 0 && IsValueOption(args[0])
    ensures Loop(args, st, fileExists) ==
            Loop(Drop(args, 2), ParseState(st.mode, SetValue(st.config, KindOf(args[0]).opt, ArgAt(args, 1))), fileExists)
  {
    ValueStep(args[0], ArgAt(args, 1), st, fileExists);
  }

  /** How far the loop advances past an argument it steps on without stopping. */
  function Advance(argument: string): nat
  {
    if IsValueOption(argument) then 2 else 1
  }

  /** The loop's steps over `p` end exactly at its end: no value option takes its value from beyond `p`. */
  predicate Fits(p: seq<string>)
    decreases |p|
  {
    |p| == 0 || (Advance(p[0]) <= |p| && Fits(p[Advance(p[0])..]))
  }

  /** The arguments of `p` the loop body is entered on, in order; the values of value options are skipped. */
  function Heads(p: seq<string>): seq<string>
    decreases |p|
  {
    if |p| == 0 then [] else [p[0]] + Heads(Drop(p, Advance(p[0])))
  }

  /** Two value options are classified alike only when they are the same option. */
  lemma ValueKindInjective(a: string, b: string)
    requires IsValueOption(a) && IsValueOption(b) && KindOf(a) == KindOf(b)
    ensures a == b
  {
  }

  /** Setting the values of two different options can be done in either order. */
  lemma SetValueCommutes(c: Config, opt: ValueOption, v: string, other: ValueOption, x: string)
    requires opt != other
    ensures SetValue(SetValue(c, opt, v), other, x) == SetValue(SetValue(c, other, x), opt, v)
  {
  }

  /** A step on anything but option `opt` itself commutes with setting the value of `opt`. */
  lemma StepCommutesWithValue(k: ArgKind, argument: string, next: string, st: ParseState, opt: ValueOption,
                              v: string, fileExists: string -> bool)
    requires k != ValueArg(opt)
    ensures var s0 := StepOfKind(k, argument, next, st, fileExists);
            var s1 := StepOfKind(k, argument, next, st.(config := SetValue(st.config, opt, v)), fileExists);
            (s1.Stop? <==> s0.Stop?) && (s1.Stop? ==> s1 == s0) &&
            (s1.Continue? ==> s1.advance == s0.advance &&
                              s1.state == s0.state.(config := SetValue(s0.state.config, opt, v)))
  {
    match k
    case ValueArg(other) =>
      SetValueCommutes(st.config, opt, v, other, next);
    case _ =>
  }

  /** Reaching option `o` overwrites whatever value of `o` the state held. */
  lemma ValueOverwrittenAtRepeat(o: string, tail: seq<string>, st: ParseState, v: string, w: string,
                                 fileExists: string -> bool)
    requires IsValueOption(o) && |tail| > 0 && tail[0] == o
    ensures var opt := KindOf(o).opt;
            Loop(tail, st.(config := SetValue(st.config, opt, v)), fileExists) ==
            Loop(tail, st.(config := SetValue(st.config, opt, w)), fileExists)
  {
    var opt := KindOf(o).opt;
    ValueOptionConsumesNext(tail, st.(config := SetValue(st.config, opt, v)), fileExists);
    ValueOptionConsumesNext(tail, st.(config := SetValue(st.config, opt, w)), fileExists);
    SetValueTwice(st.config, opt, v, ArgAt(tail, 1));
    SetValueTwice(st.config, opt, w, ArgAt(tail, 1));
  }

  /** One loop step on an argument other than option `opt` carries the value of `opt` along. */
  lemma LoopStepKeepsValue(args: seq<string>, st: ParseState, opt: ValueOption, v: string,
                           fileExists: string -> bool)
    requires |args| > 0 && KindOf(args[0]) != ValueArg(opt)
    ensures var s0 := StepOn(args[0], ArgAt(args, 1), st, fileExists);
            Loop(args, st.(config := SetValue(st.config, opt, v)), fileExists) ==
            if s0.Stop? then Stopped(s0.code)
            else Loop(Drop(args, s0.advance), s0.state.(config := SetValue(s0.state.config, opt, v)), fileExists)
  {
    StepCommutesWithValue(KindOf(args[0]), args[0], ArgAt(args, 1), st, opt, v, fileExists);
  }

  /**
    Until the loop reaches option `o` again (at the start of `tail`), the state keeps one
    value of `o` or another without any difference to the later steps.
  */
  lemma {:induction false} ValueIrrelevantUntilRepeat(o: string, p: seq<string>, tail: seq<string>, st: ParseState,
                                                      v: string, w: string, fileExists: string -> bool)
    requires IsValueOption(o) && Fits(p) && o !in Heads(p) && |tail| > 0 && tail[0] == o
    ensures var opt := KindOf(o).opt;
            Loop(p + tail, st.(config := SetValue(st.config, opt, v)), fileExists) ==
            Loop(p + tail, st.(config := SetValue(st.config, opt, w)), fileExists)
    decreases |p|
  {
    var opt := KindOf(o).opt;
    var args := p + tail;
    if |p| == 0 {
      assert args == tail;
      ValueOverwrittenAtRepeat(o, tail, st, v, w, fileExists);
    } else {
      var a := p[0];
      assert args[0] == a;
      assert Heads(p) == [a] + Heads(Drop(p, Advance(a)));
      if KindOf(a) == ValueArg(opt) {
        ValueKindInjective(a, o);
        assert false;
      }
      LoopStepKeepsValue(args, st, opt, v, fileExists);
      LoopStepKeepsValue(args, st, opt, w, fileExists);
      var s0 := StepOn(a, ArgAt(args, 1), st, fileExists);
      if s0.Continue? {
        var adv := s0.advance;
        assert adv == Advance(a) <= |p|;
        DropPrefix(p, tail, adv);
        ValueIrrelevantUntilRepeat(o, p[adv..], tail, s0.state, v, w, fileExists);
      }
    }
  }

  /**
    When a value option is given again later, only the later value counts: the first value makes
    no difference, provided the loop steps over the arguments in between (none of them takes the
    repeat as its value) and none of them is the option itself.
  */
  lemma RepeatedOptionKeepsLast(o: string, v: string, w: string, p: seq<string>, rest: seq<string>,
                                st: ParseState, fileExists: string -> bool)
    requires IsValueOption(o) && Fits(p) && o !in Heads(p)
    ensures Loop([o, v] + p + [o] + rest, st, fileExists) == Loop([o, w] + p + [o] + rest, st, fileExists)
  {
    var tail := [o] + rest;
    var a1 := [o, v] + p + [o] + rest;
    var a2 := [o, w] + p + [o] + rest;
    assert a1 == [o, v] + (p + tail) && a2 == [o, w] + (p + tail);
    ValueOptionConsumesNext(a1, st, fileExists);
    ValueOptionConsumesNext(a2, st, fileExists);
    assert Drop(a1, 2) == p + tail;
    assert Drop(a2, 2) == p + tail;
    ValueIrrelevantUntilRepeat(o, p, tail, st, v, w, fileExists);
  }

  predicate IsFlag(s: string)
  {
    s == "--decision_tree" || s == "--discrete_classes"
  }

  function SetFlag(st: ParseState, flag: string): ParseState
  {
    if flag == "--decision_tree" then st.(config := st.config.(useDecisionTree := true))
    else st.(config := st.config.(discreteClasses := true))
  }

  lemma FlagStep(flag: string, next: string, st: ParseState, fileExists: string -> bool)
    requires IsFlag(flag)
    ensures StepOn(flag, next, st, fileExists) == Continue(1, SetFlag(st, flag))
    ensures SetFlag(SetFlag(st, flag), flag) == SetFlag(st, flag)
  {
  }

  /** Every step commutes with setting a boolean flag. */
  lemma StepCommutesWithFlag(k: ArgKind, argument: string, next: string, st: ParseState, flag: string,
                             fileExists: string -> bool)
    requires IsFlag(flag)
    ensures var s0 := StepOfKind(k, argument, next, st, fileExists);
            var s1 := StepOfKind(k, argument, next, SetFlag(st, flag), fileExists);
            (s1.Stop? <==> s0.Stop?) && (s1.Stop? ==> s1 == s0) &&
            (s1.Continue? ==> s1.advance == s0.advance && s1.state == SetFlag(s0.state, flag))
  {
  }

  /** A flag already set makes no difference once the loop reaches the flag again (at the start of `tail`). */
  lemma {:induction false} FlagSetBeforeRepeat(f: string, p: seq<string>, tail: seq<string>, st: ParseState,
                                               fileExists: string -> bool)
    requires IsFlag(f) && Fits(p) && |tail| > 0 && tail[0] == f
    ensures Loop(p + tail, SetFlag(st, f), fileExists) == Loop(p + tail, st, fileExists)
    decreases |p|
  {
    var args := p + tail;
    if |p| == 0 {
      assert args == tail;
      FlagStep(f, ArgAt(args, 1), st, fileExists);
      FlagStep(f, ArgAt(args, 1), SetFlag(st, f), fileExists);
    } else {
      var a := p[0];
      assert args[0] == a;
      var n := ArgAt(args, 1);
      StepCommutesWithFlag(KindOf(a), a, n, st, f, fileExists);
      var s0 := StepOn(a, n, st, fileExists);
      if s0.Continue? {
        var adv := s0.advance;
        assert adv == Advance(a) <= |p|;
        DropPrefix(p, tail, adv);
        FlagSetBeforeRepeat(f, p[adv..], tail, s0.state, fileExists);
      }
    }
  }

  /**
    A boolean flag only sets its field to true: giving it once more before a later repeat makes
    no difference, provided the loop steps over the arguments in between.
  */
  lemma RepeatedFlagIdempotent(f: string, p: seq<string>, rest: seq<string>, st: ParseState,
                               fileExists: string -> bool)
    requires IsFlag(f) && Fits(p)
    ensures Loop([f] + p + [f] + rest, st, fileExists) == Loop(p + [f] + rest, st, fileExists)
  {
    var tail := [f] + rest;
    var args := [f] + p + [f] + rest;
    assert args == [f] + (p + tail) && p + [f] + rest == p + tail;
    FlagStep(f, ArgAt(args, 1), st, fileExists);
    assert args[0] == f && Drop(args, 1) == p + tail;
    FlagSetBeforeRepeat(f, p, tail, st, fileExists);
  }

  /**
    A plain argument in a list mode must name an existing file; it is then appended to that
    list. Before any list mode is chosen it is an error.
  */
  /** Each list switch and each boolean flag is recognised exactly as its own name. */
  lemma SwitchAndFlagKinds(argument: string)
    ensures KindOf(argument) == ListSwitch(InputRasters) <==> argument == "--input_rasters"
    ensures KindOf(argument) == ListSwitch(Presence) <==> argument == "--presence"
    ensures KindOf(argument) == ListSwitch(Absence) <==> argument == "--absence"
    ensures KindOf(argument) == DecisionTreeFlag <==> argument == "--decision_tree"
    ensures KindOf(argument) == DiscreteClassesFlag <==> argument == "--discrete_classes"
  {
  }

  /** A list switch only changes the mode, to the list it names. */
  lemma ListSwitchSelectsMode(args: seq<string>, st: ParseState, fileExists: string -> bool)
    requires |args| > 0 && KindOf(args[0]).ListSwitch?
    ensures Loop(args, st, fileExists) == Loop(args[1..], st.(mode := KindOf(args[0]).mode), fileExists)
  {
  }

  /** The list mode after the loop body is entered on `argument` in mode `mode`. */
  function ModeAfter(argument: string, mode: ListMode): ListMode
  {
    if KindOf(argument).ListSwitch? then KindOf(argument).mode else mode
  }

  /**
    The list mode after the loop body has been entered on each of `heads` in turn, from `mode`:
    the list of the most recent switch among them, or `mode` when there is none.
  */
  function LastSwitch(heads: seq<string>, mode: ListMode): (m: ListMode)
    ensures (forall i :: 0 <= i < |heads| ==> !KindOf(heads[i]).ListSwitch?) ==> m == mode
    ensures (exists i :: 0 <= i < |heads| && KindOf(heads[i]).ListSwitch?) ==>
              exists i :: 0 <= i < |heads| && KindOf(heads[i]) == ListSwitch(m) &&
                          forall j :: i < j < |heads| ==> !KindOf(heads[j]).ListSwitch?
    decreases |heads|
  {
    if |heads| == 0 then mode
    else
      var m := LastSwitch(heads[1..], ModeAfter(heads[0], mode));
      assert forall j :: 0 <= j < |heads| - 1 ==> heads[1..][j] == heads[j + 1];
      m
  }

  /** A step that goes on advances past the argument and enters `ModeAfter`. */
  lemma StepMode(argument: string, next: string, st: ParseState, fileExists: string -> bool)
    ensures var s := StepOn(argument, next, st, fileExists);
            s.Continue? ==> s.advance == Advance(argument) && s.state.mode == ModeAfter(argument, st.mode)
  {
  }

  /** Wherever the loop has got to, it appends to the list of the most recent list switch. */
  lemma {:induction false} ModeIsMostRecentSwitch(p: seq<string>, st: ParseState, fileExists: string -> bool)
    requires LoopState(p, st, fileExists).Some?
    ensures LoopState(p, st, fileExists).value.mode == LastSwitch(Heads(p), st.mode)
    decreases |p|
  {
    if |p| > 0 {
      var s := StepOn(p[0], ArgAt(p, 1), st, fileExists);
      StepMode(p[0], ArgAt(p, 1), st, fileExists);
      assert Drop(p, Advance(p[0])) == p[s.advance..];
      ModeIsMostRecentSwitch(p[s.advance..], s.state, fileExists);
      assert Heads(p)[0] == p[0] && Heads(p)[1..] == Heads(p[s.advance..]);
    }
  }

  lemma PlainArgument(args: seq<string>, st: ParseState, fileExists: string -> bool)
    requires |args| > 0 && !StartsWithDash(args[0])
    ensures st.mode == NoList ==> Loop(args, st, fileExists) == Stopped(1)
    ensures st.mode != NoList && !fileExists(args[0]) ==> Loop(args, st, fileExists) == Stopped(1)
    ensures st.mode != NoList && fileExists(args[0]) ==>
              Loop(args, st, fileExists) ==
              Loop(args[1..], ParseState(st.mode, AppendTo(st.config, st.mode, args[0])), fileExists)
  {
  }

  /** `after` is `before` followed by names that all passed the existence check. */
  predicate ExtendsWithExisting(before: seq<string>, after: seq<string>, fileExists: string -> bool)
  {
    |before| <= |after| && after[..|before|] == before &&
    forall i :: |before| <= i < |after| ==> fileExists(after[i])
  }

  lemma ExtendsTransitive(a: seq<string>, b: seq<string>, c: seq<string>, fileExists: string -> bool)
    requires ExtendsWithExisting(a, b, fileExists) && ExtendsWithExisting(b, c, fileExists)
    ensures ExtendsWithExisting(a, c, fileExists)
  {
    assert c[..|a|] == c[..|b|][..|a|];
  }

  lemma ExtendsReflexive(a: seq<string>, fileExists: string -> bool)
    ensures ExtendsWithExisting(a, a, fileExists)
  {
    assert a[..|a|] == a;
  }

  lemma ExtendsByOne(a: seq<string>, x: string, fileExists: string -> bool)
    requires fileExists(x)
    ensures ExtendsWithExisting(a, a + [x], fileExists)
  {
    assert (a + [x])[..|a|] == a;
  }

  /** The three lists after some steps of the loop extend the ones before them. */
  predicate ListsExtend(before: Config, after: Config, fileExists: string -> bool)
  {
    ExtendsWithExisting(before.inputRasters, after.inputRasters, fileExists) &&
    ExtendsWithExisting(before.presence, after.presence, fileExists) &&
    ExtendsWithExisting(before.absence, after.absence, fileExists)
  }

  lemma StepListsExtend(argument: string, next: string, st: ParseState, fileExists: string -> bool)
    requires StepOn(argument, next, st, fileExists).Continue?
    ensures ListsExtend(st.config, StepOn(argument, next, st, fileExists).state.config, fileExists)
  {
    var a := st.config;
    ExtendsReflexive(a.inputRasters, fileExists);
    ExtendsReflexive(a.presence, fileExists);
    ExtendsReflexive(a.absence, fileExists);
    if !IsKnownOption(argument) {
      ExtendsByOne(a.inputRasters, argument, fileExists);
      ExtendsByOne(a.presence, argument, fileExists);
      ExtendsByOne(a.absence, argument, fileExists);
    }
  }

  /** The loop only appends to the three lists, and only names of existing files. */
  lemma {:induction false} ListsOnlyGrowWithExisting(args: seq<string>, st: ParseState, fileExists: string -> bool)
    requires Loop(args, st, fileExists).Finished?
    ensures ListsExtend(st.config, Loop(args, st, fileExists).config, fileExists)
    decreases |args|
  {
    var c := Loop(args, st, fileExists).config;
    if |args| == 0 {
      ExtendsReflexive(c.inputRasters, fileExists);
      ExtendsReflexive(c.presence, fileExists);
      ExtendsReflexive(c.absence, fileExists);
    } else {
      var step := StepOn(args[0], ArgAt(args, 1), st, fileExists);
      StepListsExtend(args[0], ArgAt(args, 1), st, fileExists);
      ListsOnlyGrowWithExisting(Drop(args, step.advance), step.state, fileExists);
      var b := step.state.config;
      ExtendsTransitive(st.config.inputRasters, b.inputRasters, c.inputRasters, fileExists);
      ExtendsTransitive(st.config.presence, b.presence, c.presence, fileExists);
      ExtendsTransitive(st.config.absence, b.absence, c.absence, fileExists);
    }
  }

  /**
    A configuration that reaches the worker names an output, has an input raster or a train
    layer whenever it classifies, and every file it reads was found to exist.
  */
  lemma RunIsValid(argv: seq<string>, defaults: Config, fileExists: string -> bool)
    requires Parse(argv, defaults, fileExists).Run?
    ensures var c := Parse(argv, defaults, fileExists).config;
            !(c.outputRaster == "" && c.outputModel == "" && c.outputTrainLayer == "") &&
            (c.outputRaster != "" ==> |c.inputRasters| > 0 || c.inputPoints != "") &&
            (c.inputModel != "" ==> fileExists(c.inputModel)) &&
            (c.inputPoints != "" ==> fileExists(c.inputPoints)) &&
            ListsExtend(defaults, c, fileExists)
  {
    ListsOnlyGrowWithExisting(Drop(argv, 1), ParseState(NoList, defaults), fileExists);
  }
}
