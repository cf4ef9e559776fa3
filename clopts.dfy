/**
 * The command-line option parser of the launcher (start/clopts.c, and the
 * same code in start/cliutil.c).  Options are single letters after a '-',
 * an option may take an argument (attached, "-a1", or the next word,
 * "-a 1"), "--" ends the options, and the first word that is not an option
 * starts the rest arguments.  The option handlers and the rest-arguments
 * handler are callbacks; here each is a function of the calls made so far
 * and of its own arguments, returning whether parsing continues, stops
 * (`clopts_handler_break`) or fails (`clopts_handler_error`).
 */
module Clopts {
  import opened Wrappers

  /** One entry of the option table: its letter and whether it has an `arg_name`. */
  datatype OptionDef = OptionDef(name: char, takesArg: bool)

  /** The entries before the zero-named terminator. */
  function Entries(opts: seq<OptionDef>): (e: seq<OptionDef>)
    ensures |e| <= |opts| && e == opts[..|e|]
    ensures forall k :: 0 <= k < |e| ==> e[k].name != '\0'
    ensures |e| < |opts| ==> opts[|e|].name == '\0'
  {
    if opts == [] || opts[0].name == '\0' then []
    else [opts[0]] + Entries(opts[1..])
  }

  /**
   * `find_option`: the index of the first entry named `c`, scanning up to
   * the terminator.  A zero letter is never found.
   */
  function FindOption(opts: seq<OptionDef>, c: char): (r: Option<nat>)
    ensures r.Some? ==> r.value < |Entries(opts)| && Entries(opts)[r.value].name == c
    ensures r.Some? ==> forall k :: 0 <= k < r.value ==> Entries(opts)[k].name != c
    ensures r.None? ==> forall k :: 0 <= k < |Entries(opts)| ==> Entries(opts)[k].name != c
  {
    if opts == [] || opts[0].name == '\0' then None
    else if opts[0].name == c then Some(0)
    else match FindOption(opts[1..], c)
      case None => None
      case Some(k) => Some(k + 1)
  }

  /** What a handler asks for: go on, `clopts_handler_break` or `clopts_handler_error`. */
  datatype Outcome = Continue | Break | Fail

  /** One handler call, with what it returned. */
  datatype Call =
    | OptCall(name: char, arg: Option<string>, out: Outcome)
    | RestCall(first: nat, args: seq<string>, out: Outcome)

  /** The result of `clopts_parse` and every handler call in order. */
  datatype Run = Run(status: int, calls: seq<Call>)

  /** An option handler and the rest-arguments handler, given the calls made before them. */
  type OptionHandler = (seq<Call>, char, Option<string>) -> Outcome
  type RestHandler = (seq<Call>, seq<string>) -> Outcome

  /** The status codes: `STATUS_OK`, `STATUS_BREAK`, `STATUS_ERROR`. */
  const StatusOk: int := 0
  const StatusBreak: int := 1
  const StatusError: int := -1

  function StatusOf(out: Outcome): int {
    match out
    case Continue => StatusOk
    case Break => StatusBreak
    case Fail => StatusError
  }

  /** A C string holds no NUL before its end. */
  predicate CString(s: string) { '\0' !in s }

  /** `s[k]` of a NUL-terminated string: the terminator at `k == |s|`. */
  function Ch(s: string, k: nat): char
    requires k <= |s|
  {
    if k < |s| then s[k] else '\0'
  }

  /** The rest arguments from index `j` are handed over and parsing ends. */
  function RestRun(argv: seq<string>, j: nat, done: seq<Call>, rest: RestHandler): (r: Run)
    requires j <= |argv|
  {
    var out := rest(done, argv[j..]);
    Run(if out == Continue then StatusOk else StatusOf(out), done + [RestCall(j, argv[j..], out)])
  }

  /**
   * The loop of `clopts_parse` from argument `i`, after the handler calls
   * `done`: the status it returns and all calls made.
   */
  function ParseFrom(opts: seq<OptionDef>, argv: seq<string>, i: nat, done: seq<Call>,
                     handle: OptionHandler, rest: RestHandler): (r: Run)
    requires i <= |argv|
    requires forall k :: 0 <= k < |argv| ==> CString(argv[k])
    ensures |done| <= |r.calls| && r.calls[..|done|] == done
    decreases |argv| - i, 0
  {
    if i == |argv| then Run(StatusOk, done)
    else
      var s := argv[i];
      if Ch(s, 0) != '-' then RestRun(argv, i, done, rest)
      else if Ch(s, 1) == '\0' then RestRun(argv, i, done, rest)
      else if Ch(s, 1) == '-' && Ch(s, 2) == '\0' then RestRun(argv, i + 1, done, rest)
      else match FindOption(opts, s[1])
        case None => Run(StatusError, done)
        case Some(k) =>
          if !Entries(opts)[k].takesArg then
            Step(opts, argv, i + 1, done, OptCall(s[1], None, handle(done, s[1], None)), handle, rest)
          else if Ch(s, 2) != '\0' then
            Step(opts, argv, i + 1, done, OptCall(s[1], Some(s[2..]), handle(done, s[1], Some(s[2..]))), handle, rest)
          else if MissingArgument(opts, argv, i) then Run(StatusError, done)
          else
            Step(opts, argv, i + 2, done, OptCall(s[1], Some(argv[i + 1]), handle(done, s[1], Some(argv[i + 1]))), handle, rest)
  }

  /**
   * After an option taking an argument with nothing attached: there is no
   * next word, or the next word is itself a known option.
   */
  predicate MissingArgument(opts: seq<OptionDef>, argv: seq<string>, i: nat)
    requires i < |argv|
  {
    i + 1 == |argv| ||
    (|argv[i + 1]| > 0 && argv[i + 1][0] == '-' && FindOption(opts, Ch(argv[i + 1], 1)).Some?)
  }

  /** A handler call is recorded; parsing goes on from `next` only when it asked to continue. */
  function Step(opts: seq<OptionDef>, argv: seq<string>, next: nat, done: seq<Call>, call: Call,
                handle: OptionHandler, rest: RestHandler): (r: Run)
    requires next <= |argv|
    requires forall k :: 0 <= k < |argv| ==> CString(argv[k])
    ensures |done| < |r.calls| && r.calls[..|done| + 1] == done + [call]
    decreases |argv| - next, 1
  {
    if call.out == Continue then
      var r := ParseFrom(opts, argv, next, done + [call], handle, rest);
      assert r.calls[..|done| + 1] == r.calls[..|done + [call]|];
      r
    else Run(StatusOf(call.out), done + [call])
  }

  /**
   * `clopts_parse(def, data, err_stream, argc, argv)`: the status is the
   * one `ParseFrom` gives from the first argument, and the calls are made
   * in the same order.
   */
  method Parse(opts: seq<OptionDef>, argv: seq<string>, handle: OptionHandler, rest: RestHandler)
    returns (status: int, calls: seq<Call>)
    requires |argv| >= 1
    requires forall k :: 0 <= k < |argv| ==> CString(argv[k])
    ensures Run(status, calls) == ParseFrom(opts, argv, 1, [], handle, rest)
  {
    var i := 1;
    calls := [];
    while i < |argv|
      invariant 1 <= i <= |argv|
      invariant ParseFrom(opts, argv, i, calls, handle, rest) == ParseFrom(opts, argv, 1, [], handle, rest)
      decreases |argv| - i
    {
      var s := argv[i];
      if Ch(s, 0) == '-' {
        var s1 := Ch(s, 1);
        if s1 == '\0' || (s1 == '-' && Ch(s, 2) == '\0') {
          var j := if s1 == '\0' then i else i + 1;
          var out := rest(calls, argv[j..]);
          calls := calls + [RestCall(j, argv[j..], out)];
          return StatusOf(out), calls;
        }
        var opt := FindOption(opts, s1);
        if opt.None? {
          return StatusError, calls;
        }
        var arg: Option<string> := None;
        if Entries(opts)[opt.value].takesArg {
          if Ch(s, 2) != '\0' {
            arg := Some(s[2..]);
          } else if MissingArgument(opts, argv, i) {
            return StatusError, calls;
          } else {
            i := i + 1;
            arg := Some(argv[i]);
          }
        }
        var out := handle(calls, s1, arg);
        calls := calls + [OptCall(s1, arg, out)];
        if out != Continue {
          return StatusOf(out), calls;
        }
      } else {
        var out := rest(calls, argv[i..]);
        calls := calls + [RestCall(i, argv[i..], out)];
        return StatusOf(out), calls;
      }
      i := i + 1;
    }
    return StatusOk, calls;
  }

  /** The status is one of the three codes, and 0 only when every handler called asked to go on. */
  lemma {:induction false} StatusCodes(opts: seq<OptionDef>, argv: seq<string>, i: nat, done: seq<Call>,
                                       handle: OptionHandler, rest: RestHandler)
    requires i <= |argv|
    requires forall k :: 0 <= k < |argv| ==> CString(argv[k])
    ensures var r := ParseFrom(opts, argv, i, done, handle, rest);
            (r.status == StatusOk || r.status == StatusBreak || r.status == StatusError) &&
            (forall k :: |done| <= k < |r.calls| - 1 ==> r.calls[k].out == Continue) &&
            (r.status == StatusBreak <==> |r.calls| > |done| && r.calls[|r.calls| - 1].out == Break) &&
            (r.status == StatusOk ==> forall k :: |done| <= k < |r.calls| ==> r.calls[k].out == Continue)
    decreases |argv| - i, 0
  {
    if i == |argv| {
      return;
    }
    var s := argv[i];
    if Ch(s, 0) != '-' || Ch(s, 1) == '\0' || (Ch(s, 1) == '-' && Ch(s, 2) == '\0') {
      return;
    }
    match FindOption(opts, s[1])
    case None =>
    case Some(k) =>
      if !Entries(opts)[k].takesArg {
        StepCodes(opts, argv, i + 1, done, OptCall(s[1], None, handle(done, s[1], None)), handle, rest);
      } else if Ch(s, 2) != '\0' {
        StepCodes(opts, argv, i + 1, done, OptCall(s[1], Some(s[2..]), handle(done, s[1], Some(s[2..]))), handle, rest);
      } else if !MissingArgument(opts, argv, i) {
        StepCodes(opts, argv, i + 2, done, OptCall(s[1], Some(argv[i + 1]), handle(done, s[1], Some(argv[i + 1]))), handle, rest);
      }
  }

  lemma {:induction false} StepCodes(opts: seq<OptionDef>, argv: seq<string>, next: nat, done: seq<Call>, call: Call,
                                     handle: OptionHandler, rest: RestHandler)
    requires next <= |argv|
    requires forall k :: 0 <= k < |argv| ==> CString(argv[k])
    ensures var r := Step(opts, argv, next, done, call, handle, rest);
            (r.status == StatusOk || r.status == StatusBreak || r.status == StatusError) &&
            (forall k :: |done| <= k < |r.calls| - 1 ==> r.calls[k].out == Continue) &&
            (r.status == StatusBreak <==> r.calls[|r.calls| - 1].out == Break) &&
            (r.status == StatusOk ==> forall k :: |done| <= k < |r.calls| ==> r.calls[k].out == Continue)
    decreases |argv| - next, 1
  {
    if call.out == Continue {
      StatusCodes(opts, argv, next, done + [call], handle, rest);
      var r := ParseFrom(opts, argv, next, done + [call], handle, rest);
      assert r.calls[..|done| + 1] == done + [call];
      assert r.calls[|done|] == call;
    }
  }

  /**
   * The first word that does not start with '-' and the word after "--" start
   * the rest arguments, and a lone "-" is itself the first of them; the
   * rest-arguments handler is then the last call.
   */
  lemma RestArguments(opts: seq<OptionDef>, argv: seq<string>, i: nat, done: seq<Call>,
                      handle: OptionHandler, rest: RestHandler)
    requires i < |argv|
    requires forall k :: 0 <= k < |argv| ==> CString(argv[k])
    ensures var r := ParseFrom(opts, argv, i, done, handle, rest);
            var s := argv[i];
            (|s| == 0 || s[0] != '-' || s == "-" ==>
               r == RestRun(argv, i, done, rest) && r.calls[|done|].args == argv[i..]) &&
            (s == "--" ==> r == RestRun(argv, i + 1, done, rest) && r.calls[|done|].args == argv[i + 1..])
  {
  }

  /** An unknown letter fails at once, before any handler runs. */
  lemma UnknownOption(opts: seq<OptionDef>, argv: seq<string>, i: nat, done: seq<Call>,
                      handle: OptionHandler, rest: RestHandler)
    requires i < |argv|
    requires forall k :: 0 <= k < |argv| ==> CString(argv[k])
    requires |argv[i]| >= 2 && argv[i][0] == '-' && argv[i] != "--"
    requires FindOption(opts, argv[i][1]).None?
    ensures ParseFrom(opts, argv, i, done, handle, rest) == Run(StatusError, done)
  {
  }

  /**
   * An option taking an argument: attached text is the argument; otherwise
   * the next word is, unless there is none or it is a known option, which
   * fails with no handler call.
   */
  lemma OptionArgument(opts: seq<OptionDef>, argv: seq<string>, i: nat, done: seq<Call>,
                       handle: OptionHandler, rest: RestHandler)
    requires i < |argv|
    requires forall k :: 0 <= k < |argv| ==> CString(argv[k])
    requires |argv[i]| >= 2 && argv[i][0] == '-' && argv[i] != "--"
    requires var f := FindOption(opts, argv[i][1]); f.Some? && Entries(opts)[f.value].takesArg
    ensures var r := ParseFrom(opts, argv, i, done, handle, rest);
            var s := argv[i];
            (|s| > 2 ==> r.calls[|done|].arg == Some(s[2..])) &&
            (|s| == 2 && MissingArgument(opts, argv, i) ==> r == Run(StatusError, done)) &&
            (|s| == 2 && !MissingArgument(opts, argv, i) ==> r.calls[|done|].arg == Some(argv[i + 1]))
  {
    var s := argv[i];
    var c := s[1];
    if |s| > 2 {
      var call := OptCall(c, Some(s[2..]), handle(done, c, Some(s[2..])));
      assert Ch(s, 2) != '\0';
      var r := Step(opts, argv, i + 1, done, call, handle, rest);
      assert r.calls[..|done| + 1] == done + [call];
      assert r.calls[|done|] == call;
    } else if !MissingArgument(opts, argv, i) {
      var call := OptCall(c, Some(argv[i + 1]), handle(done, c, Some(argv[i + 1])));
      var r := Step(opts, argv, i + 2, done, call, handle, rest);
      assert r.calls[..|done| + 1] == done + [call];
      assert r.calls[|done|] == call;
    }
  }

  /**
   * The table of the parser's own tests: `-h` (no argument, prints help and
   * breaks), `-a INT`, `-b CHAR` (fails unless the argument is one letter).
   */
  function TestOptions(): seq<OptionDef> {
    [OptionDef('h', false), OptionDef('a', true), OptionDef('b', true), OptionDef('\0', false)]
  }

  function TestHandler(done: seq<Call>, c: char, arg: Option<string>): Outcome {
    if c == 'h' then Break
    else if c == 'b' && !(arg.Some? && |arg.value| == 1) then Fail
    else Continue
  }

  function TestRest(done: seq<Call>, args: seq<string>): Outcome { Continue }

  /** `-h` breaks; options with a separate and with an attached argument. */
  lemma TestOptionsAccepted()
    ensures ParseFrom(TestOptions(), ["test", "-h"], 1, [], TestHandler, TestRest).status == 1
    ensures ParseFrom(TestOptions(), ["test", "-a", "123", "-b", "*"], 1, [], TestHandler, TestRest) ==
            Run(0, [OptCall('a', Some("123"), Continue), OptCall('b', Some("*"), Continue)])
    ensures ParseFrom(TestOptions(), ["test", "-a456", "-b+"], 1, [], TestHandler, TestRest) ==
            Run(0, [OptCall('a', Some("456"), Continue), OptCall('b', Some("+"), Continue)])
  {
    assert ["test", "-a", "123", "-b", "*"][3..] == ["-b", "*"];
  }

  /** "-a -24" takes "-24" as the argument because "-2" is not a known option. */
  lemma TestNegativeArgument()
    ensures ParseFrom(TestOptions(), ["test", "-a", "-24"], 1, [], TestHandler, TestRest) ==
            Run(0, [OptCall('a', Some("-24"), Continue)])
  {
  }

  /** A plain word starts the rest arguments, a lone "-" is one of them, "--" is not. */
  lemma TestRestArguments()
    ensures ParseFrom(TestOptions(), ["test", "A", "B"], 1, [], TestHandler, TestRest) ==
            Run(0, [RestCall(1, ["A", "B"], Continue)])
    ensures ParseFrom(TestOptions(), ["test", "-", "B"], 1, [], TestHandler, TestRest) ==
            Run(0, [RestCall(1, ["-", "B"], Continue)])
    ensures ParseFrom(TestOptions(), ["test", "--", "B"], 1, [], TestHandler, TestRest) ==
            Run(0, [RestCall(2, ["B"], Continue)])
  {
  }

  /** A rejected argument, a missing argument (twice) and an unknown option. */
  lemma TestErrors()
    ensures ParseFrom(TestOptions(), ["test", "-b", "xxx"], 1, [], TestHandler, TestRest).status == -1
    ensures ParseFrom(TestOptions(), ["test", "-a"], 1, [], TestHandler, TestRest).status == -1
    ensures ParseFrom(TestOptions(), ["test", "-a", "-b"], 1, [], TestHandler, TestRest).status == -1
    ensures ParseFrom(TestOptions(), ["test", "-x"], 1, [], TestHandler, TestRest).status == -1
  {
  }

  /**
   * The two characters after the '-' as `clopts_parse` reads them: `s[1]`
   * and `s[2]` unconditionally; None when `s[2]` lies past the terminator.
   */
  function HeadAsWritten(s: string): (r: Option<(char, char)>)
    requires |s| >= 1
  {
    if |s| + 1 <= 2 then None else Some((Ch(s, 1), Ch(s, 2)))
  }

  /** For a lone "-" the read of `s[2]` is one past the terminating NUL. */
  lemma LoneDashReadsPastEnd()
    ensures HeadAsWritten("-") == None
  {
  }

  /**
   * `s[2]` read only once `s[1]` is known not to be the terminator, as
   * `ParseFrom` does: every read stays within the string and its NUL.
   */
  function Head(s: string): (r: (char, Option<char>))
    requires |s| >= 1
    ensures r.1.Some? <==> r.0 != '\0'
    ensures r.1.Some? ==> 2 <= |s| && r.1.value == Ch(s, 2)
  {
    if Ch(s, 1) == '\0' then ('\0', None) else (s[1], Some(Ch(s, 2)))
  }

  /** The index of the last '/' in `s`, if any. */
  function LastSlash(s: string): (r: Option<nat>)
    ensures r.Some? ==> r.value < |s| && s[r.value] == '/' && '/' !in s[r.value + 1..]
    ensures r.None? ==> '/' !in s
  {
    if s == [] then None
    else if s[|s| - 1] == '/' then Some(|s| - 1)
    else
      var r := LastSlash(s[..|s| - 1]);
      assert s == s[..|s| - 1] + [s[|s| - 1]];
      if r.Some? then
        assert s[r.value + 1..] == s[..|s| - 1][r.value + 1..] + [s[|s| - 1]];
        r
      else r
  }

  /**
   * `clopts_path_filename` (the POSIX branch): the part after the last
   * '/', or the whole string when it has none.  `start/cliutil.c` uses it
   * as the program name in messages.
   */
  function PathFilename(s: string): (r: string)
    ensures '/' !in r
    ensures r == s || (|r| < |s| && s == s[..|s| - |r| - 1] + "/" + r)
    ensures '/' !in s ==> r == s
  {
    match LastSlash(s)
    case None => s
    case Some(p) =>
      assert s == s[..p] + "/" + s[p + 1..];
      s[p + 1..]
  }

  /**
   * `print_text` when the line is too narrow to wrap (`line_width <
   * line_indent + 20`): the text followed by a newline.  None stands for
   * the word-wrapped layout.
   */
  function PrintText(text: string, width: nat, indent: nat): (r: Option<string>)
    ensures r.Some? <==> width < indent + 20
    ensures r.Some? ==> |r.value| == |text| + 1 && r.value[..|text|] == text && r.value[|text|] == '\n'
  {
    if width < indent + 20 then Some(text + "\n") else None
  }
}
