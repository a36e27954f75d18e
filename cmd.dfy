/**
 * Package `cmd`: building the process descriptor for a command, and the
 * error text of the error-enriching run. Spawning the process is not part
 * of this model: its outcome is handed in as values.
 */
module Cmd {
  import opened Wrappers
  import opened Strings

  /** The interpreter used in shell mode. */
  const DefaultShell: string := "sh"
  /** The privilege-elevation program prepended in sudo mode. */
  const SudoProgram: string := "sudo"

  /** Configuration for a command to be executed. */
  datatype Input = Input(command: string, pwd: string, shell: bool, sudo: bool)

  /** What a buffered run reports: the exit code and the captured streams. */
  datatype Output = Output(code: int, stdout: string, stderr: string)

  /**
   * The parts of Go's `exec.Cmd` that the builder sets: the program, the
   * full argument list (whose first element is the program, as in
   * `exec.Cmd.Args`) and the working directory, None meaning "inherit".
   */
  datatype ExecCmd = ExecCmd(path: string, args: seq<string>, dir: Option<string>)

  /** `exec.Command(name, arg...)`, without the lookup of `name` on PATH. */
  function ExecCommand(name: string, arg: seq<string>): (cmd: ExecCmd)
    ensures cmd.path == name && |cmd.args| == |arg| + 1
    ensures cmd.args[0] == name && cmd.args[1..] == arg
    ensures cmd.dir.None?
  {
    ExecCmd(name, [name] + arg, None)
  }

  // ---------------------------------------------------------------------
  // The argument vector
  // ---------------------------------------------------------------------

  /**
   * The argument vector before elevation: the shell wrapper around the
   * untouched command text, or the command split on single spaces.
   */
  function CommandArgv(command: string, shell: bool): (argv: seq<string>)
    ensures argv != []
    ensures shell ==> |argv| == 3 && argv[0] == DefaultShell && argv[1] == "-c" && argv[2] == command
    ensures !shell ==> Join(argv, ' ') == command
    ensures !shell ==> forall i :: 0 <= i < |argv| ==> ' ' !in argv[i]
    ensures !shell ==> |argv| == multiset(command)[' '] + 1
  {
    if shell then
      [DefaultShell, "-c"] + [command]
    else
      JoinSplit(command, ' ');
      SplitPiecesLackSeparator(command, ' ');
      SplitCount(command, ' ');
      Split(command, ' ')
  }

  /** The full argument vector: the command's vector, behind "sudo" in sudo mode. */
  function Argv(input: Input): (argv: seq<string>)
    ensures argv != []
    ensures input.sudo ==> |argv| == |CommandArgv(input.command, input.shell)| + 1
    ensures input.sudo ==> argv[0] == SudoProgram && argv[1..] == CommandArgv(input.command, input.shell)
    ensures !input.sudo ==> argv == CommandArgv(input.command, input.shell)
  {
    var base := CommandArgv(input.command, input.shell);
    if input.sudo then [SudoProgram] + base else base
  }

  /**
   * In direct mode every non-empty vector of space-free arguments is the
   * vector of exactly one command text: the arguments joined by spaces.
   */
  lemma DirectModeReachesSpaceFreeVectors(args: seq<string>)
    requires |args| >= 1
    requires forall i :: 0 <= i < |args| ==> ' ' !in args[i]
    ensures CommandArgv(Join(args, ' '), false) == args
  {
    SplitJoin(args, ' ');
  }

  /** Elevation wraps the built vector, in either mode. */
  lemma SudoWrapsBuiltVector(input: Input)
    ensures Argv(input.(sudo := true)) == [SudoProgram] + Argv(input.(sudo := false))
    ensures input.shell ==> Argv(input.(sudo := true)) == [SudoProgram, DefaultShell, "-c", input.command]
  {
  }

  /** "echo hello" in direct mode runs echo with the one argument hello. */
  lemma DirectModeExample()
    ensures Argv(Input("echo hello", "", false, false)) == ["echo", "hello"]
  {
    assert Split("echo hello", ' ') == ["echo", "hello"] by {
      assert "echo hello" == "echo" + [' '] + "hello";
      SplitAtSeparator("echo", ' ', "hello");
      SplitWithoutSeparator("hello", ' ');
    }
  }

  /** Two spaces in a row give an empty argument between them. */
  lemma DoubleSpaceExample()
    ensures Argv(Input("a  b", "", false, false)) == ["a", "", "b"]
  {
    assert Split("a  b", ' ') == ["a", "", "b"] by {
      assert "a  b" == "a" + [' ', ' '] + "b";
      AdjacentSeparatorsGiveEmptyPiece("a", ' ', "b");
      SplitWithoutSeparator("b", ' ');
    }
  }

  /** The empty command still yields one (empty) argument, so argv[0] exists. */
  lemma EmptyCommandExample()
    ensures Argv(Input("", "", false, false)) == [""]
  {
  }

  /**
   * `getCmd`: the vector is built by reassignment, cut into program and
   * arguments, and the working directory is attached only when non-empty.
   */
  method GetCmd(input: Input) returns (cmd: ExecCmd)
    ensures cmd.args == Argv(input)
    ensures cmd.path == cmd.args[0]
    ensures cmd.dir.Some? <==> input.pwd != ""
    ensures cmd.dir.Some? ==> cmd.dir.value == input.pwd
  {
    var cmdSlice: seq<string>;
    if input.shell {
      cmdSlice := [DefaultShell, "-c"] + [input.command];
    } else {
      cmdSlice := Split(input.command, ' ');
    }
    if input.sudo {
      cmdSlice := [SudoProgram] + cmdSlice;
    }

    cmd := ExecCommand(cmdSlice[0], cmdSlice[1..]);
    if input.pwd != "" {
      cmd := cmd.(dir := Some(input.pwd));
    }
  }

  // ---------------------------------------------------------------------
  // The error-enriching run
  // ---------------------------------------------------------------------

  const ErrorPrefix: string := "error running command "

  /** One optional segment of the message: empty when there is nothing to show. */
  function Segment(lead: string, text: string): string
  {
    if text == "" then "" else lead + text
  }

  /**
   * The diagnostic text: the command, then the trimmed stdout and the
   * trimmed stderr each only when not blank, then the underlying error.
   */
  function ErrorMessage(command: string, stdout: string, stderr: string, err: string): (msg: string)
    ensures ErrorPrefix + command <= msg
    ensures |msg| >= |ErrorPrefix + command| + |", error: " + err|
    ensures msg[|msg| - |", error: " + err|..] == ", error: " + err
  {
    var head := ErrorPrefix + command + Segment(", stdout: ", TrimSpace(stdout))
                + Segment(", stderr: ", TrimSpace(stderr));
    var tail := ", error: " + err;
    assert (head + tail)[..|ErrorPrefix + command|] == ErrorPrefix + command;
    assert (head + tail)[|head|..] == tail;
    head + tail
  }

  /** A string with no white space at either end (or the empty string). */
  predicate Unpadded(t: string)
  {
    t == [] || (!IsSpace(t[0]) && !IsSpace(t[|t| - 1]))
  }

  /**
   * The message in terms of what the streams hold between their padding:
   * each stream contributes its text without the surrounding white space,
   * and nothing at all when it is blank.
   */
  lemma ErrorMessageSegments(command: string, pre1: string, out: string, post1: string,
                             pre2: string, errOut: string, post2: string, err: string)
    requires AllSpace(pre1) && AllSpace(post1) && Unpadded(out)
    requires AllSpace(pre2) && AllSpace(post2) && Unpadded(errOut)
    ensures ErrorMessage(command, pre1 + out + post1, pre2 + errOut + post2, err)
         == ErrorPrefix + command + Segment(", stdout: ", out) + Segment(", stderr: ", errOut)
            + (", error: " + err)
  {
    TrimSpaceUnique(pre1, out, post1);
    TrimSpaceUnique(pre2, errOut, post2);
  }

  /** Blank streams leave only the command and the underlying error. */
  lemma ErrorMessageBlankStreams(command: string, stdout: string, stderr: string, err: string)
    requires AllSpace(stdout) && AllSpace(stderr)
    ensures ErrorMessage(command, stdout, stderr, err) == ErrorPrefix + command + (", error: " + err)
  {
  }

  /** A failing command with stdout "partial\n" and an empty stderr. */
  lemma ErrorMessageExample()
    ensures ErrorMessage("make", "partial\n", "", "exit status 2")
         == "error running command " + "make" + ", stdout: " + "partial" + ", error: " + "exit status 2"
  {
  }

  /**
   * The message-building half of `RunFormatError`: trim both streams, then
   * grow the text one segment at a time.
   */
  method FormatMessage(command: string, rawStdout: string, rawStderr: string, runErr: string)
    returns (outStr: string)
    ensures outStr == ErrorMessage(command, rawStdout, rawStderr, runErr)
  {
    var stdout := TrimSpace(rawStdout);
    var stderr := TrimSpace(rawStderr);
    outStr := ErrorPrefix + command;

    if stdout != "" {
      outStr := outStr + (", stdout: " + stdout);
    } else {
      assert outStr + "" == outStr;
    }
    if stderr != "" {
      outStr := outStr + (", stderr: " + stderr);
    } else {
      assert outStr + "" == outStr;
    }
    outStr := outStr + (", error: " + runErr);
  }

  /**
   * `RunFormatError` given `Run`'s outcome: the output always passes
   * through unchanged; an error is replaced by the diagnostic text.
   */
  method RunFormatError(input: Input, out: Output, runErr: Option<string>)
    returns (result: Output, err: Option<string>)
    ensures result == out
    ensures runErr.None? ==> err.None?
    ensures runErr.Some? ==> err == Some(ErrorMessage(input.command, out.stdout, out.stderr, runErr.value))
  {
    if runErr.None? {
      return out, None;
    }

    var outStr := FormatMessage(input.command, out.stdout, out.stderr, runErr.value);
    return out, Some(outStr);
  }
}
