/** The Windows-only part of installation: finding an installed Java runtime
    from the output of `where java`, and bootstrapping one through a fixed
    sequence of PowerShell commands. Command execution is an input. */
module Windows {
  import opened Base
  import Text

  /** What running `cmd /c where java` produced. */
  datatype WhereResult = WhereFailed | WhereOutput(stdout: string)

  datatype JavaPathError = CommandFailed | NoJavaFound

  /** The output's lines, after CR LF line endings are normalised to LF. */
  function Lines(out: string): seq<string> {
    Text.Split(Text.ReplaceCrlf(out), '\n')
  }

  /** Output the path derivation can handle without a slice panicking: at
      least two lines, and at least four characters on each line it cuts. */
  predicate Parsable(out: string) {
    var s := Lines(out);
    |s| >= 2 && |s[0]| >= 4 && (s[1] != "" ==> |s[1]| >= 4)
  }

  /** The line the path is taken from: the second one when it is not empty,
      otherwise the first. */
  function ChosenLine(out: string): string
    requires Parsable(out)
  {
    var s := Lines(out);
    if s[1] != "" then s[1] else s[0]
  }

  predicate ProbeParsable(probe: WhereResult) {
    probe.WhereOutput? && probe.stdout != "" ==> Parsable(probe.stdout)
  }

  /** detectJavaPath: a failed command or empty output is an error; otherwise
      the chosen line with its last four characters replaced by `w.exe`. */
  function DetectJavaPath(probe: WhereResult): (r: Result<string, JavaPathError>)
    requires ProbeParsable(probe)
    ensures probe.WhereFailed? ==> r == Err(CommandFailed)
    ensures probe == WhereOutput("") ==> r == Err(NoJavaFound)
    ensures r.Ok? <==> probe.WhereOutput? && probe.stdout != ""
    ensures r.Ok? ==>
      var line := ChosenLine(probe.stdout);
      && |r.value| == |line| + 1
      && r.value[..|line| - 4] == line[..|line| - 4]
      && r.value[|line| - 4..] == "w.exe"
  {
    match probe
    case WhereFailed => Err(CommandFailed)
    case WhereOutput(out) =>
      if out == "" then Err(NoJavaFound)
      else
        var s := Lines(out);
        var first := s[0][..|s[0]| - 4] + "w.exe";
        if s[1] != "" then Ok(s[1][..|s[1]| - 4] + "w.exe") else Ok(first)
  }

  /** The last-nine-characters check in javaInstalled needs a path of at
      least nine characters; shorter detected paths make the source panic. */
  predicate ProbeSafe(probe: WhereResult) {
    && ProbeParsable(probe)
    && (probe.WhereOutput? && probe.stdout != "" ==> |ChosenLine(probe.stdout)| >= 8)
  }

  /** javaInstalled: false when no path was detected, otherwise whether the
      path ends in `javaw.exe`. Since the path ends in `w.exe` by construction,
      this holds exactly when the chosen line has `java` just before its last
      four characters, whatever those characters are. */
  function JavaInstalled(probe: WhereResult): (r: bool)
    requires ProbeSafe(probe)
    ensures r <==> (probe.WhereOutput? && probe.stdout != "" &&
      var line := ChosenLine(probe.stdout);
      line[|line| - 8..|line| - 4] == "java")
  {
    var javaPath := DetectJavaPath(probe).GetOr("");
    if javaPath == "" then false
    else
      var line := ChosenLine(probe.stdout);
      assert javaPath[|javaPath| - 9..] == line[|line| - 8..|line| - 4] + "w.exe" by {
        assert javaPath[|javaPath| - 9..|javaPath| - 5] == javaPath[..|line| - 4][|line| - 8..];
        assert javaPath[|javaPath| - 5..] == "w.exe";
      }
      javaPath[|javaPath| - 9..] == "javaw.exe"
  }

  /** The usual output of `where java` on Windows: one path per line, each
      line terminated by CR LF, no carriage return inside a path. */
  lemma {:induction false} SinglePathOutput(path: string)
    requires |path| >= 8 && '\r' !in path && '\n' !in path
    ensures Parsable(path + "\r\n")
    ensures ChosenLine(path + "\r\n") == path
    ensures DetectJavaPath(WhereOutput(path + "\r\n")) == Ok(path[..|path| - 4] + "w.exe")
    ensures JavaInstalled(WhereOutput(path + "\r\n")) <==> path[|path| - 8..|path| - 4] == "java"
  {
    CrlfToLf(path + "\n");
    Text.LineToCrlf(path);
    Text.SplitAfterPiece(path, '\n', "");
    assert path + "\n" == path + ['\n'] + "";
  }

  /** With two paths reported, the second one wins. */
  lemma {:induction false} TwoPathOutput(first: string, second: string)
    requires |first| >= 8 && '\r' !in first && '\n' !in first
    requires |second| >= 8 && '\r' !in second && '\n' !in second
    ensures Parsable(first + "\r\n" + second + "\r\n")
    ensures DetectJavaPath(WhereOutput(first + "\r\n" + second + "\r\n")) == Ok(second[..|second| - 4] + "w.exe")
  {
    var lf := first + "\n" + second + "\n";
    CrlfToLf(lf);
    Text.LineToCrlf(first);
    Text.LineToCrlf(second);
    Text.ToCrlfAppend(first + "\n", second + "\n");
    assert lf == (first + "\n") + (second + "\n");
    assert Text.ToCrlf(lf) == first + "\r\n" + second + "\r\n";
    Text.SplitAfterPiece(second, '\n', "");
    Text.SplitAfterPiece(first, '\n', second + "\n");
    assert lf == first + ['\n'] + (second + "\n");
    assert second + "\n" == second + ['\n'] + "";
  }

  /** Windows line endings are normalised back to the text they were made from. */
  lemma CrlfToLf(t: string)
    requires '\r' !in t
    ensures Text.ReplaceCrlf(Text.ToCrlf(t)) == t
  {
    Text.ReplaceCrlfUndoesToCrlf(t);
  }

  /** The PowerShell commands installJava runs, in order. */
  const JavaInstallCommands: seq<string> := [
    "Set-ExecutionPolicy RemoteSigned -scope CurrentUser",
    "iwr -useb get.scoop.sh | iex",
    "scoop install git",
    "scoop bucket add java",
    "scoop install adoptopenjdk-hotspot",
    "scoop uninstall git"
  ]

  /** What one command returned: whether Execute reported an error, and its
      standard error output. */
  datatype ShellResult = ShellResult(failed: bool, stderr: string)

  predicate Succeeded(res: ShellResult) {
    !res.failed && res.stderr == ""
  }

  datatype JavaInstallError = ShellUnavailable | StepFailed(command: string)

  /** The commands actually run, and the error that stopped the sequence. */
  datatype JavaInstall = JavaInstall(executed: seq<string>, error: Option<JavaInstallError>)

  /** Runs the commands in order and stops at the first one that reports an
      error or writes to standard error; later commands are not run. */
  function RunCommands(cmds: seq<string>, run: string -> ShellResult): (r: JavaInstall)
    ensures r.executed <= cmds
    ensures r.error.None? <==> forall i :: 0 <= i < |cmds| ==> Succeeded(run(cmds[i]))
    ensures r.error.None? ==> r.executed == cmds
    ensures r.error.Some? ==>
      && |r.executed| >= 1
      && r.error == Some(StepFailed(r.executed[|r.executed| - 1]))
      && !Succeeded(run(r.executed[|r.executed| - 1]))
      && forall i :: 0 <= i < |r.executed| - 1 ==> Succeeded(run(r.executed[i]))
    decreases |cmds|
  {
    if |cmds| == 0 then JavaInstall([], None)
    else if !Succeeded(run(cmds[0])) then JavaInstall([cmds[0]], Some(StepFailed(cmds[0])))
    else
      var rest := RunCommands(cmds[1..], run);
      assert cmds == [cmds[0]] + cmds[1..];
      JavaInstall([cmds[0]] + rest.executed, rest.error)
  }

  /** installJava: nothing runs when PowerShell cannot be started; otherwise
      the six commands run in order up to the first failure, and the install
      succeeds only if all six succeed. */
  function InstallJava(shellStarts: bool, run: string -> ShellResult): (r: JavaInstall)
    ensures !shellStarts ==> r == JavaInstall([], Some(ShellUnavailable))
    ensures shellStarts ==> r.executed <= JavaInstallCommands
    ensures r.error.None? <==>
      shellStarts && forall i :: 0 <= i < |JavaInstallCommands| ==> Succeeded(run(JavaInstallCommands[i]))
  {
    if !shellStarts then JavaInstall([], Some(ShellUnavailable))
    else RunCommands(JavaInstallCommands, run)
  }
}
