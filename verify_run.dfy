/** `verify_run`: runs each verify command in the worktree, records one
    result per command, and writes a summary whose `ok` is the AND of the
    per-command results. Creating the output directory, each shell run and
    writing the summary file are inputs: what each of them yields. */
module VerifyRun {
  import opened Strings
  import opened Results
  import opened Slugs
  import opened Worktree

  const SummaryVersion: int := 1
  const SummaryFile: string := "summary.json"

  datatype VerifyCommand = VerifyCommand(name: string, command: string)

  datatype CommandResult = CommandResult(name: string, command: string, ok: bool, exitCode: int, outputPath: string)

  datatype VerifySummary = VerifySummary(version: int, ranAt: string, commands: seq<CommandResult>, ok: bool)

  /** What `run_shell_command_to_file` yields: an error before or while
      starting the shell (its message), an exit code, or a termination by
      signal, which has no code. */
  datatype ShellRun = ShellError(message: string) | ExitedWith(code: int) | Signalled

  /** What writing `summary.json` yields. */
  datatype SummaryWrite = Written | CreateFailed(reason: string) | WriteFailed(reason: string)

  /** `status.code().unwrap_or(1)`. */
  function ExitCode(run: ShellRun): int
    requires !run.ShellError?
  {
    if run.ExitedWith? then run.code else 1
  }

  /** Where a command's output goes: `<outDir>/<slug>.txt`. */
  function OutputPath(outDir: string, name: string): string {
    JoinPath(outDir, Slug(name) + ".txt")
  }

  /** The output path of every command, in order. */
  function OutputPaths(outDir: string, commands: seq<VerifyCommand>): (r: seq<string>)
    ensures |r| == |commands|
    ensures forall i :: 0 <= i < |r| ==> r[i] == OutputPath(outDir, commands[i].name)
  {
    seq(|commands|, i requires 0 <= i < |commands| => OutputPath(outDir, commands[i].name))
  }

  function ResultOf(c: VerifyCommand, run: ShellRun, path: string): CommandResult
    requires !run.ShellError?
  {
    var code := ExitCode(run);
    CommandResult(c.name, c.command, code == 0, code, path)
  }

  predicate AllOk(results: seq<CommandResult>) {
    forall i :: 0 <= i < |results| ==> results[i].ok
  }

  /** The results the loop has collected after the given commands, or the
      error of the first shell run that failed to start. */
  function Outcomes(paths: seq<string>, commands: seq<VerifyCommand>, runs: seq<ShellRun>): Result<seq<CommandResult>>
    requires |runs| == |commands| == |paths|
    decreases |commands|
  {
    if commands == [] then Ok([])
    else
      var n := |commands| - 1;
      match Outcomes(paths[..n], commands[..n], runs[..n])
      case Err(e) => Err(e)
      case Ok(rs) =>
        if runs[n].ShellError? then Err(runs[n].message)
        else Ok(rs + [ResultOf(commands[n], runs[n], paths[n])])
  }

  function MkdirError(outDir: string, reason: string): string {
    "failed to create verify outDir " + outDir + ": " + reason
  }

  function WriteError(outDir: string, w: SummaryWrite): string
    requires !w.Written?
  {
    match w
    case CreateFailed(reason) => "failed to write " + JoinPath(outDir, SummaryFile) + ": " + reason
    case WriteFailed(reason) => "failed to write verify summary: " + reason
  }

  /** The value `verify_run` returns. */
  function Verify(outDir: string, commands: seq<VerifyCommand>, mkdir: Option<string>,
                  runs: seq<ShellRun>, ranAt: string, write: SummaryWrite): Result<VerifySummary>
    requires |runs| == |commands|
  {
    if mkdir.Some? then Err(MkdirError(outDir, mkdir.value))
    else
      match Outcomes(OutputPaths(outDir, commands), commands, runs)
      case Err(e) => Err(e)
      case Ok(rs) =>
        if !write.Written? then Err(WriteError(outDir, write))
        else Ok(VerifySummary(SummaryVersion, ranAt, rs, AllOk(rs)))
  }

  lemma OutcomesSnoc(paths: seq<string>, commands: seq<VerifyCommand>, runs: seq<ShellRun>, i: nat, rs: seq<CommandResult>)
    requires |runs| == |commands| == |paths| && i < |commands|
    requires Outcomes(paths[..i], commands[..i], runs[..i]) == Ok(rs)
    ensures Outcomes(paths[..i + 1], commands[..i + 1], runs[..i + 1]) ==
      if runs[i].ShellError? then Err(runs[i].message) else Ok(rs + [ResultOf(commands[i], runs[i], paths[i])])
  {
    assert commands[..i + 1][..i] == commands[..i];
    assert runs[..i + 1][..i] == runs[..i];
    assert paths[..i + 1][..i] == paths[..i];
  }

  lemma AllOkSnoc(results: seq<CommandResult>, res: CommandResult)
    ensures AllOk(results + [res]) == (AllOk(results) && res.ok)
  {
    if AllOk(results) && res.ok {
      forall i | 0 <= i < |results| + 1 ensures (results + [res])[i].ok {
        if i < |results| { assert (results + [res])[i] == results[i]; }
      }
    }
    if AllOk(results + [res]) {
      assert (results + [res])[|results|] == res;
      forall i | 0 <= i < |results| ensures results[i].ok {
        assert (results + [res])[i] == results[i];
      }
    }
  }

  /** Once a shell run fails to start, the later commands change nothing. */
  lemma {:induction false} OutcomesErrSticks(paths: seq<string>, commands: seq<VerifyCommand>, runs: seq<ShellRun>, k: nat)
    requires |runs| == |commands| == |paths| && k <= |commands|
    requires Outcomes(paths[..k], commands[..k], runs[..k]).Err?
    ensures Outcomes(paths, commands, runs) == Outcomes(paths[..k], commands[..k], runs[..k])
    decreases |commands|
  {
    if k < |commands| {
      var n := |commands| - 1;
      assert commands[..n][..k] == commands[..k];
      assert runs[..n][..k] == runs[..k];
      assert paths[..n][..k] == paths[..k];
      OutcomesErrSticks(paths[..n], commands[..n], runs[..n], k);
    } else {
      assert commands[..k] == commands && runs[..k] == runs && paths[..k] == paths;
    }
  }

  /** The record of one command that ran: `ok` is a zero exit code. */
  method RecordRun(outDir: string, c: VerifyCommand, run: ShellRun) returns (res: CommandResult)
    requires !run.ShellError?
    ensures res == ResultOf(c, run, OutputPath(outDir, c.name))
  {
    var nameSafe := SafeName(c.name);
    var outputPath := JoinPath(outDir, nameSafe + ".txt");
    var exitCode := if run.ExitedWith? then run.code else 1;
    var ok := exitCode == 0;
    res := CommandResult(c.name, c.command, ok, exitCode, outputPath);
  }

  /** The loop of `verify_run`: one shell run per command, in order; a run
      that fails to start ends the loop with its error, a non-zero exit only
      clears `all_ok`. */
  method RunCommands(outDir: string, commands: seq<VerifyCommand>, runs: seq<ShellRun>)
      returns (outcome: Result<seq<CommandResult>>, allOk: bool)
    requires |runs| == |commands|
    ensures outcome == Outcomes(OutputPaths(outDir, commands), commands, runs)
    ensures outcome.Ok? ==> allOk == AllOk(outcome.value)
  {
    ghost var paths := OutputPaths(outDir, commands);
    var results: seq<CommandResult> := [];
    allOk := true;
    var i := 0;
    assert paths[..0] == [] && commands[..0] == [] && runs[..0] == [];
    while i < |commands|
      invariant 0 <= i <= |commands|
      invariant Outcomes(paths[..i], commands[..i], runs[..i]) == Ok(results)
      invariant allOk == AllOk(results)
    {
      OutcomesSnoc(paths, commands, runs, i, results);
      var run := runs[i];
      if run.ShellError? {
        OutcomesErrSticks(paths, commands, runs, i + 1);
        return Err(run.message), allOk;
      }
      var res := RecordRun(outDir, commands[i], run);
      if !res.ok {
        allOk := false;
      }
      AllOkSnoc(results, res);
      results := results + [res];
      i := i + 1;
    }
    assert commands[..i] == commands && runs[..i] == runs && paths[..i] == paths;
    outcome := Ok(results);
  }

  /** `verify_run`: create the output directory, run the commands, then
      write the summary. */
  method RunVerify(outDir: string, commands: seq<VerifyCommand>, mkdir: Option<string>,
                   runs: seq<ShellRun>, ranAt: string, write: SummaryWrite) returns (r: Result<VerifySummary>)
    requires |runs| == |commands|
    ensures r == Verify(outDir, commands, mkdir, runs, ranAt, write)
  {
    if mkdir.Some? {
      return Err(MkdirError(outDir, mkdir.value));
    }
    var outcome, allOk := RunCommands(outDir, commands, runs);
    if outcome.Err? {
      return Err(outcome.error);
    }
    if !write.Written? {
      return Err(WriteError(outDir, write));
    }
    r := Ok(VerifySummary(SummaryVersion, ranAt, outcome.value, allOk));
  }

  // ---- What the run promises ----

  /** Without a shell run that fails to start, there is one result per
      command, in order, each recording that command's exit. */
  lemma {:induction false} OutcomesOk(paths: seq<string>, commands: seq<VerifyCommand>, runs: seq<ShellRun>)
    requires |runs| == |commands| == |paths|
    ensures Outcomes(paths, commands, runs).Ok? <==> forall i :: 0 <= i < |runs| ==> !runs[i].ShellError?
    ensures Outcomes(paths, commands, runs).Ok? ==>
      var rs := Outcomes(paths, commands, runs).value;
      && |rs| == |commands|
      && forall i :: 0 <= i < |rs| ==> rs[i] == ResultOf(commands[i], runs[i], paths[i])
    decreases |commands|
  {
    if commands != [] {
      var n := |commands| - 1;
      OutcomesOk(paths[..n], commands[..n], runs[..n]);
      assert forall i :: 0 <= i < n ==> runs[..n][i] == runs[i] && commands[..n][i] == commands[i] && paths[..n][i] == paths[i];
    }
  }

  /** The first shell run that fails to start decides the error. */
  lemma FirstShellError(paths: seq<string>, commands: seq<VerifyCommand>, runs: seq<ShellRun>, k: nat)
    requires |runs| == |commands| == |paths|
    requires k < |runs| && runs[k].ShellError?
    requires forall j :: 0 <= j < k ==> !runs[j].ShellError?
    ensures Outcomes(paths, commands, runs) == Err(runs[k].message)
  {
    OutcomesOk(paths[..k], commands[..k], runs[..k]);
    var rs := Outcomes(paths[..k], commands[..k], runs[..k]).value;
    OutcomesSnoc(paths, commands, runs, k, rs);
    OutcomesErrSticks(paths, commands, runs, k + 1);
  }

  /** `verify_run` succeeds exactly when the directory is created, every
      shell run starts, and the summary is written: a non-zero exit never
      stops the run. */
  lemma VerifySucceeds(outDir: string, commands: seq<VerifyCommand>, mkdir: Option<string>,
                       runs: seq<ShellRun>, ranAt: string, write: SummaryWrite)
    requires |runs| == |commands|
    ensures Verify(outDir, commands, mkdir, runs, ranAt, write).Ok? <==>
      mkdir.None? && write.Written? && forall i :: 0 <= i < |runs| ==> !runs[i].ShellError?
  {
    OutcomesOk(OutputPaths(outDir, commands), commands, runs);
  }

  /** A successful summary holds one result per command, in order, with
      that command's name, command line, exit code (1 when killed by a
      signal), `ok` exactly when the code is 0, and its output file; the
      summary's `ok` is the AND of the results' `ok`. */
  lemma VerifySummaryContents(outDir: string, commands: seq<VerifyCommand>, mkdir: Option<string>,
                              runs: seq<ShellRun>, ranAt: string, write: SummaryWrite)
    requires |runs| == |commands|
    requires Verify(outDir, commands, mkdir, runs, ranAt, write).Ok?
    ensures var s := Verify(outDir, commands, mkdir, runs, ranAt, write).value;
      && s.version == 1 && s.ranAt == ranAt
      && |s.commands| == |commands|
      && (forall i :: 0 <= i < |commands| ==> Recorded(s.commands[i], commands[i], runs[i], outDir))
      && (s.ok <==> forall i :: 0 <= i < |s.commands| ==> s.commands[i].ok)
  {
    var paths := OutputPaths(outDir, commands);
    OutcomesOk(paths, commands, runs);
    var rs := Outcomes(paths, commands, runs).value;
    assert Verify(outDir, commands, mkdir, runs, ranAt, write).value == VerifySummary(SummaryVersion, ranAt, rs, AllOk(rs));
    forall i | 0 <= i < |commands| ensures Recorded(rs[i], commands[i], runs[i], outDir) {
      ResultRecorded(commands[i], runs[i], outDir);
    }
  }

  /** What the summary records of one command: its name and command line,
      the exit code (1 when killed by a signal), `ok` exactly for exit code 0,
      and the output file named after the command's slug. */
  predicate Recorded(res: CommandResult, c: VerifyCommand, run: ShellRun, outDir: string) {
    && !run.ShellError?
    && res.name == c.name
    && res.command == c.command
    && res.exitCode == (if run.ExitedWith? then run.code else 1)
    && (res.ok <==> res.exitCode == 0)
    && res.outputPath == JoinPath(outDir, Slug(c.name) + ".txt")
  }

  lemma ResultRecorded(c: VerifyCommand, run: ShellRun, outDir: string)
    requires !run.ShellError?
    ensures Recorded(ResultOf(c, run, OutputPath(outDir, c.name)), c, run, outDir)
  {
  }

  /** With the directory created, the first shell run that fails to start
      ends `verify_run` with its message. */
  lemma VerifyStopsAtShellError(outDir: string, commands: seq<VerifyCommand>,
                                runs: seq<ShellRun>, ranAt: string, write: SummaryWrite, k: nat)
    requires |runs| == |commands|
    requires k < |runs| && runs[k].ShellError?
    requires forall j :: 0 <= j < k ==> !runs[j].ShellError?
    ensures Verify(outDir, commands, None, runs, ranAt, write) == Err(runs[k].message)
  {
    FirstShellError(OutputPaths(outDir, commands), commands, runs, k);
  }
}
