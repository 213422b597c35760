/** The decision flow of `patch_apply`: the guards a patch passes, in order,
    before `git apply` may touch the worktree. Reading the patch file and the
    two `git` runs are inputs: the file's text (or the read error) and what
    each `git` run yields. */
module PatchApply {
  import opened Strings
  import opened Results
  import opened DiffHeaders
  import opened Ownership

  const NoHeadersError: string := "patch has content but no \"diff --git\" headers (not a unified diff?)"
  const CheckFailed: string := "git apply --check failed"
  const ApplyFailed: string := "git apply failed"

  /** One `git` run: it could not be spawned, or it exited, successfully or
      not, with the given stderr. */
  datatype GitRun = SpawnFailed(reason: string) | Exited(success: bool, stderr: string)

  /** The answer of the gate and the `git` argument lists it ran, in order. */
  datatype Gate = Gate(result: Result<seq<string>>, gitCalls: seq<seq<string>>)

  /** The dry run. */
  function CheckArgs(worktree: string, patchPath: string): seq<string> {
    ["-C", worktree, "apply", "--check", patchPath]
  }

  /** The real apply. */
  function ApplyArgs(worktree: string, patchPath: string): seq<string> {
    ["-C", worktree, "apply", patchPath]
  }

  predicate Succeeded(run: GitRun) {
    run.Exited? && run.success
  }

  function ReadError(patchPath: string, reason: string): string {
    "failed to read patch file: " + patchPath + ": " + reason
  }

  /** The error of a `git` step that did not succeed: `run_git` reports a
      spawn failure as `git failed: …`; a failed exit gives its stderr with
      trailing whitespace trimmed, or the fallback when that is empty.
      The message is never empty. */
  function GitFailure(run: GitRun, fallback: string): (r: string)
    requires !Succeeded(run)
    requires fallback != ""
    ensures r != ""
    ensures run.SpawnFailed? ==> StartsWith(r, "git failed: ")
    ensures run.Exited? && AllWhitespace(run.stderr) ==> r == fallback
    ensures run.Exited? && !AllWhitespace(run.stderr) ==>
      StartsWith(run.stderr, r) && !IsWhitespace(r[|r| - 1]) && AllWhitespace(run.stderr[|r|..])
  {
    match run
    case SpawnFailed(reason) => "git failed: " + reason
    case Exited(_, stderr) =>
      var e := TrimEnd(stderr);
      if e == [] then fallback else e
  }

  /** `patch_apply`, given the patch file's contents, the prefixes, and what
      the dry run and the real apply would yield. */
  function ApplyPatch(worktree: string, patchPath: string, patchFile: Result<string>,
                      prefixes: seq<string>, check: GitRun, apply: GitRun): Gate
  {
    match patchFile
    case Err(reason) => Gate(Err(ReadError(patchPath, reason)), [])
    case Ok(text) =>
      if Trim(text) == [] then Gate(Ok([]), [])
      else
        var touched := Extract(Lines(text));
        if touched == [] then Gate(Err(NoHeadersError), [])
        else
          match CheckOwnership(touched, prefixes)
          case Fail(msg) => Gate(Err(msg), [])
          case Pass =>
            var dry := [CheckArgs(worktree, patchPath)];
            if !Succeeded(check) then Gate(Err(GitFailure(check, CheckFailed)), dry)
            else
              var both := dry + [ApplyArgs(worktree, patchPath)];
              if !Succeeded(apply) then Gate(Err(GitFailure(apply, ApplyFailed)), both)
              else Gate(Ok(Paths(touched, false)), both)
  }

  /** The order of the guards: an unreadable file, a blank patch, a headerless
      patch and a failed ownership check all return before any `git` call;
      `git` runs the dry run first and the real apply only after a
      successful dry run. */
  lemma ApplyPatchOrder(worktree: string, patchPath: string, patchFile: Result<string>,
                        prefixes: seq<string>, check: GitRun, apply: GitRun)
    ensures var g := ApplyPatch(worktree, patchPath, patchFile, prefixes, check, apply);
      && (patchFile.Err? ==> g.result == Err(ReadError(patchPath, patchFile.error)) && g.gitCalls == [])
      && (patchFile.Ok? && AllWhitespace(patchFile.value) ==> g.result == Ok([]) && g.gitCalls == [])
      && (patchFile.Ok? && !AllWhitespace(patchFile.value) && Extract(Lines(patchFile.value)) == [] ==>
            g.result == Err(NoHeadersError) && g.gitCalls == [])
      && (patchFile.Ok? && CheckOwnership(Extract(Lines(patchFile.value)), prefixes).Fail?
          && !AllWhitespace(patchFile.value) && Extract(Lines(patchFile.value)) != [] ==>
            g.result == Err(CheckOwnership(Extract(Lines(patchFile.value)), prefixes).error) && g.gitCalls == [])
      && (g.gitCalls != [] ==>
            patchFile.Ok? && CheckOwnership(Extract(Lines(patchFile.value)), prefixes) == Pass
            && g.gitCalls[0] == CheckArgs(worktree, patchPath))
      && |g.gitCalls| <= 2
      && (|g.gitCalls| == 2 ==> Succeeded(check) && g.gitCalls[1] == ApplyArgs(worktree, patchPath))
      && (g.gitCalls != [] && !Succeeded(check) ==> g.result == Err(GitFailure(check, CheckFailed)))
  {
    if patchFile.Ok? {
      TrimEmptyIsAllWhitespace(patchFile.value);
    }
  }

  /** The gate succeeds exactly for a readable blank patch, or for a patch
      with headers whose files all pass the ownership check and that both
      `git` steps accept. */
  lemma ApplyPatchSuccess(worktree: string, patchPath: string, patchFile: Result<string>,
                          prefixes: seq<string>, check: GitRun, apply: GitRun)
    ensures ApplyPatch(worktree, patchPath, patchFile, prefixes, check, apply).result.Ok? <==>
      patchFile.Ok? &&
      (AllWhitespace(patchFile.value) ||
        (Extract(Lines(patchFile.value)) != [] && CheckOwnership(Extract(Lines(patchFile.value)), prefixes) == Pass
         && Succeeded(check) && Succeeded(apply)))
  {
    if patchFile.Ok? {
      TrimEmptyIsAllWhitespace(patchFile.value);
    }
  }

  /** Once the ownership check passes, each valid entry is authorised. */
  lemma ValidPathsAuthorized(touched: seq<Touched>, prefixes: seq<string>)
    requires CheckOwnership(touched, prefixes) == Pass
    ensures forall x :: x in Paths(touched, false) ==> Authorized(x, AllowedPrefixes(prefixes))
  {
    OwnershipContract(touched, prefixes);
    forall x | x in Paths(touched, false) ensures Authorized(x, AllowedPrefixes(prefixes)) {
      PathsMember(touched, false, x);
      var j :| 0 <= j < |touched| && touched[j].path == x && !touched[j].invalid;
      assert Acceptable(touched[j], AllowedPrefixes(prefixes));
    }
  }

  /** A non-blank patch that gets through ran both `git` steps and returns the
      distinct normalised files of its headers in first-occurrence order,
      each authorised by the prefixes. */
  lemma ApplyPatchTouched(worktree: string, patchPath: string, text: string,
                          prefixes: seq<string>, check: GitRun, apply: GitRun)
    requires !AllWhitespace(text)
    requires ApplyPatch(worktree, patchPath, Ok(text), prefixes, check, apply).result.Ok?
    ensures var g := ApplyPatch(worktree, patchPath, Ok(text), prefixes, check, apply);
      && g.gitCalls == [CheckArgs(worktree, patchPath), ApplyArgs(worktree, patchPath)]
      && g.result.value == Dedup(NormalForms(RawFiles(Lines(text))))
      && Distinct(g.result.value)
      && (forall x :: x in g.result.value ==> Authorized(x, AllowedPrefixes(prefixes)))
  {
    TrimEmptyIsAllWhitespace(text);
    var touched := Extract(Lines(text));
    ExtractSplit(Lines(text));
    TouchedFilesContract(Lines(text));
    ValidPathsAuthorized(touched, prefixes);
  }
}
