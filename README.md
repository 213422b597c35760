# ecc-kernel decision layer in Dafny

`ecc-kernel` is a small command-line kernel. It reads a JSON request on stdin
and carries out one of a few repository operations through `git` and the shell.
This project models the parts of `crates/ecc-kernel/src/main.rs` that decide
what happens. `git`, the shell, the file system and the clock are inputs to
those decisions.

- **`patch.apply` gate** (`PatchApply`). The gate reads the patch and accepts a
  blank patch as a no-op. From the `diff --git` headers it extracts the touched
  files (`DiffHeaders`) and normalises each path relative to the repository
  (`RepoPath`). It checks that every file is valid and lies under an allowed
  prefix (`Ownership`). Only then does it run `git apply --check` and
  `git apply`, in that order. The answer is the distinct, normalised, authorised
  files, in first-occurrence order.
- **`verify.run`** (`VerifyRun`). Each command runs in order. Its output file is
  named after a slug of its name (`Slugs`). The summary records every exit code.
  `ok` in the summary is the AND of the per-command results. A command that
  cannot be started aborts the run; a non-zero exit does not.
- **Worktree placement** (`Worktree`). Paths are normalised lexically over their
  components, and relative paths are made absolute against the current
  directory. A worktree whose normalised components start with those of the
  repository root is refused.

Each loop of the source is a `method` with a `while` loop. Its `ensures` ties
the result to a reference function (`NormalizeRepoPath`, `TouchedFiles`,
`IsAuthorized`, `CollectViolations`, `CollapseLoop`, `RunCommands`,
`StackLoop`, `PushLoop`). The lemmas then prove what the source promises about
those functions: one-way and two-way characterisations, error cases,
idempotence, round trips and ordering.

Modules, by file:

| file | module | models |
|---|---|---|
| results.dfy | Results | `Option`, `Result`, and `Outcome` (for `Result<(), String>`) |
| strings.dfy | Strings | the `str` methods used: `trim`, `split`, `join`, `split_whitespace`, `trim_*_matches`, `strip_prefix`, `BufRead::lines` |
| repo_path.dfy | RepoPath | `normalize_repo_path` |
| diff_headers.dfy | DiffHeaders | `touched_files_from_unified_diff` |
| ownership.dfy | Ownership | `ensure_owned` |
| patch_apply.dfy | PatchApply | `patch_apply` |
| safe_name.dfy | Slugs | `safe_name` |
| verify_run.dfy | VerifyRun | `verify_run` |
| worktree_path.dfy | Worktree | `normalize_worktree_path`, `abs_path`, `assert_external_worktree_path` |

Where the code does more than its comments say, the model follows the code:

- The header prefix is removed with `trim_start_matches`, which strips
  `diff --git ` as many times as it repeats, not just once.
- The worktree check compares path components, not text.
- The header's two paths are its first two whitespace-separated tokens. git
  does not quote a path that holds a space, so for `my file` the header names
  `file` (`DiffHeaders.SpacedPathHeader`). Ownership is then checked on
  `file`, while `git apply` patches `my file`.
- `normalize_repo_path` tests for a drive letter before it collapses `..`. So
  it is not idempotent: `x/../c:/foo` is accepted as `c:/foo`, and `c:/foo` is
  then rejected (`RepoPath.DriveLetterAfterCollapse`).

## Model

| member | source | states |
|---|---|---|
| RepoPath.NormalizeRepoPath | crates/ecc-kernel/src/main.rs:257-290 | The stack loop returns exactly the value of the reference `Normalized`. |
| RepoPath.NormalizedNone | crates/ecc-kernel/src/main.rs:257-290 | `None` exactly for a leading `/`, a `<letter>:/` drive, a `..` that climbs above the root at some point, or nothing left. Both directions hold. |
| RepoPath.ReduceBalance | crates/ecc-kernel/src/main.rs:272-285 | The stack loop fails exactly when a prefix of the parts pops below the bottom. Otherwise it ends at the height given by the net balance of the parts. |
| RepoPath.ReduceKeepsNames | crates/ecc-kernel/src/main.rs:272-285 | Every name left on the stack was already on it or is a real part (not empty, `.` or `..`) of the input. |
| RepoPath.NormalizedShape | crates/ecc-kernel/src/main.rs:272-289 | An accepted path is non-empty and has no backslash. It splits at `/` into exactly as many real names as the balance says, and each name comes from the input. |
| RepoPath.DriveLetterAfterCollapse | crates/ecc-kernel/src/main.rs:259-289 | Take a name `x` with no `/`, `\` or `:`, a drive letter `d` and a name `f` with no `/` or `\`. Then `x/../d:/f` is accepted as `d:/f`, and `d:/f` is rejected. So normalising is not idempotent. |
| DiffHeaders.TouchedFiles | crates/ecc-kernel/src/main.rs:297-330 | The loop, with its `seen` set, builds exactly the list of the reference `Extract`. |
| DiffHeaders.ExtractSplit | crates/ecc-kernel/src/main.rs:317-328 | The invalid entries are every raw file that does not normalise, repeats kept. The valid entries are the normal forms with later repeats dropped. |
| DiffHeaders.DedupFirstOccurrence | crates/ecc-kernel/src/main.rs:318-323 | Dropping repeats keeps every element exactly once, loses none, and keeps first-occurrence order. |
| DiffHeaders.TouchedFilesContract | crates/ecc-kernel/src/main.rs:297-330 | The valid paths are distinct, are exactly the normal forms of the headers' files, and come in first-occurrence order. Every file that fails to normalise is listed raw, once per header. |
| DiffHeaders.HeaderOfTwoTokens | crates/ecc-kernel/src/main.rs:302-316 | For a header `diff --git <a> <b> …` whose first token `a` is not `diff`, the first two tokens decide; any whitespace run may separate them, and any further tokens are ignored. The header names `b` without `b/`, or `a` without `a/` when that is `/dev/null`. |
| DiffHeaders.SpacedPathHeader | crates/ecc-kernel/src/main.rs:306-316 | The header git writes for `my file`, `diff --git a/my file b/my file`, names `file`. |
| DiffHeaders.HeaderOfOneToken | crates/ecc-kernel/src/main.rs:306-312 | A header with one token or none, with any whitespace around it, names no file. |
| Strings.LinesJoin | crates/ecc-kernel/src/main.rs:300 | For newline-terminated text without `\r`, the lines joined with `\n`, plus the final `\n`, give back the text. |
| Ownership.IsAuthorized | crates/ecc-kernel/src/main.rs:353-360 | The inner loop sets `ok` exactly when some allowed prefix covers the path, as the path itself without trailing `/` or as a leading prefix. |
| Ownership.CollectViolations | crates/ecc-kernel/src/main.rs:347-364 | The outer loop collects exactly the reference violation lines, in entry order. |
| Ownership.EnsureOwned | crates/ecc-kernel/src/main.rs:333-373 | `ensure_owned` returns exactly the outcome of the reference `CheckOwnership`. |
| Ownership.AllowedPrefixesEmptyIff | crates/ecc-kernel/src/main.rs:334-345 | No prefix survives exactly when every raw prefix is blank. |
| Ownership.ViolationsEmptyIff | crates/ecc-kernel/src/main.rs:347-366 | There is no violation exactly when every entry is valid and authorised. |
| Ownership.ViolationsAppend | crates/ecc-kernel/src/main.rs:347-364 | The violations of a concatenation are those of each part, in order. A bad entry never hides the lines of later entries. |
| Ownership.OwnershipContract | crates/ecc-kernel/src/main.rs:333-373 | The check passes exactly when some prefix is non-blank and every entry is valid and authorised. It fails with the empty-prefixes error exactly when all prefixes are blank. |
| Ownership.AuthorizedBySetOnly | crates/ecc-kernel/src/main.rs:340-341 | Authorisation depends only on the set of prefixes, so sorting and deduplicating them changes nothing. |
| Ownership.CoversSlashIff | crates/ecc-kernel/src/main.rs:355-356 | `q/` covers a path exactly when the `/`-components of `q` are a prefix of the path's. |
| Ownership.PrefixIsComponentPrefix | crates/ecc-kernel/src/main.rs:334-360 | An allowed prefix `q` (no backslash, not blank, no trailing `/`) authorises exactly the paths whose components begin with those of `q`. |
| Ownership.SrcPrefixExample | crates/ecc-kernel/src/main.rs:353-360 | `src/` authorises `src/a.txt` and rejects `srcx/a.txt` and `README.md`. |
| Ownership.SrcNestedExample | crates/ecc-kernel/src/main.rs:334-360 | The configured prefix `src` is kept as `src/` and authorises `src/sub/b.txt`. |
| PatchApply.GitFailure | crates/ecc-kernel/src/main.rs:413-434 | The error of a failed `git` step is never empty. A spawn failure gives a `git failed: ` message. A blank stderr gives the step's fallback (`git apply --check failed` or `git apply failed`). Otherwise the error is stderr without its trailing whitespace. |
| PatchApply.ApplyPatchOrder | crates/ecc-kernel/src/main.rs:387-444 | An unreadable file, a blank patch, a patch without headers and a failed ownership check each return their own answer before any `git` call. `git` runs at most twice, and the dry run comes first. The real apply runs only after a successful dry run. |
| PatchApply.ApplyPatchSuccess | crates/ecc-kernel/src/main.rs:387-444 | The gate succeeds exactly for a readable patch that is blank, or one that has headers, passes ownership and is accepted by both `git` steps. |
| PatchApply.ValidPathsAuthorized | crates/ecc-kernel/src/main.rs:404-442 | After a passed ownership check, every returned path is authorised. |
| PatchApply.ApplyPatchTouched | crates/ecc-kernel/src/main.rs:400-443 | A non-blank patch that gets through ran the dry run and then the apply. It returns the distinct normal forms of its header files, in first-occurrence order, each authorised. |
| Slugs.CollapseLoop | crates/ecc-kernel/src/main.rs:536-547 | The character loop with `last_was_dash` computes exactly the reference `Collapse`, which is defined run by run. |
| Slugs.CollapseSnoc | crates/ecc-kernel/src/main.rs:538-547 | One more character appends itself if kept, nothing if it continues a dropped run, and `-` if it starts one. |
| Slugs.CollapseRun | crates/ecc-kernel/src/main.rs:539-546 | A maximal run of dropped characters becomes a single `-`, wherever it occurs. The parts before and after it collapse on their own. |
| Slugs.CollapseAfterKept | crates/ecc-kernel/src/main.rs:539-546 | After a kept character, `last_was_dash` is reset: the text before it and the text after it collapse separately. |
| Slugs.SafeName | crates/ecc-kernel/src/main.rs:535-554 | `safe_name` returns exactly the reference `Slug`. |
| Slugs.SlugShape | crates/ecc-kernel/src/main.rs:535-554 | The slug is never empty, uses only lower-case ASCII letters, digits, `.`, `_` and `-`, and neither starts nor ends with `-`. |
| Slugs.CollapseChars | crates/ecc-kernel/src/main.rs:539-546 | Every character of the collapsed name is `-` or a kept character of the input. |
| Slugs.SlugFallback | crates/ecc-kernel/src/main.rs:548-553 | The trimmed slug is empty, so that `command` is used, exactly when the name has no letter, digit, `.` or `_`. Both directions hold. |
| Slugs.KeptSurvives | crates/ecc-kernel/src/main.rs:537-548 | Every letter, digit, `.` or `_` of the name appears in the slug, lower-cased. |
| Slugs.SlugOfSlugShaped | crates/ecc-kernel/src/main.rs:535-554 | A string that already has the slug's shape is its own slug. |
| Slugs.SlugIdempotent | crates/ecc-kernel/src/main.rs:535-554 | `safe_name(safe_name(n)) == safe_name(n)`. |
| VerifyRun.RecordRun | crates/ecc-kernel/src/main.rs:592-607 | The record of one started command is the reference `ResultOf`, with its output path `<outDir>/<slug>.txt`. |
| VerifyRun.RunCommands | crates/ecc-kernel/src/main.rs:588-608 | The loop returns the reference `Outcomes`, and on success `all_ok` is the AND of the recorded `ok` flags. |
| VerifyRun.RunVerify | crates/ecc-kernel/src/main.rs:582-628 | `verify_run` returns exactly the reference `Verify`. |
| VerifyRun.OutcomesOk | crates/ecc-kernel/src/main.rs:591-608 | The loop succeeds exactly when every command starts. On success it gives one record per command, in order. |
| VerifyRun.OutcomesErrSticks | crates/ecc-kernel/src/main.rs:595 | Once a command fails to start, the later commands change nothing. |
| VerifyRun.FirstShellError | crates/ecc-kernel/src/main.rs:591-608 | The first command that fails to start decides the error. |
| VerifyRun.VerifySucceeds | crates/ecc-kernel/src/main.rs:582-628 | `verify_run` succeeds exactly when the directory is created, every command starts, and the summary is written. A non-zero exit never stops the run. |
| VerifyRun.VerifySummaryContents | crates/ecc-kernel/src/main.rs:588-615 | A summary has version 1, the given time and one record per command. Each record holds the name, the command line and the exit code (1 when killed by a signal), `ok` exactly for exit 0, and `<outDir>/<slug>.txt`. The summary's `ok` holds exactly when every record's `ok` does. |
| VerifyRun.VerifyStopsAtShellError | crates/ecc-kernel/src/main.rs:591-608 | With the directory created, the first command that fails to start ends `verify_run` with its message. |
| Worktree.Components | crates/ecc-kernel/src/main.rs:65 | `Path::components` on Unix puts the root only first and yields only real names. |
| Worktree.JoinPath | crates/ecc-kernel/src/main.rs:97 | `join` of a relative path keeps the base as a prefix and the name as a suffix, with at most one `/` added between them. |
| Worktree.StackLoop | crates/ecc-kernel/src/main.rs:64-82 | The component loop computes exactly the reference `Normalize`. |
| Worktree.PushLoop | crates/ecc-kernel/src/main.rs:84-88 | The `PathBuf` loop computes exactly the reference `Render`. |
| Worktree.NormalizeWorktreePath | crates/ecc-kernel/src/main.rs:62-90 | `normalize_worktree_path` returns exactly the reference `NormalizedPath`. |
| Worktree.NormalizeNormal | crates/ecc-kernel/src/main.rs:64-82 | The stack holds no `.`, the root only first, `..` only after the root or other `..`, and only real names. |
| Worktree.NormalizeFixed | crates/ecc-kernel/src/main.rs:64-82 | A component list in normal form passes through the loop unchanged. |
| Worktree.NormalizeIdempotent | crates/ecc-kernel/src/main.rs:64-82 | Normalising the components twice is normalising them once. |
| Worktree.ComponentsOfRender | crates/ecc-kernel/src/main.rs:84-89 | Parsing the rendered path of a normal form gives that normal form back. |
| Worktree.NormalizedPathIdempotent | crates/ecc-kernel/src/main.rs:62-90 | `normalize_worktree_path` is idempotent on paths. |
| Worktree.AbsPath | crates/ecc-kernel/src/main.rs:92-99 | It fails exactly for a relative path whose current directory cannot be read, and the message is `failed to get cwd: ` followed by the reason. Every result it returns is already normalised. |
| Worktree.AbsPathAbsolute | crates/ecc-kernel/src/main.rs:92-99 | An absolute path, or any path with an absolute current directory, yields an absolute path. |
| Worktree.ComponentsOfNormalized | crates/ecc-kernel/src/main.rs:101-104 | The components of a normalised path are the normalised components of the path. |
| Worktree.AssertExternalIff | crates/ecc-kernel/src/main.rs:101-112 | If both paths resolve, the worktree is refused exactly when the repository's normalised components are a prefix of the worktree's, and the message names both normalised paths. Otherwise the cwd error is returned. |
| Worktree.SiblingAccepted | crates/ecc-kernel/src/main.rs:104-110 | For distinct names `r` and `s`, `/s` is accepted next to the repository `/r`. |
| Worktree.RepoTwoAccepted | crates/ecc-kernel/src/main.rs:104-110 | `/repo2` begins with the text `/repo` but is accepted next to the repository `/repo`. |
| Worktree.InsideRefused | crates/ecc-kernel/src/main.rs:104-110 | A worktree `/r/w` directly below the repository `/r` is refused. |

## Left out

- `git`, the shell, the file system and the clock are not modelled. Each result they give is an input:
  - the read of the patch file, as a `Result`;
  - each `git` run, as spawn failure or exit with stderr;
  - each shell run, as an error, an exit code or a signal;
  - `create_dir_all` and the summary write;
  - `now_iso()`, as a string;
  - `current_dir()`, as a `Result`.
- `touched_files_from_unified_diff` opens the patch a second time and reads it line by line. Errors from that second open and those reads are not modelled: the lines come from the text `patch_apply` already read.
- `BufRead::lines` is modelled over text: split at `\n`, strip one `\r` before a `\n`, drop an empty last line. Invalid UTF-8 is not modelled, since strings here are sequences of characters.
- Whitespace (`trim`, `trim_end`, `split_whitespace`) is the ASCII part of Unicode `White_Space`, and `to_lowercase` lower-cases only ASCII letters. Unicode case mapping can produce ASCII from non-ASCII characters (the Kelvin sign lower-cases to `k`); that is not covered.
- PatchApply.GitFailure: for a spawn failure, the contract states only that the message starts with `git failed: `. The reason that follows it is visible in the definition.
- Slugs.SafeName: because lower-casing is ASCII-only, a name with non-ASCII letters whose lower case is ASCII gets a different slug than in the source.
- `ensure_owned` sorts and deduplicates the allowed prefixes before its loop. The model keeps them in input order; `AuthorizedBySetOnly` shows this changes no decision.
- `abs_path` is called twice and may read the current directory twice. The model gives both calls the same current-directory result.
- Paths are Unix paths: no Windows `Prefix` components and no `\` separators in `Path`.
- Exit codes are unbounded integers; the source's `i32` is taken as given.
- A failure to serialise the summary to JSON (`to_string_pretty`) is not modelled.
- Several inner loops are factored into their own methods: `IsAuthorized`, `CollectViolations`, `CollapseLoop`, `RecordRun`, `RunCommands`, `StackLoop` and `PushLoop`. Each is one loop or loop body of the source.
- The other operations in the file are not part of this model: `worktree_ensure`, `worktree_remove`, `commit_all`, `is_git_worktree`, `branch_exists`, `ensure_branch_at`, JSON input and output, `usage` and `main`.
