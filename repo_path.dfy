/** `normalize_repo_path`: turns a path named in a patch into the canonical
    `a/b/c` form relative to the repository root, or rejects it. */
module RepoPath {
  import opened Strings
  import opened Results

  /** `p.replace('\\', "/")`. */
  function Posix(p: string): string {
    ReplaceChar(p, '\\', '/')
  }

  predicate IsAsciiAlpha(c: char) {
    ('a' <= c <= 'z') || ('A' <= c <= 'Z')
  }

  /** `<letter>:/` at the start: a Windows drive path. */
  predicate HasDriveLetter(s: string) {
    |s| >= 3 && IsAsciiAlpha(s[0]) && s[1] == ':' && s[2] == '/'
  }

  /** A part the stack loop skips. */
  predicate IsSkipped(part: string) {
    part == "" || part == "."
  }


  /** The stack loop of `normalize_repo_path` over the remaining parts;
      `None` when a `..` finds the stack empty. */
  function Reduce(stack: seq<string>, parts: seq<string>): Option<seq<string>>
    decreases |parts|
  {
    if parts == [] then Some(stack)
    else if IsSkipped(parts[0]) then Reduce(stack, parts[1..])
    else if parts[0] == ".." then
      if stack == [] then None else Reduce(stack[..|stack| - 1], parts[1..])
    else Reduce(stack + [parts[0]], parts[1..])
  }

  /** The value `normalize_repo_path` returns. */
  function Normalized(p: string): Option<string> {
    var posix := Posix(p);
    if StartsWith(posix, "/") then None
    else if HasDriveLetter(posix) then None
    else match Reduce([], Split(posix, '/'))
      case None => None
      case Some(stack) => if stack == [] then None else Some(Join(stack, "/"))
  }

  /** The loop as the source writes it: a `Vec` used as a stack. */
  method NormalizeRepoPath(p: string) returns (r: Option<string>)
    ensures r == Normalized(p)
  {
    var posix := ReplaceChar(p, '\\', '/');
    if |posix| > 0 && posix[0] == '/' {
      return None;
    }
    if |posix| >= 3 {
      var c0, c1, c2 := posix[0], posix[1], posix[2];
      if IsAsciiAlpha(c0) && c1 == ':' && c2 == '/' {
        return None;
      }
    }
    var parts := Split(posix, '/');
    var stack: seq<string> := [];
    var i := 0;
    while i < |parts|
      invariant 0 <= i <= |parts|
      invariant Reduce([], parts) == Reduce(stack, parts[i..])
    {
      assert parts[i..][1..] == parts[i + 1..];
      var part := parts[i];
      if part == "" || part == "." {
        i := i + 1;
        continue;
      }
      if part == ".." {
        if stack == [] {
          return None;
        }
        stack := stack[..|stack| - 1];
        i := i + 1;
        continue;
      }
      stack := stack + [part];
      i := i + 1;
    }
    assert parts[i..] == [];
    if stack == [] {
      return None;
    }
    r := Some(Join(stack, "/"));
  }

  /** How a part changes the stack height. */
  function Delta(part: string): int {
    if IsSkipped(part) then 0 else if part == ".." then -1 else 1
  }

  /** Net change of the stack height over a run of parts. */
  function Balance(parts: seq<string>): int
    decreases |parts|
  {
    if parts == [] then 0 else Delta(parts[0]) + Balance(parts[1..])
  }

  /** Starting at height `depth`, some prefix of the parts pops below the bottom. */
  ghost predicate EscapesFrom(depth: int, parts: seq<string>) {
    exists k :: 0 <= k <= |parts| && depth + Balance(parts[..k]) < 0
  }

  /** The path climbs above the repository root at some point. */
  ghost predicate Escapes(parts: seq<string>) {
    EscapesFrom(0, parts)
  }

  lemma BalanceCons(x: string, rest: seq<string>)
    ensures Balance([x] + rest) == Delta(x) + Balance(rest)
  {
    assert ([x] + rest)[1..] == rest;
  }

  /** The stack loop fails exactly when a prefix of the parts escapes, and
      otherwise ends at the height given by the balance. */
  lemma {:induction false} ReduceBalance(stack: seq<string>, parts: seq<string>)
    ensures Reduce(stack, parts).None? <==> EscapesFrom(|stack|, parts)
    ensures Reduce(stack, parts).Some? ==> |Reduce(stack, parts).value| == |stack| + Balance(parts)
    decreases |parts|
  {
    if parts == [] {
      assert parts[..0] == [];
    } else {
      var x, rest := parts[0], parts[1..];
      var d := if IsSkipped(x) then |stack| else if x == ".." then |stack| - 1 else |stack| + 1;
      forall k | 1 <= k <= |parts|
        ensures |stack| + Balance(parts[..k]) == d + Balance(rest[..k - 1])
      {
        assert parts[..k] == [x] + rest[..k - 1];
        BalanceCons(x, rest[..k - 1]);
      }
      assert parts[..0] == [];
      BalanceCons(x, rest);
      assert parts == [x] + rest;
      if x == ".." && stack == [] {
        assert |stack| + Balance(parts[..1]) < 0;
      } else {
        var next := if IsSkipped(x) then stack else if x == ".." then stack[..|stack| - 1] else stack + [x];
        assert Reduce(stack, parts) == Reduce(next, rest);
        assert |next| == d;
        ReduceBalance(next, rest);
        if EscapesFrom(d, rest) {
          var k :| 0 <= k <= |rest| && d + Balance(rest[..k]) < 0;
          assert |stack| + Balance(parts[..k + 1]) < 0;
        }
        if EscapesFrom(|stack|, parts) {
          var k :| 0 <= k <= |parts| && |stack| + Balance(parts[..k]) < 0;
          assert k >= 1;
          assert d + Balance(rest[..k - 1]) < 0;
        }
      }
    }
  }

  /** Every name left on the stack was on it before or is a real name from the parts. */
  lemma {:induction false} ReduceKeepsNames(stack: seq<string>, parts: seq<string>)
    requires Reduce(stack, parts).Some?
    ensures forall s :: s in Reduce(stack, parts).value ==> s in stack || (s in parts && IsSegment(s))
    decreases |parts|
  {
    if parts != [] {
      var x, rest := parts[0], parts[1..];
      var next := if IsSkipped(x) then stack else if x == ".." then stack[..|stack| - 1] else stack + [x];
      assert Reduce(stack, parts) == Reduce(next, rest);
      ReduceKeepsNames(next, rest);
      forall s | s in next ensures s in stack || (s in parts && IsSegment(s)) {
        if !IsSkipped(x) && x != ".." && s == x {
          assert x == parts[0];
        } else {
          assert s in stack;
        }
      }
      assert forall s :: s in rest ==> s in parts;
    }
  }

  /** `normalize_repo_path` returns `None` exactly in the four rejected cases:
      a leading `/`, a drive letter, a `..` with nothing left to pop, or
      nothing left at all. */
  lemma NormalizedNone(p: string)
    ensures var posix := Posix(p); var parts := Split(posix, '/');
      Normalized(p).None? <==>
        StartsWith(posix, "/") || HasDriveLetter(posix) || Escapes(parts) || Balance(parts) == 0
  {
    ReduceBalance([], Split(Posix(p), '/'));
  }

  /** An accepted path is non-empty, has no backslash, and splits at `/` into
      real names that all come from the input, as many as the balance says. */
  lemma NormalizedShape(p: string)
    requires Normalized(p).Some?
    ensures var r := Normalized(p).value; var parts := Split(Posix(p), '/');
      && r != ""
      && '\\' !in r
      && |Split(r, '/')| == Balance(parts)
      && (forall i :: 0 <= i < |Split(r, '/')| ==> IsSegment(Split(r, '/')[i]) && Split(r, '/')[i] in parts)
  {
    var posix := Posix(p);
    var parts := Split(posix, '/');
    var stack := Reduce([], parts).value;
    var r := Normalized(p).value;
    assert r == Join(stack, "/");
    ReduceBalance([], parts);
    ReduceKeepsNames([], parts);
    assert forall i :: 0 <= i < |stack| ==> stack[i] in stack;
    SplitJoin(stack, '/');
    assert Split(r, '/') == stack;
    assert Split("", '/') == [""];
    assert stack[0] in stack;
    forall i | 0 <= i < |stack| ensures '\\' !in stack[i] {
      assert stack[i] in stack;
      var j :| 0 <= j < |parts| && parts[j] == stack[i];
      SplitPartsWithout(posix, '/', '\\');
    }
    JoinWithout(stack, "/", '\\');
  }

  /** The parts of `d:/f`. */
  lemma DriveTailParts(d: char, f: string)
    requires d != '/' && '/' !in f
    ensures Split([d, ':'] + "/" + f, '/') == [[d, ':'], f]
  {
    SplitNoSep(f, '/');
    SplitCons([d, ':'], '/', f);
  }

  /** The parts of `x/../d:/f`. */
  lemma DriveParts(x: string, d: char, f: string)
    requires '/' !in x && d != '/' && '/' !in f
    ensures Split(x + "/../" + [d, ':'] + "/" + f, '/') == [x, "..", [d, ':'], f]
  {
    var drive := [d, ':'] + "/" + f;
    DriveTailParts(d, f);
    var up := ".." + ['/'] + drive;
    SplitCons("..", '/', drive);
    var s := x + ['/'] + up;
    SplitCons(x, '/', up);
    assert s == x + "/../" + [d, ':'] + "/" + f;
  }

  /** What the stack loop leaves of the parts of `x/../d:/f`. */
  lemma CollapsedDriveStack(x: string, d: char, f: string)
    requires IsSegment(x) && '/' !in x
    requires d != '/'
    requires IsSegment(f) && '/' !in f
    ensures Reduce([], Split(x + "/../" + [d, ':'] + "/" + f, '/')) == Some([[d, ':'], f])
  {
    DriveParts(x, d, f);
    var parts := [x, "..", [d, ':'], f];
    assert parts[1..][1..] == parts[2..] && parts[2..][1..] == parts[3..] && parts[3..][1..] == [];
    assert Reduce([], parts) == Reduce([x], parts[1..]);
    assert Reduce([x], parts[1..]) == Reduce([], parts[2..]);
    assert [] + [[d, ':']] == [[d, ':']];
    assert Reduce([], parts[2..]) == Reduce([[d, ':']], parts[3..]);
    assert parts[3..] == [f] && [[d, ':']] + [f] == [[d, ':'], f];
    assert Reduce([[d, ':']], parts[3..]) == Reduce([[d, ':'], f], []);
  }

  /** The drive-letter test runs before `..` is collapsed, so normalising is
      not idempotent: `x/../c:/foo` is accepted as `c:/foo`, which is itself
      rejected. Stated for any name `x`, drive letter `d` and name `f`. */
  lemma DriveLetterAfterCollapse(x: string, d: char, f: string)
    requires IsSegment(x) && '/' !in x && '\\' !in x && ':' !in x
    requires IsAsciiAlpha(d)
    requires IsSegment(f) && '/' !in f && '\\' !in f
    ensures Normalized(x + "/../" + [d, ':'] + "/" + f) == Some([d, ':'] + "/" + f)
    ensures Normalized([d, ':'] + "/" + f) == None
  {
    var drive := [d, ':'] + "/" + f;
    var s := x + "/../" + [d, ':'] + "/" + f;
    assert '\\' !in s;
    ReplaceCharAbsent(s, '\\', '/');
    assert !StartsWith(s, "/") by { assert s[0] == x[0]; }
    assert !HasDriveLetter(s) by {
      if |x| >= 2 { assert s[1] == x[1]; } else { assert s[1] == '/'; }
    }
    CollapsedDriveStack(x, d, f);
    assert Posix(s) == s;
    assert Reduce([], Split(Posix(s), '/')) == Some([[d, ':'], f]);
    assert Join([[d, ':'], f], "/") == drive;
    assert '\\' !in drive;
    ReplaceCharAbsent(drive, '\\', '/');
  }
}
