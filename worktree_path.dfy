/** `normalize_worktree_path`, `abs_path` and `assert_external_worktree_path`:
    lexical path normalisation over Unix path components, and the refusal
    to place a worktree inside the repository it belongs to. The current
    directory is an input, as is the failure to read it. */
module Worktree {
  import opened Strings
  import opened Results

  const RecursionError: string := "Refusing to create worktree inside repo root (would recurse): repoRoot="

  /** `std::path::Component` as Unix paths produce it (no `Prefix`). */
  datatype Component = RootDir | CurDir | ParentDir | Normal(name: string)

  /** A real file name as `Path::components` yields it: a segment, which on
      Unix never holds the separator `/`. */
  predicate IsName(s: string) {
    IsSegment(s) && '/' !in s
  }

  predicate ValidNames(cs: seq<Component>) {
    forall i :: 0 <= i < |cs| ==> cs[i].Normal? ==> IsName(cs[i].name)
  }

  /** The root can only come first. */
  predicate RootFirst(cs: seq<Component>) {
    forall i :: 0 <= i < |cs| && cs[i] == RootDir ==> i == 0
  }

  /** The components of the `/`-separated parts after the first: empty parts
      and `.` are dropped. */
  function Parse(parts: seq<string>): (r: seq<Component>)
    requires forall i :: 0 <= i < |parts| ==> '/' !in parts[i]
    ensures ValidNames(r)
    ensures forall i :: 0 <= i < |r| ==> r[i] != CurDir && r[i] != RootDir
    decreases |parts|
  {
    if parts == [] then []
    else
      var p := parts[0];
      var rest := Parse(parts[1..]);
      if p == "" || p == "." then rest
      else if p == ".." then [ParentDir] + rest
      else [Normal(p)] + rest
  }

  /** `Path::components` on Unix: a leading `/` is the root, a leading `.`
      of a relative path is kept, every later `.` and every empty part
      (repeated or trailing `/`) is dropped. */
  function Components(p: string): (r: seq<Component>)
    ensures RootFirst(r) && ValidNames(r)
  {
    var parts := Split(p, '/');
    if StartsWith(p, "/") then
      var rest := Parse(parts[1..]);
      assert forall i :: 1 <= i < |rest| + 1 ==> ([RootDir] + rest)[i] == rest[i - 1];
      [RootDir] + rest
    else if parts[0] == "." then
      var rest := Parse(parts[1..]);
      assert forall i :: 1 <= i < |rest| + 1 ==> ([CurDir] + rest)[i] == rest[i - 1];
      [CurDir] + rest
    else Parse(parts)
  }

  // ---- normalize_worktree_path ----

  /** One step of the stack loop: `.` is dropped; `..` pops a name, but is
      kept when nothing, the root or another `..` precedes it; anything
      else is pushed. */
  function Push(out: seq<Component>, c: Component): seq<Component> {
    match c
    case CurDir => out
    case ParentDir =>
      if out == [] then [c]
      else if out[|out| - 1] == ParentDir || out[|out| - 1] == RootDir then out + [c]
      else out[..|out| - 1]
    case _ => out + [c]
  }

  /** The stack after the given components. */
  function Normalize(cs: seq<Component>): seq<Component>
    decreases |cs|
  {
    if cs == [] then [] else Push(Normalize(cs[..|cs| - 1]), cs[|cs| - 1])
  }

  /** The text `as_os_str` gives a component. */
  function Text(c: Component): string {
    match c
    case RootDir => "/"
    case CurDir => "."
    case ParentDir => ".."
    case Normal(name) => name
  }

  /** `PathBuf::join` of a path that does not start with `/`: a `/` is added
      only when the base is non-empty and does not already end in one. */
  function JoinPath(dir: string, name: string): (r: string)
    ensures |r| == |dir| + |name| || |r| == |dir| + 1 + |name|
    ensures StartsWith(r, dir) && r[|r| - |name|..] == name
  {
    if dir == [] || EndsWithChar(dir, '/') then
      assert (dir + name)[..|dir|] == dir;
      dir + name
    else
      assert (dir + "/" + name)[..|dir|] == dir;
      dir + "/" + name
  }

  /** `PathBuf::push`: a path starting with `/` replaces the buffer. */
  function PushPath(buf: string, s: string): string {
    if StartsWith(s, "/") then s else JoinPath(buf, s)
  }

  /** The `PathBuf` built by pushing each component's text in turn. */
  function Render(cs: seq<Component>): string
    decreases |cs|
  {
    if cs == [] then "" else PushPath(Render(cs[..|cs| - 1]), Text(cs[|cs| - 1]))
  }

  /** The value `normalize_worktree_path` returns. */
  function NormalizedPath(p: string): string {
    Render(Normalize(Components(p)))
  }

  /** The source's two loops: the component stack, then the `PathBuf` pushes. */
  method NormalizeWorktreePath(p: string) returns (r: string)
    ensures r == NormalizedPath(p)
  {
    var out := StackLoop(Components(p));
    r := PushLoop(out);
  }

  /** The first loop: `.` skipped, `..` popping a name where it can. */
  method StackLoop(cs: seq<Component>) returns (out: seq<Component>)
    ensures out == Normalize(cs)
  {
    out := [];
    var i := 0;
    while i < |cs|
      invariant 0 <= i <= |cs|
      invariant out == Normalize(cs[..i])
    {
      var c := cs[i];
      assert cs[..i + 1][..i] == cs[..i];
      match c {
        case CurDir =>
        case ParentDir =>
          if out != [] {
            var last := out[|out| - 1];
            if last == ParentDir {
              out := out + [c];
            } else if last != RootDir {
              out := out[..|out| - 1];
            } else {
              out := out + [c];
            }
          } else {
            out := out + [c];
          }
        case _ =>
          out := out + [c];
      }
      i := i + 1;
    }
    assert cs[..i] == cs;
  }

  /** The second loop: each component pushed onto a fresh `PathBuf`. */
  method PushLoop(out: seq<Component>) returns (r: string)
    ensures r == Render(out)
  {
    r := "";
    var j := 0;
    while j < |out|
      invariant 0 <= j <= |out|
      invariant r == Render(out[..j])
    {
      assert out[..j + 1][..j] == out[..j];
      r := PushPath(r, Text(out[j]));
      j := j + 1;
    }
    assert out[..j] == out;
  }

  // ---- What normalisation promises ----

  /** No `.`, the root only first, and a `..` only after the root or other
      `..`: nothing is left that could still be collapsed. */
  predicate NormalForm(cs: seq<Component>) {
    && RootFirst(cs)
    && (forall i :: 0 <= i < |cs| ==> cs[i] != CurDir)
    && (forall i, j :: 0 <= j < i < |cs| && cs[i] == ParentDir ==> cs[j] == RootDir || cs[j] == ParentDir)
  }

  lemma PushNormal(out: seq<Component>, c: Component)
    requires NormalForm(out)
    requires c == RootDir ==> out == []
    ensures NormalForm(Push(out, c))
  {
    if c == ParentDir && out != [] && (out[|out| - 1] == ParentDir || out[|out| - 1] == RootDir) {
      var r := out + [c];
      forall i, j | 0 <= j < i < |r| && r[i] == ParentDir ensures r[j] == RootDir || r[j] == ParentDir {
        if i == |out| {
          if j < |out| - 1 {
            assert out[|out| - 1] == ParentDir || j == 0;
          }
        }
      }
    }
  }

  lemma PushNames(out: seq<Component>, c: Component)
    requires ValidNames(out) && (c.Normal? ==> IsName(c.name))
    ensures ValidNames(Push(out, c))
  {
  }

  /** The stack loop leaves its output in normal form and keeps only real names. */
  lemma {:induction false} NormalizeNormal(cs: seq<Component>)
    requires RootFirst(cs) && ValidNames(cs)
    ensures NormalForm(Normalize(cs)) && ValidNames(Normalize(cs))
    decreases |cs|
  {
    if cs != [] {
      var init := cs[..|cs| - 1];
      assert forall i :: 0 <= i < |init| ==> init[i] == cs[i];
      NormalizeNormal(init);
      if cs[|cs| - 1] == RootDir {
        assert init == [];
      }
      PushNormal(Normalize(init), cs[|cs| - 1]);
      PushNames(Normalize(init), cs[|cs| - 1]);
    }
  }

  /** A path already in normal form is left as it is. */
  lemma {:induction false} NormalizeFixed(x: seq<Component>)
    requires NormalForm(x)
    ensures Normalize(x) == x
    decreases |x|
  {
    if x != [] {
      var init := x[..|x| - 1];
      NormalFormInit(x);
      NormalizeFixed(init);
      PushLastOfNormal(x);
    }
  }

  lemma NormalFormInit(x: seq<Component>)
    requires NormalForm(x) && x != []
    ensures NormalForm(x[..|x| - 1])
  {
    var init := x[..|x| - 1];
    assert forall i :: 0 <= i < |init| ==> init[i] == x[i];
  }

  /** Pushing the last component of a normal form back onto the rest gives it back. */
  lemma PushLastOfNormal(x: seq<Component>)
    requires NormalForm(x) && x != []
    ensures Push(x[..|x| - 1], x[|x| - 1]) == x
  {
    var init := x[..|x| - 1];
    var c := x[|x| - 1];
    if c == ParentDir && init != [] {
      assert init[|init| - 1] == x[|x| - 2];
      assert x[|x| - 2] == RootDir || x[|x| - 2] == ParentDir;
    }
    assert init + [c] == x;
  }


  /** Normalising twice is normalising once. */
  lemma NormalizeIdempotent(cs: seq<Component>)
    requires RootFirst(cs) && ValidNames(cs)
    ensures Normalize(Normalize(cs)) == Normalize(cs)
  {
    NormalizeNormal(cs);
    NormalizeFixed(Normalize(cs));
  }

  // ---- Rendering and parsing back ----

  function Texts(cs: seq<Component>): (r: seq<string>)
    ensures |r| == |cs|
    decreases |cs|
  {
    if cs == [] then [] else Texts(cs[..|cs| - 1]) + [Text(cs[|cs| - 1])]
  }

  /** Components that render as a non-empty text without `/`. */
  predicate Steps(cs: seq<Component>) {
    forall i :: 0 <= i < |cs| ==> cs[i] == ParentDir || (cs[i].Normal? && IsName(cs[i].name))
  }

  lemma StepsOfNormal(x: seq<Component>)
    requires NormalForm(x) && ValidNames(x)
    ensures x != [] && x[0] == RootDir ==> Steps(x[1..])
    ensures x == [] || x[0] != RootDir ==> Steps(x)
  {
    if x != [] && x[0] == RootDir {
      forall i | 0 <= i < |x[1..]| ensures x[1..][i] == ParentDir || (x[1..][i].Normal? && IsName(x[1..][i].name)) {
        assert x[1..][i] == x[i + 1];
      }
    }
  }

  lemma JoinStart(t: seq<string>, sep: string)
    requires |t| > 0
    ensures StartsWith(Join(t, sep), t[0])
  {
    if |t| > 1 {
      assert (t[0] + sep + Join(t[1..], sep))[..|t[0]|] == t[0];
    }
  }

  lemma {:induction false} JoinEnd(t: seq<string>, sep: string)
    requires |t| > 0 && t[|t| - 1] != ""
    ensures Join(t, sep) != [] && Join(t, sep)[|Join(t, sep)| - 1] == t[|t| - 1][|t[|t| - 1]| - 1]
    decreases |t|
  {
    if |t| > 1 {
      JoinEnd(t[1..], sep);
    }
  }

  /** The last step of `Render` in the cases that matter: appending a step
      to a rendering that is `"/"`, empty, or ends in a name or `..`. */
  lemma RenderSnoc(x: seq<Component>, c: Component)
    requires c == ParentDir || (c.Normal? && IsName(c.name))
    ensures Render(x + [c]) == JoinPath(Render(x), Text(c))
  {
    var y := x + [c];
    assert y[..|y| - 1] == x && y[|y| - 1] == c;
    StepText(c);
    assert Render(y) == PushPath(Render(x), Text(c));
  }

  lemma StepText(c: Component)
    requires c == ParentDir || (c.Normal? && IsName(c.name))
    ensures Text(c) != [] && Text(c) != "." && '/' !in Text(c) && !StartsWith(Text(c), "/")
  {
    if c == ParentDir {
      var t := Text(c);
      assert t == [t[0], t[1]] && t[0] == '.' && t[1] == '.';
    } else {
      assert Text(c)[0] in Text(c);
    }
  }

  /** Appending a step to a joined path that ends in a name or `..`. */
  lemma JoinPathJoin(t: seq<string>, u: string)
    requires |t| > 0 && t[|t| - 1] != "" && '/' !in t[|t| - 1]
    ensures JoinPath(Join(t, "/"), u) == Join(t + [u], "/")
  {
    JoinLastChar(t);
    JoinPathSep(Join(t, "/"), u);
    JoinSnoc(t, u);
  }

  /** A directory that does not end in `/` gets one before the name. */
  lemma JoinPathSep(dir: string, u: string)
    requires dir != [] && dir[|dir| - 1] != '/'
    ensures JoinPath(dir, u) == dir + "/" + u
  {
  }

  lemma JoinPathRooted(t: seq<string>, u: string)
    requires |t| > 0 && t[|t| - 1] != "" && '/' !in t[|t| - 1]
    ensures JoinPath("/" + Join(t, "/"), u) == "/" + Join(t + [u], "/")
  {
    JoinLastChar(t);
    JoinSnoc(t, u);
    JoinPathUnderRoot(Join(t, "/"), u);
  }

  /** Pushing onto `/` followed by a path that does not end in `/`. */
  lemma JoinPathUnderRoot(j: string, u: string)
    requires j != [] && j[|j| - 1] != '/'
    ensures JoinPath("/" + j, u) == "/" + (j + "/" + u)
  {
    var d := "/" + j;
    assert d[|d| - 1] == j[|j| - 1];
    JoinPathSep(d, u);
    assert d + "/" + u == "/" + (j + "/" + u);
  }

  /** A join whose last piece is a name ends in a character other than `/`. */
  lemma JoinLastChar(t: seq<string>)
    requires |t| > 0 && t[|t| - 1] != "" && '/' !in t[|t| - 1]
    ensures Join(t, "/") != [] && Join(t, "/")[|Join(t, "/")| - 1] != '/'
  {
    JoinEnd(t, "/");
    var last := t[|t| - 1];
    assert last[|last| - 1] in last;
  }

  lemma JoinSnoc(t: seq<string>, u: string)
    requires |t| > 0
    ensures Join(t + [u], "/") == Join(t, "/") + "/" + u
  {
    JoinConcat(t, [u], "/");
    assert Join([u], "/") == u;
  }

  lemma {:induction false} RenderRelative(x: seq<Component>)
    requires Steps(x)
    ensures Render(x) == Join(Texts(x), "/")
    decreases |x|
  {
    if x != [] {
      var init := x[..|x| - 1];
      var c := x[|x| - 1];
      assert forall i :: 0 <= i < |init| ==> init[i] == x[i];
      assert x == init + [c];
      RenderRelative(init);
      if init == [] {
        RenderSnoc(init, c);
        assert Texts(x) == [Text(c)];
      } else {
        RenderRelativeSnoc(init, c);
      }
    }
  }

  /** The step of `RenderRelative` from `init` to `init + [c]`. */
  lemma RenderRelativeSnoc(init: seq<Component>, c: Component)
    requires Steps(init) && init != []
    requires c == ParentDir || (c.Normal? && IsName(c.name))
    requires Render(init) == Join(Texts(init), "/")
    ensures Render(init + [c]) == Join(Texts(init + [c]), "/")
  {
    var x := init + [c];
    assert x[..|x| - 1] == init;
    RenderSnoc(init, c);
    StepText(init[|init| - 1]);
    JoinPathJoin(Texts(init), Text(c));
  }

  /** The step of `RenderRooted` from `init` to `init + [c]`. */
  lemma RenderRootedSnoc(init: seq<Component>, c: Component)
    requires Steps(init) && init != []
    requires c == ParentDir || (c.Normal? && IsName(c.name))
    requires Render([RootDir] + init) == "/" + Join(Texts(init), "/")
    ensures Render([RootDir] + (init + [c])) == "/" + Join(Texts(init + [c]), "/")
  {
    var x := init + [c];
    assert x[..|x| - 1] == init;
    assert [RootDir] + x == ([RootDir] + init) + [c];
    RenderSnoc([RootDir] + init, c);
    StepText(init[|init| - 1]);
    JoinPathRooted(Texts(init), Text(c));
  }

  lemma {:induction false} RenderRooted(x: seq<Component>)
    requires Steps(x)
    ensures Render([RootDir] + x) == "/" + Join(Texts(x), "/")
    decreases |x|
  {
    var y := [RootDir] + x;
    if x == [] {
      assert y == [RootDir] && y[..0] == [];
    } else {
      var init := x[..|x| - 1];
      var c := x[|x| - 1];
      assert forall i :: 0 <= i < |init| ==> init[i] == x[i];
      assert x == init + [c];
      RenderRooted(init);
      if init == [] {
        assert y == [RootDir] + [c];
        RenderSnoc([RootDir], c);
        assert Texts(x) == [Text(c)];
        assert Render([RootDir]) == "/";
      } else {
        RenderRootedSnoc(init, c);
      }
    }
  }

  lemma {:induction false} ParseConcat(a: seq<string>, b: seq<string>)
    requires forall i :: 0 <= i < |a| ==> '/' !in a[i]
    requires forall i :: 0 <= i < |b| ==> '/' !in b[i]
    ensures Parse(a + b) == Parse(a) + Parse(b)
    decreases |a|
  {
    if a == [] {
      assert a + b == b;
    } else {
      assert (a + b)[0] == a[0] && (a + b)[1..] == a[1..] + b;
      ParseConcat(a[1..], b);
    }
  }

  /** The texts of steps are non-empty, free of `/`, and never `.`. */
  lemma {:induction false} TextsSteps(x: seq<Component>)
    requires Steps(x)
    ensures forall i :: 0 <= i < |x| ==> Texts(x)[i] != "" && Texts(x)[i] != "." && '/' !in Texts(x)[i]
    decreases |x|
  {
    if x != [] {
      var init := x[..|x| - 1];
      assert forall i :: 0 <= i < |init| ==> init[i] == x[i];
      TextsSteps(init);
      StepText(x[|x| - 1]);
    }
  }

  lemma {:induction false} ParseTexts(x: seq<Component>)
    requires Steps(x)
    ensures (forall i :: 0 <= i < |x| ==> '/' !in Texts(x)[i]) && Parse(Texts(x)) == x
    decreases |x|
  {
    TextsSteps(x);
    if x != [] {
      var init := x[..|x| - 1];
      var c := x[|x| - 1];
      StepsInit(x);
      ParseTexts(init);
      ParseStep(c);
      ParseConcat(Texts(init), [Text(c)]);
      assert x == init + [c];
    }
  }

  lemma StepsInit(x: seq<Component>)
    requires Steps(x) && x != []
    ensures Steps(x[..|x| - 1])
  {
    var init := x[..|x| - 1];
    assert forall i :: 0 <= i < |init| ==> init[i] == x[i];
  }

  /** A step's text parses back to the step. */
  lemma ParseStep(c: Component)
    requires c == ParentDir || (c.Normal? && IsName(c.name))
    ensures '/' !in Text(c) && Parse([Text(c)]) == [c]
  {
    StepText(c);
    assert [Text(c)][1..] == [];
    if c != ParentDir {
      assert Text(c) != "..";
    }
  }


  lemma ComponentsRooted(x: seq<Component>)
    requires Steps(x)
    ensures Components("/" + Join(Texts(x), "/")) == [RootDir] + x
  {
    var t := Texts(x);
    var j := Join(t, "/");
    var p := "/" + j;
    assert StartsWith(p, "/");
    assert p == "" + ['/'] + j;
    SplitCons("", '/', j);
    if x == [] {
      assert j == "" && Split(j, '/') == [""];
      assert Split(p, '/')[1..] == [""] && [""][1..] == [];
    } else {
      TextsSteps(x);
      SplitJoin(t, '/');
      ParseTexts(x);
    }
  }

  lemma ComponentsRelative(x: seq<Component>)
    requires Steps(x) && x != []
    ensures Components(Join(Texts(x), "/")) == x
  {
    var t := Texts(x);
    var j := Join(t, "/");
    ParseTexts(x);
    SplitJoin(t, '/');
    JoinStart(t, "/");
    FirstText(x);
    assert j[0] == t[0][0];
  }

  /** The first text of steps is neither `.` nor starts with `/`. */
  lemma FirstText(x: seq<Component>)
    requires Steps(x) && x != []
    ensures Texts(x)[0] != [] && Texts(x)[0] != "." && Texts(x)[0][0] != '/'
  {
    TextsSteps(x);
    var t0 := Texts(x)[0];
    assert t0[0] in t0;
  }

  /** Rendering a normal form and parsing it again gives it back. */
  lemma ComponentsOfRender(x: seq<Component>)
    requires NormalForm(x) && ValidNames(x)
    ensures Components(Render(x)) == x
  {
    StepsOfNormal(x);
    if x == [] {
      assert Split("", '/') == [""];
    } else if x[0] == RootDir {
      assert x == [RootDir] + x[1..];
      RenderRooted(x[1..]);
      ComponentsRooted(x[1..]);
    } else {
      RenderRelative(x);
      ComponentsRelative(x);
    }
  }

  /** `normalize_worktree_path` is idempotent. */
  lemma NormalizedPathIdempotent(p: string)
    ensures NormalizedPath(NormalizedPath(p)) == NormalizedPath(p)
  {
    var x := Normalize(Components(p));
    NormalizeNormal(Components(p));
    ComponentsOfRender(x);
    NormalizeFixed(x);
  }

  // ---- abs_path and assert_external_worktree_path ----

  const CwdError: string := "failed to get cwd: "

  /** The path `abs_path` normalises: an absolute path as it is, a relative
      one joined to the current directory. */
  function Resolved(path: string, cwd: Result<string>): string
    requires StartsWith(path, "/") || cwd.Ok?
  {
    if StartsWith(path, "/") then path else JoinPath(cwd.value, path)
  }

  /** `abs_path`: the current directory is read only for a relative path,
      and the result is already normalised. */
  function AbsPath(path: string, cwd: Result<string>): (r: Result<string>)
    ensures r.Err? <==> !StartsWith(path, "/") && cwd.Err?
    ensures r.Err? ==> r.error == CwdError + cwd.error
    ensures r.Ok? ==> NormalizedPath(r.value) == r.value
  {
    if StartsWith(path, "/") then
      NormalizedPathIdempotent(path);
      Ok(NormalizedPath(path))
    else match cwd
      case Err(e) => Err(CwdError + e)
      case Ok(dir) =>
        NormalizedPathIdempotent(JoinPath(dir, path));
        Ok(NormalizedPath(JoinPath(dir, path)))
  }

  /** `assert_external_worktree_path`: both paths are made absolute, the
      repository first, and the worktree is refused when its components
      start with those of the repository. */
  function AssertExternal(repoRoot: string, worktreePath: string, cwd: Result<string>): Outcome {
    match AbsPath(repoRoot, cwd)
    case Err(e) => Fail(e)
    case Ok(repo) =>
      match AbsPath(worktreePath, cwd)
      case Err(e) => Fail(e)
      case Ok(wt) =>
        if Components(repo) <= Components(wt) then
          Fail(RecursionError + repo + " worktreePath=" + wt)
        else Pass
  }

  /** The normalised components of a path are those of its normal form. */
  lemma ComponentsOfNormalized(p: string)
    ensures Components(NormalizedPath(p)) == Normalize(Components(p))
  {
    NormalizeNormal(Components(p));
    ComponentsOfRender(Normalize(Components(p)));
  }

  /** The refusal compares whole components after normalisation: it happens
      exactly when the repository's normalised components are a prefix of
      the worktree's, with both paths named in the message; a relative
      path without a current directory fails with the cwd error. */
  lemma AssertExternalIff(repoRoot: string, worktreePath: string, cwd: Result<string>)
    ensures (StartsWith(repoRoot, "/") || cwd.Ok?) && (StartsWith(worktreePath, "/") || cwd.Ok?) ==>
      var repo := Resolved(repoRoot, cwd);
      var wt := Resolved(worktreePath, cwd);
      && (AssertExternal(repoRoot, worktreePath, cwd).Fail? <==>
          Normalize(Components(repo)) <= Normalize(Components(wt)))
      && (AssertExternal(repoRoot, worktreePath, cwd).Fail? ==>
          AssertExternal(repoRoot, worktreePath, cwd).error ==
            RecursionError + NormalizedPath(repo) + " worktreePath=" + NormalizedPath(wt))
    ensures !(StartsWith(repoRoot, "/") || cwd.Ok?) || !(StartsWith(worktreePath, "/") || cwd.Ok?) ==>
      AssertExternal(repoRoot, worktreePath, cwd) == Fail(CwdError + cwd.error)
  {
    if (StartsWith(repoRoot, "/") || cwd.Ok?) && (StartsWith(worktreePath, "/") || cwd.Ok?) {
      ComponentsOfNormalized(Resolved(repoRoot, cwd));
      ComponentsOfNormalized(Resolved(worktreePath, cwd));
    }
  }

  /** The root is never popped by the stack loop. */
  lemma {:induction false} NormalizeKeepsRoot(cs: seq<Component>)
    requires cs != [] && cs[0] == RootDir
    ensures Normalize(cs) != [] && Normalize(cs)[0] == RootDir
    decreases |cs|
  {
    if |cs| > 1 {
      var init := cs[..|cs| - 1];
      NormalizeKeepsRoot(init);
    } else {
      assert cs[..0] == [];
    }
  }

  /** With an absolute path, or an absolute current directory, `abs_path`
      succeeds with an absolute path. */
  lemma AbsPathAbsolute(path: string, cwd: Result<string>)
    requires StartsWith(path, "/") || (cwd.Ok? && StartsWith(cwd.value, "/"))
    ensures AbsPath(path, cwd).Ok? && StartsWith(AbsPath(path, cwd).value, "/")
  {
    var q := Resolved(path, cwd);
    assert q[0] == '/' by {
      if !StartsWith(path, "/") {
        assert StartsWith(q, cwd.value);
        assert q[0] == q[..|cwd.value|][0];
      }
    }
    var x := Normalize(Components(q));
    NormalizeNormal(Components(q));
    NormalizeKeepsRoot(Components(q));
    StepsOfNormal(x);
    assert x == [RootDir] + x[1..];
    RenderRooted(x[1..]);
  }

  /** The components of `/r` for a name `r`. */
  lemma ComponentsOfName(r: string)
    requires IsName(r)
    ensures Normalize(Components("/" + r)) == [RootDir, Normal(r)]
  {
    var one := [Normal(r)];
    assert Texts(one) == [r];
    ComponentsRooted(one);
    NormalizeFixed([RootDir] + one);
  }

  /** The components of `/r/w` for names `r` and `w`. */
  lemma ComponentsOfNames(r: string, w: string)
    requires IsName(r) && IsName(w)
    ensures Normalize(Components("/" + r + "/" + w)) == [RootDir, Normal(r), Normal(w)]
  {
    var one := [Normal(r)];
    var two := [Normal(r), Normal(w)];
    assert Texts(one) == [r];
    assert two[..1] == one;
    assert Texts(two) == [r, w];
    assert Join([r, w], "/") == r + "/" + w;
    ComponentsRooted(two);
    assert "/" + r + "/" + w == "/" + (r + "/" + w);
    NormalizeFixed([RootDir] + two);
  }

  /** A sibling directory is accepted even when its name extends the
      repository's (`/repo2` next to `/repo`): the test is by component,
      not by text. */
  lemma SiblingAccepted(r: string, s: string, cwd: Result<string>)
    requires IsName(r) && IsName(s) && r != s
    ensures AssertExternal("/" + r, "/" + s, cwd) == Pass
  {
    ComponentsOfName(r);
    ComponentsOfName(s);
    AssertExternalIff("/" + r, "/" + s, cwd);
    var a := [RootDir, Normal(r)];
    var b := [RootDir, Normal(s)];
    assert a[1] != b[1];
  }

  /** A worktree directly below the repository root is refused. */
  lemma InsideRefused(r: string, w: string, cwd: Result<string>)
    requires IsName(r) && IsName(w)
    ensures AssertExternal("/" + r, "/" + r + "/" + w, cwd).Fail?
  {
    ComponentsOfName(r);
    ComponentsOfNames(r, w);
    AssertExternalIff("/" + r, "/" + r + "/" + w, cwd);
  }

  /** `/repo2` starts with the text `/repo` but is not inside it. */
  lemma RepoTwoAccepted(cwd: Result<string>)
    ensures StartsWith("/repo2", "/repo")
    ensures AssertExternal("/repo", "/repo2", cwd) == Pass
  {
    assert "/repo2"[..5] == "/repo";
    assert "repo" != "repo2";
    SiblingAccepted("repo", "repo2", cwd);
    assert "/" + "repo" == "/repo" && "/" + "repo2" == "/repo2";
  }
}
