/** `touched_files_from_unified_diff`: the files a patch names in its
    `diff --git a/X b/Y` section headers, each normalised or flagged invalid. */
module DiffHeaders {
  import opened Strings
  import opened Results
  import opened RepoPath

  const DiffPrefix: string := "diff --git "
  const DevNull: string := "/dev/null"

  /** One entry of the extracted list: a normalised path, or a raw path that
      failed normalisation (`invalid`). */
  datatype Touched = Touched(path: string, invalid: bool)

  /** The file one line names: for a header with at least two tokens, the
      `a/`-stripped old path when the `b/`-stripped new path is `/dev/null`,
      otherwise the new path. */
  function HeaderFile(line: string): Option<string> {
    if !StartsWith(line, DiffPrefix) then None
    else
      var rest := Trim(TrimStartMatches(line, DiffPrefix));
      var words := Words(rest);
      if |words| < 2 then None
      else
        var a := StripPrefix(words[0], "a/");
        var b := StripPrefix(words[1], "b/");
        Some(if b == DevNull then a else b)
  }

  /** The normalised paths already in the list: the `seen` set. */
  function ValidSet(files: seq<Touched>): set<string> {
    set i | 0 <= i < |files| && !files[i].invalid :: files[i].path
  }

  /** One step of the loop: what a line adds to the list. */
  function AddLine(files: seq<Touched>, line: string): seq<Touched> {
    match HeaderFile(line)
    case None => files
    case Some(file) =>
      match Normalized(file)
      case Some(n) => AddValid(files, n)
      case None => files + [Touched(file, true)]
  }

  /** A normalised path is added unless it is already in the `seen` set. */
  function AddValid(files: seq<Touched>, n: string): seq<Touched> {
    if n in ValidSet(files) then files else files + [Touched(n, false)]
  }

  /** The list the loop has built after the given lines. */
  function Extract(lines: seq<string>): seq<Touched>
    decreases |lines|
  {
    if lines == [] then [] else AddLine(Extract(lines[..|lines| - 1]), lines[|lines| - 1])
  }

  lemma ValidSetSnoc(files: seq<Touched>, t: Touched)
    ensures ValidSet(files + [t]) == if t.invalid then ValidSet(files) else ValidSet(files) + {t.path}
  {
    var fs := files + [t];
    forall x | x in ValidSet(fs) ensures x in (if t.invalid then ValidSet(files) else ValidSet(files) + {t.path}) {
      var i :| 0 <= i < |fs| && !fs[i].invalid && fs[i].path == x;
      if i < |files| { assert files[i] == fs[i]; }
    }
    forall x | x in ValidSet(files) ensures x in ValidSet(fs) {
      var i :| 0 <= i < |files| && !files[i].invalid && files[i].path == x;
      assert fs[i] == files[i];
    }
    if !t.invalid {
      assert fs[|files|] == t;
    }
  }

  /** The loop as the source writes it, with `seen` kept beside `files`. */
  method TouchedFiles(lines: seq<string>) returns (files: seq<Touched>)
    ensures files == Extract(lines)
  {
    files := [];
    var seen: set<string> := {};
    var i := 0;
    while i < |lines|
      invariant 0 <= i <= |lines|
      invariant files == Extract(lines[..i])
      invariant seen == ValidSet(files)
    {
      assert lines[..i + 1][..i] == lines[..i];
      var line := lines[i];
      i := i + 1;
      var file := HeaderFile(line);
      if file.None? {
        continue;
      }
      var n := NormalizeRepoPath(file.value);
      match n {
        case Some(path) =>
          if path in seen {
            continue;
          }
          ValidSetSnoc(files, Touched(path, false));
          seen := seen + {path};
          files := files + [Touched(path, false)];
        case None =>
          ValidSetSnoc(files, Touched(file.value, true));
          files := files + [Touched(file.value, true)];
      }
    }
    assert lines[..i] == lines;
  }

  // ---- Reference definitions of what the list holds ----

  /** The raw file names of all headers, in order, repeats included. */
  function RawFiles(lines: seq<string>): seq<string>
    decreases |lines|
  {
    if lines == [] then []
    else
      var init := RawFiles(lines[..|lines| - 1]);
      match HeaderFile(lines[|lines| - 1])
      case None => init
      case Some(f) => init + [f]
  }

  /** The normalised forms of the raw names that normalise, in order. */
  function NormalForms(raw: seq<string>): seq<string>
    decreases |raw|
  {
    if raw == [] then []
    else
      var init := NormalForms(raw[..|raw| - 1]);
      match Normalized(raw[|raw| - 1])
      case None => init
      case Some(n) => init + [n]
  }

  /** The raw names that do not normalise, in order, repeats included. */
  function Rejected(raw: seq<string>): seq<string>
    decreases |raw|
  {
    if raw == [] then []
    else
      var init := Rejected(raw[..|raw| - 1]);
      if Normalized(raw[|raw| - 1]).None? then init + [raw[|raw| - 1]] else init
  }

  /** Paths of the entries with the given flag, in list order. */
  function Paths(files: seq<Touched>, invalid: bool): seq<string>
    decreases |files|
  {
    if files == [] then []
    else
      var init := Paths(files[..|files| - 1], invalid);
      if files[|files| - 1].invalid == invalid then init + [files[|files| - 1].path] else init
  }

  /** Keeps the first occurrence of every element. */
  function Dedup(s: seq<string>): seq<string>
    decreases |s|
  {
    if s == [] then []
    else
      var d := Dedup(s[..|s| - 1]);
      if s[|s| - 1] in d then d else d + [s[|s| - 1]]
  }

  predicate Distinct(s: seq<string>) {
    forall i, j :: 0 <= i < j < |s| ==> s[i] != s[j]
  }

  /** Index of the first occurrence of `x` in `s`. */
  function FirstIndex(s: seq<string>, x: string): (k: nat)
    requires x in s
    ensures k < |s| && s[k] == x && x !in s[..k]
  {
    if s[0] == x then 0 else 1 + FirstIndex(s[1..], x)
  }

  lemma PathsSnoc(files: seq<Touched>, t: Touched, invalid: bool)
    ensures Paths(files + [t], invalid) == if t.invalid == invalid then Paths(files, invalid) + [t.path] else Paths(files, invalid)
  {
    assert (files + [t])[..|files|] == files;
  }

  lemma {:induction false} ValidSetIsPaths(files: seq<Touched>)
    ensures ValidSet(files) == set x | x in Paths(files, false)
    decreases |files|
  {
    if files != [] {
      var init := files[..|files| - 1];
      var t := files[|files| - 1];
      assert files == init + [t];
      ValidSetIsPaths(init);
      ValidSetSnoc(init, t);
      PathsSnoc(init, t, false);
    }
  }

  /** Every path in a flag's list comes from an entry with that flag. */
  lemma {:induction false} PathsMember(files: seq<Touched>, invalid: bool, x: string)
    requires x in Paths(files, invalid)
    ensures exists i :: 0 <= i < |files| && files[i].path == x && files[i].invalid == invalid
    decreases |files|
  {
    var init := files[..|files| - 1];
    var t := files[|files| - 1];
    if x in Paths(init, invalid) {
      PathsMember(init, invalid, x);
      var i :| 0 <= i < |init| && init[i].path == x && init[i].invalid == invalid;
      assert files[i] == init[i];
    }
  }

  /** The loop's list, split by flag, is exactly the reference lists: the
      invalid entries are every rejected raw name, repeats kept, and the valid
      entries are the normal forms with repeats dropped. */
  lemma {:induction false} ExtractSplit(lines: seq<string>)
    ensures Paths(Extract(lines), true) == Rejected(RawFiles(lines))
    ensures Paths(Extract(lines), false) == Dedup(NormalForms(RawFiles(lines)))
    decreases |lines|
  {
    if lines != [] {
      var init := lines[..|lines| - 1];
      var line := lines[|lines| - 1];
      ExtractSplit(init);
      match HeaderFile(line)
      case None =>
      case Some(f) =>
        assert RawFiles(lines) == RawFiles(init) + [f];
        match Normalized(f)
        case Some(n) =>
          assert AddLine(Extract(init), line) == AddValid(Extract(init), n);
          ExtractStepValid(Extract(init), RawFiles(init), f, n);
        case None =>
          assert AddLine(Extract(init), line) == Extract(init) + [Touched(f, true)];
          ExtractStepRejected(Extract(init), RawFiles(init), f);
    }
  }

  /** A header whose file normalises to `n` adds `n` unless it is already listed. */
  lemma ExtractStepValid(files: seq<Touched>, raw: seq<string>, f: string, n: string)
    requires Normalized(f) == Some(n)
    requires Paths(files, true) == Rejected(raw)
    requires Paths(files, false) == Dedup(NormalForms(raw))
    ensures Paths(AddValid(files, n), true) == Rejected(raw + [f])
    ensures Paths(AddValid(files, n), false) == Dedup(NormalForms(raw + [f]))
  {
    var raw' := raw + [f];
    assert raw'[..|raw|] == raw;
    assert NormalForms(raw') == NormalForms(raw) + [n];
    assert Rejected(raw') == Rejected(raw);
    ValidSetIsPaths(files);
    if n !in ValidSet(files) {
      PathsSnoc(files, Touched(n, false), true);
      PathsSnoc(files, Touched(n, false), false);
    }
    assert (NormalForms(raw) + [n])[..|NormalForms(raw)|] == NormalForms(raw);
  }

  /** A header whose file does not normalise adds it, raw, as invalid. */
  lemma ExtractStepRejected(files: seq<Touched>, raw: seq<string>, f: string)
    requires Normalized(f).None?
    requires Paths(files, true) == Rejected(raw)
    requires Paths(files, false) == Dedup(NormalForms(raw))
    ensures Paths(files + [Touched(f, true)], true) == Rejected(raw + [f])
    ensures Paths(files + [Touched(f, true)], false) == Dedup(NormalForms(raw + [f]))
  {
    var raw' := raw + [f];
    assert raw'[..|raw|] == raw;
    assert NormalForms(raw') == NormalForms(raw);
    assert Rejected(raw') == Rejected(raw) + [f];
    PathsSnoc(files, Touched(f, true), true);
    PathsSnoc(files, Touched(f, true), false);
  }

  lemma {:induction false} FirstIndexSnoc(s: seq<string>, y: string, x: string)
    requires x in s
    ensures FirstIndex(s + [y], x) == FirstIndex(s, x)
  {
    if s[0] != x {
      assert (s + [y])[1..] == s[1..] + [y];
      assert x in s[1..];
      FirstIndexSnoc(s[1..], y, x);
    }
  }

  /** `Dedup` keeps each element once, loses none, and orders them by first
      occurrence. */
  lemma {:induction false} DedupFirstOccurrence(s: seq<string>)
    ensures Distinct(Dedup(s))
    ensures forall x :: x in Dedup(s) <==> x in s
    ensures forall i, j :: 0 <= i < j < |Dedup(s)| ==> FirstIndex(s, Dedup(s)[i]) < FirstIndex(s, Dedup(s)[j])
  {
    DedupMembers(s);
    DedupDistinct(s);
    DedupOrder(s);
  }

  lemma {:induction false} DedupMembers(s: seq<string>)
    ensures forall x :: x in Dedup(s) <==> x in s
    decreases |s|
  {
    if s != [] {
      var init := s[..|s| - 1];
      DedupMembers(init);
      assert s == init + [s[|s| - 1]];
    }
  }

  lemma {:induction false} DedupDistinct(s: seq<string>)
    ensures Distinct(Dedup(s))
    decreases |s|
  {
    if s != [] {
      var init := s[..|s| - 1];
      DedupDistinct(init);
    }
  }

  lemma {:induction false} DedupOrder(s: seq<string>)
    ensures forall x :: x in Dedup(s) ==> x in s
    ensures forall i, j :: 0 <= i < j < |Dedup(s)| ==> FirstIndex(s, Dedup(s)[i]) < FirstIndex(s, Dedup(s)[j])
    decreases |s|
  {
    if s != [] {
      var init := s[..|s| - 1];
      var y := s[|s| - 1];
      var d := Dedup(init);
      DedupOrder(init);
      DedupMembers(init);
      assert s == init + [y];
      forall x | x in init ensures FirstIndex(s, x) == FirstIndex(init, x) {
        FirstIndexSnoc(init, y, x);
      }
      assert forall i :: 0 <= i < |d| ==> d[i] in init;
      if y !in d {
        var d' := d + [y];
        assert FirstIndex(s, y) == |init| by {
          FirstIndexLast(init, y);
        }
        forall i | 0 <= i < |d| ensures FirstIndex(s, d'[i]) < FirstIndex(s, y) {
          assert d'[i] == d[i] && d[i] in d;
        }
      }
    }
  }

  lemma {:induction false} FirstIndexLast(s: seq<string>, y: string)
    requires y !in s
    ensures FirstIndex(s + [y], y) == |s|
  {
    if s != [] {
      assert (s + [y])[1..] == s[1..] + [y];
      FirstIndexLast(s[1..], y);
    }
  }

  /** What the extracted list promises: valid paths are distinct, are exactly
      the normal forms of the headers' files, and come in first-occurrence
      order; every file that fails normalisation is kept, raw, even when
      repeated. */
  lemma TouchedFilesContract(lines: seq<string>)
    ensures var valid := Paths(Extract(lines), false); var normals := NormalForms(RawFiles(lines));
      && Distinct(valid)
      && (forall x :: x in valid <==> x in normals)
      && (forall i, j :: 0 <= i < j < |valid| ==> FirstIndex(normals, valid[i]) < FirstIndex(normals, valid[j]))
    ensures Paths(Extract(lines), true) == Rejected(RawFiles(lines))
  {
    ExtractSplit(lines);
    DedupFirstOccurrence(NormalForms(RawFiles(lines)));
  }

  // ---- Header lines ----

  lemma NotDiffPrefix(a: string, rest: string)
    requires NoWhitespace(a) && a != "diff"
    requires rest == [] || IsWhitespace(rest[0])
    ensures !StartsWith(a + rest, DiffPrefix)
  {
    var s := a + rest;
    assert DiffPrefix[4] == ' ' && DiffPrefix[..4] == "diff";
    if |a| > 4 {
      assert s[4] == a[4];
    } else if |a| == 4 {
      assert s[..4] == a;
    } else if rest != [] {
      assert s[|a|] == rest[0];
      assert !IsWhitespace(DiffPrefix[|a|]);
    }
  }

  /** Stripping the header prefix once leaves a rest that does not start with it again. */
  lemma StripDiffPrefixOnce(rest: string)
    requires !StartsWith(rest, DiffPrefix)
    ensures TrimStartMatches(DiffPrefix + rest, DiffPrefix) == rest
  {
    var line := DiffPrefix + rest;
    assert line[..|DiffPrefix|] == DiffPrefix;
    assert line[|DiffPrefix|..] == rest;
  }

  /** The words of `<a><sep><b><more>`, with whitespace runs between the
      tokens, begin with `a` and `b`. */
  lemma WordsOfTwo(a: string, sep: string, b: string, more: string)
    requires a != [] && NoWhitespace(a)
    requires sep != [] && AllWhitespace(sep)
    requires b != [] && NoWhitespace(b)
    requires more == [] || IsWhitespace(more[0])
    ensures Words(a + sep + b + more) == [a] + ([b] + Words(more))
  {
    var w2 := sep + b + more;
    assert w2[0] == sep[0];
    assert a + sep + b + more == a + w2;
    WordsCons(a, w2);
    WordsAfterSep(sep, b, more);
  }

  lemma WordsAfterSep(sep: string, b: string, more: string)
    requires AllWhitespace(sep)
    requires b != [] && NoWhitespace(b)
    requires more == [] || IsWhitespace(more[0])
    ensures Words(sep + b + more) == [b] + Words(more)
  {
    assert sep + b + more == sep + (b + more);
    WordsLeadingRun(sep, b + more);
    WordsCons(b, more);
  }

  /** Trimming `<a><sep><b><more>` keeps `<a><sep><b>` and the part of
      `more` before its trailing whitespace. */
  lemma TrimOfTwo(a: string, sep: string, b: string, more: string)
    requires a != [] && NoWhitespace(a)
    requires sep != [] && AllWhitespace(sep)
    requires b != [] && NoWhitespace(b)
    ensures var head := a + sep + b; var t := Trim(head + more);
      |head| <= |t| && t == head + more[..|t| - |head|]
  {
    var head := a + sep + b;
    var rest := head + more;
    assert rest[0] == a[0];
    assert TrimStart(rest) == rest;
    assert head[|head| - 1] == b[|b| - 1];
    TrimEndKeepsHead(head, more);
  }

  /** A header `diff --git <a><sep><b><more>`, where `sep` is a whitespace run
      and `more` is empty or starts with whitespace (further tokens, or the CR
      left by a CRLF line end), names the `a/`-stripped old path if the
      `b/`-stripped new path is `/dev/null`, else the new path. Later tokens
      play no part. */
  lemma {:induction false} HeaderOfTwoTokens(a: string, sep: string, b: string, more: string)
    requires a != [] && NoWhitespace(a) && a != "diff"
    requires sep != [] && AllWhitespace(sep)
    requires b != [] && NoWhitespace(b)
    requires more == [] || IsWhitespace(more[0])
    ensures var oldPath := StripPrefix(a, "a/"); var newPath := StripPrefix(b, "b/");
      HeaderFile(DiffPrefix + a + sep + b + more) == Some(if newPath == DevNull then oldPath else newPath)
  {
    var rest := a + sep + b + more;
    var line := DiffPrefix + a + sep + b + more;
    assert line == DiffPrefix + rest;
    assert StartsWith(line, DiffPrefix) by { assert line[..|DiffPrefix|] == DiffPrefix; }
    HeaderRestTwo(a, sep, b, more);
    HeaderWordsTwo(a, sep, b, more);
  }

  /** The first two words of a trimmed two-token header rest are its tokens. */
  lemma HeaderWordsTwo(a: string, sep: string, b: string, more: string)
    requires a != [] && NoWhitespace(a)
    requires sep != [] && AllWhitespace(sep)
    requires b != [] && NoWhitespace(b)
    requires more == [] || IsWhitespace(more[0])
    ensures var w := Words(Trim(a + sep + b + more)); |w| >= 2 && w[0] == a && w[1] == b
  {
    var head := a + sep + b;
    TrimOfTwo(a, sep, b, more);
    var t := Trim(head + more);
    var more' := more[..|t| - |head|];
    assert more' == [] || more'[0] == more[0];
    assert t == a + sep + b + more';
    WordsOfTwo(a, sep, b, more');
  }

  /** Stripping the header prefix from a two-token header leaves the tokens. */
  lemma HeaderRestTwo(a: string, sep: string, b: string, more: string)
    requires a != [] && NoWhitespace(a) && a != "diff"
    requires sep != [] && AllWhitespace(sep)
    ensures TrimStartMatches(DiffPrefix + (a + sep + b + more), DiffPrefix) == a + sep + b + more
  {
    var tail := sep + b + more;
    assert a + sep + b + more == a + tail;
    assert tail[0] == sep[0];
    NotDiffPrefix(a, tail);
    StripDiffPrefixOnce(a + tail);
  }

  /** git writes a path that holds a space without quoting it. For the header
      of `my file`, the second token `file` is taken as the path, so the
      ownership check looks at `file` while `git apply` patches `my file`. */
  lemma SpacedPathHeader()
    ensures HeaderFile("diff --git a/my file b/my file") == Some("file")
  {
    SpacedPathParts();
    HeaderOfTwoTokens("a/my", " ", "file", " b/my file");
  }

  lemma SpacedPathParts()
    ensures "diff --git a/my file b/my file" == DiffPrefix + "a/my" + " " + "file" + " b/my file"
    ensures NoWhitespace("a/my") && NoWhitespace("file") && AllWhitespace(" ")
    ensures StripPrefix("file", "b/") == "file" && "file" != DevNull
  {
    var b := "file";
    assert !StartsWith(b, "b/") by { assert b[..2] == "fi"; }
  }

  /** A blank rest, or a single token with whitespace around it, never starts
      with the header prefix, since the prefix has a token and then `-`. */
  lemma BlankNotDiffPrefix(lead: string, a: string, tail: string)
    requires AllWhitespace(lead) && NoWhitespace(a) && AllWhitespace(tail)
    ensures !StartsWith(lead + a + tail, DiffPrefix)
  {
    var s := lead + a + tail;
    assert DiffPrefix[4] == ' ' && DiffPrefix[5] == '-';
    if |s| >= |DiffPrefix| {
      if lead != [] {
        assert s[0] == lead[0];
      } else if |a| > 4 {
        assert s[4] == a[4];
      } else if |a| == 4 {
        assert s[5] == tail[1];
      } else {
        assert s[|a|] == tail[0];
        assert !IsWhitespace(DiffPrefix[|a|]);
      }
    }
  }

  /** A header with fewer than two tokens, whatever whitespace surrounds the
      token, names nothing. */
  lemma {:induction false} HeaderOfOneToken(lead: string, a: string, tail: string)
    requires AllWhitespace(lead) && NoWhitespace(a) && AllWhitespace(tail)
    ensures HeaderFile(DiffPrefix + lead + a + tail) == None
  {
    var rest := lead + a + tail;
    assert DiffPrefix + lead + a + tail == DiffPrefix + rest;
    BlankNotDiffPrefix(lead, a, tail);
    StripDiffPrefixOnce(rest);
    if a == [] {
      assert AllWhitespace(rest);
      TrimEmptyIsAllWhitespace(rest);
    } else {
      assert rest == lead + (a + tail);
      TrimStartAppend(lead, a + tail);
      WordsOfOne(a, tail);
    }
  }

  lemma WordsOfOne(a: string, tail: string)
    requires NoWhitespace(a) && a != []
    requires AllWhitespace(tail)
    ensures Words(Trim(a + tail)) == [a]
  {
    assert TrimStart(a + tail) == a + tail;
    TrimEndAppend(a, tail);
    WordsSingle(a);
  }
}
