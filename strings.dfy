/** The string operations of the Rust standard library that the kernel
    relies on, restated over `seq<char>`: prefix tests, `replace`, `trim`,
    `split`, `join` and `split_whitespace`. */
module Strings {

  predicate StartsWith(s: string, p: string) {
    |p| <= |s| && s[..|p|] == p
  }

  predicate EndsWithChar(s: string, c: char) {
    |s| > 0 && s[|s| - 1] == c
  }

  /** `str::strip_prefix(p).unwrap_or(s)`. */
  function StripPrefix(s: string, p: string): (r: string)
    ensures StartsWith(s, p) ==> s == p + r
    ensures !StartsWith(s, p) ==> r == s
  {
    if StartsWith(s, p) then s[|p|..] else s
  }

  /** `str::trim_start_matches(p)`: strips `p` as often as it is a prefix. */
  function TrimStartMatches(s: string, p: string): (r: string)
    requires |p| > 0
    ensures !StartsWith(r, p)
    ensures |r| <= |s| && r == s[|s| - |r|..]
    decreases |s|
  {
    if StartsWith(s, p) then TrimStartMatches(s[|p|..], p) else s
  }

  /** `str::replace(from, to)` for single characters. */
  function ReplaceChar(s: string, from: char, to: char): (r: string)
    ensures |r| == |s|
    ensures from != to ==> from !in r
  {
    seq(|s|, i requires 0 <= i < |s| => if s[i] == from then to else s[i])
  }

  lemma ReplaceCharAbsent(s: string, from: char, to: char)
    requires from !in s
    ensures ReplaceChar(s, from, to) == s
  {
  }

  /** The ASCII part of Rust's `char::is_whitespace`. */
  predicate IsWhitespace(c: char) {
    c == ' ' || c == '\t' || c == '\n' || c == '\r' || c == '\U{000B}' || c == '\U{000C}'
  }

  /** A real path name: neither empty, `.` nor `..`. */
  predicate IsSegment(s: string) {
    s != "" && s != "." && s != ".."
  }

  predicate AllWhitespace(s: string) {
    forall i :: 0 <= i < |s| ==> IsWhitespace(s[i])
  }

  function TrimStart(s: string): (r: string)
    ensures |r| <= |s| && r == s[|s| - |r|..]
    ensures r == [] || !IsWhitespace(r[0])
    ensures forall i :: 0 <= i < |s| - |r| ==> IsWhitespace(s[i])
  {
    if s != [] && IsWhitespace(s[0]) then
      var r := TrimStart(s[1..]);
      assert forall i :: 1 <= i < |s| ==> s[i] == s[1..][i - 1];
      r
    else s
  }

  function TrimEnd(s: string): (r: string)
    ensures |r| <= |s| && r == s[..|r|]
    ensures r == [] || !IsWhitespace(r[|r| - 1])
    ensures forall i :: |r| <= i < |s| ==> IsWhitespace(s[i])
  {
    if s != [] && IsWhitespace(s[|s| - 1]) then
      var r := TrimEnd(s[..|s| - 1]);
      assert forall i :: 0 <= i < |s| - 1 ==> s[i] == s[..|s| - 1][i];
      r
    else s
  }

  /** `str::trim`. */
  function Trim(s: string): string {
    TrimEnd(TrimStart(s))
  }

  lemma TrimEmptyIsAllWhitespace(s: string)
    ensures Trim(s) == [] <==> AllWhitespace(s)
  {
    var t := TrimStart(s);
    if AllWhitespace(s) {
      assert t == [];
    }
    if Trim(s) == [] {
      assert t[0..] == t;
      assert t == [];
      assert s[..|s|] == s;
    }
  }

  /** `str::trim_end_matches(c)` for one character. */
  function TrimEndMatches(s: string, c: char): (r: string)
    ensures |r| <= |s| && r == s[..|r|]
    ensures !EndsWithChar(r, c)
    ensures forall i :: |r| <= i < |s| ==> s[i] == c
  {
    if EndsWithChar(s, c) then TrimEndMatches(s[..|s| - 1], c) else s
  }

  /** `str::trim_start_matches(c)` for one character. */
  function TrimStartChar(s: string, c: char): (r: string)
    ensures |r| <= |s| && r == s[|s| - |r|..]
    ensures r == [] || r[0] != c
  {
    if s != [] && s[0] == c then TrimStartChar(s[1..], c) else s
  }

  /** `trim_start_matches(c)` removes only copies of `c`. */
  lemma {:induction false} TrimStartCharDrops(s: string, c: char)
    ensures forall i :: 0 <= i < |s| - |TrimStartChar(s, c)| ==> s[i] == c
    decreases |s|
  {
    if s != [] && s[0] == c {
      TrimStartCharDrops(s[1..], c);
      assert forall i :: 1 <= i < |s| ==> s[i] == s[1..][i - 1];
    }
  }

  /** A string made only of `c` trims to nothing. */
  lemma {:induction false} TrimMatchesAll(s: string, c: char)
    requires forall i :: 0 <= i < |s| ==> s[i] == c
    ensures TrimStartChar(s, c) == [] && TrimMatches(s, c) == []
    decreases |s|
  {
    if s != [] {
      TrimMatchesAll(s[1..], c);
    }
  }

  /** `trim` removes only whitespace: every other character stays. */
  lemma TrimKeeps(s: string, i: int)
    requires 0 <= i < |s| && !IsWhitespace(s[i])
    ensures s[i] in Trim(s)
  {
    var u := TrimStart(s);
    var k := i - (|s| - |u|);
    assert 0 <= k < |u| && u[k] == s[i];
    var t := TrimEnd(u);
    assert k < |t| && t[k] == s[i];
  }

  /** Leading whitespace is exactly what `trim_start` removes. */
  lemma {:induction false} TrimStartAppend(x: string, y: string)
    requires AllWhitespace(x)
    requires y == [] || !IsWhitespace(y[0])
    ensures TrimStart(x + y) == y
    decreases |x|
  {
    if x == [] {
      assert x + y == y;
    } else {
      assert (x + y)[0] == x[0] && (x + y)[1..] == x[1..] + y;
      TrimStartAppend(x[1..], y);
    }
  }

  /** `trim_end` never cuts into a part that ends in a non-whitespace character. */
  lemma {:induction false} TrimEndKeepsHead(x: string, y: string)
    requires x != [] && !IsWhitespace(x[|x| - 1])
    ensures |x| <= |TrimEnd(x + y)|
    ensures TrimEnd(x + y) == x + y[..|TrimEnd(x + y)| - |x|]
    decreases |y|
  {
    var s := x + y;
    if y == [] {
      assert s == x && y[..0] == [];
    } else if IsWhitespace(y[|y| - 1]) {
      var y' := y[..|y| - 1];
      assert s[..|s| - 1] == x + y';
      TrimEndKeepsHead(x, y');
      var n := |TrimEnd(x + y')| - |x|;
      assert y'[..n] == y[..n];
    } else {
      assert y[..|y|] == y;
    }
  }

  /** `str::trim_matches(c)` for one character. */
  function TrimMatches(s: string, c: char): (r: string)
    ensures r == [] || (r[0] != c && r[|r| - 1] != c)
    ensures forall x :: x in r ==> x in s
  {
    var t := TrimEndMatches(TrimStartChar(s, c), c);
    assert forall x :: x in t ==> x in TrimStartChar(s, c);
    t
  }

  /** `trim_matches(c)` removes only copies of `c`: every other character stays. */
  lemma TrimMatchesKeeps(s: string, c: char, i: int)
    requires 0 <= i < |s| && s[i] != c
    ensures s[i] in TrimMatches(s, c)
  {
    var u := TrimStartChar(s, c);
    TrimStartCharDrops(s, c);
    var k := i - (|s| - |u|);
    assert 0 <= k < |u| && u[k] == s[i];
    var t := TrimEndMatches(u, c);
    assert k < |t| && t[k] == s[i];
  }

  lemma TrimMatchesNoop(s: string, c: char)
    requires s == [] || (s[0] != c && s[|s| - 1] != c)
    ensures TrimMatches(s, c) == s
  {
  }

  /** `str::split(sep)`: always at least one piece, and `""` splits to `[""]`. */
  function Split(s: string, sep: char): (r: seq<string>)
    ensures |r| >= 1
    ensures forall i :: 0 <= i < |r| ==> sep !in r[i]
    decreases |s|
  {
    if |s| == 0 then [""]
    else if s[0] == sep then [""] + Split(s[1..], sep)
    else
      var t := Split(s[1..], sep);
      [[s[0]] + t[0]] + t[1..]
  }

  /** `[String]::join(sep)`. */
  function Join(parts: seq<string>, sep: string): string
    decreases |parts|
  {
    if |parts| == 0 then ""
    else if |parts| == 1 then parts[0]
    else parts[0] + sep + Join(parts[1..], sep)
  }

  lemma {:induction false} JoinSplit(s: string, sep: char)
    ensures Join(Split(s, sep), [sep]) == s
    decreases |s|
  {
    if |s| == 0 {
    } else if s[0] == sep {
      JoinSplit(s[1..], sep);
      assert s == [sep] + s[1..];
    } else {
      var t := Split(s[1..], sep);
      JoinSplit(s[1..], sep);
      if |t| > 1 {
        assert Join(t, [sep]) == t[0] + [sep] + Join(t[1..], [sep]);
        assert ([[s[0]] + t[0]] + t[1..])[1..] == t[1..];
      }
      assert s == [s[0]] + s[1..];
    }
  }

  lemma {:induction false} SplitConcat(x: string, sep: char, y: string)
    ensures Split(x + [sep] + y, sep) == Split(x, sep) + Split(y, sep)
    decreases |x|
  {
    var s := x + [sep] + y;
    if |x| == 0 {
      assert s == [sep] + y;
      assert s[1..] == y;
    } else {
      assert s[0] == x[0];
      assert s[1..] == x[1..] + [sep] + y;
      SplitConcat(x[1..], sep, y);
    }
  }

  lemma {:induction false} JoinConcat(a: seq<string>, b: seq<string>, sep: string)
    requires |a| > 0 && |b| > 0
    ensures Join(a + b, sep) == Join(a, sep) + sep + Join(b, sep)
    decreases |a|
  {
    if |a| == 1 {
      assert (a + b)[1..] == b;
    } else {
      assert (a + b)[1..] == a[1..] + b;
      JoinConcat(a[1..], b, sep);
    }
  }

  lemma {:induction false} SplitJoin(parts: seq<string>, sep: char)
    requires |parts| >= 1
    requires forall i :: 0 <= i < |parts| ==> sep !in parts[i]
    ensures Split(Join(parts, [sep]), sep) == parts
    decreases |parts|
  {
    SplitNoSep(parts[0], sep);
    if |parts| > 1 {
      SplitJoin(parts[1..], sep);
      SplitConcat(parts[0], sep, Join(parts[1..], [sep]));
      assert parts == [parts[0]] + parts[1..];
    }
  }

  /** Splitting off a first piece that has no separator in it. */
  lemma SplitCons(x: string, sep: char, y: string)
    requires sep !in x
    ensures Split(x + [sep] + y, sep) == [x] + Split(y, sep)
  {
    SplitConcat(x, sep, y);
    SplitNoSep(x, sep);
  }

  lemma {:induction false} SplitNoSep(s: string, sep: char)
    requires sep !in s
    ensures Split(s, sep) == [s]
    decreases |s|
  {
    if |s| > 0 {
      SplitNoSep(s[1..], sep);
      assert s == [s[0]] + s[1..];
    }
  }

  /** Length of the leading run of non-whitespace characters. */
  function WordLen(s: string): (n: nat)
    ensures n <= |s|
    ensures forall i :: 0 <= i < n ==> !IsWhitespace(s[i])
    ensures n < |s| ==> IsWhitespace(s[n])
  {
    if s == [] || IsWhitespace(s[0]) then 0 else 1 + WordLen(s[1..])
  }

  /** `str::split_whitespace`: the maximal non-whitespace runs, in order. */
  function Words(s: string): (r: seq<string>)
    ensures forall i :: 0 <= i < |r| ==> r[i] != []
    decreases |s|
  {
    var t := TrimStart(s);
    if t == [] then []
    else
      var n := WordLen(t);
      [t[..n]] + Words(t[n..])
  }

  predicate NoWhitespace(s: string) {
    forall i :: 0 <= i < |s| ==> !IsWhitespace(s[i])
  }

  lemma {:induction false} WordLenOfWord(w: string, rest: string)
    requires NoWhitespace(w)
    requires rest == [] || IsWhitespace(rest[0])
    ensures WordLen(w + rest) == |w|
    decreases |w|
  {
    if |w| > 0 {
      assert (w + rest)[1..] == w[1..] + rest;
      WordLenOfWord(w[1..], rest);
    }
  }

  /** A word followed by nothing or by whitespace is split off as the first word. */
  lemma WordsCons(w: string, rest: string)
    requires w != [] && NoWhitespace(w)
    requires rest == [] || IsWhitespace(rest[0])
    ensures Words(w + rest) == [w] + Words(rest)
  {
    var s := w + rest;
    assert s[0] == w[0];
    assert TrimStart(s) == s;
    WordLenOfWord(w, rest);
    assert s[..|w|] == w;
    assert s[|w|..] == rest;
  }

  lemma WordsLeadingWhitespace(c: char, s: string)
    requires IsWhitespace(c)
    ensures Words([c] + s) == Words(s)
  {
    assert ([c] + s)[1..] == s;
    assert TrimStart([c] + s) == TrimStart(s);
  }

  /** A whitespace run before the text does not change its words. */
  lemma {:induction false} WordsLeadingRun(ws: string, s: string)
    requires AllWhitespace(ws)
    ensures Words(ws + s) == Words(s)
    decreases |ws|
  {
    if ws != [] {
      var t := ws[1..] + s;
      assert ws + s == [ws[0]] + t;
      WordsLeadingWhitespace(ws[0], t);
      WordsLeadingRun(ws[1..], s);
    } else {
      assert ws + s == s;
    }
  }

  lemma WordsSingle(w: string)
    requires w != [] && NoWhitespace(w)
    ensures Words(w) == [w]
  {
    assert w + "" == w;
    WordsCons(w, "");
  }

  /** Trailing whitespace is exactly what `trim_end` removes. */
  lemma {:induction false} TrimEndAppend(x: string, y: string)
    requires x == [] || !IsWhitespace(x[|x| - 1])
    requires AllWhitespace(y)
    ensures TrimEnd(x + y) == x
    decreases |y|
  {
    if y == [] {
      assert x + y == x;
    } else {
      assert (x + y)[..|x + y| - 1] == x + y[..|y| - 1];
      TrimEndAppend(x, y[..|y| - 1]);
    }
  }

  /** A character absent from a string is absent from each of its pieces. */
  lemma {:induction false} SplitPartsWithout(s: string, sep: char, c: char)
    requires c !in s
    ensures forall i :: 0 <= i < |Split(s, sep)| ==> c !in Split(s, sep)[i]
    decreases |s|
  {
    if |s| > 0 {
      assert forall x :: x in s[1..] ==> x in s;
      SplitPartsWithout(s[1..], sep, c);
    }
  }

  /** Joining pieces that lack a character, with a separator that lacks it, never introduces it. */
  lemma {:induction false} JoinWithout(parts: seq<string>, sep: string, c: char)
    requires c !in sep
    requires forall i :: 0 <= i < |parts| ==> c !in parts[i]
    ensures c !in Join(parts, sep)
    decreases |parts|
  {
    if |parts| > 1 {
      JoinWithout(parts[1..], sep, c);
    }
  }

  /** Drops one trailing carriage return. */
  function StripCR(l: string): (r: string)
    ensures r == l || (EndsWithChar(l, '\r') && r == l[..|l| - 1])
  {
    if EndsWithChar(l, '\r') then l[..|l| - 1] else l
  }

  /** `BufRead::lines`: the text cut at each `\n`, a `\r` just before a `\n`
      removed, and no empty last line after a final `\n`. */
  function Lines(text: string): (r: seq<string>)
    ensures forall i :: 0 <= i < |r| ==> '\n' !in r[i]
  {
    var pieces := Split(text, '\n');
    var last := pieces[|pieces| - 1];
    var init := seq(|pieces| - 1, i requires 0 <= i < |pieces| - 1 => StripCR(pieces[i]));
    assert forall i :: 0 <= i < |init| ==> forall c :: c in init[i] ==> c in pieces[i];
    init + (if last == "" then [] else [last])
  }

  /** For text without carriage returns that ends in a newline, the lines
      joined back with `\n`, plus the final `\n`, are the text. */
  lemma LinesJoin(text: string)
    requires '\r' !in text && EndsWithChar(text, '\n')
    ensures Join(Lines(text), "\n") + "\n" == text
  {
    var body := text[..|text| - 1];
    assert text == body + ['\n'] + "";
    SplitConcat(body, '\n', "");
    var parts := Split(body, '\n');
    assert Split(text, '\n') == parts + [""];
    SplitPartsWithout(text, '\n', '\r');
    assert forall i :: 0 <= i < |parts| ==> (parts + [""])[i] == parts[i];
    assert Lines(text) == parts;
    JoinSplit(body, '\n');
  }
}
