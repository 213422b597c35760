/** `safe_name`: turns a verify command's name into the slug used for its
    output file name. */
module Slugs {
  import opened Strings

  const Fallback: string := "command"

  /** `is_ascii_alphanumeric()`, `.`, `_` or `-`: what the slug keeps. */
  predicate IsSlugChar(c: char) {
    ('a' <= c <= 'z') || ('A' <= c <= 'Z') || ('0' <= c <= '9') || c == '.' || c == '_' || c == '-'
  }

  /** The characters a slug is made of. */
  predicate IsSafeChar(c: char) {
    ('a' <= c <= 'z') || ('0' <= c <= '9') || c == '.' || c == '_' || c == '-'
  }

  function LowerChar(c: char): (r: char)
    ensures !('A' <= r <= 'Z')
    ensures IsSlugChar(c) ==> IsSlugChar(r)
  {
    if 'A' <= c <= 'Z' then (c as int + 32) as char else c
  }

  /** `to_lowercase` on ASCII letters. */
  function Lower(s: string): (r: string)
    ensures |r| == |s|
    ensures forall i :: 0 <= i < |r| ==> r[i] == LowerChar(s[i])
  {
    seq(|s|, i requires 0 <= i < |s| => LowerChar(s[i]))
  }

  /** Reference definition: kept characters are copied, and each maximal run
      of other characters becomes a single `-`, written where the run ends. */
  function Collapse(s: string): string
    decreases |s|
  {
    if s == [] then []
    else if IsSlugChar(s[0]) then [s[0]] + Collapse(s[1..])
    else if |s| > 1 && !IsSlugChar(s[1]) then Collapse(s[1..])
    else "-" + Collapse(s[1..])
  }

  /** The name before the loop: trimmed, then lower-cased. */
  function Prepared(name: string): string {
    Lower(Trim(name))
  }

  /** The value `safe_name` returns. */
  function Slug(name: string): string {
    var out := TrimMatches(Collapse(Prepared(name)), '-');
    if out == [] then Fallback else out
  }

  /** What one more character appends to the collapsed string: itself if it is
      kept, nothing if it continues a run, and `-` if it starts one. */
  function Step(s: string, c: char): string {
    if IsSlugChar(c) then [c] else if s != [] && !IsSlugChar(s[|s| - 1]) then [] else "-"
  }

  lemma StepTail(s: string, c: char)
    requires |s| > 1
    ensures Step(s[1..], c) == Step(s, c)
  {
    assert s[1..][|s| - 2] == s[|s| - 1];
  }

  /** Appending a character to a one-character string. */
  lemma CollapseSnocOne(d: char, c: char)
    ensures Collapse([d] + [c]) == Collapse([d]) + Step([d], c)
  {
    var s := [d] + [c];
    assert s[0] == d && s[1] == c && s[1..] == [c] && [c][1..] == [] && [d][1..] == [];
  }

  /** The three larger cases, each with the claim for `s[1..]` as a precondition. */
  lemma CollapseSnocKept(s: string, c: char)
    requires |s| > 1 && IsSlugChar(s[0])
    requires Collapse(s[1..] + [c]) == Collapse(s[1..]) + Step(s, c)
    ensures Collapse(s + [c]) == Collapse(s) + Step(s, c)
  {
    var sc := s + [c];
    assert sc[0] == s[0] && sc[1..] == s[1..] + [c];
    var a, b := Collapse(s[1..]), Step(s, c);
    assert [s[0]] + (a + b) == ([s[0]] + a) + b;
  }

  lemma CollapseSnocInRun(s: string, c: char)
    requires |s| > 1 && !IsSlugChar(s[0]) && !IsSlugChar(s[1])
    requires Collapse(s[1..] + [c]) == Collapse(s[1..]) + Step(s, c)
    ensures Collapse(s + [c]) == Collapse(s) + Step(s, c)
  {
    var sc := s + [c];
    assert sc[0] == s[0] && sc[1] == s[1] && sc[1..] == s[1..] + [c];
  }

  lemma CollapseSnocRunEnd(s: string, c: char)
    requires |s| > 1 && !IsSlugChar(s[0]) && IsSlugChar(s[1])
    requires Collapse(s[1..] + [c]) == Collapse(s[1..]) + Step(s, c)
    ensures Collapse(s + [c]) == Collapse(s) + Step(s, c)
  {
    var sc := s + [c];
    assert sc[0] == s[0] && sc[1] == s[1] && sc[1..] == s[1..] + [c];
    var a, b := Collapse(s[1..]), Step(s, c);
    assert "-" + (a + b) == ("-" + a) + b;
  }

  lemma {:induction false} CollapseSnoc(s: string, c: char)
    ensures Collapse(s + [c]) == Collapse(s) + Step(s, c)
    decreases |s|
  {
    if s == [] {
      assert s + [c] == [c] && [c][1..] == [];
    } else if |s| == 1 {
      assert s == [s[0]];
      CollapseSnocOne(s[0], c);
    } else {
      CollapseSnoc(s[1..], c);
      StepTail(s, c);
      if IsSlugChar(s[0]) {
        CollapseSnocKept(s, c);
      } else if !IsSlugChar(s[1]) {
        CollapseSnocInRun(s, c);
      } else {
        CollapseSnocRunEnd(s, c);
      }
    }
  }

  /** The character loop of `safe_name`, with the `last_was_dash` flag. */
  method CollapseLoop(s: string) returns (out: string)
    ensures out == Collapse(s)
  {
    out := "";
    var lastWasDash := false;
    var i := 0;
    while i < |s|
      invariant 0 <= i <= |s|
      invariant out == Collapse(s[..i])
      invariant lastWasDash == (i > 0 && !IsSlugChar(s[i - 1]))
    {
      var ch := s[i];
      CollapseSnoc(s[..i], ch);
      assert s[..i + 1] == s[..i] + [ch];
      if IsSlugChar(ch) {
        out := out + [ch];
        lastWasDash := false;
      } else if !lastWasDash {
        out := out + "-";
        lastWasDash := true;
      }
      i := i + 1;
    }
    assert s[..i] == s;
  }

  /** `safe_name`: trim, lower-case, collapse, strip `-` at both ends, and
      fall back to `command` when nothing is left. */
  method SafeName(name: string) returns (r: string)
    ensures r == Slug(name)
  {
    var out := CollapseLoop(Prepared(name));
    r := TrimMatches(out, '-');
    if r == "" {
      r := Fallback;
    }
  }

  // ---- What the slug promises ----

  /** Never empty, only lower-case ASCII letters, digits, `.`, `_` and `-`,
      and no `-` at either end. */
  predicate SlugShaped(r: string) {
    && r != []
    && (forall i :: 0 <= i < |r| ==> IsSafeChar(r[i]))
    && r[0] != '-' && r[|r| - 1] != '-'
  }

  /** Every character of the collapsed string is `-` or a kept character of the input. */
  lemma {:induction false} CollapseChars(s: string)
    ensures forall c :: c in Collapse(s) ==> c == '-' || (c in s && IsSlugChar(c))
    decreases |s|
  {
    if s != [] {
      CollapseChars(s[1..]);
      assert forall c :: c in s[1..] ==> c in s;
    }
  }

  /** A string of kept characters collapses to itself. */
  lemma {:induction false} CollapseKept(s: string)
    requires forall i :: 0 <= i < |s| ==> IsSlugChar(s[i])
    ensures Collapse(s) == s
    decreases |s|
  {
    if s != [] {
      CollapseKept(s[1..]);
    }
  }

  /** After a kept character the collapsing starts afresh: the two parts
      collapse separately. */
  lemma {:induction false} CollapseAfterKept(w: string, x: string)
    requires w == [] || IsSlugChar(w[|w| - 1])
    ensures Collapse(w + x) == Collapse(w) + Collapse(x)
    decreases |w|
  {
    var s := w + x;
    if w == [] {
      assert s == x;
    } else {
      assert s[0] == w[0] && s[1..] == w[1..] + x;
      CollapseAfterKept(w[1..], x);
      if IsSlugChar(w[0]) {
        assert [w[0]] + (Collapse(w[1..]) + Collapse(x)) == ([w[0]] + Collapse(w[1..])) + Collapse(x);
      } else {
        assert s[1] == w[1];
        assert "-" + (Collapse(w[1..]) + Collapse(x)) == ("-" + Collapse(w[1..])) + Collapse(x);
      }
    }
  }

  /** A leading run of dropped characters, followed by a kept character or
      by nothing, becomes a single `-`. */
  lemma {:induction false} CollapseLeadingRun(run: string, rest: string)
    requires run != [] && forall i :: 0 <= i < |run| ==> !IsSlugChar(run[i])
    requires rest == [] || IsSlugChar(rest[0])
    ensures Collapse(run + rest) == "-" + Collapse(rest)
    decreases |run|
  {
    var s := run + rest;
    if |run| == 1 {
      assert s[0] == run[0] && s[1..] == rest;
    } else {
      assert s[0] == run[0] && s[1] == run[1] && s[1..] == run[1..] + rest;
      CollapseLeadingRun(run[1..], rest);
    }
  }

  /** A maximal run of dropped characters (preceded by nothing or by a kept
      character, followed by nothing or by a kept character) becomes a single
      `-`, wherever it occurs. */
  lemma {:induction false} CollapseRun(w: string, run: string, rest: string)
    requires w == [] || IsSlugChar(w[|w| - 1])
    requires run != [] && forall i :: 0 <= i < |run| ==> !IsSlugChar(run[i])
    requires rest == [] || IsSlugChar(rest[0])
    ensures Collapse(w + run + rest) == Collapse(w) + "-" + Collapse(rest)
  {
    var x := run + rest;
    calc {
      Collapse(w + run + rest);
      { assert w + run + rest == w + x; }
      Collapse(w + x);
      { CollapseAfterKept(w, x); }
      Collapse(w) + Collapse(x);
      { CollapseLeadingRun(run, rest); }
      Collapse(w) + ("-" + Collapse(rest));
      Collapse(w) + "-" + Collapse(rest);
    }
  }

  /** Every kept character of the input occurs in the collapsed string. */
  lemma {:induction false} CollapseKeepsKept(s: string, i: int)
    requires 0 <= i < |s| && IsSlugChar(s[i])
    ensures s[i] in Collapse(s)
    decreases |s|
  {
    if i > 0 {
      assert s[i] == s[1..][i - 1];
      CollapseKeepsKept(s[1..], i - 1);
    }
  }

  /** The characters of the prepared name are those of the name, lower-cased. */
  lemma {:induction false} PreparedChars(name: string)
    ensures forall c :: c in Prepared(name) ==> exists d :: d in name && c == LowerChar(d)
  {
    var u := TrimStart(name);
    var t := TrimEnd(u);
    var p := Lower(t);
    forall c | c in p ensures exists d :: d in name && c == LowerChar(d) {
      var i :| 0 <= i < |p| && p[i] == c;
      var k := i + (|name| - |u|);
      assert t[i] == u[i] == name[k];
    }
  }

  /** The slug is never empty, is made of lower-case ASCII letters, digits,
      `.`, `_` and `-`, and neither starts nor ends with `-`. */
  lemma SlugShape(name: string)
    ensures SlugShaped(Slug(name))
  {
    var out := TrimMatches(Collapse(Prepared(name)), '-');
    if out == [] {
      FallbackShaped();
    } else {
      TrimmedChars(name);
      assert forall i :: 0 <= i < |out| ==> out[i] in out;
    }
  }

  lemma FallbackShaped()
    ensures SlugShaped(Fallback)
  {
    var f := Fallback;
    assert f[0] == 'c' && f[1] == 'o' && f[2] == 'm' && f[3] == 'm' && f[4] == 'a' && f[5] == 'n' && f[6] == 'd';
  }

  lemma TrimmedChars(name: string)
    ensures forall c :: c in TrimMatches(Collapse(Prepared(name)), '-') ==> IsSafeChar(c)
  {
    var p := Prepared(name);
    var out := TrimMatches(Collapse(p), '-');
    CollapseChars(p);
    PreparedChars(name);
    forall c | c in out ensures IsSafeChar(c) {
      assert c in Collapse(p);
    }
  }

  /** The fallback applies exactly when the name has no letter, digit, `.`
      or `_`: only then is the stripped slug empty. */
  lemma {:induction false} SlugFallback(name: string)
    ensures TrimMatches(Collapse(Prepared(name)), '-') == []
      <==> forall i :: 0 <= i < |name| ==> name[i] == '-' || !IsSlugChar(name[i])
    ensures (forall i :: 0 <= i < |name| ==> name[i] == '-' || !IsSlugChar(name[i])) ==> Slug(name) == Fallback
  {
    var p := Prepared(name);
    var out := TrimMatches(Collapse(p), '-');
    if forall i :: 0 <= i < |name| ==> name[i] == '-' || !IsSlugChar(name[i]) {
      CollapseChars(p);
      PreparedChars(name);
      var q := Collapse(p);
      forall k | 0 <= k < |q| ensures q[k] == '-' {
        assert q[k] in q;
      }
      TrimMatchesAll(q, '-');
    } else {
      var i :| 0 <= i < |name| && name[i] != '-' && IsSlugChar(name[i]);
      KeptSurvives(name, i);
    }
  }

  /** A letter, digit, `.` or `_` of the name survives into the stripped slug,
      lower-cased. */
  lemma {:induction false} KeptSurvives(name: string, i: int)
    requires 0 <= i < |name| && name[i] != '-' && IsSlugChar(name[i])
    ensures LowerChar(name[i]) in TrimMatches(Collapse(Prepared(name)), '-')
  {
    var c := name[i];
    var t := Trim(name);
    TrimKeeps(name, i);
    var j :| 0 <= j < |t| && t[j] == c;
    var p := Prepared(name);
    assert p[j] == LowerChar(c);
    CollapseKeepsKept(p, j);
    var q := Collapse(p);
    var k :| 0 <= k < |q| && q[k] == LowerChar(c);
    TrimMatchesKeeps(q, '-', k);
  }

  /** A string that already has the slug's shape is its own slug. */
  lemma SlugOfSlugShaped(y: string)
    requires SlugShaped(y)
    ensures Slug(y) == y
  {
    PreparedSafe(y);
    CollapseSafe(y);
    TrimMatchesNoop(y, '-');
  }

  lemma CollapseSafe(y: string)
    requires forall i :: 0 <= i < |y| ==> IsSafeChar(y[i])
    ensures Collapse(y) == y
  {
    assert forall i :: 0 <= i < |y| ==> IsSlugChar(y[i]);
    CollapseKept(y);
  }

  lemma {:induction false} PreparedSafe(y: string)
    requires y != []
    requires forall i :: 0 <= i < |y| ==> IsSafeChar(y[i])
    ensures Prepared(y) == y
  {
    TrimSafe(y);
    LowerSafe(y);
  }

  lemma TrimSafe(y: string)
    requires y != []
    requires forall i :: 0 <= i < |y| ==> IsSafeChar(y[i])
    ensures Trim(y) == y
  {
    assert !IsWhitespace(y[0]) && !IsWhitespace(y[|y| - 1]);
    assert [] + y == y && y + [] == y;
    TrimStartAppend([], y);
    TrimEndAppend(y, []);
  }

  lemma LowerSafe(y: string)
    requires forall i :: 0 <= i < |y| ==> IsSafeChar(y[i])
    ensures Lower(y) == y
  {
    assert forall i :: 0 <= i < |y| ==> LowerChar(y[i]) == y[i];
  }

  /** A slug is its own slug. */
  lemma SlugIdempotent(name: string)
    ensures Slug(Slug(name)) == Slug(name)
  {
    SlugShape(name);
    SlugOfSlugShaped(Slug(name));
  }
}
