/** `ensure_owned`: every file a patch touches must be valid and lie under
    one of the task's allowed path prefixes; all violations are reported in
    one message. */
module Ownership {
  import opened Strings
  import opened Results
  import opened DiffHeaders

  const EmptyPrefixesError: string := "allowedPathPrefixes is empty"
  const ViolationsHeader: string := "patch ownership check failed:\n- "
  const ViolationsSeparator: string := "\n- "

  /** Appends the single trailing `/` a prefix is matched with, unless present. */
  function WithSlash(q: string): (r: string)
    ensures EndsWithChar(r, '/')
  {
    if EndsWithChar(q, '/') then q else q + "/"
  }

  /** The prefixes after `replace('\\', "/")`, dropping blank ones, each
      ending in `/`, in input order. */
  function AllowedPrefixes(prefixes: seq<string>): (r: seq<string>)
    ensures forall i :: 0 <= i < |r| ==> EndsWithChar(r[i], '/')
    decreases |prefixes|
  {
    if prefixes == [] then []
    else
      var init := AllowedPrefixes(prefixes[..|prefixes| - 1]);
      var q := ReplaceChar(prefixes[|prefixes| - 1], '\\', '/');
      if Trim(q) == [] then init else init + [WithSlash(q)]
  }

  /** A path is covered by a prefix when it is the prefix with its trailing
      slashes removed, or starts with the prefix. */
  predicate Covers(prefix: string, path: string) {
    path == TrimEndMatches(prefix, '/') || StartsWith(path, prefix)
  }

  predicate Authorized(path: string, allowed: seq<string>) {
    exists i :: 0 <= i < |allowed| && Covers(allowed[i], path)
  }

  /** The violation lines of the entries, one per invalid or unauthorised
      entry, in input order. */
  function Violations(touched: seq<Touched>, allowed: seq<string>): seq<string>
    decreases |touched|
  {
    if touched == [] then []
    else
      var init := Violations(touched[..|touched| - 1], allowed);
      var t := touched[|touched| - 1];
      if t.invalid then init + ["invalid path in patch: " + t.path]
      else if !Authorized(t.path, allowed) then init + ["unauthorized path: " + t.path]
      else init
  }

  /** The outcome `ensure_owned` returns. */
  function CheckOwnership(touched: seq<Touched>, prefixes: seq<string>): Outcome {
    var allowed := AllowedPrefixes(prefixes);
    if allowed == [] then Fail(EmptyPrefixesError)
    else
      var v := Violations(touched, allowed);
      if v == [] then Pass else Fail(ViolationsHeader + Join(v, ViolationsSeparator))
  }

  /** The inner loop of `ensure_owned`: the `ok` flag, set at the first
      prefix that covers the path, followed by `break`. */
  method IsAuthorized(path: string, allowed: seq<string>) returns (ok: bool)
    ensures ok == Authorized(path, allowed)
  {
    ok := false;
    var j := 0;
    while j < |allowed|
      invariant 0 <= j <= |allowed|
      invariant ok ==> Authorized(path, allowed)
      invariant !ok ==> forall m :: 0 <= m < j ==> !Covers(allowed[m], path)
    {
      var prefix := allowed[j];
      var base := TrimEndMatches(prefix, '/');
      if path == base || StartsWith(path, prefix) {
        ok := true;
        break;
      }
      j := j + 1;
    }
  }

  /** The outer loop as the source writes it, collecting every violation.
      The source also sorts and deduplicates
      the prefixes; only membership is consulted, see `AuthorizedBySetOnly`. */
  method EnsureOwned(touched: seq<Touched>, prefixes: seq<string>) returns (r: Outcome)
    ensures r == CheckOwnership(touched, prefixes)
  {
    var allowed := AllowedPrefixes(prefixes);
    if |allowed| == 0 {
      return Fail(EmptyPrefixesError);
    }
    var violations := CollectViolations(touched, allowed);
    if |violations| > 0 {
      return Fail(ViolationsHeader + Join(violations, ViolationsSeparator));
    }
    return Pass;
  }

  /** The loop over the entries: one line per invalid or unauthorised entry. */
  method CollectViolations(touched: seq<Touched>, allowed: seq<string>) returns (violations: seq<string>)
    ensures violations == Violations(touched, allowed)
  {
    violations := [];
    var k := 0;
    while k < |touched|
      invariant 0 <= k <= |touched|
      invariant violations == Violations(touched[..k], allowed)
    {
      var entry := touched[k];
      assert touched[..k + 1] == touched[..k] + [entry];
      ViolationsSnoc(touched[..k], entry, allowed);
      if entry.invalid {
        violations := violations + ["invalid path in patch: " + entry.path];
        k := k + 1;
        continue;
      }
      var ok := IsAuthorized(entry.path, allowed);
      if !ok {
        violations := violations + ["unauthorized path: " + entry.path];
      }
      k := k + 1;
    }
    assert touched[..k] == touched;
  }

  lemma ViolationsSnoc(touched: seq<Touched>, t: Touched, allowed: seq<string>)
    ensures Violations(touched + [t], allowed) == Violations(touched, allowed) +
      if t.invalid then ["invalid path in patch: " + t.path]
      else if !Authorized(t.path, allowed) then ["unauthorized path: " + t.path]
      else []
  {
    assert (touched + [t])[..|touched|] == touched;
  }

  predicate Acceptable(t: Touched, allowed: seq<string>) {
    !t.invalid && Authorized(t.path, allowed)
  }

  /** No violation line is produced exactly when every entry is valid and authorised. */
  lemma {:induction false} ViolationsEmptyIff(touched: seq<Touched>, allowed: seq<string>)
    ensures Violations(touched, allowed) == [] <==> forall i :: 0 <= i < |touched| ==> Acceptable(touched[i], allowed)
    decreases |touched|
  {
    if touched != [] {
      var init := touched[..|touched| - 1];
      ViolationsEmptyIff(init, allowed);
      assert forall i :: 0 <= i < |init| ==> init[i] == touched[i];
    }
  }

  /** Violations of a concatenation are the violations of each part, in order:
      a bad entry never hides the lines of the entries after it. */
  lemma {:induction false} ViolationsAppend(t1: seq<Touched>, t2: seq<Touched>, allowed: seq<string>)
    ensures Violations(t1 + t2, allowed) == Violations(t1, allowed) + Violations(t2, allowed)
    decreases |t2|
  {
    if t2 == [] {
      assert t1 + t2 == t1;
    } else {
      var init := t2[..|t2| - 1];
      assert (t1 + t2)[..|t1 + t2| - 1] == t1 + init;
      assert (t1 + t2)[|t1 + t2| - 1] == t2[|t2| - 1];
      ViolationsAppend(t1, init, allowed);
    }
  }

  /** The line one entry contributes. */
  lemma ViolationsOne(t: Touched, allowed: seq<string>)
    ensures Violations([t], allowed) ==
      if t.invalid then ["invalid path in patch: " + t.path]
      else if !Authorized(t.path, allowed) then ["unauthorized path: " + t.path]
      else []
  {
    assert [t][..0] == [];
  }

  /** Every raw prefix is blank. */
  predicate AllBlank(prefixes: seq<string>) {
    forall i :: 0 <= i < |prefixes| ==> AllWhitespace(prefixes[i])
  }

  /** No prefix is left exactly when every prefix is blank. */
  lemma {:induction false} AllowedPrefixesEmptyIff(prefixes: seq<string>)
    ensures AllowedPrefixes(prefixes) == [] <==> AllBlank(prefixes)
    decreases |prefixes|
  {
    if prefixes != [] {
      var init := prefixes[..|prefixes| - 1];
      var p := prefixes[|prefixes| - 1];
      assert prefixes == init + [p];
      AllowedPrefixesEmptyIff(init);
      BlankPrefix(p);
      BlankSnoc(init, p);
      var q := ReplaceChar(p, '\\', '/');
      if Trim(q) == [] {
        assert AllowedPrefixes(prefixes) == AllowedPrefixes(init);
      } else {
        assert AllowedPrefixes(prefixes) == AllowedPrefixes(init) + [WithSlash(q)];
      }
    }
  }

  lemma BlankSnoc(ps: seq<string>, p: string)
    ensures AllBlank(ps + [p]) <==> AllBlank(ps) && AllWhitespace(p)
  {
    var qs := ps + [p];
    assert qs[|ps|] == p;
    assert forall i :: 0 <= i < |ps| ==> qs[i] == ps[i];
  }

  /** A prefix is dropped exactly when it is blank. */
  lemma BlankPrefix(p: string)
    ensures Trim(ReplaceChar(p, '\\', '/')) == [] <==> AllWhitespace(p)
  {
    var q := ReplaceChar(p, '\\', '/');
    TrimEmptyIsAllWhitespace(q);
    ReplaceKeepsWhitespace(p);
  }

  /** Turning `\\` into `/` changes no character's whitespace status. */
  lemma ReplaceKeepsWhitespace(p: string)
    ensures AllWhitespace(ReplaceChar(p, '\\', '/')) <==> AllWhitespace(p)
  {
    var q := ReplaceChar(p, '\\', '/');
    if AllWhitespace(p) {
      forall i | 0 <= i < |q| ensures IsWhitespace(q[i]) {
        assert q[i] == p[i];
      }
    }
    if AllWhitespace(q) {
      forall i | 0 <= i < |p| ensures IsWhitespace(p[i]) {
        assert IsWhitespace(q[i]);
      }
    }
  }

  /** `ensure_owned` succeeds exactly when some prefix is non-blank and every
      entry is valid and authorised; it fails with the empty-prefixes error
      exactly when none is, and otherwise with the joined violation lines. */
  lemma OwnershipContract(touched: seq<Touched>, prefixes: seq<string>)
    ensures var allowed := AllowedPrefixes(prefixes);
      CheckOwnership(touched, prefixes) == Pass <==>
        allowed != [] && forall i :: 0 <= i < |touched| ==> Acceptable(touched[i], allowed)
    ensures CheckOwnership(touched, prefixes) == Fail(EmptyPrefixesError) <==> AllBlank(prefixes)
  {
    var allowed := AllowedPrefixes(prefixes);
    ViolationsEmptyIff(touched, allowed);
    AllowedPrefixesEmptyIff(prefixes);
    var v := Violations(touched, allowed);
    if allowed != [] && v != [] {
      assert StartsWith(ViolationsHeader + Join(v, ViolationsSeparator), ViolationsHeader);
      assert !StartsWith(EmptyPrefixesError, ViolationsHeader) by {
        assert EmptyPrefixesError[0] != ViolationsHeader[0];
      }
    }
  }

  /** Only the set of allowed prefixes matters, so their sort and dedup in the
      source change nothing. */
  lemma AuthorizedBySetOnly(path: string, a: seq<string>, b: seq<string>)
    requires forall p :: p in a <==> p in b
    ensures Authorized(path, a) <==> Authorized(path, b)
  {
    if Authorized(path, a) {
      var i :| 0 <= i < |a| && Covers(a[i], path);
      assert a[i] in b;
      var j :| 0 <= j < |b| && b[j] == a[i];
    }
    if Authorized(path, b) {
      var j :| 0 <= j < |b| && Covers(b[j], path);
      assert b[j] in a;
      var i :| 0 <= i < |a| && a[i] == b[j];
    }
  }

  lemma AllowedSingle(q: string)
    requires '\\' !in q && !AllWhitespace(q) && !EndsWithChar(q, '/')
    ensures AllowedPrefixes([q]) == [q + "/"]
  {
    ReplaceCharAbsent(q, '\\', '/');
    TrimEmptyIsAllWhitespace(q);
    assert [q][..0] == [];
  }

  lemma CoversStartsWith(q: string, path: string)
    requires StartsWith(path, q + "/")
    ensures Split(q, '/') <= Split(path, '/')
  {
    var y := path[|q| + 1..];
    assert path == q + ['/'] + y;
    SplitConcat(q, '/', y);
  }

  lemma ComponentPrefixCovered(q: string, path: string)
    requires Split(q, '/') <= Split(path, '/')
    ensures path == q || StartsWith(path, q + "/")
  {
    var sq, sp := Split(q, '/'), Split(path, '/');
    JoinSplit(q, '/');
    JoinSplit(path, '/');
    if |sq| == |sp| {
      assert sq == sp;
    } else {
      var rest := sp[|sq|..];
      assert sp == sq + rest;
      JoinConcat(sq, rest, "/");
      assert path == q + "/" + Join(rest, "/");
      assert path[..|q + "/"|] == q + "/";
    }
  }

  lemma CoversSlashIff(q: string, path: string)
    requires !EndsWithChar(q, '/')
    ensures Covers(q + "/", path) <==> Split(q, '/') <= Split(path, '/')
  {
    assert (q + "/")[..|q|] == q;
    assert TrimEndMatches(q + "/", '/') == q;
    if StartsWith(path, q + "/") {
      CoversStartsWith(q, path);
    }
    if Split(q, '/') <= Split(path, '/') {
      ComponentPrefixCovered(q, path);
    }
  }

  lemma AuthorizedSingle(path: string, prefix: string)
    ensures Authorized(path, [prefix]) <==> Covers(prefix, path)
  {
    if Covers(prefix, path) {
      assert [prefix][0] == prefix;
    }
  }

  /** An allowed prefix `q` (no backslash, not blank, no trailing `/`)
      authorises exactly the paths whose `/`-separated components begin with
      the components of `q`: `src` covers `src` and `src/a.txt` but not
      `srcx/a.txt`. */
  lemma PrefixIsComponentPrefix(q: string, path: string)
    requires '\\' !in q && !AllWhitespace(q) && !EndsWithChar(q, '/')
    ensures Authorized(path, AllowedPrefixes([q])) <==> Split(q, '/') <= Split(path, '/')
  {
    AllowedSingle(q);
    AuthorizedSingle(path, q + "/");
    CoversSlashIff(q, path);
  }

  /** The prefix `src` is kept as `src/`. */
  lemma SrcPrefixAllowed()
    ensures AllowedPrefixes(["src"]) == ["src/"]
  {
    assert !IsWhitespace("src"[0]);
    assert !EndsWithChar("src", '/');
    AllowedSingle("src");
    assert "src" + "/" == "src/";
  }

  /** The configured prefix `src` authorises a file in a nested directory. */
  lemma SrcNestedExample()
    ensures Authorized("src/sub/b.txt", AllowedPrefixes(["src"]))
  {
    SrcPrefixAllowed();
    AuthorizedSingle("src/sub/b.txt", "src/");
    assert "src/sub/b.txt"[..4] == "src/";
    assert Covers("src/", "src/sub/b.txt");
  }

  /** `src/` authorises `src/a.txt`, and rejects `srcx/a.txt` and `README.md`. */
  lemma SrcPrefixExample()
    ensures Authorized("src/a.txt", ["src/"])
    ensures !Authorized("srcx/a.txt", ["src/"]) && !Authorized("README.md", ["src/"])
  {
    AuthorizedSingle("src/a.txt", "src/");
    assert "src/a.txt"[..4] == "src/";
    assert Covers("src/", "src/a.txt");
    AuthorizedSingle("srcx/a.txt", "src/");
    assert "srcx/a.txt"[3] != "src/"[3];
    assert TrimEndMatches("src/", '/') == "src";
    AuthorizedSingle("README.md", "src/");
    assert "README.md"[0] != "src/"[0];
  }
}
