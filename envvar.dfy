/**
 * The `{{NAME}}` substitution engine: the four runtime values (user, date,
 * source-control branch, working directory) and `envsubst`, which replaces
 * their tokens in a fixed order.
 *
 * The process environment, the clock, the `git` invocation and the working
 * directory are parameters: `GetEnvVars` receives what the process would
 * have read and applies the source's fallback rules to it.
 */
module EnvVar {
  import opened Wrappers
  import opened Text
  import opened Numerals

  /** The values `get_env_vars` returns, under the names USER, DATE, GIT_BRANCH and CWD. */
  datatype Runtime = Runtime(user: string, date: string, gitBranch: string, cwd: string)

  /** A calendar date as the clock reports it. */
  datatype Date = Date(year: int, month: int, day: int)

  /** Bounds that every date Python's `datetime` accepts meets; the day is not bounded by its month. */
  predicate ValidDate(d: Date) {
    1 <= d.year <= 9999 && 1 <= d.month <= 12 && 1 <= d.day <= 31
  }

  function Pow10(n: nat): nat {
    if n == 0 then 1 else 10 * Pow10(n - 1)
  }

  /** `n` written in exactly `width` decimal digits, zero-padded on the left. */
  function PadDigits(n: nat, width: nat): (r: string)
    requires n < Pow10(width)
    ensures |r| == width
    ensures forall i :: 0 <= i < |r| ==> IsDigit(r[i])
    ensures DigitsValue(r) == n
  {
    if width == 0 then []
    else
      var r := PadDigits(n / 10, width - 1) + [DigitChar(n % 10)];
      assert r[..|r| - 1] == PadDigits(n / 10, width - 1);
      r
  }

  /** `strftime("%Y%m%d")`: four-digit year, two-digit month, two-digit day. */
  function FormatDate(d: Date): (r: string)
    requires ValidDate(d)
    ensures |r| == 8
    ensures forall i :: 0 <= i < |r| ==> IsDigit(r[i])
  {
    PadDigits(d.year, 4) + PadDigits(d.month, 2) + PadDigits(d.day, 2)
  }

  /** Reading an eight-digit date stamp back into its fields. */
  function ParseDate(s: string): Option<Date> {
    if |s| == 8 && forall i :: 0 <= i < 8 ==> IsDigit(s[i]) then
      Some(Date(DigitsValue(s[..4]), DigitsValue(s[4..6]), DigitsValue(s[6..])))
    else None
  }

  /** The DATE stamp loses nothing: it reads back as the date it was made from. */
  lemma DateRoundTrip(d: Date)
    requires ValidDate(d)
    ensures ParseDate(FormatDate(d)) == Some(d)
  {
    var y, m, dd := PadDigits(d.year, 4), PadDigits(d.month, 2), PadDigits(d.day, 2);
    var s := FormatDate(d);
    assert s[..4] == y && s[4..6] == m && s[6..] == dd;
  }

  /** `os.environ.get("USER") or os.environ.get("USERNAME") or ""`: an empty value counts as unset. */
  function UserName(env: map<string, string>): string {
    if "USER" in env && env["USER"] != "" then env["USER"]
    else if "USERNAME" in env && env["USERNAME"] != "" then env["USERNAME"]
    else ""
  }

  /**
   * `get_git_branch`: `None` stands for every way the `git` call can fail
   * (no git, not a repository, undecodable output), which the source turns
   * into the empty string; otherwise the output without surrounding white space.
   */
  function GitBranch(output: Option<string>): string {
    match output
    case None => ""
    case Some(out) => Strip(out)
  }

  /** `get_env_vars`, given what the process would have read. */
  function GetEnvVars(env: map<string, string>, today: Date, gitOutput: Option<string>, cwd: string): Runtime
    requires ValidDate(today)
  {
    Runtime(UserName(env), FormatDate(today), GitBranch(gitOutput), cwd)
  }

  /** The username falls back from USER to USERNAME to the empty string, skipping empty values. */
  lemma UserNameFallback(env: map<string, string>)
    ensures "USER" in env && env["USER"] != "" ==> UserName(env) == env["USER"]
    ensures !("USER" in env && env["USER"] != "") && "USERNAME" in env && env["USERNAME"] != "" ==>
      UserName(env) == env["USERNAME"]
    ensures UserName(env) != "" ==> UserName(env) in env.Values
    ensures UserName(env) == "" <==>
      !("USER" in env && env["USER"] != "") && !("USERNAME" in env && env["USERNAME"] != "")
  {
  }

  /** A branch lookup never fails the load and never carries surrounding white space. */
  lemma GitBranchIsStripped(output: Option<string>)
    ensures output.None? ==> GitBranch(output) == ""
    ensures output.Some? ==> GitBranch(output) == Strip(output.value)
    ensures GitBranch(output) == Strip(GitBranch(output))
  {
    match output
    case None =>
      StripNoEdgeSpace("");
    case Some(out) =>
      StripIdempotent(out);
  }

  /** `"{{" + name + "}}"`, the token `envsubst` looks for. */
  function Token(name: string): string {
    "{{" + name + "}}"
  }

  /** The `get_env_vars` dictionary in its insertion order. */
  function EnvVars(rt: Runtime): seq<(string, string)> {
    [("USER", rt.user), ("DATE", rt.date), ("GIT_BRANCH", rt.gitBranch), ("CWD", rt.cwd)]
  }

  /** The replacements `envsubst` performs, in order: each token and its value. */
  function TokenSubs(rt: Runtime): (subs: seq<(string, string)>)
    ensures |subs| == 4
    ensures forall n :: 0 <= n < |subs| ==> subs[n].0 != []
  {
    var vars := EnvVars(rt);
    seq(4, n requires 0 <= n < 4 => (Token(vars[n].0), vars[n].1))
  }

  /** `envsubst`: one full `replace` per runtime value, USER, DATE, GIT_BRANCH, CWD in turn. */
  method EnvSubst(val: string, rt: Runtime) returns (r: string)
    ensures r == ReplaceEach(val, TokenSubs(rt))
  {
    var envs := EnvVars(rt);
    r := val;
    var n := 0;
    while n < |envs|
      invariant 0 <= n <= |envs|
      invariant r == ReplaceEach(val, TokenSubs(rt)[..n])
    {
      assert TokenSubs(rt)[..n + 1][..n] == TokenSubs(rt)[..n];
      r := Replace(r, Token(envs[n].0), envs[n].1);
      n := n + 1;
    }
    assert TokenSubs(rt)[..n] == TokenSubs(rt);
  }

  predicate BraceFree(s: string) {
    forall i :: 0 <= i < |s| ==> s[i] != '{' && s[i] != '}'
  }

  /** A pattern whose first character never appears in `s` does not occur in it. */
  lemma FirstCharAbsent(s: string, pat: string)
    requires pat != []
    requires forall i :: 0 <= i < |s| ==> s[i] != pat[0]
    ensures !Contains(s, pat)
  {
    forall i: nat | i <= |s| ensures !OccursAt(s, pat, i) {
      if i + |pat| <= |s| {
        assert s[i..i + |pat|][0] == s[i];
      }
    }
  }

  /** A token occurs inside another token only if the two names are the same. */
  lemma TokenInToken(a: string, b: string)
    requires BraceFree(a) && BraceFree(b)
    requires Contains(Token(b), Token(a))
    ensures a == b
  {
    var s, t := Token(b), Token(a);
    var i: nat :| i <= |s| && OccursAt(s, t, i);
    assert s[i..i + |t|][1] == t[1] == '{';
    assert s[i + 1] == '{';
    assert i == 0;
    assert |a| <= |b|;
    assert s[|a| + 2] == t[|a| + 2] == '}';
    assert |a| == |b|;
    assert s == t;
    assert a == s[2..|s| - 2] == b;
  }

  /** Text without braces holds no token. */
  lemma BraceFreeHasNoToken(s: string, rt: Runtime)
    requires BraceFree(s)
    ensures forall n :: 0 <= n < 4 ==> !Contains(s, TokenSubs(rt)[n].0)
  {
    forall n | 0 <= n < 4 ensures !Contains(s, TokenSubs(rt)[n].0) {
      FirstCharAbsent(s, TokenSubs(rt)[n].0);
    }
  }

  /** Text in which none of the four tokens occurs comes back unchanged. */
  lemma EnvSubstWithoutTokens(s: string, rt: Runtime)
    requires forall n :: 0 <= n < 4 ==> !Contains(s, TokenSubs(rt)[n].0)
    ensures ReplaceEach(s, TokenSubs(rt)) == s
  {
    ReplaceEachAbsent(s, TokenSubs(rt));
  }

  /** Any other `{{NAME}}` token is left verbatim, whatever the runtime values. */
  lemma UnknownTokenVerbatim(name: string, rt: Runtime)
    requires BraceFree(name)
    requires name !in {"USER", "DATE", "GIT_BRANCH", "CWD"}
    ensures ReplaceEach(Token(name), TokenSubs(rt)) == Token(name)
  {
    var vars := EnvVars(rt);
    forall n | 0 <= n < 4 ensures !Contains(Token(name), TokenSubs(rt)[n].0) {
      assert TokenSubs(rt)[n].0 == Token(vars[n].0);
      if Contains(Token(name), Token(vars[n].0)) {
        TokenInToken(vars[n].0, name);
      }
    }
    EnvSubstWithoutTokens(Token(name), rt);
  }

  /** Brace-free text in front of the pattern is copied as it is. */
  lemma {:induction false} ReplaceAfterFreePrefix(p: string, s: string, pat: string, rep: string)
    requires pat != [] && pat[0] == '{'
    requires BraceFree(p)
    ensures Replace(p + s, pat, rep) == p + Replace(s, pat, rep)
    decreases |p|
  {
    if |p| > 0 {
      var q := p[1..];
      assert forall j :: 0 <= j < |q| ==> q[j] == p[j + 1];
      ReplaceAfterFreePrefix(q, s, pat, rep);
      assert p + s == [p[0]] + (q + s);
      ReplaceAfterFreeChar(p[0], q + s, pat, rep);
      assert p == [p[0]] + q;
    } else {
      assert p + s == s;
    }
  }

  /** A character other than `{` in front of the pattern is copied as it is. */
  lemma ReplaceAfterFreeChar(c: char, s: string, pat: string, rep: string)
    requires pat != [] && pat[0] == '{' && c != '{'
    ensures Replace([c] + s, pat, rep) == [c] + Replace(s, pat, rep)
  {
    var cs := [c] + s;
    assert cs[1..] == s;
    if |cs| < |pat| {
      assert Replace(s, pat, rep) == s;
    } else {
      assert cs[..|pat|][0] == c;
    }
  }

  /**
   * A value ending in `{{USER}}` after brace-free text gets the username in
   * its place, when no runtime value holds a brace.
   */
  lemma EnvSubstTrailingUser(p: string, rt: Runtime)
    requires BraceFree(p)
    requires BraceFree(rt.user) && BraceFree(rt.date) && BraceFree(rt.gitBranch) && BraceFree(rt.cwd)
    ensures ReplaceEach(p + Token("USER"), TokenSubs(rt)) == p + rt.user
  {
    var subs := TokenSubs(rt);
    var t := Token("USER");
    ReplaceAfterFreePrefix(p, t, t, rt.user);
    assert t[..|t|] == t && t[|t|..] == [];
    assert Replace(t, t, rt.user) == rt.user + Replace([], t, rt.user);
    var s1 := p + rt.user;
    assert ReplaceEach(p + t, subs[..1]) == s1 by {
      assert subs[..1][..0] == [];
    }
    assert BraceFree(s1);
    FirstCharAbsent(s1, subs[1].0);
    ReplaceAbsent(s1, subs[1].0, subs[1].1);
    assert subs[..2][..1] == subs[..1];
    assert ReplaceEach(p + t, subs[..2]) == s1;
    FirstCharAbsent(s1, subs[2].0);
    ReplaceAbsent(s1, subs[2].0, subs[2].1);
    assert subs[..3][..2] == subs[..2];
    assert ReplaceEach(p + t, subs[..3]) == s1;
    FirstCharAbsent(s1, subs[3].0);
    ReplaceAbsent(s1, subs[3].0, subs[3].1);
    assert subs[..3] == subs[..|subs| - 1];
    assert ReplaceEach(p + t, subs) == s1;
  }
}
