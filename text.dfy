/**
 * The string operations the configuration pipeline relies on, with Python's
 * semantics: `str.isspace`, `str.strip`, ASCII case mapping, and
 * `str.replace` for a non-empty pattern (with its reference definition
 * through `str.split` and `str.join`).
 */
module Text {

  /** Python's `str.isspace`: the Unicode white-space characters. */
  predicate IsSpace(c: char) {
    var n := c as int;
    (9 <= n <= 13) || (28 <= n <= 32) || n == 0x85 || n == 0xA0 || n == 0x1680
    || (0x2000 <= n <= 0x200A) || n == 0x2028 || n == 0x2029 || n == 0x202F
    || n == 0x205F || n == 0x3000
  }

  /** Leading white space removed: a suffix of `s`, all of whose cut-off characters are spaces. */
  function StripLeft(s: string): (r: string)
    ensures |r| <= |s| && r == s[|s| - |r|..]
    ensures r == [] || !IsSpace(r[0])
    ensures forall i :: 0 <= i < |s| - |r| ==> IsSpace(s[i])
  {
    if |s| > 0 && IsSpace(s[0]) then StripLeft(s[1..]) else s
  }

  /** Trailing white space removed: a prefix of `s`, all of whose cut-off characters are spaces. */
  function StripRight(s: string): (r: string)
    ensures |r| <= |s| && r == s[..|r|]
    ensures r == [] || !IsSpace(r[|r| - 1])
    ensures forall i :: |r| <= i < |s| ==> IsSpace(s[i])
  {
    if |s| > 0 && IsSpace(s[|s| - 1]) then StripRight(s[..|s| - 1]) else s
  }

  /** Python's `str.strip()` with no argument. */
  function Strip(s: string): (r: string)
    ensures r == [] || (!IsSpace(r[0]) && !IsSpace(r[|r| - 1]))
  {
    StripRight(StripLeft(s))
  }

  /** A string with no white space at either end is its own strip. */
  lemma StripNoEdgeSpace(s: string)
    requires s == [] || (!IsSpace(s[0]) && !IsSpace(s[|s| - 1]))
    ensures Strip(s) == s
  {
  }

  /** Leading white space may be dropped before stripping the left end. */
  lemma {:induction false} StripLeftDrop(s: string, k: nat)
    requires k <= |s|
    requires forall i :: 0 <= i < k ==> IsSpace(s[i])
    ensures StripLeft(s[k..]) == StripLeft(s)
  {
    if k > 0 {
      var t := s[1..];
      assert StripLeft(s) == StripLeft(t) by {
        assert IsSpace(s[0]);
      }
      forall i | 0 <= i < k - 1
        ensures IsSpace(t[i])
      {
        assert t[i] == s[i + 1];
      }
      StripLeftDrop(t, k - 1);
      assert t[k - 1..] == s[k..];
    }
  }

  /** Trailing white space may be dropped before stripping the right end. */
  lemma {:induction false} StripRightDrop(s: string, m: nat)
    requires m <= |s|
    requires forall i :: m <= i < |s| ==> IsSpace(s[i])
    ensures StripRight(s[..m]) == StripRight(s)
    decreases |s| - m
  {
    if m < |s| {
      var p := s[..|s| - 1];
      assert StripRight(s) == StripRight(p) by {
        assert IsSpace(s[|s| - 1]);
      }
      forall i | m <= i < |p|
        ensures IsSpace(p[i])
      {
        assert p[i] == s[i];
      }
      StripRightDrop(p, m);
      assert p[..m] == s[..m];
    }
  }

  /**
   * `strip()` keeps exactly the slice between the first and the last
   * character that is not white space.
   */
  lemma StripIsCore(s: string, i: nat, j: nat)
    requires i <= j <= |s|
    requires forall x :: 0 <= x < i ==> IsSpace(s[x])
    requires forall x :: j <= x < |s| ==> IsSpace(s[x])
    requires i < j ==> !IsSpace(s[i]) && !IsSpace(s[j - 1])
    ensures Strip(s) == s[i..j]
  {
    if i == j {
      StripAllSpace(s);
      assert s[i..j] == [];
    } else {
      StripInner(s, i, j);
    }
  }

  /** The non-empty case: the slice starts and ends with non-spaces. */
  lemma StripInner(s: string, i: nat, j: nat)
    requires i < j <= |s|
    requires forall x :: 0 <= x < i ==> IsSpace(s[x])
    requires forall x :: j <= x < |s| ==> IsSpace(s[x])
    requires !IsSpace(s[i]) && !IsSpace(s[j - 1])
    ensures Strip(s) == s[i..j]
  {
    StripLeftAt(s, i);
    StripRightAt(s, i, j);
  }

  /** Stripping the left end cuts exactly the leading spaces before a non-space. */
  lemma StripLeftAt(s: string, i: nat)
    requires i < |s|
    requires forall x :: 0 <= x < i ==> IsSpace(s[x])
    requires !IsSpace(s[i])
    ensures StripLeft(s) == s[i..]
  {
    StripLeftDrop(s, i);
  }

  /** Stripping the right end of a suffix cuts exactly the trailing spaces after a non-space. */
  lemma StripRightAt(s: string, i: nat, j: nat)
    requires i < j <= |s|
    requires forall x :: j <= x < |s| ==> IsSpace(s[x])
    requires !IsSpace(s[j - 1])
    ensures StripRight(s[i..]) == s[i..j]
  {
    var a := s[i..];
    forall x | j - i <= x < |a|
      ensures IsSpace(a[x])
    {
      assert a[x] == s[x + i];
    }
    StripRightDrop(a, j - i);
    assert a[..j - i] == s[i..j];
  }

  /** A slice of a slice is a slice of the whole. */
  lemma SliceOfSlice(s: string, t: string, k: nat, a: nat, b: nat)
    requires k + |t| <= |s| && t == s[k..k + |t|] && a + b <= |t|
    ensures t[a..a + b] == s[k + a..k + a + b]
  {
    var l, r := t[a..a + b], s[k + a..k + a + b];
    forall i | 0 <= i < b
      ensures l[i] == r[i]
    {
      assert l[i] == t[a + i] == s[k + a + i];
    }
    assert l == r;
  }

  /** Text made only of white space strips to the empty string. */
  lemma StripAllSpace(s: string)
    requires forall x :: 0 <= x < |s| ==> IsSpace(s[x])
    ensures Strip(s) == []
  {
    StripLeftDrop(s, |s|);
    assert s[|s|..] == [];
  }

  /** `strip()` is idempotent. */
  lemma StripIdempotent(s: string)
    ensures Strip(Strip(s)) == Strip(s)
  {
    StripNoEdgeSpace(Strip(s));
  }

  function LowerChar(c: char): char {
    if 'A' <= c <= 'Z' then (c as int + 32) as char else c
  }

  function UpperChar(c: char): char {
    if 'a' <= c <= 'z' then (c as int - 32) as char else c
  }

  /** `str.lower()` restricted to ASCII letters. */
  function Lower(s: string): string {
    seq(|s|, i requires 0 <= i < |s| => LowerChar(s[i]))
  }

  /** `str.upper()` restricted to ASCII letters. */
  function Upper(s: string): string {
    seq(|s|, i requires 0 <= i < |s| => UpperChar(s[i]))
  }

  predicate StartsWith(s: string, prefix: string) {
    |prefix| <= |s| && s[..|prefix|] == prefix
  }

  /** `pat` occurs in `s` starting at index `i`. */
  predicate OccursAt(s: string, pat: string, i: nat) {
    i + |pat| <= |s| && s[i..i + |pat|] == pat
  }

  /** Python's `pat in s`. */
  predicate Contains(s: string, pat: string) {
    exists i: nat | i <= |s| :: OccursAt(s, pat, i)
  }

  /**
   * Python's `s.replace(pat, rep)` for a non-empty pattern: a left-to-right
   * scan that replaces every non-overlapping occurrence.
   */
  function Replace(s: string, pat: string, rep: string): string
    requires pat != []
    decreases |s|
  {
    if |s| < |pat| then s
    else if s[..|pat|] == pat then rep + Replace(s[|pat|..], pat, rep)
    else [s[0]] + Replace(s[1..], pat, rep)
  }

  /** Python's `s.split(sep)` for a non-empty separator. */
  function Split(s: string, sep: string): (pieces: seq<string>)
    requires sep != []
    ensures |pieces| >= 1
    decreases |s|
  {
    if |s| < |sep| then [s]
    else if s[..|sep|] == sep then [[]] + Split(s[|sep|..], sep)
    else
      var rest := Split(s[1..], sep);
      [[s[0]] + rest[0]] + rest[1..]
  }

  /** Python's `sep.join(pieces)`. */
  function Join(pieces: seq<string>, sep: string): string {
    if |pieces| == 0 then []
    else if |pieces| == 1 then pieces[0]
    else pieces[0] + sep + Join(pieces[1..], sep)
  }

  lemma {:induction false} JoinConsFirst(c: char, pieces: seq<string>, sep: string)
    requires |pieces| >= 1
    ensures Join([[c] + pieces[0]] + pieces[1..], sep) == [c] + Join(pieces, sep)
  {
    var ps := [[c] + pieces[0]] + pieces[1..];
    if |pieces| > 1 {
      assert ps[1..] == pieces[1..];
    }
  }

  /** `str.replace` is `rep.join(s.split(pat))`. */
  lemma {:induction false} ReplaceIsJoinOfSplit(s: string, pat: string, rep: string)
    requires pat != []
    ensures Replace(s, pat, rep) == Join(Split(s, pat), rep)
    decreases |s|
  {
    if |s| < |pat| {
    } else if s[..|pat|] == pat {
      ReplaceIsJoinOfSplit(s[|pat|..], pat, rep);
      var rest := Split(s[|pat|..], pat);
      assert Split(s, pat) == [[]] + rest;
      assert ([[]] + rest)[1..] == rest;
    } else {
      ReplaceIsJoinOfSplit(s[1..], pat, rep);
      JoinConsFirst(s[0], Split(s[1..], pat), rep);
    }
  }

  /** Replacing a pattern by itself changes nothing. */
  lemma {:induction false} ReplaceSelf(s: string, pat: string)
    requires pat != []
    ensures Replace(s, pat, pat) == s
    decreases |s|
  {
    if |s| < |pat| {
    } else if s[..|pat|] == pat {
      ReplaceSelf(s[|pat|..], pat);
      assert s == s[..|pat|] + s[|pat|..];
    } else {
      ReplaceSelf(s[1..], pat);
      assert s == [s[0]] + s[1..];
    }
  }

  /** Split and join are inverse: joining the pieces with the separator gives back `s`. */
  lemma SplitJoinRoundTrip(s: string, sep: string)
    requires sep != []
    ensures Join(Split(s, sep), sep) == s
  {
    ReplaceIsJoinOfSplit(s, sep, sep);
    ReplaceSelf(s, sep);
  }

  /** The first piece of a split is a prefix of the string. */
  lemma {:induction false} SplitFirstIsPrefix(s: string, sep: string)
    requires sep != []
    ensures |Split(s, sep)[0]| <= |s| && s[..|Split(s, sep)[0]|] == Split(s, sep)[0]
    decreases |s|
  {
    if |s| < |sep| {
      assert Split(s, sep) == [s];
    } else if s[..|sep|] == sep {
      assert Split(s, sep)[0] == [];
    } else {
      SplitFirstIsPrefix(s[1..], sep);
      var first := Split(s[1..], sep)[0];
      assert Split(s, sep)[0] == [s[0]] + first;
      assert s[..|first| + 1] == [s[0]] + s[1..][..|first|];
    }
  }

  /** No piece of a split contains the separator: every occurrence was cut out. */
  lemma {:induction false} SplitPiecesAreFree(s: string, sep: string)
    requires sep != []
    ensures forall n :: 0 <= n < |Split(s, sep)| ==> !Contains(Split(s, sep)[n], sep)
    decreases |s|
  {
    var pieces := Split(s, sep);
    if |s| < |sep| {
      forall i: nat ensures !OccursAt(s, sep, i) { }
    } else if s[..|sep|] == sep {
      SplitPiecesAreFree(s[|sep|..], sep);
      var rest := Split(s[|sep|..], sep);
      assert pieces == [[]] + rest;
      forall n | 0 <= n < |pieces| ensures !Contains(pieces[n], sep) {
        if n == 0 {
          forall i: nat ensures !OccursAt(pieces[0], sep, i) { }
        } else {
          assert pieces[n] == rest[n - 1];
        }
      }
    } else {
      SplitPiecesAreFree(s[1..], sep);
      SplitFirstIsPrefix(s[1..], sep);
      var rest := Split(s[1..], sep);
      var first := [s[0]] + rest[0];
      assert pieces == [first] + rest[1..];
      FirstPieceFree(s, sep, rest[0]);
      forall n | 0 <= n < |pieces| ensures !Contains(pieces[n], sep) {
        if n > 0 {
          assert pieces[n] == rest[n];
        }
      }
    }
  }

  /**
   * A first piece grown by a character that does not start the separator
   * stays free of the separator.
   */
  lemma FirstPieceFree(s: string, sep: string, tail: string)
    requires sep != [] && |s| >= |sep| && s[..|sep|] != sep
    requires |tail| < |s| && s[1..][..|tail|] == tail
    requires !Contains(tail, sep)
    ensures !Contains([s[0]] + tail, sep)
  {
    var first := [s[0]] + tail;
    assert first == s[..|first|];
    forall i: nat ensures !OccursAt(first, sep, i) {
      if i == 0 {
      } else if OccursAt(first, sep, i) {
        assert tail[i - 1..i - 1 + |sep|] == first[i..i + |sep|];
        assert OccursAt(tail, sep, i - 1);
      }
    }
  }

  /** A string in which the pattern does not occur is left unchanged. */
  lemma {:induction false} ReplaceAbsent(s: string, pat: string, rep: string)
    requires pat != []
    requires !Contains(s, pat)
    ensures Replace(s, pat, rep) == s
    decreases |s|
  {
    if |s| < |pat| {
    } else {
      assert !OccursAt(s, pat, 0);
      forall i: nat ensures !OccursAt(s[1..], pat, i) {
        if OccursAt(s[1..], pat, i) {
          assert s[i + 1..i + 1 + |pat|] == s[1..][i..i + |pat|];
          assert OccursAt(s, pat, i + 1);
        }
      }
      ReplaceAbsent(s[1..], pat, rep);
      assert s == [s[0]] + s[1..];
    }
  }

  /**
   * A sequence of replacements applied left to right, each a full `Replace`:
   * the shape of both substitution passes of the configuration loader.
   */
  function ReplaceEach(s: string, subs: seq<(string, string)>): string
    requires forall n :: 0 <= n < |subs| ==> subs[n].0 != []
  {
    if |subs| == 0 then s
    else Replace(ReplaceEach(s, subs[..|subs| - 1]), subs[|subs| - 1].0, subs[|subs| - 1].1)
  }

  /** When no pattern occurs in the string, the whole fold leaves it unchanged. */
  lemma {:induction false} ReplaceEachAbsent(s: string, subs: seq<(string, string)>)
    requires forall n :: 0 <= n < |subs| ==> subs[n].0 != []
    requires forall n :: 0 <= n < |subs| ==> !Contains(s, subs[n].0)
    ensures ReplaceEach(s, subs) == s
  {
    if |subs| > 0 {
      ReplaceEachAbsent(s, subs[..|subs| - 1]);
      ReplaceAbsent(s, subs[|subs| - 1].0, subs[|subs| - 1].1);
    }
  }
}
