/**
 * Python's numeric text: what `int(s)` and `float(s)` accept (ASCII digits),
 * the value of a decimal digit string, and `str(n)` for integers.
 */
module Numerals {
  import opened Wrappers
  import opened Text

  predicate IsDigit(c: char) {
    '0' <= c <= '9'
  }

  function DigitValue(c: char): nat
    requires IsDigit(c)
  {
    c as int - '0' as int
  }

  function DigitChar(d: nat): (c: char)
    requires d < 10
    ensures IsDigit(c) && DigitValue(c) == d
  {
    (d + '0' as int) as char
  }

  predicate IsSign(c: char) {
    c == '+' || c == '-'
  }

  /** Python's `digitpart`: ASCII digits, with single underscores allowed between two digits. */
  predicate IsDigitPart(s: string) {
    && |s| > 0
    && IsDigit(s[0])
    && IsDigit(s[|s| - 1])
    && DigitsAndUnderscores(s)
    && forall i :: 0 <= i < |s| && s[i] == '_' ==> i + 1 < |s| && IsDigit(s[i + 1])
  }

  predicate DigitsAndUnderscores(s: string) {
    forall i :: 0 <= i < |s| ==> IsDigit(s[i]) || s[i] == '_'
  }

  /** The decimal value of a string of digits and underscores, underscores ignored. */
  function DigitsValue(s: string): nat
    requires DigitsAndUnderscores(s)
  {
    if |s| == 0 then 0
    else if s[|s| - 1] == '_' then DigitsValue(s[..|s| - 1])
    else 10 * DigitsValue(s[..|s| - 1]) + DigitValue(s[|s| - 1])
  }

  /**
   * The white space `int()` and `float()` skip around a number: every
   * `str.isspace` character except the four separators U+001C to U+001F.
   * CPython maps non-ASCII white space to a blank but leaves ASCII alone,
   * and then skips only blanks, tabs, line feeds, vertical tabs, form feeds
   * and carriage returns.
   */
  predicate IsNumberSpace(c: char) {
    IsSpace(c) && !(28 <= c as int <= 31)
  }

  /** Leading number white space removed. */
  function NumberStripLeft(s: string): (r: string)
    ensures |r| <= |s| && r == s[|s| - |r|..]
    ensures r == [] || !IsNumberSpace(r[0])
    ensures forall i :: 0 <= i < |s| - |r| ==> IsNumberSpace(s[i])
  {
    if |s| > 0 && IsNumberSpace(s[0]) then NumberStripLeft(s[1..]) else s
  }

  /** Trailing number white space removed. */
  function NumberStripRight(s: string): (r: string)
    ensures |r| <= |s| && r == s[..|r|]
    ensures r == [] || !IsNumberSpace(r[|r| - 1])
    ensures forall i :: |r| <= i < |s| ==> IsNumberSpace(s[i])
  {
    if |s| > 0 && IsNumberSpace(s[|s| - 1]) then NumberStripRight(s[..|s| - 1]) else s
  }

  /** The text `int()` and `float()` read: `s` without its surrounding number white space. */
  function NumberStrip(s: string): (r: string)
    ensures r == [] || (!IsNumberSpace(r[0]) && !IsNumberSpace(r[|r| - 1]))
  {
    NumberStripRight(NumberStripLeft(s))
  }

  /** Text with no number white space at either end is read whole. */
  lemma NumberStripNoEdgeSpace(s: string)
    requires s == [] || (!IsNumberSpace(s[0]) && !IsNumberSpace(s[|s| - 1]))
    ensures NumberStrip(s) == s
  {
  }

  /**
   * `strip()` cuts at least what `int()` and `float()` skip: stripping the
   * text they read gives the strip of the whole text.
   */
  lemma StripOfNumberStrip(s: string)
    ensures Strip(NumberStrip(s)) == Strip(s)
  {
    var k, n := NumberStripBounds(s);
    var t := s[k..k + n];
    var a, b := StripBounds(t);
    assert Strip(s) == t[a..a + b] by {
      StripOfSlice(s, t, k, a, b);
    }
  }

  /**
   * If `t`, the slice of `s` at `k`, has only number white space around it,
   * and strips to its own slice `[a..a + b]`, then `s` strips to that too.
   */
  lemma StripOfSlice(s: string, t: string, k: nat, a: nat, b: nat)
    requires k + |t| <= |s| && t == s[k..k + |t|] && a + b <= |t|
    requires forall x :: 0 <= x < k ==> IsNumberSpace(s[x])
    requires forall x :: k + |t| <= x < |s| ==> IsNumberSpace(s[x])
    requires forall x :: 0 <= x < a ==> IsSpace(t[x])
    requires forall x :: a + b <= x < |t| ==> IsSpace(t[x])
    requires b > 0 ==> !IsSpace(t[a]) && !IsSpace(t[a + b - 1])
    ensures Strip(s) == t[a..a + b]
  {
    SpacesBefore(s, t, k, a);
    SpacesAfter(s, t, k, a + b);
    if b > 0 {
      assert t[a] == s[k + a];
      assert t[a + b - 1] == s[k + a + b - 1];
    }
    StripIsCore(s, k + a, k + a + b);
    SliceOfSlice(s, t, k, a, b);
  }

  /** Number white space, then white space inside the slice `t`: white space up to `k + a`. */
  lemma SpacesBefore(s: string, t: string, k: nat, a: nat)
    requires k + |t| <= |s| && t == s[k..k + |t|] && a <= |t|
    requires forall x :: 0 <= x < k ==> IsNumberSpace(s[x])
    requires forall x :: 0 <= x < a ==> IsSpace(t[x])
    ensures forall x :: 0 <= x < k + a ==> IsSpace(s[x])
  {
    forall x | 0 <= x < k + a
      ensures IsSpace(s[x])
    {
      if x >= k {
        assert IsSpace(t[x - k]);
      } else {
        assert IsNumberSpace(s[x]);
      }
    }
  }

  /** White space inside the slice `t` from `c`, then number white space: white space from `k + c`. */
  lemma SpacesAfter(s: string, t: string, k: nat, c: nat)
    requires k + |t| <= |s| && t == s[k..k + |t|] && c <= |t|
    requires forall x :: k + |t| <= x < |s| ==> IsNumberSpace(s[x])
    requires forall x :: c <= x < |t| ==> IsSpace(t[x])
    ensures forall x :: k + c <= x < |s| ==> IsSpace(s[x])
  {
    forall x | k + c <= x < |s|
      ensures IsSpace(s[x])
    {
      if x < k + |t| {
        assert IsSpace(t[x - k]);
      } else {
        assert IsNumberSpace(s[x]);
      }
    }
  }

  /** The text `int()` reads is a slice of `s` with only white space around it. */
  lemma NumberStripBounds(s: string) returns (k: nat, n: nat)
    ensures k + n <= |s| && |NumberStrip(s)| == n && NumberStrip(s) == s[k..k + n]
    ensures forall x :: 0 <= x < k ==> IsNumberSpace(s[x])
    ensures forall x :: k + n <= x < |s| ==> IsNumberSpace(s[x])
  {
    var l := NumberStripLeft(s);
    k := |s| - |l|;
    var r := NumberStripRight(l);
    n := |r|;
    assert l == s[k..];
    assert r == l[..n];
    forall x | k + n <= x < |s|
      ensures IsNumberSpace(s[x])
    {
      assert IsNumberSpace(l[x - k]);
    }
  }

  /** The strip of `t` is a slice with only white space around it. */
  lemma StripBounds(t: string) returns (a: nat, b: nat)
    ensures a + b <= |t| && Strip(t) == t[a..a + b]
    ensures forall x :: 0 <= x < a ==> IsSpace(t[x])
    ensures forall x :: a + b <= x < |t| ==> IsSpace(t[x])
    ensures b > 0 ==> !IsSpace(t[a]) && !IsSpace(t[a + b - 1])
  {
    var l := StripLeft(t);
    a := |t| - |l|;
    var r := StripRight(l);
    b := |r|;
    assert l == t[a..];
    assert r == l[..b];
    forall x | a + b <= x < |t|
      ensures IsSpace(t[x])
    {
      assert IsSpace(l[x - a]);
    }
  }

  /**
   * Python's `int(s)`: surrounding white space, an optional sign, then a digit
   * part. `None` is the ValueError the source catches.
   */
  function ParseInt(s: string): Option<int> {
    var t := NumberStrip(s);
    if |t| > 0 && IsSign(t[0]) && IsDigitPart(t[1..]) then
      Some(if t[0] == '-' then -(DigitsValue(t[1..]) as int) else DigitsValue(t[1..]))
    else if IsDigitPart(t) then Some(DigitsValue(t))
    else None
  }

  /** The index of the first occurrence of `c`, or `|s|` if there is none. */
  function IndexOf(s: string, c: char): (k: nat)
    ensures k <= |s|
    ensures forall i :: 0 <= i < k ==> s[i] != c
    ensures k < |s| ==> s[k] == c
  {
    if |s| == 0 then 0 else if s[0] == c then 0 else 1 + IndexOf(s[1..], c)
  }

  /** The index of the first exponent mark `e` or `E`, or `|s|` if there is none. */
  function ExponentMark(s: string): (k: nat)
    ensures k <= |s|
    ensures forall i :: 0 <= i < k ==> s[i] != 'e' && s[i] != 'E'
    ensures k < |s| ==> s[k] == 'e' || s[k] == 'E'
  {
    if |s| == 0 then 0 else if s[0] == 'e' || s[0] == 'E' then 0 else 1 + ExponentMark(s[1..])
  }

  /** `digitpart "." [digitpart]`, `"." digitpart` or `digitpart`. */
  predicate IsMantissa(m: string) {
    var d := IndexOf(m, '.');
    if d == |m| then IsDigitPart(m)
    else
      var whole, fraction := m[..d], m[d + 1..];
      (IsDigitPart(whole) && (fraction == [] || IsDigitPart(fraction)))
      || (whole == [] && IsDigitPart(fraction))
  }

  /** The part after the exponent mark: an optional sign, then a digit part. */
  predicate IsExponent(x: string) {
    if |x| > 0 && IsSign(x[0]) then IsDigitPart(x[1..]) else IsDigitPart(x)
  }

  predicate IsDecimalFloat(u: string) {
    var k := ExponentMark(u);
    IsMantissa(u[..k]) && (k == |u| || IsExponent(u[k + 1..]))
  }

  const SpecialFloats: set<string> := {"inf", "infinity", "nan"}

  /**
   * Python's `float(s)` succeeds: surrounding white space, an optional sign,
   * then a decimal literal or (in any letter case) inf, infinity or nan.
   */
  predicate IsFloatLiteral(s: string) {
    var t := NumberStrip(s);
    var u := if |t| > 0 && IsSign(t[0]) then t[1..] else t;
    Lower(u) in SpecialFloats || IsDecimalFloat(u)
  }

  /** Python's `str(n)` for a natural number: its digits, no underscores. */
  function NatToString(n: nat): (r: string)
    ensures IsDigitPart(r) && DigitsValue(r) == n
    ensures forall i :: 0 <= i < |r| ==> IsDigit(r[i])
  {
    if n < 10 then [DigitChar(n)]
    else
      var r := NatToString(n / 10) + [DigitChar(n % 10)];
      assert r[..|r| - 1] == NatToString(n / 10);
      r
  }

  /** Python's `str(n)` for an integer. */
  function IntToString(n: int): string {
    if n < 0 then "-" + NatToString(-n) else NatToString(n)
  }

  /** `int(str(n)) == n`: the text Python prints for an integer parses back to it. */
  lemma IntRoundTrip(n: int)
    ensures ParseInt(IntToString(n)) == Some(n)
  {
    if n < 0 {
      ParseNegativeDigits(NatToString(-n));
    } else {
      ParseDigits(NatToString(n));
    }
  }

  /** A digit part on its own parses as its value. */
  lemma ParseDigits(r: string)
    requires IsDigitPart(r)
    ensures ParseInt(r) == Some(DigitsValue(r) as int)
  {
    assert IsDigit(r[0]) && IsDigit(r[|r| - 1]);
    NumberStripNoEdgeSpace(r);
  }

  /** A minus sign followed by a digit part parses as the negated value. */
  lemma ParseNegativeDigits(r: string)
    requires IsDigitPart(r)
    ensures ParseInt("-" + r) == Some(-(DigitsValue(r) as int))
  {
    var s := "-" + r;
    assert s[1..] == r;
    assert s[0] == '-' && s[|s| - 1] == r[|r| - 1];
    NumberStripNoEdgeSpace(s);
    var t := NumberStrip(s);
    assert t[0] == '-' && IsSign(t[0]) && t[1..] == r;
    assert ParseInt(s) == Some(-(DigitsValue(t[1..]) as int));
  }

  /**
   * An underscore between two digit parts is dropped by `int()`: the parts
   * joined with `_` are a digit part of the same value as the parts joined
   * directly.
   */
  lemma UnderscoreJoin(a: string, b: string)
    requires IsDigitPart(a) && IsDigitPart(b)
    ensures IsDigitPart(a + "_" + b) && IsDigitPart(a + b)
    ensures DigitsValue(a + "_" + b) == DigitsValue(a + b)
  {
    var u, v := a + "_" + b, a + b;
    forall i | 0 <= i < |u| && u[i] == '_'
      ensures i + 1 < |u| && IsDigit(u[i + 1])
    {
      if i < |a| {
        assert u[i] == a[i] && u[i + 1] == a[i + 1];
      } else if i > |a| {
        assert u[i] == b[i - |a| - 1];
        assert u[i + 1] == b[i - |a|];
      } else {
        assert u[i + 1] == b[0];
      }
    }
    forall i | 0 <= i < |v| && v[i] == '_'
      ensures i + 1 < |v| && IsDigit(v[i + 1])
    {
      if i < |a| {
        assert v[i] == a[i];
        assert i + 1 < |a|;
        assert v[i + 1] == a[i + 1];
      } else {
        assert v[i] == b[i - |a|] && v[i + 1] == b[i - |a| + 1];
      }
    }
    assert u[|u| - 1] == b[|b| - 1] && v[|v| - 1] == b[|b| - 1];
    DropUnderscore(a, b);
  }

  /** Removing one underscore at any position keeps the value of a digit text. */
  lemma {:induction false} DropUnderscore(a: string, b: string)
    requires DigitsAndUnderscores(a) && DigitsAndUnderscores(b)
    ensures DigitsAndUnderscores(a + "_" + b) && DigitsAndUnderscores(a + b)
    ensures DigitsValue(a + "_" + b) == DigitsValue(a + b)
    decreases |b|
  {
    var u, v := a + "_" + b, a + b;
    assert forall i :: 0 <= i < |u| ==> u[i] == (if i < |a| then a[i] else if i == |a| then '_' else b[i - |a| - 1]);
    assert forall i :: 0 <= i < |v| ==> v[i] == (if i < |a| then a[i] else b[i - |a|]);
    if |b| == 0 {
      assert u[..|u| - 1] == a && v == a;
    } else {
      var c := b[..|b| - 1];
      DropUnderscore(a, c);
      assert u[..|u| - 1] == a + "_" + c;
      assert v[..|v| - 1] == a + c;
      assert u[|u| - 1] == v[|v| - 1] == b[|b| - 1];
    }
  }

  /**
   * A stripped text that starts with neither a digit, a point nor a sign, and
   * is not inf, infinity or nan, is rejected by both `int()` and `float()`.
   */
  lemma LeadingLetterIsNotNumeric(s: string)
    requires var t := Strip(s); |t| > 0 && !IsDigit(t[0]) && t[0] != '.' && !IsSign(t[0])
    requires Lower(Strip(s)) !in SpecialFloats
    ensures ParseInt(s) == None
    ensures !IsFloatLiteral(s)
  {
    var t := NumberStrip(s);
    StripOfNumberStrip(s);
    assert |t| > 0;
    if IsSpace(t[0]) || IsSpace(t[|t| - 1]) {
      EdgeSpaceIsNoNumber(s);
    } else {
      StripNoEdgeSpace(t);
      RejectedLead(s);
    }
  }

  /**
   * When the text `int()` and `float()` read still has white space at an end
   * (a separator U+001C to U+001F, the only white space they leave), both
   * reject it.
   */
  lemma EdgeSpaceIsNoNumber(s: string)
    requires var t := NumberStrip(s); |t| > 0 && (IsSpace(t[0]) || IsSpace(t[|t| - 1]))
    ensures ParseInt(s) == None
    ensures !IsFloatLiteral(s)
  {
    var t := NumberStrip(s);
    if IsSpace(t[0]) {
      SeparatorIsNoLetter(t);
      RejectedLead(s);
    } else {
      RejectedTrail(s);
    }
  }

  /** The names of the special floats are made of letters only. */
  lemma SpecialFloatLetters(w: string)
    requires w in SpecialFloats
    ensures forall i :: 0 <= i < |w| ==> 'a' <= w[i] <= 'z'
  {
  }

  /** Text that starts with white space does not name a special float. */
  lemma SeparatorIsNoLetter(t: string)
    requires |t| > 0 && IsSpace(t[0])
    ensures Lower(t) !in SpecialFloats
  {
    assert Lower(t)[0] == LowerChar(t[0]) == t[0];
    if Lower(t) in SpecialFloats {
      SpecialFloatLetters(Lower(t));
    }
  }

  /**
   * When the text `int()` and `float()` read starts with no digit, point or
   * sign, and is not inf, infinity or nan, both reject it.
   */
  lemma RejectedLead(s: string)
    requires var t := NumberStrip(s); |t| > 0 && !IsDigit(t[0]) && t[0] != '.' && !IsSign(t[0])
    requires Lower(NumberStrip(s)) !in SpecialFloats
    ensures ParseInt(s) == None
    ensures !IsFloatLiteral(s)
  {
    var u := NumberStrip(s);
    var k := ExponentMark(u);
    var m := u[..k];
    if k > 0 {
      var d := IndexOf(m, '.');
      assert d > 0;
      if d < |m| {
        assert m[..d][0] == u[0];
      }
    }
  }

  /**
   * When the text `int()` and `float()` read ends with white space (one of
   * the separators U+001C to U+001F, the only white space they leave), both
   * reject it: every number ends with a digit, a point or a letter.
   */
  lemma RejectedTrail(s: string)
    requires var t := NumberStrip(s); |t| > 0 && IsSpace(t[|t| - 1])
    ensures ParseInt(s) == None
    ensures !IsFloatLiteral(s)
  {
    var t := NumberStrip(s);
    var c := t[|t| - 1];
    if |t| > 1 {
      assert t[1..][|t| - 2] == c;
    }
    var u := if IsSign(t[0]) then t[1..] else t;
    if |u| > 0 {
      assert u[|u| - 1] == c;
      TrailingSpaceIsNoFloat(u);
      if Lower(u) in SpecialFloats {
        assert Lower(u)[|u| - 1] == LowerChar(c) == c;
        SpecialFloatLetters(Lower(u));
      }
    }
  }

  /** A decimal literal never ends with white space. */
  lemma TrailingSpaceIsNoFloat(u: string)
    requires |u| > 0 && IsSpace(u[|u| - 1])
    ensures !IsDecimalFloat(u)
  {
    var c := u[|u| - 1];
    var k := ExponentMark(u);
    if k < |u| {
      var x := u[k + 1..];
      assert |x| > 0 && x[|x| - 1] == c;
      if |x| > 1 {
        assert x[1..][|x| - 2] == c;
      }
    } else {
      assert u[..k] == u;
      var d := IndexOf(u, '.');
      if d < |u| {
        var fraction := u[d + 1..];
        assert |fraction| > 0 && fraction[|fraction| - 1] == c;
      }
    }
  }
}
