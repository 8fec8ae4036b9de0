/**
 * How one value is resolved: DEFAULT substitution, `{{NAME}}` substitution
 * and type inference, with the cases the loader relies on.
 */
module ResolveFacts {
  import opened Wrappers
  import opened Text
  import opened Numerals
  import opened Values
  import opened Layers
  import opened EnvVar
  import opened Config
  import ConfigFacts

  // ---------------------------------------------------------------------------
  // Type inference

  /** Whatever `int()` accepts is an integer. */
  lemma InferOfInt(s: string)
    requires ParseInt(s).Some?
    ensures InferType(s) == Int(ParseInt(s).value)
  {
  }

  /** A boolean word that is neither an integer nor a float is a boolean. */
  lemma InferOfBool(s: string)
    requires ParseInt(s).None? && !IsFloatLiteral(s) && BoolWord(s).Some?
    ensures InferType(s) == Bool(BoolWord(s).value)
  {
  }

  /** The text of an integer is inferred back to that integer. */
  lemma InferIntRoundTrip(n: int)
    ensures InferType(IntToString(n)) == Int(n)
  {
    IntRoundTrip(n);
    InferOfInt(IntToString(n));
  }

  /** A single digit is a digit part with that digit's value. */
  lemma SingleDigit(t: string)
    requires |t| == 1 && IsDigit(t[0])
    ensures IsDigitPart(t) && DigitsValue(t) == DigitValue(t[0])
  {
    assert t[..0] == [];
  }

  /** Text that `int()` reads as a single digit is that digit's value. */
  lemma SingleDigitParses(s: string)
    requires |NumberStrip(s)| == 1 && IsDigit(NumberStrip(s)[0])
    ensures ParseInt(s) == Some(DigitValue(NumberStrip(s)[0]) as int)
  {
    SingleDigit(NumberStrip(s));
  }

  /** Text that strips to "1" or "0" is a boolean word as well as an integer. */
  lemma OneAndZeroAreWords(s: string)
    requires Strip(s) == "1" || Strip(s) == "0"
    ensures BoolWord(s) == Some(Strip(s) == "1")
  {
    var w := Strip(s);
    assert Lower(w) == w by { LowerOfDigit(w); }
    DigitWordSets(w);
  }

  /** "1" is only a true word and "0" only a false word. */
  lemma DigitWordSets(w: string)
    requires w == "1" || w == "0"
    ensures w in TrueWords <==> w == "1"
    ensures w in FalseWords <==> w == "0"
  {
    assert "0" != "1" by {
      assert "0"[0] != "1"[0];
    }
  }

  /** A single digit lower-cases to itself. */
  lemma LowerOfDigit(t: string)
    requires |t| == 1 && IsDigit(t[0])
    ensures Lower(t) == t
  {
    assert Lower(t)[0] == LowerChar(t[0]) == t[0];
  }

  /**
   * "1" and "0" are integers before they are booleans: when `int()` reads
   * the digit itself, the boolean branch never sees it.
   */
  lemma OneAndZeroAreIntegers(s: string)
    requires NumberStrip(s) == "1" || NumberStrip(s) == "0"
    ensures InferType(s) == Int(if NumberStrip(s) == "1" then 1 else 0)
    ensures BoolWord(s) == Some(NumberStrip(s) == "1")
  {
    SingleDigitParses(s);
    InferOfInt(s);
    StripOfNumberStrip(s);
    StripNoEdgeSpace(NumberStrip(s));
    OneAndZeroAreWords(s);
  }

  /**
   * Text that strips to "1" or "0" but keeps a separator U+001C to U+001F at
   * an end of what `int()` reads is rejected by `int()` and `float()`, which
   * do not skip those characters, while `strip()` does: it reaches the
   * boolean branch and is inferred as True or False.
   */
  lemma SeparatorEdgedOneAndZero(s: string)
    requires Strip(s) == "1" || Strip(s) == "0"
    requires NumberStrip(s) != Strip(s)
    ensures InferType(s) == Bool(Strip(s) == "1")
  {
    var t := NumberStrip(s);
    assert |t| > 0 && (IsSpace(t[0]) || IsSpace(t[|t| - 1])) by {
      StripOfNumberStrip(s);
      if t == [] || (!IsSpace(t[0]) && !IsSpace(t[|t| - 1])) {
        StripNoEdgeSpace(t);
      }
    }
    EdgeSpaceIsNoNumber(s);
    OneAndZeroAreWords(s);
    InferOfBool(s);
  }

  /**
   * A digit "1" or "0" with one separator U+001C to U+001F before or after
   * it is inferred as a boolean; `"\U{1C}1"` is True.
   */
  lemma SeparatorDigitIsBool(s: string)
    requires |s| == 2
    requires (28 <= s[0] as int <= 31 && (s[1] == '1' || s[1] == '0'))
          || (28 <= s[1] as int <= 31 && (s[0] == '1' || s[0] == '0'))
    ensures InferType(s) == Bool(s[0] == '1' || s[1] == '1')
  {
    SeparatorDigitIsNoNumber(s);
    var w := Strip(s);
    assert (w == "1" || w == "0") && (w == "1" <==> s[0] == '1' || s[1] == '1') by {
      if s[0] == '1' || s[0] == '0' {
        DigitThenSeparator(s);
      } else {
        SeparatorThenDigit(s);
      }
    }
    OneAndZeroAreWords(s);
    InferOfBool(s);
  }

  /** `int()` and `float()` read the separator too, and reject the text. */
  lemma SeparatorDigitIsNoNumber(s: string)
    requires |s| == 2
    requires (28 <= s[0] as int <= 31 && (s[1] == '1' || s[1] == '0'))
          || (28 <= s[1] as int <= 31 && (s[0] == '1' || s[0] == '0'))
    ensures ParseInt(s) == None && !IsFloatLiteral(s)
  {
    assert !IsNumberSpace(s[0]) && !IsNumberSpace(s[1]) && (IsSpace(s[0]) || IsSpace(s[1]));
    SpaceEdgedNumberText(s);
  }

  /**
   * Text whose ends are no number white space but one of which is white space
   * for `strip()` is read whole by `int()` and `float()`, and rejected.
   */
  lemma SpaceEdgedNumberText(s: string)
    requires |s| > 0 && !IsNumberSpace(s[0]) && !IsNumberSpace(s[|s| - 1])
    requires IsSpace(s[0]) || IsSpace(s[|s| - 1])
    ensures ParseInt(s) == None && !IsFloatLiteral(s)
  {
    NumberStripNoEdgeSpace(s);
    EdgeSpaceIsNoNumber(s);
  }

  /** A digit, then a separator: `strip()` keeps the digit. */
  lemma DigitThenSeparator(s: string)
    requires |s| == 2 && 28 <= s[1] as int <= 31 && (s[0] == '1' || s[0] == '0')
    ensures Strip(s) == s[..1]
    ensures s[..1] == "1" || s[..1] == "0"
    ensures s[..1] == "1" <==> s[0] == '1'
  {
    StripIsCore(s, 0, 1);
    SingleCharWord(s[..1]);
  }

  /** A separator, then a digit: `strip()` keeps the digit. */
  lemma SeparatorThenDigit(s: string)
    requires |s| == 2 && 28 <= s[0] as int <= 31 && (s[1] == '1' || s[1] == '0')
    ensures Strip(s) == s[1..]
    ensures s[1..] == "1" || s[1..] == "0"
    ensures s[1..] == "1" <==> s[1] == '1'
  {
    StripIsCore(s, 1, 2);
    SingleCharWord(s[1..]);
  }

  /** A one-character text of "1" or "0" is that word. */
  lemma SingleCharWord(t: string)
    requires |t| == 1 && (t[0] == '1' || t[0] == '0')
    ensures t == "1" || t == "0"
    ensures t == "1" <==> t[0] == '1'
  {
    assert "1"[0] == '1' && "0"[0] == '0';
  }

  /** `"\U{1C}1"` is no number, strips to "1", and is inferred as True. */
  lemma SeparatorOneIsTrue()
    ensures InferType("\U{1C}1") == Bool(true)
  {
    SeparatorDigitIsBool("\U{1C}1");
  }


  /** A letter's lower-case form is a letter only if the letter is one. */
  lemma LowerCharOfNonLetter(c: char)
    requires !('A' <= c <= 'Z') && !('a' <= c <= 'z')
    ensures LowerChar(c) == c
  {
  }

  /** Only "1" and "0" themselves lower-case to "1" and "0". */
  lemma LowerDigitWord(t: string)
    requires Lower(t) == "1" || Lower(t) == "0"
    ensures t == Lower(t)
  {
    assert |t| == 1;
    assert LowerChar(t[0]) == Lower(t)[0];
  }

  /** A character whose lower-case form is a letter is a letter. */
  lemma LowerLetter(c: char)
    requires 'a' <= LowerChar(c) <= 'z'
    ensures 'A' <= c <= 'Z' || 'a' <= c <= 'z'
  {
  }

  /** The words other than "1" and "0" all start with a letter, and none names a special float. */
  lemma WordsStartWithLetters(w: string)
    requires w in TrueWords || w in FalseWords
    requires w != "1" && w != "0"
    ensures |w| > 0 && 'a' <= w[0] <= 'z'
    ensures w !in SpecialFloats
  {
    assert w == "yes" || w == "true" || w == "on" || w == "no" || w == "false" || w == "off";
  }

  /** The boolean words other than "1" and "0" start with a letter and are not float names. */
  lemma BoolWordStartsWithLetter(s: string)
    requires BoolWord(s).Some?
    requires Strip(s) != "1" && Strip(s) != "0"
    ensures var t := Strip(s); |t| > 0 && ('A' <= t[0] <= 'Z' || 'a' <= t[0] <= 'z')
    ensures Lower(Strip(s)) !in SpecialFloats
  {
    var t := Strip(s);
    var w := Lower(t);
    if w == "1" || w == "0" {
      LowerDigitWord(t);
    }
    WordsStartWithLetters(w);
    assert w[0] == LowerChar(t[0]);
    LowerLetter(t[0]);
  }

  /**
   * The boolean words other than "1" and "0" are neither integers nor floats,
   * so they are inferred as booleans.
   */
  lemma BoolWordsInferBool(s: string)
    requires BoolWord(s).Some?
    requires Strip(s) != "1" && Strip(s) != "0"
    ensures InferType(s) == Bool(BoolWord(s).value)
  {
    BoolWordStartsWithLetter(s);
    LeadingLetterIsNotNumeric(s);
    InferOfBool(s);
  }

  /** Text that `int()` reads as a minus sign and a digit part is that negative integer. */
  lemma NegativeDigits(s: string, t: string)
    requires NumberStrip(s) == "-" + t && IsDigitPart(t)
    ensures ParseInt(s) == Some(-(DigitsValue(t) as int))
  {
    assert NumberStrip(s)[1..] == t;
  }

  /** Text that `int()` reads as a minus sign and a digit part is inferred as that negative integer. */
  lemma NegativeInteger(s: string, t: string)
    requires NumberStrip(s) == "-" + t && IsDigitPart(t)
    ensures InferType(s) == Int(-(DigitsValue(t) as int))
  {
    NegativeDigits(s, t);
    InferOfInt(s);
  }

  /**
   * Underscores between digits are accepted and ignored, as `int()` does:
   * text that `int()` reads as two digit parts joined by `_` is the integer
   * whose digits are the two parts without the underscore.
   */
  lemma UnderscoreInteger(s: string, a: string, b: string)
    requires NumberStrip(s) == a + "_" + b && IsDigitPart(a) && IsDigitPart(b)
    ensures InferType(s) == Int(DigitsValue(a + b))
  {
    UnderscoreJoin(a, b);
    assert NumberStrip(s)[0] == a[0];
    InferOfInt(s);
  }

  /** Digits, a decimal point, digits: the text is no integer, but a float literal. */
  lemma DecimalPointFloat(s: string, whole: string, fraction: string)
    requires NumberStrip(s) == whole + "." + fraction
    requires IsDigitPart(whole) && IsDigitPart(fraction)
    ensures InferType(s) == Float(s)
  {
    var t := NumberStrip(s);
    DecimalNotInteger(t, whole, fraction);
    DecimalIsFloat(t, whole, fraction);
  }

  /** A decimal point rules out an integer, and the first character is a digit, not a sign. */
  lemma DecimalNotInteger(t: string, whole: string, fraction: string)
    requires t == whole + "." + fraction
    requires IsDigitPart(whole) && IsDigitPart(fraction)
    ensures |t| > 0 && IsDigit(t[0]) && !IsSign(t[0])
    ensures !IsDigitPart(t) && !IsDigitPart(t[1..])
  {
    var k := |whole|;
    assert t[0] == whole[0];
    assert t[k] == '.';
    assert t[1..][k - 1] == '.';
  }

  /** Digits, a point and digits form a decimal literal without exponent. */
  lemma DecimalIsFloat(t: string, whole: string, fraction: string)
    requires t == whole + "." + fraction
    requires IsDigitPart(whole) && IsDigitPart(fraction)
    ensures IsDecimalFloat(t)
  {
    var k := |whole|;
    assert t[k] == '.';
    forall i | 0 <= i < |t| ensures t[i] != 'e' && t[i] != 'E' {
      if i < k {
        assert t[i] == whole[i];
      } else if i > k {
        assert t[i] == fraction[i - k - 1];
      }
    }
    ExponentFree(t);
    forall i | 0 <= i < k ensures t[i] != '.' {
      assert t[i] == whole[i];
    }
    FirstIndex(t, '.', k);
    assert t[..k] == whole && t[k + 1..] == fraction;
    assert t[..|t|] == t;
  }

  /** Without an exponent mark, the mark's index is the length. */
  lemma {:induction false} ExponentFree(s: string)
    requires forall i :: 0 <= i < |s| ==> s[i] != 'e' && s[i] != 'E'
    ensures ExponentMark(s) == |s|
  {
    if |s| > 0 {
      assert forall i :: 0 <= i < |s| - 1 ==> s[1..][i] == s[i + 1];
      ExponentFree(s[1..]);
    }
  }

  /** The first occurrence of `c` is at `k` when `c` is at `k` and nowhere before. */
  lemma {:induction false} FirstIndex(s: string, c: char, k: nat)
    requires k < |s| && s[k] == c
    requires forall i :: 0 <= i < k ==> s[i] != c
    ensures IndexOf(s, c) == k
  {
    if k > 0 {
      assert forall i :: 0 <= i < k - 1 ==> s[1..][i] == s[i + 1];
      FirstIndex(s[1..], c, k - 1);
    }
  }

  /**
   * Text that starts with a letter, is no boolean word and names no special
   * float is neither number nor boolean: it stays the same string.
   */
  lemma LetterTextStaysText(s: string)
    requires var t := Strip(s); |t| > 0 && ('A' <= t[0] <= 'Z' || 'a' <= t[0] <= 'z')
    requires BoolWord(s) == None
    requires Lower(Strip(s)) !in SpecialFloats
    ensures InferType(s) == Str(s)
  {
    LeadingLetterIsNotNumeric(s);
  }

  /**
   * A key spelled `date` in any letter case keeps its text, even when that
   * text is an integer literal; every other key is inferred.
   */
  lemma DateKeyKeepsText(key: string, val: string)
    ensures Lower(key) == "date" ==> Finalize(key, val) == Str(val)
    ensures Lower(key) != "date" ==> Finalize(key, val) == InferType(val)
    ensures Lower(key) == "date" && ParseInt(val).Some? ==> Finalize(key, val) != InferType(val)
    ensures Finalize("DATE", val) == Str(val) && Finalize("Date", val) == Str(val)
    ensures Finalize("value", val) == InferType(val)
  {
    assert Lower("value")[0] == 'v';
    var u, c := Lower("DATE"), Lower("Date");
    assert |u| == 4 && u[0] == 'd' && u[1] == 'a' && u[2] == 't' && u[3] == 'e';
    assert u == "date";
    assert |c| == 4 && c[0] == 'd' && c[1] == 'a' && c[2] == 't' && c[3] == 'e';
    assert c == "date";
  }

  // ---------------------------------------------------------------------------
  // Substitution

  /** A value without braces passes through both substitution passes unchanged. */
  lemma BraceFreeUnchanged(val: string, inp: Inputs)
    requires BraceFree(val)
    ensures Substitute(val, inp) == val
  {
    var subs := DefaultSubs(inp.defaults);
    forall n | 0 <= n < |subs| ensures !Contains(val, subs[n].0) {
      FirstCharAbsent(val, subs[n].0);
    }
    ReplaceEachAbsent(val, subs);
    BraceFreeHasNoToken(val, inp.rt);
    EnvSubstWithoutTokens(val, inp.rt);
  }

  /** A pattern replaced within exactly itself gives the replacement. */
  lemma ReplaceWhole(pat: string, rep: string)
    requires pat != []
    ensures Replace(pat, pat, rep) == rep
  {
    assert pat[..|pat|] == pat;
    assert pat[|pat|..] == [];
  }

  /** `{a}` occurs in `{b}` only if the two names are the same. */
  lemma BracedInBraced(a: string, b: string)
    requires BraceFree(a) && BraceFree(b)
    requires Contains("{" + b + "}", "{" + a + "}")
    ensures a == b
  {
    var s, t := "{" + b + "}", "{" + a + "}";
    var i: nat :| i <= |s| && OccursAt(s, t, i);
    assert s[i..i + |t|][0] == t[0] == '{';
    assert s[i] == '{';
    assert i == 0;
    assert |a| <= |b|;
    assert s[|a| + 1] == t[|a| + 1] == '}';
    assert |a| == |b|;
    assert s == t;
    assert a == s[1..|s| - 1] == b;
  }

  /** Brace-free text in single braces holds no pattern that starts with two opening braces. */
  lemma NoDoubleBraceInSingleBraces(v: string, t: string)
    requires BraceFree(v)
    requires |t| >= 2 && t[0] == '{' && t[1] == '{'
    ensures !Contains("{" + v + "}", t)
  {
    var r := "{" + v + "}";
    forall i: nat | i <= |r| ensures !OccursAt(r, t, i) {
      if i + |t| <= |r| {
        if i == 0 {
          assert r[i..i + |t|][1] == r[1] != '{';
        } else {
          assert r[i..i + |t|][0] == r[i] != '{';
        }
      }
    }
  }

  /** The fold over one replacement is that replacement. */
  lemma ReplaceEachOne(s: string, x: (string, string))
    requires x.0 != []
    ensures ReplaceEach(s, [x]) == Replace(s, x.0, x.1)
  {
    assert [x][..0] == [];
  }

  /** The fold over two replacements applies the first, then the second. */
  lemma ReplaceEachTwo(s: string, x: (string, string), y: (string, string))
    requires x.0 != [] && y.0 != []
    ensures ReplaceEach(s, [x, y]) == Replace(Replace(s, x.0, x.1), y.0, y.1)
  {
    assert [x, y][..1] == [x];
    ReplaceEachOne(s, x);
  }

  /** The patterns of two DEFAULT keys. */
  lemma DefaultSubsTwo(a: string, va: string, b: string, vb: string)
    ensures DefaultSubs([(a, va), (b, vb)]) == [("{" + a + "}", va), ("{" + b + "}", vb)]
  {
  }

  /** `{{USER}}` holds `{USER}` once, after its first brace. */
  lemma ReplaceUserInToken(v: string)
    ensures Replace(Token("USER"), "{USER}", v) == "{" + v + "}"
  {
    var pat := "{USER}";
    var s := Token("USER");
    assert s[..|pat|][1] != pat[1];
    assert s[1..] == pat + "}";
    assert (pat + "}")[..|pat|] == pat && (pat + "}")[|pat|..] == "}";
  }

  /**
   * A DEFAULT key named `USER` rewrites `{{USER}}` before `envsubst` runs:
   * the DEFAULT value ends up in single braces and the username never appears.
   */
  lemma DefaultUserShadowsToken(v: string, inp: Inputs)
    requires inp.defaults == [("USER", v)]
    requires BraceFree(v)
    ensures Substitute(Token("USER"), inp) == "{" + v + "}"
  {
    assert DefaultSubs(inp.defaults) == [("{USER}", v)] by {
      assert "{" + "USER" + "}" == "{USER}";
    }
    ReplaceEachOne(Token("USER"), ("{USER}", v));
    ReplaceUserInToken(v);
    var r := "{" + v + "}";
    forall n | 0 <= n < 4 ensures !Contains(r, TokenSubs(inp.rt)[n].0) {
      NoDoubleBraceInSingleBraces(v, TokenSubs(inp.rt)[n].0);
    }
    EnvSubstWithoutTokens(r, inp.rt);
  }

  /** Concatenations of brace-free text are brace-free. */
  lemma BraceFreeConcat(x: string, y: string)
    requires BraceFree(x) && BraceFree(y)
    ensures BraceFree(x + y)
  {
    forall i | 0 <= i < |x + y| ensures (x + y)[i] != '{' && (x + y)[i] != '}' {
      if i < |x| {
        assert (x + y)[i] == x[i];
      } else {
        assert (x + y)[i] == y[i - |x|];
      }
    }
  }

  /** Replacing `{a}` in `{a}{b}` after a brace-free prefix, for different names. */
  lemma ReplaceFirstReference(p: string, a: string, va: string, b: string)
    requires BraceFree(p) && BraceFree(a) && BraceFree(b) && a != b
    ensures Replace(p + ("{" + a + "}" + ("{" + b + "}")), "{" + a + "}", va) == p + va + ("{" + b + "}")
  {
    var A, B := "{" + a + "}", "{" + b + "}";
    ReplaceAfterFreePrefix(p, A + B, A, va);
    assert (A + B)[..|A|] == A && (A + B)[|A|..] == B;
    assert !Contains(B, A) by {
      if Contains(B, A) {
        BracedInBraced(a, b);
      }
    }
    ReplaceAbsent(B, A, va);
  }

  /**
   * Two DEFAULT references after brace-free text, each replaced by its
   * brace-free DEFAULT value, and nothing left for `envsubst`.
   */
  lemma DefaultsInOrder(p: string, a: string, va: string, b: string, vb: string, inp: Inputs)
    requires BraceFree(p) && BraceFree(a) && BraceFree(va) && BraceFree(b) && BraceFree(vb)
    requires a != b
    requires inp.defaults == [(a, va), (b, vb)]
    ensures Substitute(p + "{" + a + "}" + "{" + b + "}", inp) == p + va + vb
  {
    var A, B := "{" + a + "}", "{" + b + "}";
    var x := p + "{" + a + "}" + "{" + b + "}";
    assert x == p + (A + B);
    DefaultSubsTwo(a, va, b, vb);
    ReplaceEachTwo(x, (A, va), (B, vb));
    ReplaceFirstReference(p, a, va, b);
    BraceFreeConcat(p, va);
    ReplaceAfterFreePrefix(p + va, B, B, vb);
    ReplaceWhole(B, vb);
    var r := p + va + vb;
    BraceFreeConcat(p + va, vb);
    BraceFreeUnchangedByTokens(r, inp.rt);
  }

  /** Brace-free text has nothing for `envsubst` to replace. */
  lemma BraceFreeUnchangedByTokens(r: string, rt: Runtime)
    requires BraceFree(r)
    ensures ReplaceEach(r, TokenSubs(rt)) == r
  {
    BraceFreeHasNoToken(r, rt);
    EnvSubstWithoutTokens(r, rt);
  }

  /**
   * DEFAULT values are substituted in DEFAULT order, each over the result of
   * the previous ones: a DEFAULT value that mentions a later DEFAULT key is
   * itself rewritten.
   */
  lemma DefaultsChain(a: string, b: string, v: string)
    ensures ReplaceEach("{" + a + "}", DefaultSubs([(a, "{" + b + "}"), (b, v)])) == v
  {
    var A, B := "{" + a + "}", "{" + b + "}";
    DefaultSubsTwo(a, B, b, v);
    ReplaceEachTwo(A, (A, B), (B, v));
    ReplaceWhole(A, B);
    ReplaceWhole(B, v);
  }

  /** A DEFAULT reference `{d}` for a brace-free name other than USER does not occur in text ending in `{{USER}}`. */
  lemma DefaultRefNotInUserToken(p: string, d: string)
    requires BraceFree(p) && BraceFree(d) && d != "USER"
    ensures !Contains(p + Token("USER"), "{" + d + "}")
  {
    if Contains(p + Token("USER"), "{" + d + "}") {
      BracedInUserToken(p, d);
    }
  }

  /** After brace-free text, `{d}` with a brace-free name occurs in `{{USER}}` only as `{USER}`. */
  lemma BracedInUserToken(p: string, d: string)
    requires BraceFree(p) && BraceFree(d)
    requires Contains(p + Token("USER"), "{" + d + "}")
    ensures d == "USER"
  {
    var x, u := p + Token("USER"), "{{USER}}";
    UserTokenChars(p);
    var i: nat :| i <= |x| && OccursAt(x, "{" + d + "}", i);
    BracedChars(x, d, i);
    assert |d| > 0 ==> x[i + 1] == d[0];
    assert i >= |p|;
    assert x[i] == u[i - |p|];
    assert x[|p| + 1] == '{';
    assert i == |p| + 1;
    assert x[i + |d| + 1] == u[|d| + 2];
    assert x[|p| + 6] == '}';
    assert |d| == 4;
    assert forall m :: 0 <= m < 4 ==> d[m] == u[m + 2];
    assert d == u[2..6] == "USER";
  }

  /** The characters of brace-free text followed by `{{USER}}`. */
  lemma UserTokenChars(p: string)
    ensures var x, u := p + Token("USER"), "{{USER}}";
      && |x| == |p| + |u|
      && (forall j :: 0 <= j < |p| ==> x[j] == p[j])
      && (forall k :: 0 <= k < |u| ==> x[|p| + k] == u[k])
  {
    var x, u := p + Token("USER"), "{{USER}}";
    assert x == p + u;
  }

  /** The characters of an occurrence of `{d}`. */
  lemma BracedChars(x: string, d: string, i: nat)
    requires OccursAt(x, "{" + d + "}", i)
    ensures i + |d| + 1 < |x| && x[i] == '{' && x[i + |d| + 1] == '}'
    ensures forall m :: 0 <= m < |d| ==> x[i + 1 + m] == d[m]
  {
    var pat := "{" + d + "}";
    assert x[i..i + |pat|] == pat;
    assert forall m :: 0 <= m < |pat| ==> x[i + m] == pat[m];
  }

  /**
   * With DEFAULT keys that are brace-free and not USER, and brace-free
   * runtime values, a value ending in `{{USER}}` after brace-free text gets the
   * username of the load's own environment: USER when set and non-empty.
   */
  lemma TrailingUserIsUserName(p: string, inp: Inputs)
    requires SharedEnvironment(inp)
    requires BraceFree(p)
    requires forall t :: 0 <= t < |inp.defaults| ==> BraceFree(inp.defaults[t].0) && inp.defaults[t].0 != "USER"
    requires BraceFree(inp.rt.user) && BraceFree(inp.rt.date) && BraceFree(inp.rt.gitBranch) && BraceFree(inp.rt.cwd)
    ensures Substitute(p + Token("USER"), inp) == p + UserName(inp.env)
    ensures "USER" in inp.env && inp.env["USER"] != "" ==> Substitute(p + Token("USER"), inp) == p + inp.env["USER"]
  {
    var x := p + Token("USER");
    var subs := DefaultSubs(inp.defaults);
    forall n | 0 <= n < |subs| ensures !Contains(x, subs[n].0) {
      DefaultRefNotInUserToken(p, inp.defaults[n].0);
    }
    ReplaceEachAbsent(x, subs);
    EnvSubstTrailingUser(p, inp.rt);
  }

  /**
   * A loaded key whose winning value ends in `{{USER}}` after brace-free text
   * holds, typed, that text followed by the username of the load's environment.
   */
  lemma UserTokenLoadsUserName(base: Layer, inp: Inputs, i: int, j: int, p: string)
    requires WellFormed(base) && 0 <= i < |base| && 0 <= j < |base[i].1|
    requires Winner(Entry(base[i].0, base[i].1[j].0, base[i].1[j].1), inp) == p + Token("USER")
    requires SharedEnvironment(inp)
    requires BraceFree(p)
    requires forall t :: 0 <= t < |inp.defaults| ==> BraceFree(inp.defaults[t].0) && inp.defaults[t].0 != "USER"
    requires BraceFree(inp.rt.user) && BraceFree(inp.rt.date) && BraceFree(inp.rt.gitBranch) && BraceFree(inp.rt.cwd)
    ensures Attribute(Namespaces(base, inp), base[i].0, base[i].1[j].0)
         == Some(Finalize(base[i].1[j].0, p + UserName(inp.env)))
    ensures "USER" in inp.env && inp.env["USER"] != "" ==>
      Attribute(Namespaces(base, inp), base[i].0, base[i].1[j].0) == Some(Finalize(base[i].1[j].0, p + inp.env["USER"]))
  {
    ConfigFacts.LoadedAttribute(base, inp, i, j);
    TrailingUserIsUserName(p, inp);
  }
}
