/**
 * `MlpArgumentParser`: one command-line flag per listed configuration key,
 * defaulting to the key's loaded value and converting the flag's text with
 * the type of that value; booleans go through `str2bool`.
 */
module ArgParse {
  import opened Wrappers
  import opened Text
  import opened Numerals
  import opened Values
  import opened Layers
  import opened Config
  import opened ConfigFacts
  import ResolveFacts

  /** What `str2bool` receives: a boolean already, or command-line text. */
  datatype FlagInput = BoolInput(b: bool) | TextInput(s: string)

  /** The converter a flag uses: `str2bool`, `int`, `float` or `str`. */
  datatype ArgType = BoolFlag | IntFlag | FloatFlag | StrFlag

  /**
   * The conversion failures: `str2bool`'s ArgumentTypeError, which reports
   * the stripped, lower-cased text, and the ValueError of `int` or `float`.
   */
  datatype ArgError = BooleanExpected(got: string) | InvalidValue(kind: ArgType, text: string)

  /** `str2bool`. */
  function Str2Bool(v: FlagInput): Result<bool, ArgError> {
    match v
    case BoolInput(b) => Ok(b)
    case TextInput(s) =>
      var w := Lower(Strip(s));
      if w in TrueWords then Ok(true)
      else if w in FalseWords then Ok(false)
      else Err(BooleanExpected(w))
  }

  /** `str2bool` accepts exactly the words type inference knows, with the same meaning. */
  lemma Str2BoolMatchesBoolWord(s: string)
    ensures Str2Bool(TextInput(s)).Ok? <==> BoolWord(s).Some?
    ensures Str2Bool(TextInput(s)).Ok? ==> Str2Bool(TextInput(s)).value == BoolWord(s).value
    ensures Str2Bool(TextInput(s)).Err? ==> Str2Bool(TextInput(s)).error == BooleanExpected(Lower(Strip(s)))
  {
  }

  /** Applying `str2bool` to its own result changes nothing. */
  lemma Str2BoolIdempotent(v: FlagInput)
    requires Str2Bool(v).Ok?
    ensures Str2Bool(BoolInput(Str2Bool(v).value)) == Str2Bool(v)
  {
  }

  /**
   * Unless `int()` reads the text as exactly "1" or "0", a word `str2bool`
   * accepts is inferred as the same boolean.
   */
  lemma Str2BoolAgreesWithInference(s: string)
    requires NumberStrip(s) != "1" && NumberStrip(s) != "0"
    requires Str2Bool(TextInput(s)).Ok?
    ensures InferType(s) == Bool(Str2Bool(TextInput(s)).value)
  {
    Str2BoolMatchesBoolWord(s);
    if Strip(s) == "1" || Strip(s) == "0" {
      ResolveFacts.SeparatorEdgedOneAndZero(s);
      ResolveFacts.OneAndZeroAreWords(s);
    } else {
      ResolveFacts.BoolWordsInferBool(s);
    }
  }

  /** The converter argparse is given for a default value. */
  function KindOf(v: TypedValue): ArgType {
    match v
    case Bool(_) => BoolFlag
    case Int(_) => IntFlag
    case Float(_) => FloatFlag
    case Str(_) => StrFlag
  }

  /** What argparse does with a flag's text. */
  function ConvertFlag(kind: ArgType, text: string): Result<TypedValue, ArgError> {
    match kind
    case BoolFlag =>
      (match Str2Bool(TextInput(text))
       case Ok(b) => Ok(Bool(b))
       case Err(e) => Err(e))
    case IntFlag =>
      (match ParseInt(text)
       case Some(n) => Ok(Int(n))
       case None => Err(InvalidValue(IntFlag, text)))
    case FloatFlag => if IsFloatLiteral(text) then Ok(Float(text)) else Err(InvalidValue(FloatFlag, text))
    case StrFlag => Ok(Str(text))
  }

  /** `str(value)`, the text the help message shows for a default. */
  function Render(v: TypedValue): string {
    match v
    case Bool(b) => if b then "True" else "False"
    case Int(n) => IntToString(n)
    case Float(t) => t
    case Str(s) => s
  }

  /** One `add_argument` call: the flag, its default, its converter and the section in its help text. */
  datatype Argument = Argument(flag: string, default: TypedValue, kind: ArgType, section: string)

  /** The argument for one listed parameter. */
  function ArgumentFor(p: Param): Argument {
    Argument("--" + p.key, p.value, KindOf(p.value), p.section)
  }

  /** The arguments for a listing, one per row and in the same order. */
  function ArgumentsFor(ps: seq<Param>): (args: seq<Argument>)
    ensures |args| == |ps|
  {
    seq(|ps|, n requires 0 <= n < |ps| => ArgumentFor(ps[n]))
  }

  /** The arguments of two listings, one after the other, are the arguments of their concatenation. */
  lemma ArgumentsForAppend(a: seq<Param>, b: seq<Param>)
    ensures ArgumentsFor(a + b) == ArgumentsFor(a) + ArgumentsFor(b)
  {
  }

  /** Python's own text of a boolean is accepted back by `str2bool`. */
  lemma BoolTextRoundTrip(b: bool)
    ensures Str2Bool(TextInput(Render(Bool(b)))) == Ok(b)
  {
    var t := if b then "True" else "False";
    var w := BoolTextLower(b);
    PythonBoolWords();
    assert Render(Bool(b)) == t;
  }

  /** The lower-cased texts of Python's booleans are a true word and a false word. */
  lemma PythonBoolWords()
    ensures "true" in TrueWords && "true" !in FalseWords
    ensures "false" !in TrueWords && "false" in FalseWords
  {
    assert "false"[0] != "yes"[0] && "false"[0] != "true"[0] && "false"[0] != "on"[0] && "false"[0] != "1"[0];
    assert "true"[0] != "no"[0] && "true"[0] != "false"[0] && "true"[0] != "off"[0] && "true"[0] != "0"[0];
  }

  /** Python's text of a boolean, stripped and lower-cased, letter by letter. */
  lemma BoolTextLower(b: bool) returns (w: string)
    ensures w == (if b then "true" else "false")
    ensures Lower(Strip(if b then "True" else "False")) == w
  {
    var t := if b then "True" else "False";
    StripNoEdgeSpace(t);
    var l := Lower(t);
    if b {
      assert |l| == 4 && l[0] == 't' && l[1] == 'r' && l[2] == 'u' && l[3] == 'e';
    } else {
      assert |l| == 5 && l[0] == 'f' && l[1] == 'a' && l[2] == 'l' && l[3] == 's' && l[4] == 'e';
    }
    w := l;
  }

  /**
   * A value reparses from its own text through the converter of its flag,
   * provided a float's text is one `float()` accepts.
   */
  lemma ValueReparses(v: TypedValue)
    requires v.Float? ==> IsFloatLiteral(v.text)
    ensures ConvertFlag(KindOf(v), Render(v)) == Ok(v)
  {
    match v
    case Bool(b) => BoolTextRoundTrip(b);
    case Int(n) => IntRoundTrip(n);
    case Float(t) =>
    case Str(_) =>
  }

  /** A float is only ever inferred from text that `float()` accepts. */
  lemma InferredFloatText(val: string)
    ensures InferType(val).Float? ==> InferType(val).text == val && IsFloatLiteral(val)
  {
  }

  /**
   * Every value a key can load with reparses from its own text through the
   * converter of its flag: giving a flag its default's text gives the default.
   */
  lemma DefaultReparses(key: string, val: string)
    ensures var v := Finalize(key, val); ConvertFlag(KindOf(v), Render(v)) == Ok(v)
  {
    InferredFloatText(val);
    ValueReparses(Finalize(key, val));
  }

  /** Each flag of a loaded configuration accepts the text of its own default. */
  lemma LoadedDefaultsReparse(base: Layer, inp: Inputs)
    requires WellFormed(base)
    ensures var args := ArgumentsFor(Listing(Namespaces(base, inp), SourcesOf(Entries(base), inp)));
      forall n :: 0 <= n < |args| ==> ConvertFlag(args[n].kind, Render(args[n].default)) == Ok(args[n].default)
  {
    LoadedListing(base, inp);
    var es := Entries(base);
    var ps := ExpectedParams(es, inp);
    ExpectedRows(es, inp);
    var args := ArgumentsFor(ps);
    forall n | 0 <= n < |args| ensures ConvertFlag(args[n].kind, Render(args[n].default)) == Ok(args[n].default) {
      assert RowOfVisible(es, inp, ps[n]);
      var m :| 0 <= m < |es| && !StartsWith(es[m].key, "_") && ps[n] == RowFor(es[m], inp);
      var e := es[m];
      DefaultReparses(e.key, Substitute(Winner(e, inp), inp));
    }
  }

  /** One more attribute: its argument follows the others', if its name does not start with `_`. */
  lemma ArgumentStep(section: string, attrs: seq<(string, TypedValue)>, j: int, sources: map<(string, string), Source>)
    requires 0 <= j < |attrs|
    ensures ArgumentsFor(AttrParams(section, attrs[..j + 1], sources))
         == ArgumentsFor(AttrParams(section, attrs[..j], sources))
            + (if StartsWith(attrs[j].0, "_") then []
               else [Argument("--" + attrs[j].0, attrs[j].1, KindOf(attrs[j].1), section)])
  {
    AttrParamsAppend(section, attrs[..j], [attrs[j]], sources);
    assert attrs[..j + 1] == attrs[..j] + [attrs[j]];
    assert [attrs[j]][1..] == [];
    ArgumentsForAppend(AttrParams(section, attrs[..j], sources), AttrParams(section, [attrs[j]], sources));
  }

  /** The inner loop of `_add_config_args`: the arguments for one namespace's attributes. */
  method SectionArguments(section: string, attrs: seq<(string, TypedValue)>, ghost sources: map<(string, string), Source>)
    returns (args: seq<Argument>)
    ensures args == ArgumentsFor(AttrParams(section, attrs, sources))
  {
    args := [];
    var j := 0;
    while j < |attrs|
      invariant 0 <= j <= |attrs|
      invariant args == ArgumentsFor(AttrParams(section, attrs[..j], sources))
    {
      var k, val := attrs[j].0, attrs[j].1;
      ArgumentStep(section, attrs, j, sources);
      if !StartsWith(k, "_") {
        var kind := if val.Bool? then BoolFlag else if val.Int? then IntFlag else if val.Float? then FloatFlag else StrFlag;
        args := args + [Argument("--" + k, val, kind, section)];
      }
      j := j + 1;
    }
    assert attrs[..j] == attrs;
  }

  /** Namespace `i` contributes its arguments after those of the namespaces before it. */
  lemma ArgumentsStep(nss: seq<(string, Namespace)>, i: int, sources: map<(string, string), Source>)
    requires 0 <= i < |nss|
    ensures ArgumentsFor(Listing(nss[..i + 1], sources))
         == ArgumentsFor(Listing(nss[..i], sources)) + ArgumentsFor(AttrParams(nss[i].0, nss[i].1.attrs, sources))
  {
    ListingStep(nss, i, sources);
    ArgumentsForAppend(Listing(nss[..i], sources), AttrParams(nss[i].0, nss[i].1.attrs, sources));
  }

  /** The outer loop of `_add_config_args`: the arguments for every namespace, in order. */
  method ConfigArguments(nss: seq<(string, Namespace)>, ghost sources: map<(string, string), Source>)
    returns (args: seq<Argument>)
    ensures args == ArgumentsFor(Listing(nss, sources))
  {
    args := [];
    var i := 0;
    while i < |nss|
      invariant 0 <= i <= |nss|
      invariant args == ArgumentsFor(Listing(nss[..i], sources))
    {
      var more := SectionArguments(nss[i].0, nss[i].1.attrs, sources);
      ArgumentsStep(nss, i, sources);
      args := args + more;
      i := i + 1;
    }
    assert nss[..i] == nss;
  }

  /** The parser: the configuration it was built from and the arguments it holds. */
  class MlpArgumentParser {
    const conf: MlpConfig
    var arguments: seq<Argument>

    /** `__init__`: an empty parser, then `_add_config_args`. */
    constructor (conf: MlpConfig)
      ensures this.conf == conf
      ensures arguments == ArgumentsFor(Listing(conf.namespaces, conf.sources))
    {
      this.conf := conf;
      arguments := [];
      new;
      AddConfigArgs();
    }

    /** `_add_config_args`: one argument per attribute not starting with `_`, namespace by namespace. */
    method AddConfigArgs()
      modifies this
      ensures arguments == old(arguments) + ArgumentsFor(Listing(conf.namespaces, conf.sources))
    {
      var args := ConfigArguments(conf.namespaces, conf.sources);
      arguments := arguments + args;
    }
  }
}
