/**
 * `MlpConfig`: configuration loading from a base layer, an optional override
 * layer and the process environment, with DEFAULT-section and `{{NAME}}`
 * substitution, type inference and per-key provenance.
 *
 * The INI files are already parsed: `base` is what the loader builds from
 * `parser.items(section)` (so every base section already holds the DEFAULT
 * keys), `Inputs.defaults` is `parser.defaults()`, and `Inputs.overrideFile`
 * is the parsed override file, or `None` when that file does not exist.
 */
module Config {
  import opened Wrappers
  import opened Text
  import opened Numerals
  import opened Values
  import opened Layers
  import opened EnvVar

  /** The layer that supplied a value: "default" (the base file), "override" or "env". */
  datatype Source = Default | Override | Env

  /** The two ValueErrors override validation raises. */
  datatype ConfigError = UnknownSection(section: string) | UnknownKey(section: string, key: string)

  /** What a load reads besides the base sections. */
  datatype Inputs = Inputs(
    defaults: Items,
    overrideFile: Option<Layer>,
    env: map<string, string>,
    rt: Runtime)

  /**
   * The runtime's username was read from the same environment as the `MLP_`
   * variables, as one process reads one `os.environ`.
   */
  predicate SharedEnvironment(inp: Inputs) {
    inp.rt.user == UserName(inp.env)
  }

  // ---------------------------------------------------------------------------
  // Override validation

  /** The first override key that its base section does not define. */
  function FirstUnknownKey(baseItems: Items, items: Items): (r: Option<string>)
    ensures r.None? <==> forall j :: 0 <= j < |items| ==> items[j].0 in KeysOf(baseItems)
    ensures r.Some? ==> r.value in KeysOf(items) && r.value !in KeysOf(baseItems)
  {
    if |items| == 0 then None
    else
      KeysOfCons(items[0], items[1..]);
      assert [items[0]] + items[1..] == items;
      if Find(baseItems, items[0].0).None? then Some(items[0].0)
      else
        var r := FirstUnknownKey(baseItems, items[1..]);
        assert r.None? ==> forall j :: 0 <= j < |items| ==> items[j].0 in KeysOf(baseItems) by {
          if r.None? {
            forall j | 0 <= j < |items| ensures items[j].0 in KeysOf(baseItems) {
              if j > 0 {
                assert items[j] == items[1..][j - 1];
              }
            }
          }
        }
        r
  }

  /** An override section that names a base section and only keys that section defines. */
  predicate SectionFits(base: Layer, section: (string, Items)) {
    match Find(base, section.0)
    case None => false
    case Some(baseItems) => forall j :: 0 <= j < |section.1| ==> section.1[j].0 in KeysOf(baseItems)
  }

  /**
   * The error validation raises, if any: sections and keys are checked in
   * override order, and the first one the base does not define is reported.
   */
  function OverrideError(base: Layer, ov: Layer): (r: Option<ConfigError>)
    ensures r.None? <==> forall i :: 0 <= i < |ov| ==> SectionFits(base, ov[i])
    ensures r.Some? && r.value.UnknownSection? ==>
      r.value.section in KeysOf(ov) && r.value.section !in KeysOf(base)
    ensures r.Some? && r.value.UnknownKey? ==>
      && r.value.section in KeysOf(base)
      && r.value.key !in KeysOf(Find(base, r.value.section).value)
      && exists i :: 0 <= i < |ov| && ov[i].0 == r.value.section && r.value.key in KeysOf(ov[i].1)
  {
    if |ov| == 0 then None
    else
      KeysOfCons(ov[0], ov[1..]);
      assert [ov[0]] + ov[1..] == ov;
      match Find(base, ov[0].0)
      case None => Some(UnknownSection(ov[0].0))
      case Some(baseItems) =>
        match FirstUnknownKey(baseItems, ov[0].1)
        case Some(k) => Some(UnknownKey(ov[0].0, k))
        case None =>
          var r := OverrideError(base, ov[1..]);
          assert r.None? ==> forall i :: 0 <= i < |ov| ==> SectionFits(base, ov[i]) by {
            if r.None? {
              forall i | 0 <= i < |ov| ensures SectionFits(base, ov[i]) {
                if i > 0 {
                  assert ov[i] == ov[1..][i - 1];
                }
              }
            }
          }
          assert r.Some? && r.value.UnknownKey? ==>
            exists i :: 0 <= i < |ov| && ov[i].0 == r.value.section && r.value.key in KeysOf(ov[i].1) by {
            if r.Some? && r.value.UnknownKey? {
              var i :| 0 <= i < |ov[1..]| && ov[1..][i].0 == r.value.section && r.value.key in KeysOf(ov[1..][i].1);
              assert ov[i + 1] == ov[1..][i];
            }
          }
          r
  }

  /** Validation of the override file, when there is one. */
  function OverrideErrorOf(base: Layer, overrideFile: Option<Layer>): Option<ConfigError> {
    match overrideFile
    case None => None
    case Some(ov) => OverrideError(base, ov)
  }

  // ---------------------------------------------------------------------------
  // Precedence

  /** `MLP_<SECTION>_<KEY>`, section and key upper-cased. */
  function EnvName(section: string, key: string): string {
    "MLP_" + Upper(section) + "_" + Upper(key)
  }

  /** The environment's value for a key, if its variable is set. */
  function EnvValue(section: string, key: string, env: map<string, string>): Option<string> {
    var name := EnvName(section, key);
    if name in env then Some(env[name]) else None
  }

  /** The override file's value for a key, if the file exists and defines that section and key. */
  function OverrideValue(overrideFile: Option<Layer>, section: string, key: string): Option<string> {
    match overrideFile
    case None => None
    case Some(ov) => LastValue(Entries(ov), section, key)
  }

  /** The layer that wins for a key: the environment, else the override file, else the base. */
  function SourceFor(section: string, key: string, inp: Inputs): Source {
    if EnvValue(section, key, inp.env).Some? then Env
    else if OverrideValue(inp.overrideFile, section, key).Some? then Override
    else Default
  }

  /** The raw string the winning layer supplies for a base entry. */
  function Winner(e: Entry, inp: Inputs): string {
    match EnvValue(e.section, e.key, inp.env)
    case Some(v) => v
    case None =>
      match OverrideValue(inp.overrideFile, e.section, e.key)
      case Some(v) => v
      case None => e.value
  }

  // ---------------------------------------------------------------------------
  // Substitution and typing

  /** The DEFAULT replacements in DEFAULT order: `{key}` becomes the DEFAULT value. */
  function DefaultSubs(defaults: Items): (subs: seq<(string, string)>)
    ensures |subs| == |defaults|
    ensures forall n :: 0 <= n < |subs| ==> subs[n].0 != []
  {
    seq(|defaults|, n requires 0 <= n < |defaults| => ("{" + defaults[n].0 + "}", defaults[n].1))
  }

  /** The DEFAULT pass, then `envsubst`. */
  function Substitute(val: string, inp: Inputs): string {
    ReplaceEach(ReplaceEach(val, DefaultSubs(inp.defaults)), TokenSubs(inp.rt))
  }

  /** `_infer_type`: int, else float, else one of the boolean words, else the text itself. */
  function InferType(val: string): TypedValue {
    match ParseInt(val)
    case Some(n) => Int(n)
    case None =>
      if IsFloatLiteral(val) then Float(val)
      else
        match BoolWord(val)
        case Some(b) => Bool(b)
        case None => Str(val)
  }

  /** A key spelled `date` in any letter case keeps its text; every other value is inferred. */
  function Finalize(key: string, val: string): TypedValue {
    if Lower(key) == "date" then Str(val) else InferType(val)
  }

  /** The typed value a base entry resolves to. */
  function ResolvedValue(e: Entry, inp: Inputs): TypedValue {
    Finalize(e.key, Substitute(Winner(e, inp), inp))
  }

  // ---------------------------------------------------------------------------
  // Namespaces and provenance

  /**
   * A `Namespace` object's instance dictionary. Both branches of its
   * `__setattr__` store into that dictionary for every key except
   * `__class__`, `__dict__` and `__weakref__` (which raise instead), so an
   * attribute starting with `_` is kept like any other; only the listing
   * skips it.
   */
  datatype Namespace = Namespace(attrs: seq<(string, TypedValue)>)

  /** `Namespace(name)`: the dictionary starts with `_name`. */
  function NewNamespace(name: string): Namespace {
    Namespace([("_name", Str(name))])
  }

  /** `setattr(ns, key, value)`. */
  function SetAttr(ns: Namespace, key: string, value: TypedValue): Namespace {
    Namespace(Assign(ns.attrs, key, value))
  }

  /** The namespace built for a base section: `_name` and exactly the section's keys. */
  function BuildNamespace(name: string, items: Items, inp: Inputs): (ns: Namespace)
    ensures KeysOf(ns.attrs) == {"_name"} + KeysOf(items)
  {
    if |items| == 0 then
      var ns := NewNamespace(name);
      assert ns.attrs[0].0 == "_name";
      ns
    else
      var j := |items| - 1;
      KeysOfSnoc(items[..j], items[j]);
      assert items[..j] + [items[j]] == items;
      SetAttr(BuildNamespace(name, items[..j], inp), items[j].0, ResolvedValue(Entry(name, items[j].0, items[j].1), inp))
  }

  /** `_namespaces`: one namespace per base section. */
  function Namespaces(base: Layer, inp: Inputs): (nss: seq<(string, Namespace)>)
    ensures KeysOf(nss) == KeysOf(base)
  {
    if |base| == 0 then []
    else
      var i := |base| - 1;
      KeysOfSnoc(base[..i], base[i]);
      assert base[..i] + [base[i]] == base;
      Assign(Namespaces(base[..i], inp), base[i].0, BuildNamespace(base[i].0, base[i].1, inp))
  }

  /** `_sources`: exactly one provenance per (section, key) the entries mention, the winning layer's. */
  function SourcesOf(es: seq<Entry>, inp: Inputs): (m: map<(string, string), Source>)
    ensures m.Keys == PairsOf(es)
    ensures forall p :: p in m ==> m[p] == SourceFor(p.0, p.1, inp)
  {
    if |es| == 0 then map[]
    else
      var e := es[|es| - 1];
      PairsOfSnoc(es[..|es| - 1], e);
      assert es[..|es| - 1] + [e] == es;
      SourcesOf(es[..|es| - 1], inp)[(e.section, e.key) := SourceFor(e.section, e.key, inp)]
  }

  /** `conf.<section>.<key>`. */
  function Attribute(nss: seq<(string, Namespace)>, section: string, key: string): Option<TypedValue> {
    match Find(nss, section)
    case None => None
    case Some(ns) => Find(ns.attrs, key)
  }

  // ---------------------------------------------------------------------------
  // The flattened listing

  /** One row of `list_params`. */
  datatype Param = Param(section: string, key: string, value: TypedValue, source: Source)

  /** `_sources.get(..., "default")`, with the provenance keyed by the (section, key) pair. */
  function SourceOrDefault(sources: map<(string, string), Source>, section: string, key: string): Source {
    if (section, key) in sources then sources[(section, key)] else Default
  }

  /** The rows for one namespace's attributes: those not starting with `_`, in order. */
  function AttrParams(section: string, attrs: seq<(string, TypedValue)>, sources: map<(string, string), Source>): seq<Param> {
    if |attrs| == 0 then []
    else
      var k := attrs[0].0;
      (if StartsWith(k, "_") then [] else [Param(section, k, attrs[0].1, SourceOrDefault(sources, section, k))])
      + AttrParams(section, attrs[1..], sources)
  }

  lemma {:induction false} AttrParamsAppend(section: string, a: seq<(string, TypedValue)>, b: seq<(string, TypedValue)>, sources: map<(string, string), Source>)
    ensures AttrParams(section, a + b, sources) == AttrParams(section, a, sources) + AttrParams(section, b, sources)
  {
    if |a| == 0 {
      assert a + b == b;
    } else {
      assert (a + b)[1..] == a[1..] + b;
      AttrParamsAppend(section, a[1..], b, sources);
    }
  }

  /** `list_params`: namespace by namespace, attribute by attribute. */
  function Listing(nss: seq<(string, Namespace)>, sources: map<(string, string), Source>): seq<Param> {
    if |nss| == 0 then []
    else
      var n := |nss| - 1;
      Listing(nss[..n], sources) + AttrParams(nss[n].0, nss[n].1.attrs, sources)
  }

  /** Namespace `i` is listed after the namespaces before it. */
  lemma ListingStep(nss: seq<(string, Namespace)>, i: int, sources: map<(string, string), Source>)
    requires 0 <= i < |nss|
    ensures Listing(nss[..i + 1], sources) == Listing(nss[..i], sources) + AttrParams(nss[i].0, nss[i].1.attrs, sources)
  {
    assert nss[..i + 1][..i] == nss[..i];
  }

  // ---------------------------------------------------------------------------
  // The loader's dictionary-building passes

  /** The entries `env_overrides` receives: base entries whose variable is set, with its value. */
  function EnvEntries(es: seq<Entry>, env: map<string, string>): seq<Entry> {
    if |es| == 0 then []
    else
      var e := es[|es| - 1];
      var rest := EnvEntries(es[..|es| - 1], env);
      match EnvValue(e.section, e.key, env)
      case Some(v) => rest + [Entry(e.section, e.key, v)]
      case None => rest
  }

  /** `env_overrides` holds, for exactly the base keys, the value of their variable if it is set. */
  lemma {:induction false} EnvEntriesLookup(es: seq<Entry>, env: map<string, string>, s: string, k: string)
    ensures LastValue(EnvEntries(es, env), s, k) == if (s, k) in PairsOf(es) then EnvValue(s, k, env) else None
  {
    if |es| > 0 {
      var e := es[|es| - 1];
      var prefix := es[..|es| - 1];
      EnvEntriesLookup(prefix, env, s, k);
      PairsOfSnoc(prefix, e);
      assert prefix + [e] == es;
      var rest := EnvEntries(prefix, env);
      match EnvValue(e.section, e.key, env)
      case Some(v) =>
        assert (rest + [Entry(e.section, e.key, v)])[..|rest|] == rest;
      case None =>
    }
  }

  /** The validation loop: checks each override section and key, and fills `override`. */
  method ReadOverride(base: Layer, ov: Layer) returns (err: Option<ConfigError>, overrides: Dict2)
    ensures err == OverrideError(base, ov)
    ensures err.None? ==> Represents(overrides, Entries(ov))
  {
    overrides := map[];
    var i := 0;
    while i < |ov|
      invariant 0 <= i <= |ov|
      invariant OverrideError(base, ov) == OverrideError(base, ov[i..])
      invariant Represents(overrides, Entries(ov[..i]))
    {
      var section, items := ov[i].0, ov[i].1;
      var baseItems := Find(base, section);
      if baseItems.None? {
        return Some(UnknownSection(section)), overrides;
      }
      var j := 0;
      EntriesSectionStart(ov, i);
      while j < |items|
        invariant 0 <= j <= |items|
        invariant FirstUnknownKey(baseItems.value, items) == FirstUnknownKey(baseItems.value, items[j..])
        invariant Represents(overrides, Entries(ov[..i]) + SectionEntries(section, items[..j]))
      {
        var k := items[j].0;
        if Find(baseItems.value, k).None? {
          return Some(UnknownKey(section, k)), overrides;
        }
        assert items[j..][1..] == items[j + 1..];
        EntriesKeyStep(ov, i, j);
        RepresentsPut(overrides, Entries(ov[..i]) + SectionEntries(section, items[..j]), Entry(section, k, items[j].1));
        overrides := Put2(overrides, section, k, items[j].1);
        j := j + 1;
      }
      EntriesSectionDone(ov, i);
      assert ov[i..][1..] == ov[i + 1..];
      i := i + 1;
    }
    assert ov[..i] == ov;
    err := None;
  }

  /** The environment loop: `env_overrides`, filled for every base key whose variable is set. */
  method CollectEnvOverrides(base: Layer, env: map<string, string>) returns (envOverrides: Dict2)
    ensures Represents(envOverrides, EnvEntries(Entries(base), env))
  {
    envOverrides := map[];
    var i := 0;
    while i < |base|
      invariant 0 <= i <= |base|
      invariant Represents(envOverrides, EnvEntries(Entries(base[..i]), env))
    {
      envOverrides := CollectSectionEnv(base, i, env, envOverrides);
      i := i + 1;
    }
    assert base[..i] == base;
  }

  /** One pass of the environment loop: the keys of section `i` whose variable is set. */
  method CollectSectionEnv(base: Layer, i: int, env: map<string, string>, envOverrides: Dict2) returns (envOverrides': Dict2)
    requires 0 <= i < |base|
    requires Represents(envOverrides, EnvEntries(Entries(base[..i]), env))
    ensures Represents(envOverrides', EnvEntries(Entries(base[..i + 1]), env))
  {
    var section, items := base[i].0, base[i].1;
    envOverrides' := envOverrides;
    var j := 0;
    EntriesSectionStart(base, i);
    while j < |items|
      invariant 0 <= j <= |items|
      invariant Represents(envOverrides', EnvEntries(Entries(base[..i]) + SectionEntries(section, items[..j]), env))
    {
      var k := items[j].0;
      EntriesKeyStep(base, i, j);
      EnvStep(Entries(base[..i]) + SectionEntries(section, items[..j]), Entry(section, k, items[j].1), env, envOverrides');
      var envKey := EnvName(section, k);
      if envKey in env {
        envOverrides' := Put2(envOverrides', section, k, env[envKey]);
      }
      j := j + 1;
    }
    EntriesSectionDone(base, i);
  }

  /** One more base entry: its variable's value is recorded if the variable is set. */
  lemma EnvStep(done: seq<Entry>, e: Entry, env: map<string, string>, m: Dict2)
    requires Represents(m, EnvEntries(done, env))
    ensures
      var name := EnvName(e.section, e.key);
      Represents(if name in env then Put2(m, e.section, e.key, env[name]) else m, EnvEntries(done + [e], env))
  {
    assert (done + [e])[..|done|] == done;
    var name := EnvName(e.section, e.key);
    if name in env {
      RepresentsPut(m, EnvEntries(done, env), Entry(e.section, e.key, env[name]));
    }
  }

  /**
   * The loader's treatment of one base key: the override value replaces the
   * base value, the environment's replaces both; the DEFAULT keys are
   * substituted in DEFAULT order, then the `{{NAME}}` tokens; the result is
   * typed unless the key is `date`.
   */
  method ResolveSetting(section: string, k: string, v: string, overrides: Dict2, envOverrides: Dict2, inp: Inputs)
    returns (typed: TypedValue, src: Source)
    requires Lookup2(overrides, section, k) == OverrideValue(inp.overrideFile, section, k)
    requires Lookup2(envOverrides, section, k) == EnvValue(section, k, inp.env)
    ensures typed == ResolvedValue(Entry(section, k, v), inp)
    ensures src == SourceFor(section, k, inp)
  {
    var val := v;
    src := Default;
    var fromOverride := Lookup2(overrides, section, k);
    if fromOverride.Some? {
      val, src := fromOverride.value, Override;
    }
    var fromEnv := Lookup2(envOverrides, section, k);
    if fromEnv.Some? {
      val, src := fromEnv.value, Env;
    }
    assert val == Winner(Entry(section, k, v), inp);
    ghost var raw := val;
    var t := 0;
    while t < |inp.defaults|
      invariant 0 <= t <= |inp.defaults|
      invariant val == ReplaceEach(raw, DefaultSubs(inp.defaults)[..t])
    {
      var dkey, dval := inp.defaults[t].0, inp.defaults[t].1;
      assert DefaultSubs(inp.defaults)[..t + 1][..t] == DefaultSubs(inp.defaults)[..t];
      val := Replace(val, "{" + dkey + "}", dval);
      t := t + 1;
    }
    assert DefaultSubs(inp.defaults)[..t] == DefaultSubs(inp.defaults);
    val := EnvSubst(val, inp.rt);
    typed := if Lower(k) != "date" then InferType(val) else Str(val);
  }

  /** The loader's section loop: every namespace and every provenance. */
  method BuildSections(base: Layer, overrides: Dict2, envOverrides: Dict2, inp: Inputs)
    returns (namespaces: seq<(string, Namespace)>, sources: map<(string, string), Source>)
    requires OverridesAgree(overrides, inp.overrideFile)
    requires Represents(envOverrides, EnvEntries(Entries(base), inp.env))
    ensures namespaces == Namespaces(base, inp)
    ensures sources == SourcesOf(Entries(base), inp)
  {
    namespaces, sources := [], map[];
    var i := 0;
    while i < |base|
      invariant 0 <= i <= |base|
      invariant namespaces == Namespaces(base[..i], inp)
      invariant sources == SourcesOf(Entries(base[..i]), inp)
    {
      var ns, sources' := BuildSection(base, i, overrides, envOverrides, inp, sources);
      NamespacesStep(base, i, inp);
      namespaces := Assign(namespaces, base[i].0, ns);
      sources := sources';
      i := i + 1;
    }
    assert base[..i] == base;
  }

  /** Section `i` of the base is the next namespace assigned. */
  lemma NamespacesStep(base: Layer, i: int, inp: Inputs)
    requires 0 <= i < |base|
    ensures Namespaces(base[..i + 1], inp) == Assign(Namespaces(base[..i], inp), base[i].0, BuildNamespace(base[i].0, base[i].1, inp))
  {
    assert base[..i + 1][..i] == base[..i];
  }

  /** The override file, if there is one, validated and read into `override`. */
  method ReadOverrideFile(base: Layer, overrideFile: Option<Layer>) returns (err: Option<ConfigError>, overrides: Dict2)
    ensures err == OverrideErrorOf(base, overrideFile)
    ensures err.None? ==> OverridesAgree(overrides, overrideFile)
  {
    match overrideFile
    case None =>
      err, overrides := None, map[];
    case Some(ov) =>
      err, overrides := ReadOverride(base, ov);
  }

  /** `override` answers exactly as the override file does. */
  ghost predicate OverridesAgree(overrides: Dict2, overrideFile: Option<Layer>) {
    forall s, k :: Lookup2(overrides, s, k) == OverrideValue(overrideFile, s, k)
  }

  /**
   * One pass of the loader's section loop: the namespace for section `i`,
   * and the provenance map extended with that section's keys.
   */
  method BuildSection(base: Layer, i: int, overrides: Dict2, envOverrides: Dict2, inp: Inputs,
                      sources: map<(string, string), Source>)
    returns (ns: Namespace, sources': map<(string, string), Source>)
    requires 0 <= i < |base|
    requires OverridesAgree(overrides, inp.overrideFile)
    requires Represents(envOverrides, EnvEntries(Entries(base), inp.env))
    requires sources == SourcesOf(Entries(base[..i]), inp)
    ensures ns == BuildNamespace(base[i].0, base[i].1, inp)
    ensures sources' == SourcesOf(Entries(base[..i + 1]), inp)
  {
    var section, items := base[i].0, base[i].1;
    ns := NewNamespace(section);
    sources' := sources;
    var j := 0;
    EntriesSectionStart(base, i);
    while j < |items|
      invariant 0 <= j <= |items|
      invariant ns == BuildNamespace(section, items[..j], inp)
      invariant sources' == SourcesOf(Entries(base[..i]) + SectionEntries(section, items[..j]), inp)
    {
      var k, v := items[j].0, items[j].1;
      LoaderLookups(base, i, j, overrides, envOverrides, inp);
      var typed, src := ResolveSetting(section, k, v, overrides, envOverrides, inp);
      BuildStep(base, i, j, inp);
      ns := SetAttr(ns, k, typed);
      sources' := sources'[(section, k) := src];
      j := j + 1;
    }
    EntriesSectionDone(base, i);
    assert items[..j] == items;
  }

  /** The two dictionaries answer, for a base key, as the override file and the environment do. */
  lemma LoaderLookups(base: Layer, i: int, j: int, overrides: Dict2, envOverrides: Dict2, inp: Inputs)
    requires 0 <= i < |base| && 0 <= j < |base[i].1|
    requires OverridesAgree(overrides, inp.overrideFile)
    requires Represents(envOverrides, EnvEntries(Entries(base), inp.env))
    ensures Lookup2(overrides, base[i].0, base[i].1[j].0) == OverrideValue(inp.overrideFile, base[i].0, base[i].1[j].0)
    ensures Lookup2(envOverrides, base[i].0, base[i].1[j].0) == EnvValue(base[i].0, base[i].1[j].0, inp.env)
  {
    EntryListed(base, i, j);
    EnvEntriesLookup(Entries(base), inp.env, base[i].0, base[i].1[j].0);
  }

  /** One more key of section `i`: its namespace gains one attribute and the provenance map one entry. */
  lemma BuildStep(base: Layer, i: int, j: int, inp: Inputs)
    requires 0 <= i < |base| && 0 <= j < |base[i].1|
    ensures
      var section, items := base[i].0, base[i].1;
      var e := Entry(section, items[j].0, items[j].1);
      && BuildNamespace(section, items[..j + 1], inp)
         == SetAttr(BuildNamespace(section, items[..j], inp), e.key, ResolvedValue(e, inp))
      && SourcesOf(Entries(base[..i]) + SectionEntries(section, items[..j + 1]), inp)
         == SourcesOf(Entries(base[..i]) + SectionEntries(section, items[..j]), inp)[(e.section, e.key) := SourceFor(e.section, e.key, inp)]
  {
    var section, items := base[i].0, base[i].1;
    var e := Entry(section, items[j].0, items[j].1);
    ghost var done := Entries(base[..i]) + SectionEntries(section, items[..j]);
    assert items[..j + 1][..j] == items[..j];
    EntriesKeyStep(base, i, j);
    assert (done + [e])[..|done|] == done;
  }

  // ---------------------------------------------------------------------------
  // The configuration object

  class MlpConfig {
    /** `_sources`, keyed by (section, key). */
    var sources: map<(string, string), Source>
    /** `_namespaces`, in base section order. */
    var namespaces: seq<(string, Namespace)>

    /** `__init__` before it loads: both dictionaries empty. */
    constructor ()
      ensures sources == map[] && namespaces == []
    {
      sources := map[];
      namespaces := [];
    }

    /**
     * `_load_config`: validate the override file, collect the environment's
     * values, then build one namespace per base section, resolving each key
     * (override, then environment, over the base value), substituting and
     * typing it, and recording its provenance. Validation ends before anything
     * is recorded, so a failed load leaves both dictionaries empty.
     */
    method LoadConfig(base: Layer, inp: Inputs) returns (err: Option<ConfigError>)
      requires sources == map[] && namespaces == []
      modifies this
      ensures err == OverrideErrorOf(base, inp.overrideFile)
      ensures err.Some? ==> sources == map[] && namespaces == []
      ensures err.None? ==> namespaces == Namespaces(base, inp) && sources == SourcesOf(Entries(base), inp)
    {
      var overrides;
      err, overrides := ReadOverrideFile(base, inp.overrideFile);
      if err.Some? {
        return;
      }
      var envOverrides := CollectEnvOverrides(base, inp.env);
      namespaces, sources := BuildSections(base, overrides, envOverrides, inp);
    }

    /** `list_params`: one row per attribute not starting with `_`, with its recorded source. */
    method ListParams() returns (params: seq<Param>)
      ensures params == Listing(namespaces, sources)
    {
      params := [];
      var i := 0;
      while i < |namespaces|
        invariant 0 <= i <= |namespaces|
        invariant params == Listing(namespaces[..i], sources)
      {
        var section, attrs := namespaces[i].0, namespaces[i].1.attrs;
        ghost var before := params;
        var j := 0;
        while j < |attrs|
          invariant 0 <= j <= |attrs|
          invariant params == before + AttrParams(section, attrs[..j], sources)
        {
          var k := attrs[j].0;
          AttrParamsAppend(section, attrs[..j], [attrs[j]], sources);
          assert attrs[..j + 1] == attrs[..j] + [attrs[j]];
          if !StartsWith(k, "_") {
            var src := if (section, k) in sources then sources[(section, k)] else Default;
            params := params + [Param(section, k, attrs[j].1, src)];
          }
          j := j + 1;
        }
        assert attrs[..j] == attrs;
        ListingStep(namespaces, i, sources);
        i := i + 1;
      }
      assert namespaces[..i] == namespaces;
    }
  }

  /** `MlpConfig(...)`: a loaded configuration, or the validation error that aborts the load. */
  method Load(base: Layer, inp: Inputs) returns (r: Result<MlpConfig, ConfigError>)
    ensures r.Err? <==> OverrideErrorOf(base, inp.overrideFile).Some?
    ensures r.Err? ==> r.error == OverrideErrorOf(base, inp.overrideFile).value
    ensures r.Ok? ==> fresh(r.value)
    ensures r.Ok? ==> r.value.namespaces == Namespaces(base, inp) && r.value.sources == SourcesOf(Entries(base), inp)
  {
    var conf := new MlpConfig();
    var err := conf.LoadConfig(base, inp);
    if err.Some? {
      return Err(err.value);
    }
    return Ok(conf);
  }
}
