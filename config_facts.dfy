/**
 * What a load of `MlpConfig` guarantees: the attributes and the listing it
 * produces, how validation bounds the override file, how substitution and
 * type inference behave, and the provenance-key collision of the dotted
 * `_sources` keys.
 */
module ConfigFacts {
  import opened Wrappers
  import opened Text
  import opened Numerals
  import opened Values
  import opened Layers
  import opened EnvVar
  import opened Config

  // ---------------------------------------------------------------------------
  // Attributes

  /** Within a built namespace, each key of the section holds that key's resolved value. */
  lemma {:induction false} FindBuilt(name: string, items: Items, inp: Inputs, j: int)
    requires DistinctKeys(items) && 0 <= j < |items|
    ensures Find(BuildNamespace(name, items, inp).attrs, items[j].0)
         == Some(ResolvedValue(Entry(name, items[j].0, items[j].1), inp))
  {
    var n := |items| - 1;
    if j < n {
      DistinctPrefix(items, n);
      FindBuilt(name, items[..n], inp, j);
      FindBuiltEarlier(name, items, inp, j);
    } else {
      FindBuiltLast(name, items, inp, j);
    }
  }

  /** The last key of a section holds its own resolved value. */
  lemma FindBuiltLast(name: string, items: Items, inp: Inputs, j: int)
    requires j == |items| - 1 && j >= 0
    ensures Find(BuildNamespace(name, items, inp).attrs, items[j].0)
         == Some(ResolvedValue(Entry(name, items[j].0, items[j].1), inp))
  {
    BuildSnoc(name, items, inp);
  }

  /** A key set before the last one keeps its value when the last key, a different one, is set. */
  lemma FindBuiltEarlier(name: string, items: Items, inp: Inputs, j: int)
    requires DistinctKeys(items) && 0 <= j < |items| - 1
    requires var pre := items[..|items| - 1];
      Find(BuildNamespace(name, pre, inp).attrs, pre[j].0) == Some(ResolvedValue(Entry(name, pre[j].0, pre[j].1), inp))
    ensures Find(BuildNamespace(name, items, inp).attrs, items[j].0)
         == Some(ResolvedValue(Entry(name, items[j].0, items[j].1), inp))
  {
    var n := |items| - 1;
    assert items[..n][j] == items[j];
    assert items[j].0 != items[n].0;
    BuildSnoc(name, items, inp);
    FindAssignOther(BuildNamespace(name, items[..n], inp).attrs, items[n].0, ResolvedValue(Entry(name, items[n].0, items[n].1), inp),
      items[j].0, ResolvedValue(Entry(name, items[j].0, items[j].1), inp));
  }

  /** Each base section's name leads to the namespace built from that section. */
  lemma {:induction false} FindNamespace(base: Layer, inp: Inputs, i: int)
    requires DistinctKeys(base) && 0 <= i < |base|
    ensures Find(Namespaces(base, inp), base[i].0) == Some(BuildNamespace(base[i].0, base[i].1, inp))
  {
    var n := |base| - 1;
    if i < n {
      var pre := base[..n];
      assert pre[i] == base[i];
      assert base[n].0 != base[i].0;
      FindNamespace(pre, inp, i);
    }
  }

  /** `conf.<section>.<key>` is the key's resolved value: winning layer, substituted, typed. */
  lemma LoadedAttribute(base: Layer, inp: Inputs, i: int, j: int)
    requires WellFormed(base)
    requires 0 <= i < |base| && 0 <= j < |base[i].1|
    ensures Attribute(Namespaces(base, inp), base[i].0, base[i].1[j].0)
         == Some(ResolvedValue(Entry(base[i].0, base[i].1[j].0, base[i].1[j].1), inp))
  {
    FindNamespace(base, inp, i);
    FindBuilt(base[i].0, base[i].1, inp, j);
  }

  /** The attributes are exactly the base sections' keys and `_name`: no layer adds one. */
  lemma AttributesAreBaseKeys(base: Layer, inp: Inputs, s: string, k: string)
    requires WellFormed(base)
    ensures Attribute(Namespaces(base, inp), s, k).Some? <==>
      s in KeysOf(base) && (k == "_name" || k in KeysOf(Find(base, s).value))
  {
    if s in KeysOf(base) {
      var i :| 0 <= i < |base| && base[i].0 == s;
      FindAt(base, i);
      FindNamespace(base, inp, i);
    }
  }

  // ---------------------------------------------------------------------------
  // Precedence

  /** The recorded source names the layer whose value was used. */
  lemma WinnerFollowsSource(e: Entry, inp: Inputs)
    ensures SourceFor(e.section, e.key, inp) == Env ==>
      EnvValue(e.section, e.key, inp.env) == Some(Winner(e, inp))
    ensures SourceFor(e.section, e.key, inp) == Override ==>
      && EnvValue(e.section, e.key, inp.env) == None
      && OverrideValue(inp.overrideFile, e.section, e.key) == Some(Winner(e, inp))
    ensures SourceFor(e.section, e.key, inp) == Default ==>
      && EnvValue(e.section, e.key, inp.env) == None
      && OverrideValue(inp.overrideFile, e.section, e.key) == None
      && Winner(e, inp) == e.value
  {
  }

  /** An entry of a layer comes from one of its sections and one of that section's keys. */
  lemma {:induction false} EntryOrigin(layer: Layer, n: int)
    requires 0 <= n < |Entries(layer)|
    ensures exists i, j ::
      0 <= i < |layer| && 0 <= j < |layer[i].1| && Entries(layer)[n] == Entry(layer[i].0, layer[i].1[j].0, layer[i].1[j].1)
  {
    var last := |layer| - 1;
    var pre := layer[..last];
    var front := Entries(pre);
    if n < |front| {
      EntryOrigin(pre, n);
      var i, j :| 0 <= i < |pre| && 0 <= j < |pre[i].1| && front[n] == Entry(pre[i].0, pre[i].1[j].0, pre[i].1[j].1);
      assert pre[i] == layer[i];
    } else {
      var j := n - |front|;
      assert Entries(layer)[n] == SectionEntries(layer[last].0, layer[last].1)[j];
    }
  }

  /** After validation, every override value is for a section and key the base defines. */
  lemma ValidatedOverride(base: Layer, inp: Inputs, s: string, k: string)
    requires OverrideErrorOf(base, inp.overrideFile).None?
    requires OverrideValue(inp.overrideFile, s, k).Some?
    ensures s in KeysOf(base) && k in KeysOf(Find(base, s).value)
  {
    var ov := inp.overrideFile.value;
    var es := Entries(ov);
    var n :| 0 <= n < |es| && (s, k) == (es[n].section, es[n].key);
    EntryOrigin(ov, n);
    var i, j :| 0 <= i < |ov| && 0 <= j < |ov[i].1| && es[n] == Entry(ov[i].0, ov[i].1[j].0, ov[i].1[j].1);
    assert SectionFits(base, ov[i]);
  }

  /**
   * configparser's `items(section)` includes every DEFAULT key, so each base
   * section holds all of them.
   */
  predicate DefaultsMerged(base: Layer, defaults: Items) {
    forall i, t :: 0 <= i < |base| && 0 <= t < |defaults| ==> defaults[t].0 in KeysOf(base[i].1)
  }

  /**
   * A DEFAULT key is a key of every section: it is an attribute of every
   * namespace, resolved from that section's value; the variable
   * `MLP_<SECTION>_<KEY>` overrides it per section.
   */
  lemma DefaultKeyInEverySection(base: Layer, inp: Inputs, i: int, t: int)
    requires WellFormed(base) && DefaultsMerged(base, inp.defaults)
    requires 0 <= i < |base| && 0 <= t < |inp.defaults|
    ensures var s, d := base[i].0, inp.defaults[t].0;
      && d in KeysOf(base[i].1)
      && Attribute(Namespaces(base, inp), s, d) == Some(ResolvedValue(Entry(s, d, Find(base[i].1, d).value), inp))
    ensures var s, d := base[i].0, inp.defaults[t].0;
      EnvName(s, d) in inp.env ==>
        Attribute(Namespaces(base, inp), s, d) == Some(Finalize(d, Substitute(inp.env[EnvName(s, d)], inp)))
  {
    var d := inp.defaults[t].0;
    var items := base[i].1;
    var j :| 0 <= j < |items| && items[j].0 == d;
    FindAt(items, j);
    LoadedAttribute(base, inp, i, j);
  }

  /** An override file may set a DEFAULT key in any base section: validation accepts it. */
  lemma DefaultKeySettable(base: Layer, inp: Inputs, i: int, t: int, v: string)
    requires WellFormed(base) && DefaultsMerged(base, inp.defaults)
    requires 0 <= i < |base| && 0 <= t < |inp.defaults|
    ensures OverrideError(base, [(base[i].0, [(inp.defaults[t].0, v)])]) == None
  {
    var ov := [(base[i].0, [(inp.defaults[t].0, v)])];
    FindAt(base, i);
    assert SectionFits(base, ov[0]);
  }

  // ---------------------------------------------------------------------------
  // The listing

  /** The row the listing shows for a base entry. */
  function RowFor(e: Entry, inp: Inputs): Param {
    Param(e.section, e.key, ResolvedValue(e, inp), SourceFor(e.section, e.key, inp))
  }

  /** The entries whose key does not start with `_`, in entry order. */
  function Visible(es: seq<Entry>): (vs: seq<Entry>)
    ensures |vs| <= |es|
    ensures forall n :: 0 <= n < |vs| ==> vs[n] in es && !StartsWith(vs[n].key, "_")
    ensures forall m :: 0 <= m < |es| && !StartsWith(es[m].key, "_") ==> es[m] in vs
  {
    if |es| == 0 then []
    else
      var e := es[|es| - 1];
      var pre := es[..|es| - 1];
      assert es == pre + [e];
      Visible(pre) + (if StartsWith(e.key, "_") then [] else [e])
  }

  lemma {:induction false} VisibleAppend(a: seq<Entry>, b: seq<Entry>)
    ensures Visible(a + b) == Visible(a) + Visible(b)
    decreases |b|
  {
    if |b| == 0 {
      assert a + b == a;
    } else {
      var n := |b| - 1;
      assert (a + b)[..|a + b| - 1] == a + b[..n];
      VisibleAppend(a, b[..n]);
    }
  }

  /** The listing a load should produce: the row of each visible entry, in entry order. */
  function ExpectedParams(es: seq<Entry>, inp: Inputs): seq<Param> {
    var vs := Visible(es);
    seq(|vs|, n requires 0 <= n < |vs| => RowFor(vs[n], inp))
  }

  lemma ExpectedParamsAppend(a: seq<Entry>, b: seq<Entry>, inp: Inputs)
    ensures ExpectedParams(a + b, inp) == ExpectedParams(a, inp) + ExpectedParams(b, inp)
  {
    VisibleAppend(a, b);
    var left, right := ExpectedParams(a, inp), ExpectedParams(b, inp);
    var both := ExpectedParams(a + b, inp);
    forall n | 0 <= n < |both| ensures both[n] == (left + right)[n] {
      if n < |left| {
        assert Visible(a + b)[n] == Visible(a)[n];
      } else {
        assert Visible(a + b)[n] == Visible(b)[n - |left|];
      }
    }
  }

  /** `p` is the row of an entry of `es` whose key does not start with `_`. */
  predicate RowOfVisible(es: seq<Entry>, inp: Inputs, p: Param) {
    exists m :: 0 <= m < |es| && !StartsWith(es[m].key, "_") && p == RowFor(es[m], inp)
  }

  /** The listing holds a row for every visible entry and only such rows. */
  lemma ExpectedRows(es: seq<Entry>, inp: Inputs)
    ensures forall n :: 0 <= n < |ExpectedParams(es, inp)| ==> RowOfVisible(es, inp, ExpectedParams(es, inp)[n])
    ensures forall m :: 0 <= m < |es| && !StartsWith(es[m].key, "_") ==> RowFor(es[m], inp) in ExpectedParams(es, inp)
  {
    var vs := Visible(es);
    var ps := ExpectedParams(es, inp);
    forall n | 0 <= n < |ps| ensures RowOfVisible(es, inp, ps[n]) {
      var m :| 0 <= m < |es| && es[m] == vs[n];
      assert ps[n] == RowFor(es[m], inp);
    }
    forall m | 0 <= m < |es| && !StartsWith(es[m].key, "_") ensures RowFor(es[m], inp) in ps {
      var n :| 0 <= n < |vs| && vs[n] == es[m];
      assert ps[n] == RowFor(es[m], inp);
    }
  }

  /** Assigning an attribute whose name starts with `_` never changes the rows. */
  lemma {:induction false} HiddenAssign(section: string, attrs: seq<(string, TypedValue)>, key: string, v: TypedValue,
                                         sources: map<(string, string), Source>)
    requires StartsWith(key, "_")
    ensures AttrParams(section, Assign(attrs, key, v), sources) == AttrParams(section, attrs, sources)
  {
    var r := Assign(attrs, key, v);
    if |attrs| == 0 {
    } else if attrs[0].0 == key {
      assert r[1..] == attrs[1..];
    } else {
      assert r[0] == attrs[0] && r[1..] == Assign(attrs[1..], key, v);
      HiddenAssign(section, attrs[1..], key, v, sources);
    }
  }

  /** Assigning a new attribute whose name does not start with `_` appends its row. */
  lemma VisibleAssign(section: string, attrs: seq<(string, TypedValue)>, key: string, v: TypedValue,
                      sources: map<(string, string), Source>)
    requires !StartsWith(key, "_") && key !in KeysOf(attrs)
    ensures AttrParams(section, Assign(attrs, key, v), sources)
         == AttrParams(section, attrs, sources) + [Param(section, key, v, SourceOrDefault(sources, section, key))]
  {
    AttrParamsAppend(section, attrs, [(key, v)], sources);
    assert AttrParams(section, [(key, v)], sources) == [Param(section, key, v, SourceOrDefault(sources, section, key))] by {
      assert [(key, v)][1..] == [];
    }
  }

  /** The last key of a section is assigned last. */
  lemma BuildSnoc(name: string, items: Items, inp: Inputs)
    requires |items| > 0
    ensures var n := |items| - 1;
      BuildNamespace(name, items, inp).attrs
      == Assign(BuildNamespace(name, items[..n], inp).attrs, items[n].0, ResolvedValue(Entry(name, items[n].0, items[n].1), inp))
  {
  }

  /** The last key of a section contributes its row after the others', if it is visible. */
  lemma ExpectedSnoc(name: string, items: Items, inp: Inputs)
    requires |items| > 0
    ensures var n := |items| - 1;
      var e := Entry(name, items[n].0, items[n].1);
      ExpectedParams(SectionEntries(name, items), inp)
      == ExpectedParams(SectionEntries(name, items[..n]), inp) + (if StartsWith(e.key, "_") then [] else [RowFor(e, inp)])
  {
    var n := |items| - 1;
    var e := Entry(name, items[n].0, items[n].1);
    var es := SectionEntries(name, items[..n]);
    assert SectionEntries(name, items) == es + [e];
    ExpectedParamsAppend(es, [e], inp);
    ExpectedSingle(e, inp);
  }

  /** A single entry yields its row exactly when its key does not start with `_`. */
  lemma ExpectedSingle(e: Entry, inp: Inputs)
    ensures ExpectedParams([e], inp) == if StartsWith(e.key, "_") then [] else [RowFor(e, inp)]
  {
    assert [e][..0] == [];
    assert Visible([e]) == if StartsWith(e.key, "_") then [] else [e];
  }

  /** Assigning an attribute that is hidden or new adds its row, if any, at the end. */
  lemma AssignRows(section: string, attrs: seq<(string, TypedValue)>, key: string, v: TypedValue,
                   sources: map<(string, string), Source>)
    requires StartsWith(key, "_") || key !in KeysOf(attrs)
    ensures AttrParams(section, Assign(attrs, key, v), sources)
         == AttrParams(section, attrs, sources)
            + (if StartsWith(key, "_") then [] else [Param(section, key, v, SourceOrDefault(sources, section, key))])
  {
    if StartsWith(key, "_") {
      HiddenAssign(section, attrs, key, v, sources);
    } else {
      VisibleAssign(section, attrs, key, v, sources);
    }
  }

  /** The last key of a section adds its row, if visible, after the rows of the keys before it. */
  lemma BuiltRows(name: string, items: Items, inp: Inputs, sources: map<(string, string), Source>)
    requires |items| > 0 && DistinctKeys(items)
    ensures var n := |items| - 1;
      var key := items[n].0;
      AttrParams(name, BuildNamespace(name, items, inp).attrs, sources)
      == AttrParams(name, BuildNamespace(name, items[..n], inp).attrs, sources)
         + (if StartsWith(key, "_") then []
            else [Param(name, key, ResolvedValue(Entry(name, key, items[n].1), inp), SourceOrDefault(sources, name, key))])
  {
    var n := |items| - 1;
    var attrs := BuildNamespace(name, items[..n], inp).attrs;
    BuildSnoc(name, items, inp);
    LastKeyIsNew(items);
    assert StartsWith("_name", "_");
    AssignRows(name, attrs, items[n].0, ResolvedValue(Entry(name, items[n].0, items[n].1), inp), sources);
  }

  /** One more key of a section: the built namespace and the expected rows grow in step. */
  lemma SectionListingStep(name: string, items: Items, inp: Inputs, sources: map<(string, string), Source>)
    requires |items| > 0 && DistinctKeys(items)
    requires SourceOrDefault(sources, name, items[|items| - 1].0) == SourceFor(name, items[|items| - 1].0, inp)
    requires AttrParams(name, BuildNamespace(name, items[..|items| - 1], inp).attrs, sources)
          == ExpectedParams(SectionEntries(name, items[..|items| - 1]), inp)
    ensures AttrParams(name, BuildNamespace(name, items, inp).attrs, sources) == ExpectedParams(SectionEntries(name, items), inp)
  {
    BuiltRows(name, items, inp, sources);
    ExpectedSnoc(name, items, inp);
  }

  /** The rows of one built namespace are the expected rows of its section. */
  lemma {:induction false} SectionListing(name: string, items: Items, inp: Inputs, sources: map<(string, string), Source>)
    requires DistinctKeys(items)
    requires forall j :: 0 <= j < |items| ==> SourceOrDefault(sources, name, items[j].0) == SourceFor(name, items[j].0, inp)
    ensures AttrParams(name, BuildNamespace(name, items, inp).attrs, sources) == ExpectedParams(SectionEntries(name, items), inp)
  {
    if |items| == 0 {
      assert StartsWith("_name", "_");
    } else {
      var n := |items| - 1;
      var pre := items[..n];
      forall j | 0 <= j < |pre| ensures SourceOrDefault(sources, name, pre[j].0) == SourceFor(name, pre[j].0, inp) {
        assert pre[j] == items[j];
      }
      DistinctPrefix(items, n);
      SectionListing(name, pre, inp, sources);
      SectionListingStep(name, items, inp, sources);
    }
  }

  /** The listing of namespaces built from a layer, under any provenance map that agrees with the layers. */
  lemma {:induction false} LayerListing(base: Layer, inp: Inputs, sources: map<(string, string), Source>)
    requires WellFormed(base)
    requires forall i, j :: 0 <= i < |base| && 0 <= j < |base[i].1| ==>
      SourceOrDefault(sources, base[i].0, base[i].1[j].0) == SourceFor(base[i].0, base[i].1[j].0, inp)
    ensures Listing(Namespaces(base, inp), sources) == ExpectedParams(Entries(base), inp)
  {
    if |base| > 0 {
      var n := |base| - 1;
      var pre := base[..n];
      LayerSourcesSplit(base, inp, sources);
      WellFormedPrefix(base, n);
      LayerListing(pre, inp, sources);
      ListingSnoc(base, inp, sources);
      SectionListing(base[n].0, base[n].1, inp, sources);
      ExpectedParamsAppend(Entries(pre), SectionEntries(base[n].0, base[n].1), inp);
    }
  }

  /** Provenance that agrees with a layer agrees with its prefix and with its last section. */
  lemma LayerSourcesSplit(base: Layer, inp: Inputs, sources: map<(string, string), Source>)
    requires |base| > 0
    requires forall i, j :: 0 <= i < |base| && 0 <= j < |base[i].1| ==>
      SourceOrDefault(sources, base[i].0, base[i].1[j].0) == SourceFor(base[i].0, base[i].1[j].0, inp)
    ensures var pre := base[..|base| - 1];
      forall i, j :: 0 <= i < |pre| && 0 <= j < |pre[i].1| ==>
        SourceOrDefault(sources, pre[i].0, pre[i].1[j].0) == SourceFor(pre[i].0, pre[i].1[j].0, inp)
    ensures var last := base[|base| - 1];
      forall j :: 0 <= j < |last.1| ==> SourceOrDefault(sources, last.0, last.1[j].0) == SourceFor(last.0, last.1[j].0, inp)
  {
    var pre := base[..|base| - 1];
    forall i, j | 0 <= i < |pre| && 0 <= j < |pre[i].1|
      ensures SourceOrDefault(sources, pre[i].0, pre[i].1[j].0) == SourceFor(pre[i].0, pre[i].1[j].0, inp)
    {
      assert pre[i] == base[i];
    }
  }

  /** The namespace of the last base section is listed after the others'. */
  lemma ListingSnoc(base: Layer, inp: Inputs, sources: map<(string, string), Source>)
    requires |base| > 0 && DistinctKeys(base)
    ensures var n := |base| - 1;
      Listing(Namespaces(base, inp), sources)
      == Listing(Namespaces(base[..n], inp), sources) + AttrParams(base[n].0, BuildNamespace(base[n].0, base[n].1, inp).attrs, sources)
  {
    var n := |base| - 1;
    var nss := Namespaces(base[..n], inp);
    var x := (base[n].0, BuildNamespace(base[n].0, base[n].1, inp));
    LastKeyIsNew(base);
    assert Namespaces(base, inp) == nss + [x];
    assert (nss + [x])[..|nss|] == nss;
  }

  /**
   * `list_params` after a successful load: one row per base key not
   * starting with `_`, section by section in base order, carrying the key's
   * resolved value and the layer that supplied it.
   */
  lemma LoadedListing(base: Layer, inp: Inputs)
    requires WellFormed(base)
    ensures Listing(Namespaces(base, inp), SourcesOf(Entries(base), inp)) == ExpectedParams(Entries(base), inp)
  {
    var sources := SourcesOf(Entries(base), inp);
    forall i, j | 0 <= i < |base| && 0 <= j < |base[i].1|
      ensures SourceOrDefault(sources, base[i].0, base[i].1[j].0) == SourceFor(base[i].0, base[i].1[j].0, inp)
    {
      EntryListed(base, i, j);
    }
    LayerListing(base, inp, sources);
  }

  /** A successful load, listed: the rows the class produces are the expected rows. */
  method LoadAndList(base: Layer, inp: Inputs) returns (r: Result<seq<Param>, ConfigError>)
    requires WellFormed(base)
    ensures r.Err? <==> OverrideErrorOf(base, inp.overrideFile).Some?
    ensures r.Ok? ==> r.value == ExpectedParams(Entries(base), inp)
  {
    var conf := Load(base, inp);
    if conf.Err? {
      return Err(conf.error);
    }
    var params := conf.value.ListParams();
    LoadedListing(base, inp);
    return Ok(params);
  }

  // ---------------------------------------------------------------------------
  // Provenance keys as the loader writes them

  /** `f"{section}.{key}"`: the key the loader files a provenance under. */
  function DottedKey(section: string, key: string): string {
    section + "." + key
  }

  /** The dotted keys of the entries. */
  function DottedKeys(es: seq<Entry>): set<string> {
    set n | 0 <= n < |es| :: DottedKey(es[n].section, es[n].key)
  }

  lemma DottedKeysSnoc(es: seq<Entry>, e: Entry)
    ensures DottedKeys(es + [e]) == DottedKeys(es) + {DottedKey(e.section, e.key)}
  {
    var xs := es + [e];
    assert xs[|es|] == e;
    forall d | d in DottedKeys(es) ensures d in DottedKeys(xs) {
      var n :| 0 <= n < |es| && d == DottedKey(es[n].section, es[n].key);
      assert xs[n] == es[n];
    }
  }

  /** No later entry shares the dotted key of entry `n`. */
  predicate LastWithDottedKey(es: seq<Entry>, n: int) {
    0 <= n < |es| && forall j :: n < j < |es| ==> DottedKey(es[j].section, es[j].key) != DottedKey(es[n].section, es[n].key)
  }

  /**
   * `_sources` as the loader keeps it: one provenance per dotted key, a later
   * entry overwriting an earlier one with the same dotted key.
   */
  function DottedSources(es: seq<Entry>, inp: Inputs): (m: map<string, Source>)
    ensures DottedSourcesAgree(es, inp, m)
  {
    if |es| == 0 then map[]
    else
      var last := |es| - 1;
      var e := es[last];
      var rest := DottedSources(es[..last], inp);
      DottedSourcesStep(es, inp, rest);
      rest[DottedKey(e.section, e.key) := SourceFor(e.section, e.key, inp)]
  }

  /**
   * `m` holds exactly the dotted keys of the entries, each with the winning
   * layer of the last entry that has it.
   */
  predicate DottedSourcesAgree(es: seq<Entry>, inp: Inputs, m: map<string, Source>) {
    && m.Keys == DottedKeys(es)
    && forall n | 0 <= n < |es| :: LastWithDottedKey(es, n) ==>
         m[DottedKey(es[n].section, es[n].key)] == SourceFor(es[n].section, es[n].key, inp)
  }

  /** Recording the final entry under its dotted key extends the map of the entries before it. */
  lemma DottedSourcesStep(es: seq<Entry>, inp: Inputs, rest: map<string, Source>)
    requires |es| > 0 && DottedSourcesAgree(es[..|es| - 1], inp, rest)
    ensures var e := es[|es| - 1];
      DottedSourcesAgree(es, inp, rest[DottedKey(e.section, e.key) := SourceFor(e.section, e.key, inp)])
  {
    var last := |es| - 1;
    var e := es[last];
    var pre := es[..last];
    var m := rest[DottedKey(e.section, e.key) := SourceFor(e.section, e.key, inp)];
    DottedKeysSnoc(pre, e);
    assert pre + [e] == es;
    assert m.Keys == DottedKeys(es);
    forall n | 0 <= n < |es| && LastWithDottedKey(es, n)
      ensures m[DottedKey(es[n].section, es[n].key)] == SourceFor(es[n].section, es[n].key, inp)
    {
      if n < last {
        LastWithDottedKeyPrefix(es, n);
        assert LastWithDottedKey(pre, n);
      }
    }
  }

  /** An entry that is the last with its dotted key, other than the final one, is so in the prefix too. */
  lemma LastWithDottedKeyPrefix(es: seq<Entry>, n: int)
    requires LastWithDottedKey(es, n) && n < |es| - 1
    ensures var pre := es[..|es| - 1];
      && pre[n] == es[n]
      && LastWithDottedKey(pre, n)
      && DottedKey(es[|es| - 1].section, es[|es| - 1].key) != DottedKey(es[n].section, es[n].key)
  {
    var pre := es[..|es| - 1];
    forall j | n < j < |pre|
      ensures DottedKey(pre[j].section, pre[j].key) != DottedKey(pre[n].section, pre[n].key)
    {
      assert pre[j] == es[j];
    }
  }

  /** Different (section, key) pairs of the entries have different dotted keys. */
  predicate DottedInjective(es: seq<Entry>) {
    forall n, j :: 0 <= n < |es| && 0 <= j < |es| && DottedKey(es[n].section, es[n].key) == DottedKey(es[j].section, es[j].key)
      ==> es[n].section == es[j].section && es[n].key == es[j].key
  }

  /**
   * Where no two (section, key) pairs share a dotted key, the dotted
   * provenance map as written answers for every listed pair exactly as the
   * pair-keyed map does: with the winning layer.
   */
  lemma {:induction false} DottedAgreesWhenUnambiguous(es: seq<Entry>, inp: Inputs, s: string, k: string)
    requires DottedInjective(es)
    requires (s, k) in PairsOf(es)
    ensures DottedLookup(DottedSources(es, inp), s, k) == SourceFor(s, k, inp)
    ensures SourceOrDefault(SourcesOf(es, inp), s, k) == SourceFor(s, k, inp)
  {
    var last := |es| - 1;
    var e := es[last];
    var pre := es[..last];
    assert pre + [e] == es;
    PairsOfSnoc(pre, e);
    DottedLookupStep(es, inp, s, k);
    if e.section != s || e.key != k {
      var n :| 0 <= n < |es| && (s, k) == (es[n].section, es[n].key);
      assert DottedKey(e.section, e.key) != DottedKey(s, k);
      DottedInjectivePrefix(es, last);
      DottedAgreesWhenUnambiguous(pre, inp, s, k);
    }
  }

  /** Looking up a dotted key in the map: the last entry answers if it has that key, else the earlier ones do. */
  lemma DottedLookupStep(es: seq<Entry>, inp: Inputs, s: string, k: string)
    requires |es| > 0
    ensures var e := es[|es| - 1];
      DottedLookup(DottedSources(es, inp), s, k)
      == if DottedKey(e.section, e.key) == DottedKey(s, k) then SourceFor(e.section, e.key, inp)
         else DottedLookup(DottedSources(es[..|es| - 1], inp), s, k)
  {
  }

  /** A prefix of entries with unambiguous dotted keys has unambiguous dotted keys. */
  lemma DottedInjectivePrefix(es: seq<Entry>, last: int)
    requires DottedInjective(es) && 0 <= last <= |es|
    ensures DottedInjective(es[..last])
  {
    var pre := es[..last];
    forall a, b | 0 <= a < |pre| && 0 <= b < |pre| && DottedKey(pre[a].section, pre[a].key) == DottedKey(pre[b].section, pre[b].key)
      ensures pre[a].section == pre[b].section && pre[a].key == pre[b].key
    {
      assert pre[a] == es[a] && pre[b] == es[b];
    }
  }

  /** `_sources.get(f"{section}.{key}", "default")`. */
  function DottedLookup(m: map<string, Source>, section: string, key: string): Source {
    var d := DottedKey(section, key);
    if d in m then m[d] else Default
  }

  /** The two base entries of the collision. */
  function CollidingBase(): Layer {
    [("a", [("b.c", "1")]), ("a.b", [("c", "2")])]
  }

  /** Only `MLP_A_B.C`, the variable of section `a` and key `b.c`, is set. */
  function CollidingInputs(): Inputs {
    Inputs([], None, map["MLP_A_B.C" := "9"], Runtime("", "", "", ""))
  }

  /** The variable names of the two colliding keys differ. */
  lemma CollidingEnvNames()
    ensures EnvName("a", "b.c") == "MLP_A_B.C"
    ensures EnvName("a.b", "c") == "MLP_A.B_C"
  {
    assert Upper("a") == "A" && Upper("b.c") == "B.C";
    assert Upper("a.b") == "A.B" && Upper("c") == "C";
  }

  /** The flattened entries of the colliding base. */
  lemma CollidingEntries()
    ensures Entries(CollidingBase()) == [Entry("a", "b.c", "1"), Entry("a.b", "c", "2")]
  {
    var base := CollidingBase();
    assert base[..1][..0] == [];
    assert SectionEntries("a", [("b.c", "1")]) == [Entry("a", "b.c", "1")] by {
      assert [("b.c", "1")][..0] == [];
    }
    assert SectionEntries("a.b", [("c", "2")]) == [Entry("a.b", "c", "2")] by {
      assert [("c", "2")][..0] == [];
    }
    assert base[..1] == [("a", [("b.c", "1")])];
  }

  /**
   * Section `a` with key `b.c` and section `a.b` with key `c` share the dotted
   * key `a.b.c`: with `MLP_A_B.C` set, the value of `a`/`b.c` comes from the
   * environment, yet the dotted provenance map reports "default" for it,
   * because the later key `a.b`/`c` overwrote the shared entry. Keyed by the
   * (section, key) pair, the provenance is "env".
   */
  lemma DottedProvenanceCollides()
    ensures WellFormed(CollidingBase())
    ensures DottedKey("a", "b.c") == DottedKey("a.b", "c")
    ensures SourceFor("a", "b.c", CollidingInputs()) == Env
    ensures DottedLookup(DottedSources(Entries(CollidingBase()), CollidingInputs()), "a", "b.c") == Default
    ensures SourceOrDefault(SourcesOf(Entries(CollidingBase()), CollidingInputs()), "a", "b.c") == Env
  {
    CollidingEnvNames();
    CollidingEntries();
    CollidingWellFormed();
    assert DottedKey("a", "b.c") == "a.b.c" == DottedKey("a.b", "c");
    DottedLast();
    PairedFirst();
  }

  lemma CollidingWellFormed()
    ensures WellFormed(CollidingBase())
  {
    var base := CollidingBase();
    assert base[0].0 == "a" && base[1].0 == "a.b";
  }

  /** The dotted map keeps what the later key `a.b`/`c` wrote: "default". */
  lemma DottedLast()
    ensures DottedLookup(DottedSources([Entry("a", "b.c", "1"), Entry("a.b", "c", "2")], CollidingInputs()), "a", "b.c") == Default
  {
    var inp := CollidingInputs();
    var es := [Entry("a", "b.c", "1"), Entry("a.b", "c", "2")];
    CollidingEnvNames();
    assert SourceFor("a.b", "c", inp) == Default;
    assert DottedKey("a", "b.c") == "a.b.c" == DottedKey("a.b", "c");
    assert DottedSources(es, inp) == DottedSources(es[..1], inp)["a.b.c" := Default];
  }

  /** The pair-keyed map keeps the provenance of `a`/`b.c` itself: "env". */
  lemma PairedFirst()
    ensures SourceOrDefault(SourcesOf([Entry("a", "b.c", "1"), Entry("a.b", "c", "2")], CollidingInputs()), "a", "b.c") == Env
  {
    var inp := CollidingInputs();
    var es := [Entry("a", "b.c", "1"), Entry("a.b", "c", "2")];
    CollidingEnvNames();
    assert es[0] == Entry("a", "b.c", "1");
    assert ("a", "b.c") in PairsOf(es);
  }
}
