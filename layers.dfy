/**
 * The parsed configuration layers as Python keeps them: ordered dictionaries
 * (a sequence of key/value pairs), a dictionary of sections, the flattened
 * (section, key, value) entries, and the two-level dictionaries the loader
 * fills with `setdefault(section, {})[key] = value`.
 */
module Layers {
  import opened Wrappers

  /** One section: key to raw string value, in insertion order. */
  type Items = seq<(string, string)>

  /** Section name to its items, in insertion order. */
  type Layer = seq<(string, Items)>

  function KeysOf<V>(m: seq<(string, V)>): set<string> {
    set i | 0 <= i < |m| :: m[i].0
  }

  lemma KeysOfCons<V>(x: (string, V), m: seq<(string, V)>)
    ensures KeysOf([x] + m) == {x.0} + KeysOf(m)
  {
    var xm := [x] + m;
    forall k | k in KeysOf(m) ensures k in KeysOf(xm) {
      var i :| 0 <= i < |m| && m[i].0 == k;
      assert xm[i + 1] == m[i];
    }
    assert xm[0] == x;
  }

  lemma KeysOfSnoc<V>(m: seq<(string, V)>, x: (string, V))
    ensures KeysOf(m + [x]) == KeysOf(m) + {x.0}
  {
    var mx := m + [x];
    assert mx[|m|] == x;
    forall k | k in KeysOf(m) ensures k in KeysOf(mx) {
      var i :| 0 <= i < |m| && m[i].0 == k;
      assert mx[i] == m[i];
    }
  }

  /** The keys are pairwise different, as in a Python dictionary. */
  predicate DistinctKeys<V>(m: seq<(string, V)>) {
    forall i, j :: 0 <= i < j < |m| ==> m[i].0 != m[j].0
  }

  lemma DistinctPrefix<V>(m: seq<(string, V)>, n: int)
    requires DistinctKeys(m) && 0 <= n <= |m|
    ensures DistinctKeys(m[..n])
  {
    forall i, j | 0 <= i < j < n ensures m[..n][i].0 != m[..n][j].0 {
      assert m[..n][i] == m[i] && m[..n][j] == m[j];
    }
  }

  /** With distinct keys, the last key is not among the earlier ones. */
  lemma LastKeyIsNew<V>(m: seq<(string, V)>)
    requires |m| > 0 && DistinctKeys(m)
    ensures m[|m| - 1].0 !in KeysOf(m[..|m| - 1])
  {
    var n := |m| - 1;
    var pre := m[..n];
    forall j | 0 <= j < |pre| ensures pre[j].0 != m[n].0 {
      assert pre[j] == m[j];
    }
  }

  /** What configparser produces: distinct section names, and distinct keys within a section. */
  predicate WellFormed(layer: Layer) {
    DistinctKeys(layer) && forall i :: 0 <= i < |layer| ==> DistinctKeys(layer[i].1)
  }

  /** `key in m` and `m[key]` on an ordered dictionary. */
  function Find<V>(m: seq<(string, V)>, key: string): (r: Option<V>)
    ensures r.Some? <==> key in KeysOf(m)
  {
    if |m| == 0 then None
    else if m[0].0 == key then Some(m[0].1)
    else
      KeysOfCons(m[0], m[1..]);
      assert [m[0]] + m[1..] == m;
      Find(m[1..], key)
  }

  /** A prefix of a well-formed layer is well-formed. */
  lemma WellFormedPrefix(layer: Layer, n: int)
    requires WellFormed(layer) && 0 <= n <= |layer|
    ensures WellFormed(layer[..n])
  {
    DistinctPrefix(layer, n);
    forall i | 0 <= i < n ensures DistinctKeys(layer[..n][i].1) {
      assert layer[..n][i] == layer[i];
    }
  }

  /** With distinct keys, looking up the key at position `i` yields the value at position `i`. */
  lemma {:induction false} FindAt<V>(m: seq<(string, V)>, i: int)
    requires DistinctKeys(m) && 0 <= i < |m|
    ensures Find(m, m[i].0) == Some(m[i].1)
  {
    if i > 0 {
      FindAt(m[1..], i - 1);
    }
  }

  /**
   * `m[key] = value` on an ordered dictionary: an existing key keeps its
   * position and gets the new value; a new key is appended.
   */
  function Assign<V>(m: seq<(string, V)>, key: string, value: V): (r: seq<(string, V)>)
    ensures Find(r, key) == Some(value)
    ensures forall k :: k != key ==> Find(r, k) == Find(m, k)
    ensures KeysOf(r) == KeysOf(m) + {key}
    ensures key !in KeysOf(m) ==> r == m + [(key, value)]
    ensures key in KeysOf(m) ==> |r| == |m| && forall i :: 0 <= i < |m| ==> r[i].0 == m[i].0
  {
    if |m| == 0 then [(key, value)]
    else if m[0].0 == key then
      var r := [(key, value)] + m[1..];
      KeysOfCons(m[0], m[1..]);
      KeysOfCons((key, value), m[1..]);
      assert [m[0]] + m[1..] == m;
      r
    else
      var rest := Assign(m[1..], key, value);
      var r := [m[0]] + rest;
      KeysOfCons(m[0], m[1..]);
      KeysOfCons(m[0], rest);
      assert [m[0]] + m[1..] == m;
      r
  }

  /** Assigning one key leaves what another key finds as it was. */
  lemma FindAssignOther<V>(m: seq<(string, V)>, key: string, value: V, k: string, w: V)
    requires k != key && Find(m, k) == Some(w)
    ensures Find(Assign(m, key, value), k) == Some(w)
  {
  }

  /** One flattened configuration entry. */
  datatype Entry = Entry(section: string, key: string, value: string)

  /** The entries of one section, in key order. */
  function SectionEntries(name: string, items: Items): (es: seq<Entry>)
    ensures |es| == |items|
    ensures forall j :: 0 <= j < |items| ==> es[j] == Entry(name, items[j].0, items[j].1)
  {
    if |items| == 0 then []
    else SectionEntries(name, items[..|items| - 1]) + [Entry(name, items[|items| - 1].0, items[|items| - 1].1)]
  }

  /** The entries of a whole layer: section by section, key by key. */
  function Entries(layer: Layer): seq<Entry> {
    if |layer| == 0 then []
    else Entries(layer[..|layer| - 1]) + SectionEntries(layer[|layer| - 1].0, layer[|layer| - 1].1)
  }

  lemma {:induction false} EntriesAppend(a: Layer, b: Layer)
    ensures Entries(a + b) == Entries(a) + Entries(b)
    decreases |b|
  {
    if |b| > 0 {
      var n := |b| - 1;
      assert (a + b)[..|a + b| - 1] == a + b[..n];
      EntriesAppend(a, b[..n]);
    } else {
      assert a + b == a;
    }
  }

  /** Entering section `i`: nothing of it has been flattened yet. */
  lemma EntriesSectionStart(layer: Layer, i: int)
    requires 0 <= i < |layer|
    ensures Entries(layer[..i]) + SectionEntries(layer[i].0, layer[i].1[..0]) == Entries(layer[..i])
  {
    assert layer[i].1[..0] == [];
  }

  /** Key `j` of section `i` is the next entry after those before it. */
  lemma EntriesKeyStep(layer: Layer, i: int, j: int)
    requires 0 <= i < |layer| && 0 <= j < |layer[i].1|
    ensures
      var items := layer[i].1;
      Entries(layer[..i]) + SectionEntries(layer[i].0, items[..j + 1])
      == Entries(layer[..i]) + SectionEntries(layer[i].0, items[..j]) + [Entry(layer[i].0, items[j].0, items[j].1)]
  {
    var items := layer[i].1;
    assert items[..j + 1][..j] == items[..j];
  }

  /** Leaving section `i`: all of it has been flattened. */
  lemma EntriesSectionDone(layer: Layer, i: int)
    requires 0 <= i < |layer|
    ensures Entries(layer[..i]) + SectionEntries(layer[i].0, layer[i].1[..|layer[i].1|]) == Entries(layer[..i + 1])
  {
    assert layer[i].1[..|layer[i].1|] == layer[i].1;
    assert layer[..i + 1][..i] == layer[..i];
  }

  /** The (section, key) pairs that entries mention. */
  function PairsOf(es: seq<Entry>): set<(string, string)> {
    set n | 0 <= n < |es| :: (es[n].section, es[n].key)
  }

  lemma PairsOfSnoc(es: seq<Entry>, e: Entry)
    ensures PairsOf(es + [e]) == PairsOf(es) + {(e.section, e.key)}
  {
    var xs := es + [e];
    assert xs[|es|] == e;
    forall p | p in PairsOf(es) ensures p in PairsOf(xs) {
      var n :| 0 <= n < |es| && p == (es[n].section, es[n].key);
      assert xs[n] == es[n];
    }
  }

  /** Every (section, key) of a layer appears among its entries. */
  lemma EntryListed(layer: Layer, i: int, j: int)
    requires 0 <= i < |layer| && 0 <= j < |layer[i].1|
    ensures (layer[i].0, layer[i].1[j].0) in PairsOf(Entries(layer))
  {
    var es := Entries(layer[..i + 1]);
    assert layer[..i + 1][..i] == layer[..i];
    assert es == Entries(layer[..i]) + SectionEntries(layer[i].0, layer[i].1);
    var n := |Entries(layer[..i])| + j;
    assert es[n] == Entry(layer[i].0, layer[i].1[j].0, layer[i].1[j].1);
    EntriesAppend(layer[..i + 1], layer[i + 1..]);
    assert layer[..i + 1] + layer[i + 1..] == layer;
    assert Entries(layer)[n] == es[n];
  }

  /** The value the last entry for (s, k) carries: what repeated dictionary assignment leaves. */
  function LastValue(es: seq<Entry>, s: string, k: string): (r: Option<string>)
    ensures r.Some? <==> (s, k) in PairsOf(es)
  {
    if |es| == 0 then None
    else
      var e := es[|es| - 1];
      PairsOfSnoc(es[..|es| - 1], e);
      assert es[..|es| - 1] + [e] == es;
      if e.section == s && e.key == k then Some(e.value)
      else LastValue(es[..|es| - 1], s, k)
  }

  /** A two-level dictionary: section to key to value. */
  type Dict2 = map<string, map<string, string>>

  /** `section in m and key in m[section]`, and the value. */
  function Lookup2(m: Dict2, section: string, key: string): Option<string> {
    if section in m && key in m[section] then Some(m[section][key]) else None
  }

  /** `m.setdefault(section, {})[key] = value`. */
  function Put2(m: Dict2, section: string, key: string, value: string): (r: Dict2)
    ensures forall s, k :: Lookup2(r, s, k) == if s == section && k == key then Some(value) else Lookup2(m, s, k)
  {
    var inner := if section in m then m[section] else map[];
    m[section := inner[key := value]]
  }

  /** The dictionary holds exactly what assigning the entries in order leaves. */
  ghost predicate Represents(m: Dict2, es: seq<Entry>) {
    forall s, k :: Lookup2(m, s, k) == LastValue(es, s, k)
  }

  lemma RepresentsPut(m: Dict2, es: seq<Entry>, e: Entry)
    requires Represents(m, es)
    ensures Represents(Put2(m, e.section, e.key, e.value), es + [e])
  {
    assert (es + [e])[..|es|] == es;
  }
}
