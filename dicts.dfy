/** Python's `dict` with string keys, as the scraper uses it: assignment
    `d[k] = v` keeps an existing key where it is and appends a new one, and
    `d.values()` lists the values in that insertion order. */
module Dicts {

  /** The entries of a dict in insertion order. */
  datatype Dict<V> = Dict(entries: seq<(string, V)>)

  function KeysOf<V>(es: seq<(string, V)>): (r: seq<string>)
    ensures |r| == |es|
    ensures forall i :: 0 <= i < |es| ==> r[i] == es[i].0
  {
    if es == [] then [] else [es[0].0] + KeysOf(es[1..])
  }

  /** `list(d.keys())`. */
  function Keys<V>(d: Dict<V>): seq<string> {
    KeysOf(d.entries)
  }

  /** `list(d.values())`. */
  function Values<V>(d: Dict<V>): (r: seq<V>)
    ensures |r| == |d.entries|
    ensures forall i :: 0 <= i < |r| ==> r[i] == d.entries[i].1
  {
    seq(|d.entries|, i requires 0 <= i < |d.entries| => d.entries[i].1)
  }

  /** No key occurs twice. */
  predicate Valid<V>(d: Dict<V>) {
    Distinct(Keys(d))
  }

  predicate Distinct(ks: seq<string>) {
    forall i, j :: 0 <= i < j < |ks| ==> ks[i] != ks[j]
  }

  /** The dict as a Dafny map. */
  function ToMapOf<V>(es: seq<(string, V)>): map<string, V> {
    if es == [] then map[] else ToMapOf(es[1..])[es[0].0 := es[0].1]
  }

  /** The map has exactly the dict's keys. */
  lemma {:induction false} ToMapKeys<V>(d: Dict<V>, k: string)
    ensures k in ToMap(d) <==> k in Keys(d)
    decreases |d.entries|
  {
    var es := d.entries;
    if es != [] {
      ToMapKeys(Dict(es[1..]), k);
      assert KeysOf(es) == [es[0].0] + KeysOf(es[1..]);
    }
  }

  function ToMap<V>(d: Dict<V>): map<string, V> {
    ToMapOf(d.entries)
  }

  /** `{}`. */
  function Empty<V>(): (d: Dict<V>)
    ensures Valid(d) && ToMap(d) == map[] && Keys(d) == []
  {
    Dict([])
  }

  function PutEntries<V>(es: seq<(string, V)>, k: string, v: V): seq<(string, V)> {
    if es == [] then [(k, v)]
    else if es[0].0 == k then [(k, v)] + es[1..]
    else [es[0]] + PutEntries(es[1..], k, v)
  }

  /** `d[k] = v`. */
  function Put<V>(d: Dict<V>, k: string, v: V): Dict<V> {
    Dict(PutEntries(d.entries, k, v))
  }

  /** Assignment keeps the keys distinct, maps k to v and changes no other
      key; a present key keeps its place and a new key goes last. */
  lemma PutSpec<V>(d: Dict<V>, k: string, v: V)
    requires Valid(d)
    ensures Valid(Put(d, k, v))
    ensures ToMap(Put(d, k, v)) == ToMap(d)[k := v]
    ensures k in Keys(d) ==> Keys(Put(d, k, v)) == Keys(d)
    ensures k !in Keys(d) ==> Keys(Put(d, k, v)) == Keys(d) + [k]
  {
    PutEntriesSpec(d.entries, k, v);
  }

  lemma PutEntriesSpec<V>(es: seq<(string, V)>, k: string, v: V)
    requires Valid(Dict(es))
    ensures Valid(Dict(PutEntries(es, k, v)))
    ensures ToMapOf(PutEntries(es, k, v)) == ToMapOf(es)[k := v]
    ensures k in KeysOf(es) ==> KeysOf(PutEntries(es, k, v)) == KeysOf(es)
    ensures k !in KeysOf(es) ==> KeysOf(PutEntries(es, k, v)) == KeysOf(es) + [k]
  {
    PutEntriesKeys(es, k, v);
    PutEntriesMap(es, k, v);
    var ks := KeysOf(es);
    if k !in ks {
      var ks' := ks + [k];
      forall i, j | 0 <= i < j < |ks'| ensures ks'[i] != ks'[j] {
        if j == |ks| {
          assert ks'[i] == ks[i];
        } else {
          assert ks'[i] == ks[i] && ks'[j] == ks[j];
        }
      }
    }
  }

  /** Assigning to a present key keeps the key order; a new key goes last. */
  lemma {:induction false} PutEntriesKeys<V>(es: seq<(string, V)>, k: string, v: V)
    ensures k in KeysOf(es) ==> KeysOf(PutEntries(es, k, v)) == KeysOf(es)
    ensures k !in KeysOf(es) ==> KeysOf(PutEntries(es, k, v)) == KeysOf(es) + [k]
  {
    if es != [] {
      assert KeysOf(es) == [es[0].0] + KeysOf(es[1..]);
      if es[0].0 == k {
        assert KeysOf(PutEntries(es, k, v)) == [k] + KeysOf(es[1..]);
      } else {
        PutEntriesKeys(es[1..], k, v);
        assert KeysOf(PutEntries(es, k, v)) == [es[0].0] + KeysOf(PutEntries(es[1..], k, v));
      }
    }
  }

  /** Assignment updates the key's value and nothing else. */
  lemma {:induction false} PutEntriesMap<V>(es: seq<(string, V)>, k: string, v: V)
    ensures ToMapOf(PutEntries(es, k, v)) == ToMapOf(es)[k := v]
  {
    if es != [] {
      if es[0].0 == k {
        assert ([(k, v)] + es[1..])[1..] == es[1..];
      } else {
        PutEntriesMap(es[1..], k, v);
        assert ([es[0]] + PutEntries(es[1..], k, v))[1..] == PutEntries(es[1..], k, v);
      }
    }
  }
}
