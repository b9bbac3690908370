/** Python dictionaries remember insertion order, and several modelled
    functions iterate over a dict. An ordered dictionary is a key sequence
    (insertion order, no repeats) beside a map holding the values. */
module Dicts {
  import opened Common

  datatype ODict<K(==), V> = ODict(keys: seq<K>, vals: map<K, V>)

  /** The keys listed are exactly the keys of the map, each once. */
  predicate Valid<K(==), V>(d: ODict<K, V>) {
    Distinct(d.keys)
    && (forall k :: k in d.keys ==> k in d.vals)
    && (forall k :: k in d.vals ==> k in d.keys)
  }

  function Empty<K(==), V>(): (r: ODict<K, V>)
    ensures Valid(r) && r.keys == []
  {
    ODict([], map[])
  }

  /** `d[k] = v`: an existing key keeps its place, a new key goes last. */
  function Put<K(==), V>(d: ODict<K, V>, k: K, v: V): (r: ODict<K, V>)
    ensures r.vals == d.vals[k := v]
    ensures k in d.vals ==> r.keys == d.keys
    ensures k !in d.vals ==> r.keys == d.keys + [k]
  {
    if k in d.vals then ODict(d.keys, d.vals[k := v]) else ODict(d.keys + [k], d.vals[k := v])
  }

  /** Storing under a key keeps a valid dictionary valid. */
  lemma PutValid<K, V>(d: ODict<K, V>, k: K, v: V)
    requires Valid(d)
    ensures Valid(Put(d, k, v))
  {
  }

  /** `d.get(k, default)` */
  function Get<K(==), V>(d: ODict<K, V>, k: K, default: V): V {
    if k in d.vals then d.vals[k] else default
  }

  /** `m.get(k, default)` on an unordered map. */
  function MapGet<K(==), V>(m: map<K, V>, k: K, default: V): V {
    if k in m then m[k] else default
  }

  /** `[m.get(w, w) for w in ws]`: look each element up, keeping it when absent. */
  function Translate<K(==)>(m: map<K, K>, ws: seq<K>): (r: seq<K>)
    ensures |r| == |ws|
  {
    seq(|ws|, i requires 0 <= i < |ws| => MapGet(m, ws[i], ws[i]))
  }
}
