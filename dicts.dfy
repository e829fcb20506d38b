/**
 * Python dictionaries keyed by strings: a key order (insertion order) over a
 * map. Assigning to an existing key keeps its position; a new key goes last.
 */
module Dicts {

  datatype OrderedMap<V> = OrderedMap(keys: seq<string>, entries: map<string, V>)

  /** The keys are distinct and are exactly the keys of the map. */
  predicate Valid<V>(d: OrderedMap<V>) {
    && (forall i, j :: 0 <= i < j < |d.keys| ==> d.keys[i] != d.keys[j])
    && (forall k :: k in d.keys ==> k in d.entries)
    && (forall k :: k in d.entries ==> k in d.keys)
  }

  type Dict<V> = d: OrderedMap<V> | Valid(d) witness OrderedMap([], map[])

  /** `{}` */
  function Empty<V>(): Dict<V> {
    OrderedMap([], map[])
  }

  /** `d[k] = v` */
  function Put<V>(d: Dict<V>, k: string, v: V): (r: Dict<V>)
    ensures r.entries == d.entries[k := v]
    ensures r.keys == if k in d.entries then d.keys else d.keys + [k]
  {
    if k in d.entries then OrderedMap(d.keys, d.entries[k := v])
    else OrderedMap(d.keys + [k], d.entries[k := v])
  }

  /** `list(d.items())` */
  function Items<V>(d: Dict<V>): seq<(string, V)> {
    seq(|d.keys|, i requires 0 <= i < |d.keys| => (d.keys[i], d.entries[d.keys[i]]))
  }

  /** Two dictionaries with the same key order and the same value for every key are equal. */
  lemma Extensionality<V>(a: Dict<V>, b: Dict<V>)
    requires a.keys == b.keys
    requires forall k :: k in a.entries ==> a.entries[k] == b.entries[k]
    ensures a == b
  {
  }
}
