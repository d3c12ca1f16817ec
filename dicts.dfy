/**
 * Python's `dict` with string keys, as the scraper uses it: the keys in
 * insertion order together with the key/value mapping.
 */
module OrderedDicts {
  import opened Seqs

  datatype Dict<V> = Dict(keys: seq<string>, vals: map<string, V>) {
    /** Each key is listed once, and exactly the listed keys are mapped. */
    ghost predicate Valid() {
      Distinct(keys) && (forall k :: k in vals <==> k in keys)
    }
  }

  /** `{}` */
  function Empty<V>(): (d: Dict<V>)
    ensures d.Valid() && d.keys == []
  {
    Dict([], map[])
  }

  /**
   * `d[k] = v`: a new key is appended to the key order, an existing key keeps
   * its position and only its value changes.
   */
  function Put<V>(d: Dict<V>, k: string, v: V): (r: Dict<V>)
    requires d.Valid()
    ensures r.Valid()
    ensures r.vals == d.vals[k := v]
    ensures r.keys == if k in d.vals then d.keys else d.keys + [k]
  {
    if k in d.vals then Dict(d.keys, d.vals[k := v]) else Dict(d.keys + [k], d.vals[k := v])
  }

  /** Overwriting the only key of a one-key map leaves a one-key map. */
  lemma OverwriteSingleton<V>(k: string, a: V, b: V)
    ensures map[k := a][k := b] == map[k := b]
  {
  }

  /** Two assignments to the same key: the second wins, and the key order is as after the first. */
  lemma PutTwice<V>(d: Dict<V>, k: string, a: V, b: V)
    requires d.Valid()
    ensures Put(Put(d, k, a), k, b) == Put(d, k, b)
  {
    assert d.vals[k := a][k := b] == d.vals[k := b];
  }

  /** A valid dict with no keys maps nothing: Python's falsy `{}`. */
  lemma EmptyKeysIsEmpty<V>(d: Dict<V>)
    requires d.Valid() && d.keys == []
    ensures d == Empty()
  {
    assert d.vals.Keys == {};
  }
}
