/** Python's built-in dict, as far as the calculator uses it: a map from
    string keys to values that remembers the order in which keys were first
    inserted (the order in which the dict is printed and iterated). */
module Dicts {

  /** No element of `s` occurs twice. */
  ghost predicate Distinct<T>(s: seq<T>) {
    forall i, j :: 0 <= i < j < |s| ==> s[i] != s[j]
  }

  /** `keys` lists the keys in insertion order; `entries` maps each key to its value. */
  datatype Dict<V> = Dict(keys: seq<string>, entries: map<string, V>) {

    /** Every key is listed once, and the listed keys are exactly the mapped ones. */
    ghost predicate Valid() {
      && Distinct(keys)
      && (forall k :: k in keys <==> k in entries)
    }
  }

  /** `{}`: the empty dict. */
  function Empty<V>(): (d: Dict<V>)
    ensures d.Valid()
    ensures d.keys == [] && d.entries == map[]
  {
    Dict([], map[])
  }

  /** `d[k] = v`: a new key goes to the end of the order, a key already
      present keeps its place and only its value changes. */
  function Put<V>(d: Dict<V>, k: string, v: V): Dict<V> {
    if k in d.entries then Dict(d.keys, d.entries[k := v])
    else Dict(d.keys + [k], d.entries[k := v])
  }

  /** Storing a value keeps a dict well formed, maps `k` to `v`, and leaves
      every other key and its value as they were; a new key is appended to
      the insertion order, an existing one keeps its place. */
  lemma PutKeepsValid<V>(d: Dict<V>, k: string, v: V)
    requires d.Valid()
    ensures Put(d, k, v).Valid()
    ensures Put(d, k, v).keys == if k in d.entries then d.keys else d.keys + [k]
    ensures k in Put(d, k, v).entries && Put(d, k, v).entries[k] == v
    ensures forall k' :: k' != k ==> (k' in Put(d, k, v).entries <==> k' in d.entries)
    ensures forall k' :: k' != k && k' in d.entries ==> Put(d, k, v).entries[k'] == d.entries[k']
  {
  }
}
