/** Python's `dict` keyed by message uid: a map together with the order in which its keys
    were first inserted, which is the order iteration visits them in. */
module PyDict {
  datatype Dict<V> = Dict(keys: seq<nat>, entries: map<nat, V>)

  ghost predicate Distinct(keys: seq<nat>) {
    forall i, j :: 0 <= i < j < |keys| ==> keys[i] != keys[j]
  }

  /** The keys are listed once each, and exactly the keys of the map are listed. */
  ghost predicate Valid<V>(d: Dict<V>) {
    Distinct(d.keys) &&
    (forall k :: k in d.entries <==> k in d.keys)
  }

  /** `dict()`. */
  function Empty<V>(): (d: Dict<V>)
    ensures Valid(d) && d.keys == [] && d.entries == map[]
  {
    Dict([], map[])
  }

  /** `d[k] = v`: the value of k becomes v and every other key keeps its value; a new key
      is iterated last, a key already present keeps its place. */
  function Insert<V>(d: Dict<V>, k: nat, v: V): (r: Dict<V>)
    ensures r.entries == d.entries[k := v]
    ensures |r.keys| <= |d.keys| + 1
    ensures Valid(d) ==> Valid(r)
    ensures Valid(d) && k in d.entries ==> r.keys == d.keys
    ensures Valid(d) && k !in d.entries ==> r.keys == d.keys + [k]
  {
    if k in d.entries then d.(entries := d.entries[k := v])
    else Dict(d.keys + [k], d.entries[k := v])
  }
}
