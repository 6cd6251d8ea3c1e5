/** Python's dict: a map that remembers the order in which its keys were first set. */
module OrderedDicts {
  import opened Wrappers

  datatype Dict<V> = Dict(entries: map<string, V>, order: seq<string>) {
    function Get(k: string): Option<V> { if k in entries then Some(entries[k]) else None }

    function Set(k: string, v: V): Dict<V> { Dict(entries[k := v], if k in entries then order else order + [k]) }
  }

  function Empty<V>(): Dict<V> { Dict(map[], []) }

  ghost predicate Unique(keys: seq<string>) { forall i, j :: 0 <= i < j < |keys| ==> keys[i] != keys[j] }

  /** `d` maps `keys` to `values`, in that order, and nothing else. */
  ghost predicate Holds<V>(d: Dict<V>, keys: seq<string>, values: seq<V>) {
    && d.order == keys && |keys| == |values| && Unique(keys)
    && (forall i :: 0 <= i < |keys| ==> d.Get(keys[i]) == Some(values[i]))
    && (forall k :: k in d.entries ==> k in keys)
  }

  lemma KeyIsThere<V>(d: Dict<V>, keys: seq<string>, values: seq<V>, k: string) returns (i: nat)
    requires Holds(d, keys, values)
    ensures d.Get(k).Some? <==> k in keys
    ensures i <= |keys| && (i == |keys| <==> k !in keys)
    ensures i < |keys| ==> keys[i] == k && d.Get(k) == Some(values[i])
  {
    if k in keys {
      i :| 0 <= i < |keys| && keys[i] == k;
      assert d.Get(keys[i]).Some?;
    } else {
      i := |keys|;
    }
  }

  lemma SetNew<V>(d: Dict<V>, keys: seq<string>, values: seq<V>, k: string, v: V)
    requires Holds(d, keys, values) && k !in keys
    ensures Holds(d.Set(k, v), keys + [k], values + [v])
  {
    assert k !in d.entries;
    forall i | 0 <= i < |keys| ensures keys[i] != k && d.Get(keys[i]) == Some(values[i]) { assert keys[i] in keys; }
  }

  lemma SetKnown<V>(d: Dict<V>, keys: seq<string>, values: seq<V>, i: nat, v: V)
    requires Holds(d, keys, values) && i < |keys|
    ensures Holds(d.Set(keys[i], v), keys, values[i := v])
  {
    assert d.Get(keys[i]).Some?;
    forall j | 0 <= j < |keys| && j != i ensures keys[j] != keys[i] && d.Get(keys[j]) == Some(values[j]) {}
  }
}
