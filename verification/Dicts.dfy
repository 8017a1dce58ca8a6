/** Python dictionaries: a map that remembers the order in which its keys were first set. */
module Dicts {

  datatype Dict<K(!new), V> = Dict(keys: seq<K>, at: map<K, V>) {

    ghost predicate Valid() {
      && (forall k :: k in keys <==> k in at)
      && (forall i, j :: 0 <= i < j < |keys| ==> keys[i] != keys[j])
    }
  }

  function Empty<K(!new), V>(): (d: Dict<K, V>)
    ensures d.Valid()
  {
    Dict([], map[])
  }

  /** d[k] = v */
  function Put<K(==,!new), V>(d: Dict<K, V>, k: K, v: V): (r: Dict<K, V>)
    ensures d.Valid() ==> r.Valid()
    ensures r.at == d.at[k := v]
  {
    Dict(if k in d.at then d.keys else d.keys + [k], d.at[k := v])
  }

  ghost predicate Distinct<K(!new)>(keys: seq<K>) {
    forall i, j :: 0 <= i < j < |keys| ==> keys[i] != keys[j]
  }

  /** A dictionary comprehension: a later value replaces an earlier one with the same key. */
  function Collect<K(==,!new), V>(keys: seq<K>, values: seq<V>): map<K, V>
    requires |keys| == |values|
  {
    if keys == [] then map[]
    else
      var n := |keys| - 1;
      Collect(keys[..n], values[..n])[keys[n] := values[n]]
  }

  lemma {:induction false} CollectKeys<K(!new), V>(keys: seq<K>, values: seq<V>)
    requires |keys| == |values|
    ensures forall k :: k in Collect(keys, values) <==> k in keys
  {
    if keys != [] {
      var n := |keys| - 1;
      CollectKeys(keys[..n], values[..n]);
      assert keys == keys[..n] + [keys[n]];
    }
  }

  /** Every collected value comes from its key; with distinct keys each key has its own value. */
  lemma {:induction false} CollectValues<K(!new), V>(keys: seq<K>, values: seq<V>)
    requires |keys| == |values|
    ensures forall k :: k in Collect(keys, values) ==>
              exists i :: 0 <= i < |keys| && keys[i] == k && Collect(keys, values)[k] == values[i]
    ensures Distinct(keys) ==>
              forall i :: 0 <= i < |keys| ==> keys[i] in Collect(keys, values) && Collect(keys, values)[keys[i]] == values[i]
  {
    if keys != [] {
      var n := |keys| - 1;
      CollectValues(keys[..n], values[..n]);
      var before := Collect(keys[..n], values[..n]);
      forall k | k in Collect(keys, values)
        ensures exists i :: 0 <= i < |keys| && keys[i] == k && Collect(keys, values)[k] == values[i]
      {
        if k != keys[n] {
          var i :| 0 <= i < n && keys[..n][i] == k && before[k] == values[..n][i];
        }
      }
      if Distinct(keys) {
        forall i | 0 <= i < |keys|
          ensures keys[i] in Collect(keys, values) && Collect(keys, values)[keys[i]] == values[i]
        {
          if i < n {
            assert keys[..n][i] in before && before[keys[..n][i]] == values[..n][i];
          }
        }
      }
    }
  }
}
