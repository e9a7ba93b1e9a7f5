/** `OrderedHashMap`, the per-class instance collection: a map from plugin name to
    plugin whose values are visited in insertion order. The class itself is not part
    of this model; it is taken to behave as `java.util.LinkedHashMap` does (a `put` of
    a new key appends it, a `put` of a present key keeps its place, a `remove`
    drops the key from the order). */
module OrderedMaps {

  predicate Distinct<T(==)>(s: seq<T>) {
    forall i, j :: 0 <= i < j < |s| ==> s[i] != s[j]
  }

  datatype OrderedMap<V> = OrderedMap(keys: seq<string>, entries: map<string, V>) {

    /** The order lists every key exactly once. */
    ghost predicate Valid() {
      && Distinct(keys)
      && (forall k :: k in keys <==> k in entries)
    }

    /** The values in iteration order. */
    function Values(): (vs: seq<V>)
      requires Valid()
      ensures |vs| == |keys|
      ensures forall i :: 0 <= i < |keys| ==> vs[i] == entries[keys[i]]
    {
      seq(|keys|, i requires 0 <= i < |keys| && Valid() => entries[keys[i]])
    }
  }

  function Empty<V>(): (m: OrderedMap<V>)
    ensures m.Valid() && m.keys == [] && m.entries == map[]
  {
    OrderedMap([], map[])
  }

  /** Position of `k` in `keys`. */
  function IndexOf(keys: seq<string>, k: string): (i: nat)
    requires k in keys
    ensures i < |keys| && keys[i] == k && k !in keys[..i]
  {
    if keys[0] == k then 0
    else
      var i := 1 + IndexOf(keys[1..], k);
      assert keys[..i] == [keys[0]] + keys[1..][..i - 1];
      i
  }

  /** `put(k, v)`. */
  function Put<V>(m: OrderedMap<V>, k: string, v: V): (r: OrderedMap<V>)
    requires m.Valid()
    ensures r.Valid()
    ensures r.entries == m.entries[k := v]
    ensures k in m.entries ==> r.keys == m.keys
    ensures k !in m.entries ==> r.keys == m.keys + [k]
  {
    if k in m.entries then OrderedMap(m.keys, m.entries[k := v])
    else OrderedMap(m.keys + [k], m.entries[k := v])
  }

  /** Dropping the key at position `i` of a list of distinct keys leaves the
      other keys, still distinct. */
  lemma DropAt(keys: seq<string>, i: nat)
    requires Distinct(keys) && i < |keys|
    ensures var ks := keys[..i] + keys[i + 1..];
      && Distinct(ks)
      && forall x :: x in ks <==> x in keys && x != keys[i]
  {
    var ks := keys[..i] + keys[i + 1..];
    assert forall j :: 0 <= j < |ks| ==> ks[j] == keys[if j < i then j else j + 1];
    forall x | x in keys && x != keys[i] ensures x in ks {
      var j :| 0 <= j < |keys| && keys[j] == x;
      assert ks[if j < i then j else j - 1] == x;
    }
  }

  /** `remove(k)`: the other keys keep their relative order. */
  function Remove<V>(m: OrderedMap<V>, k: string): (r: OrderedMap<V>)
    requires m.Valid()
    ensures r.Valid()
    ensures r.entries == m.entries - {k}
    ensures k !in m.entries ==> r.keys == m.keys
    ensures k in m.entries ==>
      var i := IndexOf(m.keys, k); r.keys == m.keys[..i] + m.keys[i + 1..]
  {
    if k !in m.entries then m
    else
      var i := IndexOf(m.keys, k);
      var keys' := m.keys[..i] + m.keys[i + 1..];
      DropAt(m.keys, i);
      OrderedMap(keys', m.entries - {k})
  }

  /** A key appended after keys that do not hold it is found at the end. */
  lemma {:induction false} IndexOfAppended(keys: seq<string>, k: string)
    requires k !in keys
    ensures IndexOf(keys + [k], k) == |keys|
    decreases |keys|
  {
    if keys != [] {
      assert (keys + [k])[0] == keys[0] && (keys + [k])[1..] == keys[1..] + [k];
      IndexOfAppended(keys[1..], k);
    }
  }

  /** Removing a key just put undoes the put. */
  lemma RemoveAfterPut<V>(m: OrderedMap<V>, k: string, v: V)
    requires m.Valid() && k !in m.entries
    ensures Remove(Put(m, k, v), k) == m
  {
    var p := Put(m, k, v);
    IndexOfAppended(m.keys, k);
    assert p.keys[..|m.keys|] == m.keys && p.keys[|m.keys| + 1..] == [];
    assert p.entries - {k} == m.entries;
  }

  /** Removing a key and putting it back under another name moves that value to
      the end of the iteration order (what renaming an instance does). */
  lemma {:induction false} RemovePutMovesToEnd<V>(m: OrderedMap<V>, oldKey: string, newKey: string, v: V)
    requires m.Valid() && oldKey in m.entries && newKey !in m.entries
    ensures var r := Put(Remove(m, oldKey), newKey, v);
      && r.keys[|r.keys| - 1] == newKey
      && |r.keys| == |m.keys|
      && oldKey !in r.entries
      && r.Values()[|r.keys| - 1] == v
  {
    var r := Put(Remove(m, oldKey), newKey, v);
    assert newKey != oldKey;
    assert r.keys == Remove(m, oldKey).keys + [newKey];
  }
}
