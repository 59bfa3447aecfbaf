/**
 * Python dictionaries keep their keys in insertion order: `values()`,
 * `items()` and iteration follow the order in which keys were first
 * stored, and storing an existing key replaces its value in place.
 * `Dict` pairs that key order with the key-value map.
 */
module Dicts {
  datatype Dict<K(==), V> = Dict(keys: seq<K>, entries: map<K, V>)
  {
    /** The key order lists every key of the map exactly once. */
    predicate Valid()
    {
      && (forall i, j :: 0 <= i < j < |keys| ==> keys[i] != keys[j])
      && (set k | k in keys) == entries.Keys
    }

    /** `len(d)` */
    function Size(): nat
    {
      |keys|
    }

    /** `d[k] = v`: a new key goes to the end, an existing key keeps its place. */
    function Put(k: K, v: V): (r: Dict<K, V>)
      requires Valid()
      ensures r.Valid()
      ensures r.entries == entries[k := v]
      ensures k in entries ==> r.keys == keys
      ensures k !in entries ==> r.keys == keys + [k]
    {
      if k in entries then Dict(keys, entries[k := v]) else Dict(keys + [k], entries[k := v])
    }

    /** `list(d.values())`: the values in key order. */
    function Values(): (vs: seq<V>)
      requires Valid()
      ensures |vs| == |keys|
      ensures forall i :: 0 <= i < |keys| ==> vs[i] == entries[keys[i]]
    {
      seq(|keys|, i requires 0 <= i < |keys| => entries[keys[i]])
    }

    /** `set(d.keys())` */
    function KeySet(): (s: set<K>)
      requires Valid()
      ensures s == entries.Keys
    {
      set k | k in keys
    }
  }

  /** `{}` */
  function Empty<K(==), V>(): (d: Dict<K, V>)
    ensures d.Valid() && d.Size() == 0 && d.entries == map[]
  {
    Dict([], map[])
  }

  /** The number of entries is the number of distinct keys. */
  lemma SizeIsCardinality<K, V>(d: Dict<K, V>)
    requires d.Valid()
    ensures d.Size() == |d.KeySet()| == |d.entries|
  {
    DistinctCard(d.keys);
  }

  /** A dictionary holding two different keys has at least two entries. */
  lemma TwoKeys<K, V>(d: Dict<K, V>, a: K, b: K)
    requires d.Valid() && a != b && a in d.entries && b in d.entries
    ensures d.Size() >= 2
  {
    SizeIsCardinality(d);
    assert {a, b} <= d.entries.Keys;
    assert |{a, b}| == 2;
  }

  /** A sequence without repetitions has as many distinct elements as positions. */
  lemma {:induction false} DistinctCard<K>(q: seq<K>)
    requires forall i, j :: 0 <= i < j < |q| ==> q[i] != q[j]
    ensures |set k | k in q| == |q|
    decreases |q|
  {
    if |q| > 0 {
      var init := q[..|q| - 1];
      var last := q[|q| - 1];
      DistinctCard(init);
      assert (set k | k in q) == (set k | k in init) + {last} by {
        assert q == init + [last];
      }
      assert last !in init by {
        forall i | 0 <= i < |init| ensures init[i] != last {
          assert q[i] != q[|q| - 1];
        }
      }
    }
  }

  /** Storing a key and then storing it again leaves the later value, in the first position. */
  lemma PutPut<K, V>(d: Dict<K, V>, k: K, v1: V, v2: V)
    requires d.Valid()
    ensures d.Put(k, v1).Put(k, v2) == d.Put(k, v2)
  {
  }

  /** Two dictionaries with the same key order keep sharing it when the same key is stored in both. */
  lemma KeysPut<K, V, W>(d: Dict<K, V>, e: Dict<K, W>, k: K, v: V, w: W)
    requires d.Valid() && e.Valid() && d.keys == e.keys
    ensures d.Put(k, v).keys == e.Put(k, w).keys
  {
    assert k in d.entries <==> k in d.keys;
    assert k in e.entries <==> k in e.keys;
  }
}
