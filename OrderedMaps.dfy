/**
 * Insertion-ordered maps with key-based overwrite: `java.util.LinkedHashMap` on the server
 * and the JavaScript `Map` on the client behave alike. Putting a key that is already present
 * replaces its value and leaves it where it was; a new key goes to the end.
 */
module OrderedMaps {
  import opened Wrappers

  /** `keys` lists each key once, oldest insertion first; `entries` holds the values. */
  datatype OrderedMap<K(==), V> = OrderedMap(keys: seq<K>, entries: map<K, V>)

  predicate Distinct<K(==)>(s: seq<K>) {
    forall i, j :: 0 <= i < j < |s| ==> s[i] != s[j]
  }

  predicate WellFormed<K(==), V>(m: OrderedMap<K, V>) {
    Distinct(m.keys) && m.entries.Keys == set k | k in m.keys
  }

  function Empty<K(==), V>(): (m: OrderedMap<K, V>)
    ensures WellFormed(m) && m.keys == []
  {
    OrderedMap([], map[])
  }

  /** `put(k, v)` / `set(k, v)`. */
  function Insert<K(==), V>(m: OrderedMap<K, V>, k: K, v: V): OrderedMap<K, V> {
    if k in m.entries then OrderedMap(m.keys, m.entries[k := v])
    else OrderedMap(m.keys + [k], m.entries[k := v])
  }

  /** Putting every pair of `kvs`, first to last. */
  function InsertAll<K(==), V>(m: OrderedMap<K, V>, kvs: seq<(K, V)>): OrderedMap<K, V> {
    if |kvs| == 0 then m
    else
      var last := kvs[|kvs| - 1];
      Insert(InsertAll(m, kvs[..|kvs| - 1]), last.0, last.1)
  }

  /** The keys of a list of pairs, in order. */
  function KeysOf<K, V>(kvs: seq<(K, V)>): (ks: seq<K>)
    ensures |ks| == |kvs| && forall i :: 0 <= i < |kvs| ==> ks[i] == kvs[i].0
  {
    seq(|kvs|, i requires 0 <= i < |kvs| => kvs[i].0)
  }

  /** The value of the last pair in `kvs` whose key is `k`, if any. */
  function LastValue<K(==), V>(kvs: seq<(K, V)>, k: K): Option<V> {
    if |kvs| == 0 then None
    else if kvs[|kvs| - 1].0 == k then Some(kvs[|kvs| - 1].1)
    else LastValue(kvs[..|kvs| - 1], k)
  }

  /** Position of the first occurrence of `x` in `s`. */
  function FirstIndex<T(==)>(s: seq<T>, x: T): (i: nat)
    requires x in s
    ensures i < |s| && s[i] == x && x !in s[..i]
  {
    if s[0] == x then 0 else 1 + FirstIndex(s[1..], x)
  }

  /** The values in key order (`Array.from(map.values())`). */
  function Values<K(==), V>(m: OrderedMap<K, V>): (vs: seq<V>)
    requires WellFormed(m)
    ensures |vs| == |m.keys|
    ensures forall i :: 0 <= i < |m.keys| ==> vs[i] == m.entries[m.keys[i]]
  {
    seq(|m.keys|, i requires 0 <= i < |m.keys| => m.entries[m.keys[i]])
  }

  /** One put keeps the map well formed. */
  lemma InsertWellFormed<K, V>(m: OrderedMap<K, V>, k: K, v: V)
    requires WellFormed(m)
    ensures WellFormed(Insert(m, k, v))
  {
  }

  lemma {:induction false} InsertAllWellFormed<K, V>(m: OrderedMap<K, V>, kvs: seq<(K, V)>)
    requires WellFormed(m)
    ensures WellFormed(InsertAll(m, kvs))
  {
    if |kvs| > 0 {
      var last := kvs[|kvs| - 1];
      InsertAllWellFormed(m, kvs[..|kvs| - 1]);
      InsertWellFormed(InsertAll(m, kvs[..|kvs| - 1]), last.0, last.1);
    }
  }

  /** Putting `a` and then `b` is putting `a + b`. */
  lemma {:induction false} InsertAllConcat<K, V>(m: OrderedMap<K, V>, a: seq<(K, V)>, b: seq<(K, V)>)
    ensures InsertAll(m, a + b) == InsertAll(InsertAll(m, a), b)
  {
    if |b| > 0 {
      var init := b[..|b| - 1];
      assert (a + b)[..|a + b| - 1] == a + init;
      InsertAllConcat(m, a, init);
    } else {
      assert a + b == a;
    }
  }

  /** The keys afterwards are the old keys together with every key that was put. */
  lemma {:induction false} InsertAllKeys<K, V>(m: OrderedMap<K, V>, kvs: seq<(K, V)>)
    ensures InsertAll(m, kvs).entries.Keys == m.entries.Keys + set i | 0 <= i < |kvs| :: kvs[i].0
  {
    if |kvs| > 0 {
      var init := kvs[..|kvs| - 1];
      InsertAllKeys(m, init);
      assert (set i | 0 <= i < |kvs| :: kvs[i].0)
          == (set i | 0 <= i < |init| :: init[i].0) + {kvs[|kvs| - 1].0} by {
        forall i | 0 <= i < |init| ensures init[i] == kvs[i] { }
      }
    }
  }

  /** Every key holds the value of the LAST pair that named it, or its old value if none did. */
  lemma {:induction false} InsertAllValue<K, V>(m: OrderedMap<K, V>, kvs: seq<(K, V)>, k: K)
    requires k in InsertAll(m, kvs).entries
    ensures LastValue(kvs, k).None? ==> k in m.entries
    ensures InsertAll(m, kvs).entries[k] == LastValue(kvs, k).GetOr(if k in m.entries then m.entries[k] else InsertAll(m, kvs).entries[k])
  {
    if |kvs| > 0 {
      var last := kvs[|kvs| - 1];
      if last.0 != k {
        InsertAllValue(m, kvs[..|kvs| - 1], k);
      }
    }
  }

  /**
   * `keys` lists only elements of `all`, in increasing order of their first occurrence there.
   * Together with `Distinct` and a key set equal to the elements of `all`, this pins the
   * list down: it is `all` with later repetitions dropped.
   */
  ghost predicate FirstSeenOrder<K>(keys: seq<K>, all: seq<K>) {
    && (forall i :: 0 <= i < |keys| ==> keys[i] in all)
    && (forall i, j :: 0 <= i < j < |keys| ==> FirstIndex(all, keys[i]) < FirstIndex(all, keys[j]))
  }

  /**
   * Keys that were already present keep their positions, and the whole key list is in the
   * order in which each key was FIRST seen, counting the old keys first.
   */
  lemma {:induction false} InsertAllOrder<K, V>(m: OrderedMap<K, V>, kvs: seq<(K, V)>)
    requires WellFormed(m)
    ensures |m.keys| <= |InsertAll(m, kvs).keys|
    ensures InsertAll(m, kvs).keys[..|m.keys|] == m.keys
    ensures FirstSeenOrder(InsertAll(m, kvs).keys, m.keys + KeysOf(kvs))
  {
    if |kvs| == 0 {
      assert m.keys + KeysOf(kvs) == m.keys;
      forall i | 0 <= i < |m.keys| ensures FirstIndex(m.keys, m.keys[i]) == i {
        FirstIndexDistinct(m.keys, i);
      }
    } else {
      var init := kvs[..|kvs| - 1];
      var last := kvs[|kvs| - 1];
      var prev := InsertAll(m, init);
      var all := m.keys + KeysOf(init);
      InsertAllOrder(m, init);
      assert m.keys + KeysOf(kvs) == all + [last.0];
      if last.0 in prev.entries {
        FirstSeenOrderGrow(prev.keys, all, last.0);
      } else {
        InsertAllKeys(m, init);
        assert forall i | 0 <= i < |init| :: KeysOf(init)[i] != last.0;
        FirstSeenOrderAppend(prev.keys, all, last.0);
      }
    }
  }

  lemma FirstIndexDistinct<T>(s: seq<T>, i: nat)
    requires Distinct(s) && i < |s|
    ensures FirstIndex(s, s[i]) == i
  {
    FirstIndexLeast(s, s[i], i);
  }

  lemma {:induction false} FirstIndexLeast<T>(s: seq<T>, x: T, k: nat)
    requires k < |s| && s[k] == x
    ensures FirstIndex(s, x) <= k
  {
    if s[0] != x {
      FirstIndexLeast(s[1..], x, k - 1);
    }
  }

  lemma FirstIndexPrefix<T>(s: seq<T>, t: seq<T>, x: T)
    requires x in s
    ensures x in s + t && FirstIndex(s + t, x) == FirstIndex(s, x)
  {
    var i := FirstIndex(s, x);
    FirstIndexLeast(s + t, x, i);
    var j := FirstIndex(s + t, x);
    assert s[j] == x;
    FirstIndexLeast(s, x, j);
  }

  lemma FirstSeenOrderGrow<K>(keys: seq<K>, all: seq<K>, x: K)
    requires FirstSeenOrder(keys, all)
    ensures FirstSeenOrder(keys, all + [x])
  {
    forall i | 0 <= i < |keys| ensures FirstIndex(all + [x], keys[i]) == FirstIndex(all, keys[i]) {
      FirstIndexPrefix(all, [x], keys[i]);
    }
  }

  lemma FirstSeenOrderAppend<K>(keys: seq<K>, all: seq<K>, x: K)
    requires FirstSeenOrder(keys, all) && x !in all
    ensures FirstSeenOrder(keys + [x], all + [x])
  {
    FirstSeenOrderGrow(keys, all, x);
    assert (all + [x])[..|all|] == all;
    assert FirstIndex(all + [x], x) == |all|;
    forall i | 0 <= i < |keys| ensures FirstIndex(all + [x], keys[i]) < |all| {
      FirstIndexPrefix(all, [x], keys[i]);
    }
  }

  /**
   * The map itself, for code that fills it in place: `java.util.LinkedHashMap` on the
   * server, `Map` in the browser script.
   */
  class LinkedMap<K(==), V> {
    var keys: seq<K>
    var entries: map<K, V>

    function Model(): OrderedMap<K, V>
      reads this
    {
      OrderedMap(keys, entries)
    }

    ghost predicate Valid()
      reads this
    {
      WellFormed(Model())
    }

    constructor ()
      ensures Valid() && Model() == Empty()
    {
      keys, entries := [], map[];
    }

    /** `containsKey(k)` / `has(k)`. */
    function ContainsKey(k: K): (b: bool)
      reads this
      requires Valid()
      ensures b <==> k in keys
    {
      k in entries
    }

    /** `get(k)`: the value stored under `k`, or nothing. */
    function Get(k: K): (v: Option<V>)
      reads this
      ensures v.Some? <==> k in entries
      ensures v.Some? ==> v.value == entries[k]
    {
      if k in entries then Some(entries[k]) else None
    }

    /** `put(k, v)` / `set(k, v)`. */
    method Put(k: K, v: V)
      requires Valid()
      modifies this
      ensures Valid()
      ensures Model() == Insert(old(Model()), k, v)
    {
      if k !in entries {
        keys := keys + [k];
      }
      entries := entries[k := v];
    }

    /** `Array.from(map.values())`: the values in key order. */
    method ValuesInOrder() returns (vs: seq<V>)
      requires Valid()
      ensures vs == Values(Model())
    {
      vs := [];
      for i := 0 to |keys|
        invariant vs == Values(Model())[..i]
      {
        vs := vs + [entries[keys[i]]];
      }
    }
  }
}
