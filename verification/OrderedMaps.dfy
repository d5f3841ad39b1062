/**
 Insertion-ordered maps, as JavaScript's `Map` is: a sequence of entries with
 distinct keys, where storing under a present key keeps its place.
 */
module OrderedMaps {
  import opened Wrappers

  type OrderedMap<K, V> = seq<(K, V)>

  function Get<K(==), V>(m: OrderedMap<K, V>, key: K): Option<V> {
    if m == [] then None else if m[0].0 == key then Some(m[0].1) else Get(m[1..], key)
  }

  predicate Has<K(==), V>(m: OrderedMap<K, V>, key: K) {
    Get(m, key).Some?
  }

  function Put<K(==), V>(m: OrderedMap<K, V>, key: K, value: V): OrderedMap<K, V> {
    if m == [] then [(key, value)]
    else if m[0].0 == key then [(key, value)] + m[1..]
    else [m[0]] + Put(m[1..], key, value)
  }

  ghost predicate DistinctKeys<K, V>(m: OrderedMap<K, V>) {
    forall i, j | 0 <= i < j < |m| :: m[i].0 != m[j].0
  }

  lemma {:induction false} GetPut<K, V>(m: OrderedMap<K, V>, key: K, value: V)
    ensures forall k :: Get(Put(m, key, value), k) == if k == key then Some(value) else Get(m, k)
    ensures |Put(m, key, value)| == if Has(m, key) then |m| else |m| + 1
  {
    if m != [] && m[0].0 != key {
      GetPut(m[1..], key, value);
    }
  }

  lemma {:induction false} PutNewIsLast<K, V>(m: OrderedMap<K, V>, key: K, value: V)
    requires Get(m, key).None?
    ensures Put(m, key, value) == m + [(key, value)]
  {
    if m != [] {
      PutNewIsLast(m[1..], key, value);
    }
  }

  /** A key with a value has an entry, and the other way around. */
  lemma {:induction false} GetIsMember<K, V>(m: OrderedMap<K, V>, key: K)
    ensures Get(m, key).Some? ==> (key, Get(m, key).value) in m
    ensures Get(m, key).None? ==> forall e <- m :: e.0 != key
  {
    if m != [] && m[0].0 != key {
      GetIsMember(m[1..], key);
    }
  }

  lemma {:induction false} PutKeepsKeysDistinct<K, V>(m: OrderedMap<K, V>, key: K, value: V)
    requires DistinctKeys(m)
    ensures DistinctKeys(Put(m, key, value))
    ensures forall e <- Put(m, key, value) :: e.0 == key || e in m
  {
    if m != [] && m[0].0 != key {
      assert forall i | 0 <= i < |m[1..]| :: m[1..][i] == m[i + 1];
      PutKeepsKeysDistinct(m[1..], key, value);
      var after := Put(m[1..], key, value);
      assert forall i | 0 <= i < |after| :: after[i] in after;
    }
  }

  lemma {:induction false} MemberIsGet<K, V>(m: OrderedMap<K, V>, key: K, value: V)
    requires DistinctKeys(m) && (key, value) in m
    ensures Get(m, key) == Some(value)
  {
    if m[0].0 == key {
      var i :| 0 <= i < |m| && m[i] == (key, value);
    } else {
      assert forall i | 0 <= i < |m[1..]| :: m[1..][i] == m[i + 1];
      assert m == [m[0]] + m[1..];
      MemberIsGet(m[1..], key, value);
    }
  }
}
