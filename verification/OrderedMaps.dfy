/**
 * A JavaScript `Map` (ECMA-262 section 24.1): distinct keys in insertion order.
 * Setting a present key keeps its place; deleting and setting again moves it to
 * the end.
 */
module OrderedMaps {
  import opened Wrappers

  datatype Entry<+K, +V> = Entry(key: K, value: V)

  type OrderedMap<+K, +V> = seq<Entry<K, V>>

  function Get<K(==), V>(m: OrderedMap<K, V>, k: K): Option<V> {
    if m == [] then None
    else if m[0].key == k then Some(m[0].value)
    else Get(m[1..], k)
  }

  predicate Has<K(==), V>(m: OrderedMap<K, V>, k: K) {
    Get(m, k).Some?
  }

  function Set<K(==), V>(m: OrderedMap<K, V>, k: K, v: V): OrderedMap<K, V> {
    if m == [] then [Entry(k, v)]
    else if m[0].key == k then [Entry(k, v)] + m[1..]
    else [m[0]] + Set(m[1..], k, v)
  }

  function Delete<K(==), V>(m: OrderedMap<K, V>, k: K): OrderedMap<K, V> {
    if m == [] then []
    else if m[0].key == k then m[1..]
    else [m[0]] + Delete(m[1..], k)
  }

  predicate Distinct<K(==), V>(m: OrderedMap<K, V>) {
    m == [] || (!Has(m[1..], m[0].key) && Distinct(m[1..]))
  }

  lemma {:induction false} GetAfterSet<K, V>(m: OrderedMap<K, V>, k: K, v: V, other: K)
    ensures Get(Set(m, k, v), other) == if other == k then Some(v) else Get(m, other)
  {
    if m != [] && m[0].key != k {
      GetAfterSet(m[1..], k, v, other);
      assert Set(m, k, v)[1..] == Set(m[1..], k, v);
    }
  }

  lemma {:induction false} GetAfterDelete<K, V>(m: OrderedMap<K, V>, k: K, other: K)
    requires Distinct(m)
    ensures Get(Delete(m, k), other) == if other == k then None else Get(m, other)
  {
    if m != [] && m[0].key != k {
      GetAfterDelete(m[1..], k, other);
      assert Delete(m, k)[1..] == Delete(m[1..], k);
    }
  }

  lemma {:induction false} SetKeepsDistinct<K, V>(m: OrderedMap<K, V>, k: K, v: V)
    requires Distinct(m)
    ensures Distinct(Set(m, k, v))
  {
    if m != [] && m[0].key != k {
      SetKeepsDistinct(m[1..], k, v);
      GetAfterSet(m[1..], k, v, m[0].key);
      assert Set(m, k, v)[1..] == Set(m[1..], k, v);
    }
  }

  lemma {:induction false} DeleteKeepsDistinct<K, V>(m: OrderedMap<K, V>, k: K)
    requires Distinct(m)
    ensures Distinct(Delete(m, k))
  {
    if m != [] && m[0].key != k {
      DeleteKeepsDistinct(m[1..], k);
      GetAfterDelete(m[1..], k, m[0].key);
      assert Delete(m, k)[1..] == Delete(m[1..], k);
    }
  }

  /** A key is present exactly when some entry carries it. */
  lemma {:induction false} HasIffEntry<K, V>(m: OrderedMap<K, V>, k: K)
    ensures Has(m, k) <==> exists i :: 0 <= i < |m| && m[i].key == k
  {
    if m != [] && m[0].key != k {
      HasIffEntry(m[1..], k);
      if i :| 0 <= i < |m[1..]| && m[1..][i].key == k {
        assert m[i + 1].key == k;
      }
      if i :| 0 <= i < |m| && m[i].key == k {
        assert m[1..][i - 1].key == k;
      }
    }
  }

  function Keys<K, V>(m: OrderedMap<K, V>): (keys: seq<K>)
    ensures |keys| == |m| && forall i :: 0 <= i < |m| ==> keys[i] == m[i].key
  {
    seq(|m|, i requires 0 <= i < |m| => m[i].key)
  }

  lemma KeysCons<K, V>(head: Entry<K, V>, tail: OrderedMap<K, V>)
    ensures Keys([head] + tail) == [head.key] + Keys(tail)
  {
  }

  /** Setting a present key keeps its place, and an absent one comes last. */
  lemma {:induction false} KeysAfterSet<K, V>(m: OrderedMap<K, V>, k: K, v: V)
    ensures Keys(Set(m, k, v)) == if Has(m, k) then Keys(m) else Keys(m) + [k]
  {
    if m == [] {
      KeysCons(Entry(k, v), []);
      assert Set(m, k, v) == [Entry(k, v)] + [];
    } else {
      var tail := m[1..];
      assert m == [m[0]] + tail;
      KeysCons(m[0], tail);
      if m[0].key == k {
        KeysCons(Entry(k, v), tail);
      } else {
        KeysAfterSet(tail, k, v);
        KeysCons(m[0], Set(tail, k, v));
      }
    }
  }

  /** Deleting a key keeps the others in order. */
  lemma {:induction false} DeleteKeepsOrder<K, V>(m: OrderedMap<K, V>, before: OrderedMap<K, V>, k: K, v: V)
    requires !Has(before, k)
    ensures Delete(before + [Entry(k, v)] + m, k) == before + m
  {
    var all := before + [Entry(k, v)] + m;
    if before == [] {
      assert all == [Entry(k, v)] + m && [] + m == m;
    } else {
      var rest := before[1..];
      assert all == [before[0]] + (rest + [Entry(k, v)] + m);
      DeleteKeepsOrder(m, rest, k, v);
    }
  }

  /** Setting an absent key appends it. */
  lemma {:induction false} SetAbsent<K, V>(m: OrderedMap<K, V>, k: K, v: V)
    requires !Has(m, k)
    ensures Set(m, k, v) == m + [Entry(k, v)]
  {
    if m != [] {
      SetAbsent(m[1..], k, v);
    }
  }

  /** Keys of a distinct map do not repeat. */
  lemma {:induction false} DistinctKeys<K, V>(m: OrderedMap<K, V>, i: nat, j: nat)
    requires Distinct(m) && i < j < |m|
    ensures m[i].key != m[j].key
  {
    if i == 0 {
      HasIffEntry(m[1..], m[0].key);
      assert m[1..][j - 1] == m[j];
    } else {
      DistinctKeys(m[1..], i - 1, j - 1);
    }
  }
}
