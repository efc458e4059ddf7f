/**
 * The observable behaviour of the key/value table every registry is built on
 * (Table_put, Table_get, Table_remove). Keys are compared by value, so the
 * table is a finite map; hashing, buckets and resizing are not observable.
 */
module Table {
  import opened Wrappers

  /** Table_get: the stored value, or None (a null pointer) when the key is absent. */
  function Get<K(!new), V>(m: map<K, V>, k: K): (r: Option<V>)
    ensures r.Some? <==> k in m
    ensures r.Some? ==> r.value == m[k]
  {
    if k in m then Some(m[k]) else None
  }

  /** Table_put: inserts, or replaces the value stored under an equal key. */
  function Put<K(!new), V>(m: map<K, V>, k: K, v: V): (m': map<K, V>)
    ensures Get(m', k) == Some(v)
    ensures forall j :: j != k ==> Get(m', j) == Get(m, j)
    ensures m'.Keys == m.Keys + {k}
  {
    m[k := v]
  }

  /** Table_remove: drops the key if present; removing an absent key changes nothing. */
  function Remove<K(!new), V>(m: map<K, V>, k: K): (m': map<K, V>)
    ensures Get(m', k) == None
    ensures forall j :: j != k ==> Get(m', j) == Get(m, j)
    ensures m'.Keys == m.Keys - {k}
    ensures k !in m ==> m' == m
  {
    m - {k}
  }

  /** A second put under the same key overwrites the first. */
  lemma PutPut<K(!new), V>(m: map<K, V>, k: K, v1: V, v2: V)
    ensures Put(Put(m, k, v1), k, v2) == Put(m, k, v2)
  {
  }

  /** Puts under different keys commute. */
  lemma PutCommutes<K(!new), V>(m: map<K, V>, k1: K, k2: K, v1: V, v2: V)
    requires k1 != k2
    ensures Put(Put(m, k1, v1), k2, v2) == Put(Put(m, k2, v2), k1, v1)
  {
  }
}
