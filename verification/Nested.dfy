/** Two-level maps, as used for price buckets and per-sender nonce queues. */
module Nested {
  import opened Types

  type Table<A, B, V> = map<A, map<B, V>>

  function At<A, B, V>(m: Table<A, B, V>, a: A, b: B): Option<V> {
    if a in m && b in m[a] then Some(m[a][b]) else None
  }

  predicate NoEmpty<A, B, V>(m: Table<A, B, V>) {
    forall a :: a in m ==> |m[a]| > 0
  }

  /** Stores an entry, creating the inner map if needed. */
  function Put<A(!new), B(!new), V>(m: Table<A, B, V>, a: A, b: B, v: V): (r: Table<A, B, V>)
    ensures At(r, a, b) == Some(v)
    ensures forall x, y {:trigger At(r, x, y)} :: (x, y) != (a, b) ==> At(r, x, y) == At(m, x, y)
    ensures NoEmpty(m) ==> NoEmpty(r)
  {
    m[a := (if a in m then m[a] else map[])[b := v]]
  }

  /** Removes an entry, and its inner map with it when that becomes empty. */
  function Drop<A(!new), B(!new), V>(m: Table<A, B, V>, a: A, b: B): (r: Table<A, B, V>)
    ensures At(r, a, b) == None
    ensures forall x, y {:trigger At(r, x, y)} :: (x, y) != (a, b) ==> At(r, x, y) == At(m, x, y)
    ensures NoEmpty(m) ==> NoEmpty(r)
  {
    if a !in m then m
    else if m[a] - {b} == map[] then
      assert forall y :: y in m[a] && y != b ==> y in m[a] - {b};
      m - {a}
    else m[a := m[a] - {b}]
  }

  /** Removes an entry and keeps its inner map. */
  function Pull<A(!new), B(!new), V>(m: Table<A, B, V>, a: A, b: B): (r: Table<A, B, V>)
    ensures At(r, a, b) == None
    ensures forall x, y {:trigger At(r, x, y)} :: (x, y) != (a, b) ==> At(r, x, y) == At(m, x, y)
  {
    if a in m then m[a := m[a] - {b}] else m
  }
}
