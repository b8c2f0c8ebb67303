/** Shared vocabulary: optional values, maps read and written at one key, sequences regrouped. */
module Prelude {

  datatype Option<+T> = None | Some(value: T)

  datatype Result<+T, +E> = Ok(value: T) | Err(error: E)

  /** The entry a table holds for a key, if any. */
  function Get<K, V>(m: map<K, V>, k: K): Option<V> {
    if k in m then Some(m[k]) else None
  }

  /** The table with one key's entry stored or, for `None`, absent. */
  function Put<K, V>(m: map<K, V>, k: K, entry: Option<V>): map<K, V> {
    match entry
    case Some(v) => m[k := v]
    case None => m - {k}
  }

  lemma Associative<T>(a: seq<T>, b: seq<T>, c: seq<T>)
    ensures (a + b) + c == a + (b + c)
  {
  }
}
