/** The optional value used for SQL NULL, Python None and a missing row. */
module Wrappers {

  datatype Option<+T> = None | Some(value: T)

  /** Looks a key up in a map the way a primary-key SELECT does: the row or nothing. */
  function Lookup<K, V>(m: map<K, V>, k: K): (r: Option<V>)
    ensures r.Some? <==> k in m
    ensures r.Some? ==> r.value == m[k]
  {
    if k in m then Some(m[k]) else None
  }
}
