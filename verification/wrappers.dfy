/** Optional values, used for Python's `None`, and dictionary lookup. */
module Wrappers {

  /** `None` stands for Python's `None` (or a missing dictionary key). */
  datatype Option<+T> = None | Some(value: T)

  /** Python's `dict.get(key)`: the value stored under `key`, or `None` when absent. */
  function Lookup<K, V>(m: map<K, V>, key: K): (r: Option<V>)
    ensures r.Some? <==> key in m
    ensures r.Some? ==> r.value == m[key]
  {
    if key in m then Some(m[key]) else None
  }
}
