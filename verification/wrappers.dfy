/** Python's optional values (`None` or a value) and its `x or default` idiom. */
module Wrappers {

  datatype Option<T> = None | Some(value: T)

  /** `x or fallback` for a value that is either `None` or present. */
  function OrElse<T>(o: Option<T>, fallback: T): (r: T)
    ensures o.None? ==> r == fallback
    ensures o.Some? ==> r == o.value
  {
    match o
    case Some(v) => v
    case None => fallback
  }

  /** `m.get(k)` on a dictionary: the value stored under `k`, or `None`. */
  function Get<K, V>(m: map<K, V>, k: K): (r: Option<V>)
    ensures r.Some? <==> k in m
    ensures r.Some? ==> r.value == m[k]
  {
    if k in m then Some(m[k]) else None
  }
}
