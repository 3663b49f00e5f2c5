/** Optional values. `None` stands for Python's `None`, and, where the
    source treats the two alike, for a floating-point NaN as well. */
module Wrappers {

  datatype Option<+T> = None | Some(value: T)

  /** `d.get(k)` on a Python dictionary: the value, or `None` for a missing key. */
  function Get<K, V>(m: map<K, Option<V>>, k: K): Option<V> {
    if k in m then m[k] else None
  }

  /** The outcome of an operation that can raise: its value, or the
      exception it raises, by its message: the `KeyError` naming a missing
      required column, or a `ValueError` ("Length mismatch", "No group keys
      passed!"). */
  datatype Result<+T> = Success(value: T) | Failure(error: string)
}
