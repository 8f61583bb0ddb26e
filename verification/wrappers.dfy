/** Option and Result types used by the synonym table.  The only failure the
    table ever raises is a missing dictionary key, so `Result` carries the key
    that could not be found.
 */
module Wrappers {

  datatype Option<+T> = None | Some(value: T)

  /** A dictionary lookup that failed on `key`. */
  datatype Error = KeyError(key: string)

  datatype Result<+T> = Ok(value: T) | Err(error: Error) {

    function ToOption(): Option<T>
    {
      match this
      case Ok(v) => Some(v)
      case Err(_) => None
    }
  }

  /** `m.get(a, {}).get(b)`: a lookup in a two-level dictionary. */
  function Get2<K, L, V>(m: map<K, map<L, V>>, a: K, b: L): Option<V>
  {
    if a in m && b in m[a] then Some(m[a][b]) else None
  }
}
