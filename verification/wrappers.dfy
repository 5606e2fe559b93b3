/** Values the page may read as `undefined`: a story lookup for a year without a story,
    and the mouse position before the mouse first moves. */
module Wrappers {

  /** Either nothing (`undefined` in the page) or a present value. */
  datatype Option<T> = None | Some(value: T) {

    /** The present value, falling back to `default` for nothing. */
    function GetOr(default: T): T {
      if Some? then value else default
    }
  }

  /** Looks `k` up in `m`; `None` plays the part of JavaScript's `undefined`. */
  function Lookup<K, V>(m: map<K, V>, k: K): (r: Option<V>)
    ensures r.Some? <==> k in m
    ensures r.Some? ==> r.value == m[k]
  {
    if k in m then Some(m[k]) else None
  }
}
