/** Small datatypes shared by every module: optional values, results that
    carry a Python exception instead of a value, and Python's list indexing. */
module Wrappers {
  datatype Option<+T> = None | Some(value: T)
  datatype Result<+T, +E> = Ok(value: T) | Err(error: E)

  /** The Python exceptions the modelled code can raise. */
  datatype PyError = TypeError | IndexError | KeyError | AttributeError | Exception

  /** Python list indexing: i selects position i, a negative i counts from
      the end, and anything else raises IndexError. */
  function PyIndex(i: int, n: nat): (r: Option<nat>)
    ensures r.Some? ==> r.value < n && (r.value == i || r.value == i + n)
    ensures r.None? <==> i < -(n as int) || n <= i
    ensures 0 <= i < n ==> r == Some(i)
  {
    if 0 <= i < n then Some(i) else if -(n as int) <= i < 0 then Some((i + n) as nat) else None
  }
}
