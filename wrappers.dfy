/** Small failure-compatible helpers shared by the other modules. */
module Wrappers {

  datatype Option<T> = None | Some(value: T)

  /** Concatenation of two optional texts: defined only when both are. */
  function Concat(a: Option<string>, b: Option<string>): (r: Option<string>)
    ensures r.Some? <==> a.Some? && b.Some?
    ensures r.Some? ==> r.value == a.value + b.value
  {
    if a.Some? && b.Some? then Some(a.value + b.value) else None
  }
}
