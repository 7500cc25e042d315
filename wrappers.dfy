/** Optional values and results, the model's stand-ins for Python's `None`
    and for a raised exception. */
module Wrappers {

  datatype Option<+T> = None | Some(value: T) {
    function GetOr(default: T): T {
      match this
      case Some(v) => v
      case None => default
    }
  }

  datatype Result<+T, +E> = Ok(value: T) | Err(error: E)

  /** Python truthiness of an optional integer id: `None` and `0` are false. */
  predicate Truthy(id: Option<int>) {
    id.Some? && id.value != 0
  }

  /** The position of the first element that fails `ok`, if any: a loop over
      a list that stops at the first element it rejects. */
  function FirstFailing<T>(xs: seq<T>, ok: T -> bool): (r: Option<nat>)
    ensures r.None? <==> forall i :: 0 <= i < |xs| ==> ok(xs[i])
    ensures r.Some? ==> r.value < |xs| && !ok(xs[r.value])
                        && forall j :: 0 <= j < r.value ==> ok(xs[j])
  {
    if xs == [] then None
    else if !ok(xs[0]) then Some(0)
    else
      match FirstFailing(xs[1..], ok)
      case None =>
        assert forall i :: 1 <= i < |xs| ==> xs[i] == xs[1..][i - 1];
        None
      case Some(i) =>
        assert forall j :: 1 <= j <= i ==> xs[j] == xs[1..][j - 1];
        Some(i + 1)
  }
}
