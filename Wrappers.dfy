/** The optional-value type used for every operation whose source returns an
    `Option` or would stop with a panic. */
module Wrappers {
  datatype Option<+T> = None | Some(value: T)

  /** `collect::<Result<Vec<_>, _>>()`: every value, or None when any is
      missing. */
  function Collect<T>(xs: seq<Option<T>>): (r: Option<seq<T>>)
    ensures r.Some? <==> forall i :: 0 <= i < |xs| ==> xs[i].Some?
    ensures r.Some? ==> |r.value| == |xs| && forall i :: 0 <= i < |xs| ==> xs[i] == Some(r.value[i])
  {
    if xs == [] then Some([])
    else
      var rest := Collect(xs[1..]);
      assert forall i :: 1 <= i < |xs| ==> xs[i] == xs[1..][i - 1];
      if xs[0].None? || rest.None? then None
      else Some([xs[0].value] + rest.value)
  }
}
