/** Option, Result and Outcome values used for the error paths of the
    configuration core (Python raises; the model returns). */
module Wrappers {

  datatype Option<+T> = None | Some(value: T)

  datatype Result<+T, +E> = Ok(value: T) | Err(error: E)

  datatype Outcome<+E> = Pass | Fail(error: E)

  /** A list comprehension `[f(x) for x in xs]` whose `f` may raise: the
      elements are computed left to right and the first exception escapes. */
  function MapAll<A, B, E>(xs: seq<A>, f: A -> Result<B, E>): (r: Result<seq<B>, E>)
    ensures r.Ok? <==> forall i :: 0 <= i < |xs| ==> f(xs[i]).Ok?
    ensures r.Ok? ==> |r.value| == |xs| && forall i :: 0 <= i < |xs| ==> r.value[i] == f(xs[i]).value
    ensures r.Err? ==> exists i :: 0 <= i < |xs| && f(xs[i]) == Err(r.error) && forall j :: 0 <= j < i ==> f(xs[j]).Ok?
    decreases |xs|
  {
    if xs == [] then Ok([])
    else
      match f(xs[0])
      case Err(e) => Err(e)
      case Ok(y) =>
        match MapAll(xs[1..], f)
        case Err(e) =>
          assert forall i :: 1 <= i < |xs| ==> xs[i] == xs[1..][i - 1];
          Err(e)
        case Ok(ys) =>
          assert forall i :: 1 <= i < |xs| ==> xs[i] == xs[1..][i - 1];
          Ok([y] + ys)
  }

  /** Two comprehensions in a row, `[g(y) for y in [f(x) for x in xs]]`:
      both succeed exactly when `g(f(x))` succeeds for every `x`, and the
      results then come one per input, in order. */
  lemma MapAllThen<A, B, C, E>(xs: seq<A>, f: A -> Result<B, E>, g: B -> Result<C, E>)
    ensures (MapAll(xs, f).Ok? && MapAll(MapAll(xs, f).value, g).Ok?) <==>
            forall i :: 0 <= i < |xs| ==> f(xs[i]).Ok? && g(f(xs[i]).value).Ok?
    ensures MapAll(xs, f).Ok? && MapAll(MapAll(xs, f).value, g).Ok? ==>
            var zs := MapAll(MapAll(xs, f).value, g).value;
            |zs| == |xs| && forall i :: 0 <= i < |xs| ==> zs[i] == g(f(xs[i]).value).value
  {
    var ys := MapAll(xs, f);
    if ys.Ok? {
      assert forall i :: 0 <= i < |xs| ==> ys.value[i] == f(xs[i]).value;
    } else {
      var i :| 0 <= i < |xs| && f(xs[i]) == Err(ys.error);
      assert !f(xs[i]).Ok?;
    }
  }
}
