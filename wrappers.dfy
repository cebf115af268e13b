/** Failure-compatible result type standing for the exceptions thrown by the engine. */
module Wrappers {

  datatype Option<+T> = None | Some(value: T)

  /** Ok carries a value; Err carries what the source would have thrown. */
  datatype Result<+T, +E> = Ok(value: T) | Err(error: E) {

    predicate IsFailure() {
      Err?
    }

    function PropagateFailure<U>(): Result<U, E>
      requires Err?
    {
      Err(error)
    }

    function Extract(): T
      requires Ok?
    {
      value
    }
  }

  /**
   * `xs.map(f)` with a callback that may throw: the results in order, or the error of the
   * first element whose call fails.
   */
  function TryMap<A, B, E>(xs: seq<A>, f: A -> Result<B, E>): (r: Result<seq<B>, E>)
    ensures r.Ok? <==> forall k :: 0 <= k < |xs| ==> f(xs[k]).Ok?
    ensures r.Ok? ==> |r.value| == |xs| && forall k :: 0 <= k < |xs| ==> f(xs[k]) == Ok(r.value[k])
    ensures r.Err? ==>
      exists k :: 0 <= k < |xs| && f(xs[k]) == Err(r.error) && forall j :: 0 <= j < k ==> f(xs[j]).Ok?
  {
    if xs == [] then Ok([])
    else
      match f(xs[0])
      case Err(e) => Err(e)
      case Ok(first) =>
        var rest := TryMap(xs[1..], f);
        if rest.Err? then
          assert exists k :: (0 <= k < |xs| && f(xs[k]) == Err(rest.error)
                              && forall j :: 0 <= j < k ==> f(xs[j]).Ok?) by {
            var k :| 0 <= k < |xs| - 1 && f(xs[1..][k]) == Err(rest.error)
              && forall j :: 0 <= j < k ==> f(xs[1..][j]).Ok?;
            assert f(xs[k + 1]) == Err(rest.error);
            forall j | 0 <= j < k + 1 ensures f(xs[j]).Ok? {
              if j > 0 { assert xs[j] == xs[1..][j - 1]; }
            }
          }
          Err(rest.error)
        else
          Ok([first] + rest.value)
  }

  /** A map whose callback succeeds on every element yields the callback's values. */
  lemma TryMapAllOk<A, B, E>(xs: seq<A>, f: A -> Result<B, E>, ys: seq<B>)
    requires |xs| == |ys|
    requires forall k :: 0 <= k < |xs| ==> f(xs[k]) == Ok(ys[k])
    ensures TryMap(xs, f) == Ok(ys)
  {
    var r := TryMap(xs, f);
    assert r.Ok?;
    assert r.value == ys;
  }
}
