/** Failure-compatible result types used across the model in place of Python's
    `None` returns and raised exceptions. */
module Wrappers {

  /** A value that may be absent (Python `None`). */
  datatype Option<+T> = None | Some(value: T) {
    predicate IsFailure() {
      None?
    }

    function PropagateFailure<U>(): Option<U>
      requires None?
    {
      None
    }

    function Extract(): T
      requires Some?
    {
      value
    }

    /** Python's `dict.get(key, default)` once the lookup is done. */
    function GetOr(d: T): (r: T)
      ensures Some? ==> r == value
      ensures None? ==> r == d
    {
      match this
      case None => d
      case Some(v) => v
    }
  }

  /** Either a value or the error a Python call would have raised. */
  datatype Result<+R, +E> = Success(value: R) | Failure(error: E) {
    predicate IsFailure() {
      Failure?
    }

    function PropagateFailure<U>(): Result<U, E>
      requires Failure?
    {
      Failure(error)
    }

    function Extract(): R
      requires Success?
    {
      value
    }
  }

  /** Applies `p` to every element in order; `None` as soon as one gives
      `None`, as a loop that raises on the first failure does. */
  function AllSome<A, B>(xs: seq<A>, p: A -> Option<B>): Option<seq<B>>
    decreases |xs|
  {
    if xs == [] then Some([])
    else
      match p(xs[0])
      case None => None
      case Some(y) =>
        match AllSome(xs[1..], p)
        case None => None
        case Some(ys) => Some([y] + ys)
  }

  /** `AllSome` fails exactly when some element fails; otherwise it gives
      each element's value, in order. */
  lemma {:induction false} AllSomeSpec<A, B>(xs: seq<A>, p: A -> Option<B>)
    ensures var r := AllSome(xs, p);
      && (r.None? <==> exists i :: 0 <= i < |xs| && p(xs[i]).None?)
      && (r.Some? ==> |r.value| == |xs| && forall i :: 0 <= i < |xs| ==> p(xs[i]) == Some(r.value[i]))
    decreases |xs|
  {
    if xs != [] {
      var tail := xs[1..];
      AllSomeSpec(tail, p);
      assert forall i :: 1 <= i < |xs| ==> xs[i] == tail[i - 1];
      if p(xs[0]).Some? && AllSome(tail, p).None? {
        var i :| 0 <= i < |tail| && p(tail[i]).None?;
        assert p(xs[i + 1]).None?;
      }
    }
  }
}
