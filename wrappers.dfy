/** Option and Result, and the short-circuiting collection of a sequence of results
    (what `Iterator::collect::<Result<Vec<_>, _>>()` does in Rust). */
module Wrappers {

  datatype Option<+T> = None | Some(value: T)

  datatype Result<+R, +E> = Success(value: R) | Failure(error: E)

  /** Collects `rs` into one result: the values in order when every element succeeded,
      otherwise the error of the leftmost failing element. */
  function Collect<R, E>(rs: seq<Result<R, E>>): (r: Result<seq<R>, E>)
    ensures r.Success? <==> forall i :: 0 <= i < |rs| ==> rs[i].Success?
    ensures r.Success? ==> |r.value| == |rs| && forall i :: 0 <= i < |rs| ==> rs[i] == Success(r.value[i])
    ensures r.Failure? ==>
              exists i :: 0 <= i < |rs| && rs[i] == Failure(r.error) && forall j :: 0 <= j < i ==> rs[j].Success?
  {
    if |rs| == 0 then Success([])
    else
      match rs[0]
      case Failure(e) => Failure(e)
      case Success(v) =>
        var rest := Collect(rs[1..]);
        match rest
        case Failure(e) =>
          ghost var i :| 0 <= i < |rs[1..]| && rs[1..][i] == Failure(e) && forall j :: 0 <= j < i ==> rs[1..][j].Success?;
          assert rs[i + 1] == Failure(e);
          Failure(e)
        case Success(vs) => Success([v] + vs)
  }
}
