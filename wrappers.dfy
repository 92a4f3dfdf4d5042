/** Option stands for a pandas cell that may be NaN; Result for a step that either
    yields a value or raises (the script has no exception handler, so a raise ends the run). */
module Wrappers {

  datatype Option<+T> = None | Some(value: T)

  datatype Result<+T, +E> = Ok(value: T) | Err(error: E)

  /** Collects a sequence of per-row results: the values when every row succeeded,
      otherwise the error of the first row that failed. */
  function AllOk<T, E>(rs: seq<Result<T, E>>): (r: Result<seq<T>, E>)
    ensures r.Ok? ==> |r.value| == |rs| && forall i :: 0 <= i < |rs| ==> rs[i] == Ok(r.value[i])
    ensures r.Err? ==> exists i :: 0 <= i < |rs| && rs[i] == Err(r.error) && forall j :: 0 <= j < i ==> rs[j].Ok?
    ensures (forall i :: 0 <= i < |rs| ==> rs[i].Ok?) ==> r.Ok?
  {
    if rs == [] then Ok([])
    else match rs[0]
      case Err(e) => Err(e)
      case Ok(v) =>
        match AllOk(rs[1..])
        case Err(e) =>
          assert forall j :: 1 <= j < |rs| ==> rs[j] == rs[1..][j - 1];
          Err(e)
        case Ok(vs) => Ok([v] + vs)
  }
}
