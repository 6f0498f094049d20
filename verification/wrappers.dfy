/** Failure-carrying result types shared by the whole model. */
module Wrappers {

  /** An optional value; `None` stands for an empty `java.util.Optional`. */
  datatype Option<+T> = None | Some(value: T)

  /** A value or the exception that the Java code would throw instead. */
  datatype Result<+T, +E> = Success(value: T) | Failure(error: E)

  /**
   * A stream of results collected into a list: the first failure in
   * encounter order is the exception that escapes the pipeline.
   */
  function CollectAll<T, E>(rs: seq<Result<T, E>>): (r: Result<seq<T>, E>)
    ensures r.Success? <==> forall i | 0 <= i < |rs| :: rs[i].Success?
    ensures r.Success? ==> |r.value| == |rs| && forall i | 0 <= i < |rs| :: r.value[i] == rs[i].value
    ensures r.Failure? ==> exists i | 0 <= i < |rs| :: rs[i].Failure? && rs[i].error == r.error && forall j | 0 <= j < i :: rs[j].Success?
  {
    if |rs| == 0 then Success([])
    else
      match rs[0]
      case Failure(e) => Failure(e)
      case Success(v) =>
        match CollectAll(rs[1..])
        case Failure(e) =>
          assert forall j | 1 <= j < |rs| :: rs[j] == rs[1..][j - 1];
          Failure(e)
        case Success(vs) => Success([v] + vs)
  }
}
