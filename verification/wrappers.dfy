/** Failure-carrying datatypes shared by every module of the model. */
module Wrappers {

  /** A value that may be absent: Java's null / Optional, Redis's nil. */
  datatype Option<+T> = None | Some(value: T) {
    function GetOr(default: T): T {
      match this
      case Some(v) => v
      case None => default
    }
  }

  /** Either a value or an error message: a Java method that returns or throws. */
  datatype Result<+T> = Ok(value: T) | Err(msg: string) {
    predicate IsFailure() { Err? }

    function PropagateFailure<U>(): Result<U>
      requires Err?
    {
      Err(msg)
    }

    function Extract(): T
      requires Ok?
    {
      value
    }
  }

  /** `findById` of a table whose row ids are positions: the stored row, or nothing for
      an unknown id. */
  function FindById<T>(t: seq<T>, id: nat): (r: Option<T>)
    ensures r.Some? <==> id < |t|
    ensures r.Some? ==> r.value == t[id]
  {
    if id < |t| then Some(t[id]) else None
  }
}
