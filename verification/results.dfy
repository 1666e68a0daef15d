/** Error kinds raised by the ShareIt business layer, and the Result and
    Option wrappers every operation of the model returns.

    Each Err variant stands for one exception class of the server; the
    HTTP status it maps to is not part of this model. */
module Results {

  datatype Err =
    | UserNotFound
    | ItemNotFound
    | BookingNotFound
    | ItemRequestNotFound
    | Condition
    | Forbidden
    | DuplicateData
      /** A Java NullPointerException: a dereference of a missing record. */
    | NullDereference

  /** Nullable values of the source (patch fields, optional references). */
  datatype Option<+T> = None | Some(value: T)

  datatype Result<+T> = Ok(value: T) | Fail(error: Err) {

    predicate IsFailure() {
      Fail?
    }

    function PropagateFailure<U>(): Result<U>
      requires Fail?
    {
      Fail(error)
    }

    function Extract(): T
      requires Ok?
    {
      value
    }
  }

  /** Fails with `e` unless `condition` holds; used with `:-`. */
  datatype Check = Pass | Stop(error: Err) {

    predicate IsFailure() {
      Stop?
    }

    function PropagateFailure<U>(): Result<U>
      requires Stop?
    {
      Fail(error)
    }
  }

  function Need(condition: bool, e: Err): Check
  {
    if condition then Pass else Stop(e)
  }

  /** `Some(v)` becomes `Ok(v)`, a missing value becomes the error `e`
      (the source's `findById(..).orElseThrow(..)`). */
  function OrElse<T>(o: Option<T>, e: Err): (r: Result<T>)
    ensures o.Some? <==> r.Ok?
    ensures o.Some? ==> r.value == o.value
    ensures o.None? ==> r.error == e
  {
    match o
    case Some(v) => Ok(v)
    case None => Fail(e)
  }
}
