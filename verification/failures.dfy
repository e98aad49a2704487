/** The exceptions the container throws, and the shapes of results that carry them. */
module Failures {

  /** `std::length_error`, `std::bad_alloc` and `std::out_of_range`. */
  datatype Error = LengthError | BadAlloc | OutOfRange

  /** The value of an operation that either returns or throws. */
  datatype Result<+R> = Ok(value: R) | Err(error: Error)

  /** The outcome of an operation that returns nothing or throws. */
  datatype Outcome = Pass | Fail(error: Error)

  datatype Option<+R> = None | Some(value: R)

  function OutcomeOf<R>(r: Result<R>): (o: Outcome)
    ensures o.Pass? <==> r.Ok?
    ensures o.Fail? ==> o.error == r.error
  {
    match r
    case Ok(_) => Pass
    case Err(e) => Fail(e)
  }
}
