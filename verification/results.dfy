/** Outcomes of the modelled operations. The source signals failures by raising
    `HTTPException`s (and one no-op by returning `None`); the model returns one
    of these variants instead, carrying the `detail` text of the exception. */
module Results {

  datatype Option<+T> = None | Some(value: T)

  datatype Result<+T> =
    | Ok(value: T)
    | NoOp(message: string)       // benign "nothing changed" outcome
    | NotFound(message: string)   // a task (or user) id that is absent
    | Forbidden(message: string)  // HTTP 403: role not allowed
    | Invalid(message: string)    // HTTP 422: input that fails validation
    | Conflict(message: string)   // a database integrity error: 409 for a duplicate user, else a server error
  {
    predicate IsFailure() {
      !Ok?
    }

    /** The same failure, retyped: variant and message are kept. */
    function PropagateFailure<U>(): (r: Result<U>)
      requires !Ok?
      ensures !r.Ok?
      ensures r.NoOp? == NoOp? && r.NotFound? == NotFound? && r.Forbidden? == Forbidden?
      ensures r.Invalid? == Invalid? && r.Conflict? == Conflict?
      ensures r.Message() == Message()
    {
      match this
      case NoOp(m) => NoOp(m)
      case NotFound(m) => NotFound(m)
      case Forbidden(m) => Forbidden(m)
      case Invalid(m) => Invalid(m)
      case Conflict(m) => Conflict(m)
    }

    function Extract(): T
      requires Ok?
    {
      value
    }

    /** The explanatory text of any non-Ok outcome. */
    function Message(): string
      requires !Ok?
    {
      match this
      case NoOp(m) => m
      case NotFound(m) => m
      case Forbidden(m) => m
      case Invalid(m) => m
      case Conflict(m) => m
    }
  }
}
