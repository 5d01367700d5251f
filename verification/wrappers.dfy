/** Failure-carrying result types shared by every module of the model.

    The modelled C# code reports errors by throwing .NET exceptions; each
    exception the modelled code can raise is one `Fault`, and an operation
    that may throw returns a `Result`. */
module Wrappers {

  datatype Option<+T> = None | Some(value: T) {
    function GetOr(default: T): T {
      match this
      case Some(v) => v
      case None => default
    }
  }

  /** The .NET exceptions raised by the modelled code. */
  datatype Fault =
    | OutOfRange      // ArgumentOutOfRangeException: List indexer, List.Insert or RemoveRange out of bounds
    | BadFormat       // FormatException: int.Parse on text that is not an integer
    | NoMatch         // InvalidOperationException: Enumerable.First found no element
    | NullArgument    // ArgumentNullException thrown explicitly
    | NullReference   // NullReferenceException: a member read through `null`
    | InvalidCast     // InvalidCastException: an operand cast to a type it does not have

  datatype Result<+T> = Ok(value: T) | Fail(fault: Fault) {
    predicate IsFailure() {
      Fail?
    }

    function PropagateFailure<U>(): Result<U>
      requires Fail?
    {
      Fail(fault)
    }

    function Extract(): T
      requires Ok?
    {
      value
    }
  }
}
