/**
  Optional values, results and the Java exceptions the modelled code can throw.

  A Java method that may return null is modelled with `Option`; one that may
  throw is modelled with `Result`, whose `Err` case names the exception.
 */
module Wrappers {

  datatype Option<+T> = None | Some(value: T) {
    function GetOr(default: T): T {
      match this
      case Some(v) => v
      case None => default
    }
  }

  /** The unchecked and checked exceptions raised by the modelled code. */
  datatype Exception =
    | IllegalArgumentException
    | StringIndexOutOfBoundsException
    | NullPointerException
    | IllegalStateException
    | NoSuchElementException
    | IllegalResourceFormatException
    | BuildException

  datatype Result<+T> = Ok(value: T) | Err(thrown: Exception) {
    predicate IsFailure() {
      Err?
    }

    function PropagateFailure<U>(): Result<U>
      requires Err?
    {
      Err(thrown)
    }

    function Extract(): T
      requires Ok?
    {
      value
    }
  }
}
