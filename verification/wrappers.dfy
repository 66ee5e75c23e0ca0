/** Failure-carrying result types shared by every module of the model. */
module Wrappers {

  /** An optional value; `None` stands for the source's null pointer or `npos`. */
  datatype Option<+T> = None | Some(value: T) {
    function GetOr(default: T): T {
      match this
      case Some(v) => v
      case None => default
    }
  }

  /** A value or the message of the exception the source would throw. */
  datatype Result<+T> = Ok(value: T) | Err(message: string) {
    predicate IsFailure() {
      Err?
    }
  }
}
