/** Failure-carrying result types shared by the modules. */
module Wrappers {

  datatype Option<+T> = None | Some(value: T)

  /** The outcome of a stage of the translation: a value, or the error code
      parse.php would exit with and the 0-based line it reports. */
  datatype Result<+T> = Ok(value: T) | Err(code: nat, line: int) {
    predicate IsFailure() {
      Err?
    }

    function PropagateFailure<U>(): Result<U>
      requires Err?
    {
      Err(code, line)
    }

    function Extract(): T
      requires Ok?
    {
      value
    }
  }
}
