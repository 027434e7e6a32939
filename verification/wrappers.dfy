/** Failure-carrying datatypes shared by every module of the model.
    A Java method that can throw is modelled as a function returning a
    `Result`; the error names the Java exception class that would be thrown. */
module Wrappers {

  datatype Option<+T> = None | Some(value: T)

  /** The Java runtime exceptions the modelled code can raise. */
  datatype JavaError =
    | IllegalArgument
    | IndexOutOfBounds
    | ArrayIndexOutOfBounds
    | StringIndexOutOfBounds
    | NegativeArraySize
    | NullPointer

  datatype Result<+T> = Ok(value: T) | Err(error: JavaError) {

    predicate IsFailure() {
      Err?
    }

    function PropagateFailure<U>(): Result<U>
      requires Err?
    {
      Err(error)
    }

    function Extract(): T
      requires Ok?
    {
      value
    }
  }
}
