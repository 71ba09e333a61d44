/**
 * Failure-compatible results shared by every module of the model, and the
 * closed set of ways the modelled Python code can fail.
 */
module Wrappers {
  import opened FieldNames

  datatype Option<+T> = None | Some(value: T)

  /** The exceptions the modelled code raises, one constructor per kind. */
  datatype Error =
    | StructError                    // struct.unpack / struct.pack refused the data
    | AssertionFailed                // an `assert` statement did not hold
    | ValueError(message: string)    // an explicit ValueError, or int() on a malformed string
    | NotImplemented                 // NotImplementedError('Version not implemented.')
    | AttributeError(name: Name)     // BaseStruct.__getattr__ on an undeclared name
    | KeyError                       // a declared field missing from the ordered dictionary
    | TypeError                      // an operation applied to a value of the wrong type
    | UnicodeDecodeError             // unicode() of a byte string that is not ASCII
    | SeekError                      // seek to a negative position
    | CopyOutOfRange                 // a QFS back-reference that starts before the output
    | RecursionError                 // unbounded recursion in __getattr__
    | StopIteration                  // next() on an exhausted iterator

  datatype Result<+T> = Ok(value: T) | Err(error: Error) {

    predicate IsFailure() {
      Err?
    }

    function PropagateFailure<U>(): Result<U>
      requires Err?
    {
      Err(error)
    }

    function Extract(): T
      requires Ok?
    {
      value
    }
  }

  /** A result that carries no value: the outcome of a state-changing pass. */
  datatype Outcome = Pass | Fail(error: Error) {

    predicate IsFailure() {
      Fail?
    }

    function PropagateFailure(): Outcome
      requires Fail?
    {
      this
    }
  }
}
