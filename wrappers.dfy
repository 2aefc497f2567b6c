/** Option and Result, and the Python exceptions that the converter raises. */
module Wrappers {

  datatype Option<+T> = None | Some(value: T)

  /** The exception kinds the converter can end a run with. */
  datatype Error =
    | ValueError(msg: string)          // unknown tag, inconsistent table grid
    | IndexError(msg: string)          // a row or column index outside a table grid
    | TypeError(msg: string)           // a missing node text concatenated to a string
    | KeyError(msg: string)            // a missing attribute such as `src`
    | AttributeError(msg: string)      // a method called on a missing node text
    | NameError(msg: string)           // a local variable used before assignment
    | NotImplementedError(msg: string) // unknown cell kind, output kind, cell child

  datatype Result<+T> = Ok(value: T) | Err(error: Error) {
    predicate IsFailure() { Err? }

    function PropagateFailure<U>(): Result<U>
      requires Err?
    {
      Err(error)
    }

    function Extract(): T
      requires Ok?
    {
      value
    }
  }
}
