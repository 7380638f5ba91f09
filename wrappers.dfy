/**
 * Failure-carrying result types shared by the whole model.
 *
 * Python code in the modelled repository signals failure by raising; the model
 * returns `Err(e)` instead, where `e` names the exception class that the source
 * raises (or that the interpreter raises on its behalf, such as an IndexError
 * from indexing past the end of a list).
 */
module Wrappers {

  datatype Option<+T> = None | Some(value: T)

  /** The exception classes that the modelled code can raise. */
  datatype Exc =
    | ValueError(message: string)
    | TypeError
    | KeyError(key: string)
    | IndexError
    | AttributeError
    | UnboundLocalError
    | DoesNotExist
    | MultipleObjectsReturned
    | ValidationError(message: string)

  datatype Result<+T> = Ok(value: T) | Err(error: Exc)
}
