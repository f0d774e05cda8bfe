/** Failure values for every exception the modelled code raises, and the
    Option/Result wrappers that carry them in place of Python exceptions.
    `Result` is failure-compatible, so `:-` propagates the first failure
    exactly as an uncaught exception aborts the Python call chain. */
module Errors {

  datatype Error =
    | KeyAlreadySet(current: string)          // AttributeError from the key setter
    | UnknownLanguage(language: string)       // MstException from add/get on an undeclared language
    | MissingEntry                            // KeyError from a plain dict lookup
    | InvalidQuantity(quantity: string)       // ValueError from quantity validation
    | KeyMismatch(mine: string, theirs: string)
    | LanguageConflict(common: set<string>)
    | BrokenMerge                             // AttributeError in the plural merge loop
    | EmptyTable                              // IndexError: the table has no header row
    | MalformedHeader(column: string)         // a required column is absent from the header
    | CellMissing                             // IndexError: a row is shorter than a resolved column
    | MalformedKey(cell: string)              // ValueError: `split(':')` did not yield two parts
    | InvalidIndex(text: string)              // ValueError from int()
    | NotImplemented(generator: string)       // NotImplementedError from the factory
    | UnknownGenerator(generator: string)     // RuntimeError from the factory

  datatype Option<+T> = None | Some(value: T)

  datatype Result<+T> = Success(value: T) | Failure(error: Error) {

    predicate IsFailure() {
      Failure?
    }

    function PropagateFailure<U>(): Result<U>
      requires Failure?
    {
      Failure(error)
    }

    function Extract(): T
      requires Success?
    {
      value
    }
  }
}
