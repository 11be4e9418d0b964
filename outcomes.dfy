/** Small value wrappers standing for .NET's null references and thrown exceptions. */
module Outcomes {

  /** A reference that may be null: `None` is null. */
  datatype Option<+T> = None | Some(value: T)

  /** The result of a call that either returns normally or throws
      `ArgumentNullException` naming the offending parameter. */
  datatype Throws<+T> = Returned(value: T) | ArgumentNullException(paramName: string)
}
