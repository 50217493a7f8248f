/** Error kinds raised by the linked list, and the wrappers that carry them
    in place of Python exceptions. */
module Results {

  /** The conditions under which the list raises. */
  datatype Error =
    | EmptyList          // ValueError: no values present in the list
    | NotFound           // ValueError: the value to remove is not present
    | IndexOutOfRange    // IndexError from subscripting the materialised list
    | InvalidIndexType   // TypeError: the index is of the wrong kind
    | ZeroSliceStep      // ValueError: a slice step of zero
    | NoneAccess         // AttributeError: the walk stepped past the last node

  /** A value or the absence marker that `get` returns. */
  datatype Option<T> = None | Some(value: T)

  /** A value, or the error raised instead of returning it. */
  datatype Result<T> = Ok(value: T) | Err(error: Error)

  /** Success of an operation with no return value, or the error raised. */
  datatype Outcome = Pass | Fail(error: Error)
}
