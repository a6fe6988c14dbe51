/** Failure-compatible wrappers shared by the whole model, and the exceptions
    the segmentation code can raise. */
module Wrappers {

  /** An optional value: `None` stands for Python's `None` or an absent dict entry. */
  datatype Option<+T> = None | Some(value: T)

  /** The exceptions that can escape the segmentation code. Each one reaches the
      caller only through its message (see `Message`). */
  datatype Failure =
    | MissingKey(key: string)        // KeyError on a dict lookup
    | EmptyMax                       // ValueError: max() of an empty list
    | NotInList                      // ValueError: list.remove of an absent value
    | NotSubscriptable               // TypeError: indexing None
    | InvalidLiteral(text: string)   // ValueError: int() of a non-numeric string
    | Undecodable(message: string)   // any JSON decoding error, with the decoder's message

  /** The text `str(e)` gives for each exception. */
  function Message(f: Failure): string {
    match f
    case MissingKey(k) => "'" + k + "'"
    case EmptyMax => "max() arg is an empty sequence"
    case NotInList => "list.remove(x): x not in list"
    case NotSubscriptable => "'NoneType' object is not subscriptable"
    case InvalidLiteral(t) => "invalid literal for int() with base 10: '" + t + "'"
    case Undecodable(m) => m
  }

  /** Either a value or the exception that interrupted the computation. */
  datatype Result<+T> = Ok(value: T) | Err(error: Failure) {

    predicate IsFailure() {
      Err?
    }

    function PropagateFailure<U>(): Result<U>
      requires Err?
    {
      Err(error)
    }

    function Extract(): T
      requires Ok?
    {
      value
    }
  }
}
