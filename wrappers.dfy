/** Failure-carrying results for the Python exceptions the modelled code raises. */
module Wrappers {

  datatype Option<+T> = None | Some(value: T)

  /** The exception kinds the serializer, socket and configuration code raise. */
  datatype Error =
    | TypeError              // a value of the wrong Python type
    | ValueError             // a value of the right type but outside what is accepted
    | OverflowError          // an integer that does not fit the fixed width
    | UnicodeDecodeError     // bytes that are not (ASCII) text
    | IndexError             // indexing an empty sequence
    | TruncatedData          // a decoder needs more bytes than remain
    | UnknownDtype           // an array element-type descriptor nobody knows
    | UnregisteredType(typeName: string)
    | UnknownTag(tag: string)
    | KeyError(key: string)
    | ConnectionClosed       // a receive returned no bytes before the count was reached
    | AttributeError         // reading an attribute that was never set

  datatype Result<+T> = Ok(value: T) | Err(error: Error) {
    predicate IsFailure() { Err? }

    function PropagateFailure<U>(): Result<U>
      requires Err?
    {
      Err(error)
    }

    function Extract(): T
      requires Ok?
    {
      value
    }
  }

  datatype Outcome = Pass | Fail(error: Error)
}
