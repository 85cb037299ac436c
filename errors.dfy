/** The exceptions the router code can raise, a result type carrying them, and
    an option type for values that may be absent (the cached session key, the
    position a search finds). */
module Errors {

  datatype Error =
    | InvalidLiteral(piece: string)   // int() refuses a piece of a time string (ValueError)
    | InvalidGateway                  // the Router constructor refuses its gateway (ValueError with a fixed message)
    | KeyError(key: string)           // a day token missing from the week-day table
    | IndexError                      // dhcp reads a cell past the end of the table
    | NoSessionKey                    // no 5-13 digit run on the key page (AttributeError on None)
    | NameError(name: string)         // a bare name that is not bound in the method's scope

  datatype Result<T> = Ok(value: T) | Err(error: Error)

  datatype Option<T> = None | Some(value: T)
}
