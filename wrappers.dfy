/** Result and error values shared by the scientific-extension model. */
module Wrappers {

  datatype Option<+T> = None | Some(value: T)

  /** The two Python exceptions the extension can raise. */
  datatype Error =
    | KeyError(key: string)   // a stored publication mapping lacks "doi" or "citation"
    | ValueError              // list.remove found no equal entry

  datatype Result<+R> = Success(value: R) | Failure(error: Error)

  /** The outcome of a Python call that returns None or raises. */
  datatype Outcome = Pass | Fail(error: Error)
}
