/** Option and outcome values shared by the modules of the model. */
module Wrappers {

  /** An argument that a JavaScript caller may leave out (`undefined`). */
  datatype Option<T> = None | Some(value: T)

  /** The kinds of exception the modelled code can raise. */
  datatype JsError =
    | TypeError   // a property read on `undefined`
    | RangeError  // a Buffer read outside the buffer

  /** The result of a call that either returns a value or throws. */
  datatype Outcome<T> = Ok(value: T) | Throws(error: JsError)

  function Min(a: int, b: int): int { if a <= b then a else b }

  function Max(a: int, b: int): int { if a <= b then b else a }
}
