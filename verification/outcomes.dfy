/** Optional values and the outcome of a computation that may raise one of the
    runtime exceptions the decoder can hit. An exception is never caught by the
    decoder: it ends the whole run, so a `Crash` propagates to the top. */
module Outcomes {

  datatype Option<+T> = None | Some(value: T)

  /** The two exceptions the decoding loop can raise when it reads a
      catalogued field's bytes: the field's initial value is null, or the
      index taken from the preceding constant lies outside the buffer. */
  datatype Exception = NullReference | IndexOutOfRange

  datatype Result<+T> = Ok(value: T) | Crash(exn: Exception)
}
