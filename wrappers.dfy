/** Small result types shared by the model. */
module Wrappers {

  /** Python's `None` or a value. */
  datatype Option<+T> = None | Some(value: T)

  /** The outcome of a Python call: it returns a value, or it raises an
      exception whose `str()` is `error`. */
  datatype PyCall<+T> = Returned(value: T) | Raised(error: string)
}
